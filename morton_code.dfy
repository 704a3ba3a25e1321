/**
 * Morton keys: `shiftBits`, `bitInterleave21` and `computeMortonCode`
 * (from the integer cell onward), on 64-bit unsigned words.
 *
 * The interleave spreads the low 21 bits of a word so that bit i lands at
 * bit 3i; the key of a cell (x,y,z) is interleave(x) | interleave(y) << 1 |
 * interleave(z) << 2. `Compact21` is the inverse of the interleave and
 * `DecodeMortonCode` recovers a cell from its key.
 */
module MortonCode {
  import Vec

  type uint64 = bv64

  /** Bit `j` of `x`. */
  predicate Bit(x: uint64, j: uint64)
    requires j < 64
  {
    (x >> j) & 1 == 1
  }

  /**
   * `shiftBits(x, m, s)`: the bits of `x` selected by `m` move left by `s`,
   * every other bit stays where it is.
   */
  function ShiftBits(x: uint64, mask: uint64, s: uint64): uint64
    requires s < 64
  {
    ((x & mask) << s) | (x & !mask)
  }

  /**
   * What `shiftBits` does to a word whose destination bits are clear (as
   * at every stage of the interleave): at the positions `mask << s` the
   * result holds the selected bits of `x` moved left by `s`; everywhere
   * else it holds `x` with the selected bits cleared.
   */
  predicate MovesSelected(x: uint64, mask: uint64, s: uint64, r: uint64)
    requires s < 64
  {
    r & (mask << s) == (x & mask) << s && r & !(mask << s) == x & !mask
  }

  /** The selected bits do not overlap their destinations, and those are clear in `x`. */
  predicate RoomToMove(x: uint64, mask: uint64, s: uint64)
    requires s < 64
  {
    mask & (mask << s) == 0 && x & (mask << s) == 0
  }

  lemma ShiftBits2(x: uint64, mask: uint64)
    requires RoomToMove(x, mask, 2)
    ensures MovesSelected(x, mask, 2, ShiftBits(x, mask, 2))
  {}

  lemma ShiftBits4(x: uint64, mask: uint64)
    requires RoomToMove(x, mask, 4)
    ensures MovesSelected(x, mask, 4, ShiftBits(x, mask, 4))
  {}

  lemma ShiftBits8(x: uint64, mask: uint64)
    requires RoomToMove(x, mask, 8)
    ensures MovesSelected(x, mask, 8, ShiftBits(x, mask, 8))
  {}

  lemma ShiftBits16(x: uint64, mask: uint64)
    requires RoomToMove(x, mask, 16)
    ensures MovesSelected(x, mask, 16, ShiftBits(x, mask, 16))
  {}

  lemma ShiftBits32(x: uint64, mask: uint64)
    requires RoomToMove(x, mask, 32)
    ensures MovesSelected(x, mask, 32, ShiftBits(x, mask, 32))
  {}

  /** For each shift distance the interleave uses, `shiftBits` moves exactly the selected bits. */
  lemma ShiftBitsMoves(x: uint64, mask: uint64, s: uint64)
    requires s == 2 || s == 4 || s == 8 || s == 16 || s == 32
    requires RoomToMove(x, mask, s)
    ensures MovesSelected(x, mask, s, ShiftBits(x, mask, s))
  {
    if s == 2 { ShiftBits2(x, mask); }
    else if s == 4 { ShiftBits4(x, mask); }
    else if s == 8 { ShiftBits8(x, mask); }
    else if s == 16 { ShiftBits16(x, mask); }
    else { ShiftBits32(x, mask); }
  }

  /** The five stage masks; the last one is the one the layout diagram derives (see `BitInterleave21AsWritten`). */
  const Stage32: uint64 := 0x0000_0000_001f_0000
  const Stage16: uint64 := 0x0000_0000_0000_ff00
  const Stage8: uint64 := 0x00f0_0000_f000_00f0
  const Stage4: uint64 := 0x000c_00c0_0c00_c00c
  const Stage2: uint64 := 0x0082_0820_8208_2082

  /** The last-stage mask as it stands in the source: it has 0x04 in the two places where `Stage2` has 0x08. */
  const Stage2AsWritten: uint64 := 0x0082_0420_8204_2082

  /** The positions 3i for i < 21: every third bit, starting at bit 0. */
  const SpreadMask: uint64 := 0x1249_2492_4924_9249

  const Cell21: uint64 := 1 << 21

  /** `bitInterleave21` with the stage masks derived in the layout diagram. */
  function BitInterleave21(x: uint64): uint64
  {
    var x1 := ShiftBits(x, Stage32, 32);
    var x2 := ShiftBits(x1, Stage16, 16);
    var x3 := ShiftBits(x2, Stage8, 8);
    var x4 := ShiftBits(x3, Stage4, 4);
    ShiftBits(x4, Stage2, 2)
  }

  /** Bit i of a 21-bit input lands at bit 3i. */
  lemma InterleavePlacesBits(x: uint64, i: uint64)
    requires x < Cell21 && i < 21
    ensures Bit(BitInterleave21(x), 3 * i) == Bit(x, i)
  {}

  /** Every bit of the interleaved word is at a position 3i, so it is below 2^61. */
  lemma InterleaveSparse(x: uint64)
    requires x < Cell21
    ensures BitInterleave21(x) & SpreadMask == BitInterleave21(x)
    ensures BitInterleave21(x) < 1 << 61
  {}

  /** Undo one stage: the bits at `moved` go back right by `s`. */
  function UnshiftBits(x: uint64, moved: uint64, s: uint64): uint64
    requires s < 64
  {
    ((x & moved) >> s) | (x & !moved)
  }

  /** The inverse of the interleave: gathers bits 3i back to bit i. */
  function Compact21(k: uint64): uint64
  {
    var y0 := k & SpreadMask;
    var y1 := UnshiftBits(y0, Stage2 << 2, 2);
    var y2 := UnshiftBits(y1, Stage4 << 4, 4);
    var y3 := UnshiftBits(y2, Stage8 << 8, 8);
    var y4 := UnshiftBits(y3, Stage16 << 16, 16);
    UnshiftBits(y4, Stage32 << 32, 32)
  }

  lemma CompactInterleave(x: uint64)
    requires x < Cell21
    ensures Compact21(BitInterleave21(x)) == x
  {}

  lemma InterleaveCompact(k: uint64)
    ensures Compact21(k) < Cell21
    ensures BitInterleave21(Compact21(k)) == k & SpreadMask
  {}

  /** Interleaved words of different inputs below 2^21 differ. */
  lemma InterleaveInjective(x: uint64, y: uint64)
    requires x < Cell21 && y < Cell21 && BitInterleave21(x) == BitInterleave21(y)
    ensures x == y
  {
    CompactInterleave(x);
    CompactInterleave(y);
  }

  // ---------------------------------------------------------------------
  // From integer cells to 64-bit words
  // ---------------------------------------------------------------------

  /** 2^64: here words are `bv64`, and this bounds their unsigned values (the split search, on `int` keys, has its own). */
  const TwoTo64: int := 0x1_0000_0000_0000_0000

  lemma DoubleBits(h: uint64)
    requires h < 0x8000_0000_0000_0000
    ensures ((h << 1) | 1) as int == 2 * (h as int) + 1
    ensures (h << 1) as int == 2 * (h as int)
  {}

  /** The 64-bit word whose unsigned value is `v`, built from its binary digits. */
  function Word(v: nat): (u: uint64)
    requires v < TwoTo64
    ensures u as int == v
  {
    if v == 0 then 0
    else
      var h := Word(v / 2);
      DoubleBits(h);
      if v % 2 == 1 then (h << 1) | 1 else h << 1
  }

  /** Conversion of an `int` to `uint64_t`: modulo 2^64, so a negative value wraps around. */
  function ToUint64(c: int): uint64
    requires Vec.IsInt32(c)
  {
    if c < 0 then Word(c + TwoTo64) else Word(c)
  }

  lemma ToUint64Value(c: int)
    requires Vec.IsInt32(c)
    ensures 0 <= c ==> ToUint64(c) as int == c
    ensures c < 0 ==> ToUint64(c) as int == c + TwoTo64
  {
  }

  lemma SmallWord(u: uint64)
    requires u as int < 0x20_0000
    ensures u < Cell21
  {}

  // ---------------------------------------------------------------------
  // computeMortonCode from an integer cell
  // ---------------------------------------------------------------------

  const MaxCell: int := 0x1f_ffff

  predicate IsCell(cell: seq<int>) { |cell| == 3 && Vec.AllInt32(cell) }

  /** The cell clamped from above to 2^21 - 1 with the element-wise `min`; there is no lower clamp. */
  function ClampCell(cell: seq<int>): (c: seq<int>)
    requires IsCell(cell)
    ensures IsCell(c)
    ensures forall i :: 0 <= i < 3 ==> c[i] == (if cell[i] < MaxCell then cell[i] else MaxCell)
  {
    Vec.MinMaxBounds(cell, Vec.Make(3, MaxCell));
    Vec.Elementwise(Vec.Min, cell, Vec.Make(3, MaxCell))
  }

  /** The three axis words of a cell: clamped from above, then converted to `uint64_t`. */
  function AxisWords(cell: seq<int>): (w: seq<uint64>)
    requires IsCell(cell)
    ensures |w| == 3
  {
    var c := ClampCell(cell);
    [ToUint64(c[0]), ToUint64(c[1]), ToUint64(c[2])]
  }

  function Combine(ix: uint64, iy: uint64, iz: uint64): uint64
  {
    (iz << 2) | (iy << 1) | (ix << 0)
  }

  /** The key of three axis words: their interleaved codes, shifted by 0, 1 and 2 and or-ed. */
  function InterleaveWords(w: seq<uint64>): uint64
    requires |w| == 3
  {
    Combine(BitInterleave21(w[0]), BitInterleave21(w[1]), BitInterleave21(w[2]))
  }

  /** `computeMortonCode` from the integer cell onward. */
  function ComputeMortonCode(cell: seq<int>): uint64
    requires IsCell(cell)
  {
    InterleaveWords(AxisWords(cell))
  }

  /** The three axis words a key encodes: every third bit, starting at bits 0, 1 and 2. */
  function DecodeMortonCode(key: uint64): (words: seq<uint64>)
    ensures |words| == 3
    ensures forall i :: 0 <= i < 3 ==> words[i] < Cell21
  {
    InterleaveCompact(key);
    InterleaveCompact(key >> 1);
    InterleaveCompact(key >> 2);
    [Compact21(key), Compact21(key >> 1), Compact21(key >> 2)]
  }

  /** The three axis codes occupy the bits 3i, 3i+1 and 3i+2 respectively, and the key is below 2^63. */
  lemma CombineAxes(ix: uint64, iy: uint64, iz: uint64, key: uint64, k1: uint64, k2: uint64)
    requires ix & SpreadMask == ix && iy & SpreadMask == iy && iz & SpreadMask == iz
    requires key == Combine(ix, iy, iz) && k1 == key >> 1 && k2 == key >> 2
    ensures key & SpreadMask == ix && k1 & SpreadMask == iy && k2 & SpreadMask == iz
    ensures key < 1 << 63
  {}

  lemma CompactMasked(k: uint64)
    ensures Compact21(k) == Compact21(k & SpreadMask)
  {}

  /** Gathering the bits of one axis code back from a combined key. */
  lemma AxisOfKey(k: uint64, i: uint64, w: uint64)
    requires k & SpreadMask == i && Compact21(i) == w
    ensures Compact21(k) == w
  {
    CompactMasked(k);
  }

  /** The two facts about one axis word that the round trip needs. */
  lemma AxisWord(w: uint64, i: uint64)
    requires w < Cell21 && i == BitInterleave21(w)
    ensures i & SpreadMask == i && Compact21(i) == w
  {
    InterleaveSparse(w);
    CompactInterleave(w);
  }

  /**
   * The axis codes come back out of the key: the key itself and the key
   * shifted right by 1 and 2 (named `k1` and `k2`) gather to the three words.
   */
  lemma KeyParts(ix: uint64, iy: uint64, iz: uint64, wx: uint64, wy: uint64, wz: uint64, key: uint64, k1: uint64, k2: uint64)
    requires ix & SpreadMask == ix && iy & SpreadMask == iy && iz & SpreadMask == iz
    requires Compact21(ix) == wx && Compact21(iy) == wy && Compact21(iz) == wz
    requires key == Combine(ix, iy, iz) && k1 == key >> 1 && k2 == key >> 2
    ensures key < 1 << 63
    ensures Compact21(key) == wx && Compact21(k1) == wy && Compact21(k2) == wz
  {
    CombineAxes(ix, iy, iz, key, k1, k2);
    AxisOfKey(key, ix, wx);
    AxisOfKey(k1, iy, wy);
    AxisOfKey(k2, iz, wz);
  }

  /** The key of three axis words below 2^21 is below 2^63 and de-interleaves back to them. */
  lemma WordsRoundTrip(wx: uint64, wy: uint64, wz: uint64, ix: uint64, iy: uint64, iz: uint64, key: uint64)
    requires wx < Cell21 && wy < Cell21 && wz < Cell21
    requires ix == BitInterleave21(wx) && iy == BitInterleave21(wy) && iz == BitInterleave21(wz)
    requires key == Combine(ix, iy, iz)
    ensures key < 1 << 63
    ensures DecodeMortonCode(key) == [wx, wy, wz]
  {
    AxisWord(wx, ix);
    AxisWord(wy, iy);
    AxisWord(wz, iz);
    var k1, k2 := key >> 1, key >> 2;
    KeyParts(ix, iy, iz, wx, wy, wz, key, k1, k2);
    DecodeOf(key, k1, k2, [wx, wy, wz]);
  }

  lemma DecodeOf(key: uint64, k1: uint64, k2: uint64, w: seq<uint64>)
    requires k1 == key >> 1 && k2 == key >> 2
    requires |w| == 3 && Compact21(key) == w[0] && Compact21(k1) == w[1] && Compact21(k2) == w[2]
    ensures DecodeMortonCode(key) == w
  {}

  /** A coordinate inside the grid converts to a word below 2^21 with the same value. */
  lemma CoordinateWord(c: int)
    requires 0 <= c <= MaxCell
    ensures ToUint64(c) < Cell21 && ToUint64(c) as int == c
  {
    ToUint64Value(c);
    SmallWord(ToUint64(c));
  }

  /** Inside the grid the clamp does nothing. */
  lemma AxisWordsInGrid(cell: seq<int>)
    requires IsCell(cell)
    requires forall i :: 0 <= i < 3 ==> 0 <= cell[i] <= MaxCell
    ensures AxisWords(cell) == [ToUint64(cell[0]), ToUint64(cell[1]), ToUint64(cell[2])]
  {
    assert ClampCell(cell) == cell;
  }

  /**
   * The key of a cell with coordinates in [0, 2^21) is below 2^63 and decodes
   * back to the cell's axis words.
   */
  lemma MortonRoundTrip(cell: seq<int>)
    requires IsCell(cell)
    requires forall i :: 0 <= i < 3 ==> 0 <= cell[i] <= MaxCell
    ensures ComputeMortonCode(cell) < 1 << 63
    ensures DecodeMortonCode(ComputeMortonCode(cell)) == AxisWords(cell)
    ensures forall i :: 0 <= i < 3 ==> DecodeMortonCode(ComputeMortonCode(cell))[i] as int == cell[i]
  {
    var w := AxisWords(cell);
    GridWords(cell, w);
    var ix, iy, iz := BitInterleave21(w[0]), BitInterleave21(w[1]), BitInterleave21(w[2]);
    var key := ComputeMortonCode(cell);
    assert key == Combine(ix, iy, iz);
    WordsRoundTrip(w[0], w[1], w[2], ix, iy, iz, key);
    assert w == [w[0], w[1], w[2]];
  }

  /** The axis words of a cell inside the grid are its coordinates. */
  lemma GridWords(cell: seq<int>, w: seq<uint64>)
    requires IsCell(cell)
    requires forall i :: 0 <= i < 3 ==> 0 <= cell[i] <= MaxCell
    requires w == AxisWords(cell)
    ensures |w| == 3
    ensures forall i :: 0 <= i < 3 ==> w[i] < Cell21 && w[i] as int == cell[i]
  {
    AxisWordsInGrid(cell);
    GridWord(cell[0], w[0]);
    GridWord(cell[1], w[1]);
    GridWord(cell[2], w[2]);
  }

  lemma GridWord(c: int, u: uint64)
    requires 0 <= c <= MaxCell && u == ToUint64(c)
    ensures u < Cell21 && u as int == c
  {
    CoordinateWord(c);
  }

  /** Clamping comes first in `computeMortonCode`, so clamping a cell beforehand does not change its key. */
  lemma ClampedKey(cell: seq<int>)
    requires IsCell(cell)
    ensures ComputeMortonCode(ClampCell(cell)) == ComputeMortonCode(cell)
  {
    assert ClampCell(ClampCell(cell)) == ClampCell(cell);
  }

  lemma MortonInjective(a: seq<int>, b: seq<int>)
    requires IsCell(a) && IsCell(b)
    requires forall i :: 0 <= i < 3 ==> 0 <= a[i] <= MaxCell && 0 <= b[i] <= MaxCell
    requires ComputeMortonCode(a) == ComputeMortonCode(b)
    ensures a == b
  {
    MortonRoundTrip(a);
    MortonRoundTrip(b);
  }

  // ---------------------------------------------------------------------
  // The interleave as written in the source
  // ---------------------------------------------------------------------

  /** `bitInterleave21` with the last-stage mask as it stands in the source. */
  function BitInterleave21AsWritten(x: uint64): uint64
  {
    var x1 := ShiftBits(x, Stage32, 32);
    var x2 := ShiftBits(x1, Stage16, 16);
    var x3 := ShiftBits(x2, Stage8, 8);
    var x4 := ShiftBits(x3, Stage4, 4);
    ShiftBits(x4, Stage2AsWritten, 2)
  }

  function ComputeMortonCodeAsWritten(cell: seq<int>): uint64
    requires IsCell(cell)
  {
    var w := AxisWords(cell);
    Combine(BitInterleave21AsWritten(w[0]), BitInterleave21AsWritten(w[1]), BitInterleave21AsWritten(w[2]))
  }

  /**
   * With the source's last-stage mask, bit 6 of the input lands at bit 20
   * (not 18), and bit 7 at bit 19 (not 21), so two different cells inside
   * the grid share a key.
   */
  lemma AsWrittenCollision()
    ensures BitInterleave21AsWritten(1 << 6) == 1 << 20
    ensures BitInterleave21AsWritten(1 << 7) == 1 << 19
    ensures ComputeMortonCodeAsWritten([64, 0, 0]) == ComputeMortonCodeAsWritten([0, 128, 0])
  {
    assert AxisWords([64, 0, 0]) == [64, 0, 0];
    assert AxisWords([0, 128, 0]) == [0, 128, 0];
  }
}
