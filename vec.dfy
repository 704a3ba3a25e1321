/**
 * The integer instances of cuBQL's small fixed-dimension vector algebra
 * (`vec_t<int32_t,D>`): element-wise arithmetic in its vec/vec, scalar/vec
 * and vec/scalar forms, element-wise `min`/`max`, `make`, `dot` with its
 * 64-bit accumulator, and `sqrDistance`.
 *
 * A vector is a `seq<int>` whose length is the dimension D. Components are
 * unbounded integers; the places where the 32-bit width of the source matters
 * (the products inside `dot`) are stated as preconditions.
 */
module Vec {

  const Int32Min: int := -0x8000_0000
  const Int32Max: int := 0x7fff_ffff
  const Int64Min: int := -0x8000_0000_0000_0000
  const Int64Max: int := 0x7fff_ffff_ffff_ffff

  predicate IsInt32(x: int) { Int32Min <= x <= Int32Max }
  predicate IsInt64(x: int) { Int64Min <= x <= Int64Max }

  predicate AllInt32(v: seq<int>) { forall i :: 0 <= i < |v| ==> IsInt32(v[i]) }

  /** The binary operators instantiated by CUBQL_OPERATOR and CUBQL_BINARY. */
  datatype Op = Add | Sub | Mul | Div | Min | Max

  function Abs(x: int): nat { if x < 0 then -x else x }

  /**
   * C++ integer division: the quotient is truncated toward zero, so the
   * remainder is smaller than the divisor in magnitude and carries the sign
   * of the dividend. (Dafny's own `/` is Euclidean and differs for negative
   * dividends.)
   */
  function TruncDiv(x: int, y: int): (q: int)
    requires y != 0
    ensures Abs(x - q * y) < Abs(y)
    ensures x - q * y == 0 || (x - q * y < 0 <==> x < 0)
    ensures Abs(q) * Abs(y) <= Abs(x)
  {
    var m := Abs(x) / Abs(y);
    DivOfMagnitudes(x, y, m);
    if (x < 0) == (y < 0) then m else -m
  }

  lemma DivOfMagnitudes(x: int, y: int, m: int)
    requires y != 0 && m == Abs(x) / Abs(y)
    ensures var q := if (x < 0) == (y < 0) then m else -m;
      Abs(q) == m && q * y == (if x < 0 then -(m * Abs(y)) else m * Abs(y))
    ensures 0 <= Abs(x) - m * Abs(y) < Abs(y)
  {
    var ax, ay := Abs(x), Abs(y);
    var p := m * ay;
    assert ax == ay * m + ax % ay;
    assert p == ay * m;
    assert m >= 0;
    if y < 0 {
      assert y == -ay;
      assert m * y == -p;
      assert (-m) * y == p;
    } else {
      assert y == ay;
      assert (-m) * y == -p;
    }
  }

  /** Whether `a op b` is defined on integers: C++ leaves division by zero undefined. */
  predicate Defined(op: Op, b: int) { op == Div ==> b != 0 }

  /** One component of an operator's result. */
  function Apply(op: Op, a: int, b: int): (r: int)
    requires Defined(op, b)
    ensures op == Min ==> r <= a && r <= b && (r == a || r == b)
    ensures op == Max ==> r >= a && r >= b && (r == a || r == b)
  {
    match op
    case Add => a + b
    case Sub => a - b
    case Mul => a * b
    case Div => TruncDiv(a, b)
    case Min => if a < b then a else b
    case Max => if a < b then b else a
  }

  /** `make<vec_t>(v)`: the vector of dimension `d` whose every component is `v`. */
  function Make(d: nat, v: int): (r: seq<int>)
    ensures |r| == d
    ensures forall i :: 0 <= i < d ==> r[i] == v
  {
    if d == 0 then [] else Make(d - 1, v) + [v]
  }

  predicate DefinedAll(op: Op, b: seq<int>) { forall i :: 0 <= i < |b| ==> Defined(op, b[i]) }

  /**
   * The vec:vec form: component i of the result is `a[i] op b[i]`. Built
   * one component at a time, as the unrolled loop does.
   */
  function Elementwise(op: Op, a: seq<int>, b: seq<int>): (r: seq<int>)
    requires |a| == |b| && DefinedAll(op, b)
    ensures |r| == |a|
    ensures forall i :: 0 <= i < |a| ==> r[i] == Apply(op, a[i], b[i])
  {
    if |a| == 0 then []
    else Elementwise(op, a[..|a| - 1], b[..|b| - 1]) + [Apply(op, a[|a| - 1], b[|b| - 1])]
  }

  /** The scalar-vec form: component i of the result is `a op b[i]`. */
  function ScalarVec(op: Op, a: int, b: seq<int>): (r: seq<int>)
    requires DefinedAll(op, b)
    ensures |r| == |b|
    ensures forall i :: 0 <= i < |b| ==> r[i] == Apply(op, a, b[i])
  {
    if |b| == 0 then []
    else ScalarVec(op, a, b[..|b| - 1]) + [Apply(op, a, b[|b| - 1])]
  }

  /** The vec:scalar form: component i of the result is `a[i] op b`. */
  function VecScalar(op: Op, a: seq<int>, b: int): (r: seq<int>)
    requires Defined(op, b)
    ensures |r| == |a|
    ensures forall i :: 0 <= i < |a| ==> r[i] == Apply(op, a[i], b)
  {
    if |a| == 0 then []
    else VecScalar(op, a[..|a| - 1], b) + [Apply(op, a[|a| - 1], b)]
  }

  /** The scalar forms are the vec:vec form applied to a broadcast scalar. */
  lemma BroadcastIsMake(op: Op, a: seq<int>, s: int)
    requires DefinedAll(op, a) && Defined(op, s)
    ensures ScalarVec(op, s, a) == Elementwise(op, Make(|a|, s), a)
    ensures VecScalar(op, a, s) == Elementwise(op, a, Make(|a|, s))
  {
    var m := Make(|a|, s);
    assert DefinedAll(op, m);
    assert ScalarVec(op, s, a) == Elementwise(op, m, a);
    assert VecScalar(op, a, s) == Elementwise(op, a, m);
  }

  /** Element-wise `min` is a lower bound of both inputs and picks one of them per component. */
  lemma MinMaxBounds(a: seq<int>, b: seq<int>)
    requires |a| == |b|
    ensures forall i :: 0 <= i < |a| ==>
      Elementwise(Min, a, b)[i] <= a[i] && Elementwise(Min, a, b)[i] <= b[i] &&
      Elementwise(Max, a, b)[i] >= a[i] && Elementwise(Max, a, b)[i] >= b[i]
    ensures forall i :: 0 <= i < |a| ==>
      Elementwise(Min, a, b)[i] + Elementwise(Max, a, b)[i] == a[i] + b[i]
  {
    assert DefinedAll(Min, b) && DefinedAll(Max, b);
  }

  /** `dot(a,b)`: the sum of the component products, accumulated from index 0. */
  function Dot(a: seq<int>, b: seq<int>): int
    requires |a| == |b|
  {
    if |a| == 0 then 0 else Dot(a[..|a| - 1], b[..|b| - 1]) + a[|a| - 1] * b[|b| - 1]
  }

  lemma {:induction false} DotSymmetric(a: seq<int>, b: seq<int>)
    requires |a| == |b|
    ensures Dot(a, b) == Dot(b, a)
  {
    if |a| > 0 {
      DotSymmetric(a[..|a| - 1], b[..|b| - 1]);
    }
  }

  /** The dot product of a vector with itself is zero exactly for the zero vector. */
  lemma {:induction false} DotSelf(a: seq<int>)
    ensures Dot(a, a) >= 0
    ensures Dot(a, a) == 0 <==> forall i :: 0 <= i < |a| ==> a[i] == 0
  {
    if |a| > 0 {
      var p := a[..|a| - 1];
      DotSelf(p);
      var x := a[|a| - 1];
      assert x * x >= 0;
      assert x != 0 ==> x * x > 0;
      if Dot(a, a) == 0 {
        forall i | 0 <= i < |a| ensures a[i] == 0 {
          if i < |a| - 1 { assert a[i] == p[i]; }
        }
      }
      if forall i :: 0 <= i < |a| ==> a[i] == 0 {
        assert forall i :: 0 <= i < |p| ==> p[i] == 0 by {
          forall i | 0 <= i < |p| ensures p[i] == 0 { assert p[i] == a[i]; }
        }
      }
    }
  }

  /** `sqrDistance(a,b)`: the dot product of `a - b` with itself. */
  function SqrDistance(a: seq<int>, b: seq<int>): int
    requires |a| == |b|
  {
    var diff := Elementwise(Sub, a, b);
    Dot(diff, diff)
  }

  lemma SqrDistanceProperties(a: seq<int>, b: seq<int>)
    requires |a| == |b|
    ensures SqrDistance(a, b) >= 0
    ensures SqrDistance(a, b) == SqrDistance(b, a)
    ensures SqrDistance(a, b) == 0 <==> a == b
  {
    var d := Elementwise(Sub, a, b);
    var e := Elementwise(Sub, b, a);
    DotSelf(d);
    NegatedDot(d, e);
    if SqrDistance(a, b) == 0 {
      assert forall i :: 0 <= i < |a| ==> d[i] == 0;
      assert forall i :: 0 <= i < |a| ==> a[i] == b[i];
    }
  }

  /** Negating every component leaves the square length unchanged. */
  lemma {:induction false} NegatedDot(d: seq<int>, e: seq<int>)
    requires |d| == |e| && forall i :: 0 <= i < |d| ==> e[i] == -d[i]
    ensures Dot(d, d) == Dot(e, e)
  {
    if |d| > 0 {
      NegatedDot(d[..|d| - 1], e[..|e| - 1]);
    }
  }

  /**
   * The loop of `dot` for `int32_t` components: every product is taken in
   * 32 bits (so it must fit), then added to the 64-bit accumulator, which
   * never overflows for fewer than 2^31 components.
   */
  method DotProduct(a: seq<int>, b: seq<int>) returns (result: int)
    requires |a| == |b| <= Int32Max
    requires AllInt32(a) && AllInt32(b)
    requires forall i :: 0 <= i < |a| ==> IsInt32(a[i] * b[i])
    ensures result == Dot(a, b)
    ensures IsInt64(result)
  {
    result := 0;
    var i := 0;
    while i < |a|
      invariant 0 <= i <= |a|
      invariant result == Dot(a[..i], b[..i])
      invariant -i * 0x8000_0000 <= result <= i * 0x8000_0000
    {
      assert a[..i + 1][..i] == a[..i] && b[..i + 1][..i] == b[..i];
      result := result + a[i] * b[i];
      i := i + 1;
    }
    assert a[..i] == a && b[..i] == b;
  }

  /** `sqrDistance` for `int32_t` vectors: the difference is taken in 32 bits, then squared. */
  method SqrDistanceInt32(a: seq<int>, b: seq<int>) returns (result: int)
    requires |a| == |b| <= Int32Max
    requires forall i :: 0 <= i < |a| ==> IsInt32(a[i] - b[i]) && IsInt32((a[i] - b[i]) * (a[i] - b[i]))
    ensures result == SqrDistance(a, b)
    ensures result >= 0 && IsInt64(result)
    ensures result == 0 <==> a == b
  {
    var diff := Elementwise(Sub, a, b);
    result := DotProduct(diff, diff);
    SqrDistanceProperties(a, b);
  }
}
