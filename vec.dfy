/** The vector type `V` of game.py: a pair of Python floats with
    component-wise arithmetic. Floats are modelled as exact reals. */
module Vec {

  datatype V = V(x: real, y: real)

  /** An integer grid cell `(x, y)`. */
  type Cell = (int, int)

  /** `V.__add__` */
  function Add(a: V, b: V): (r: V)
    ensures Sub(r, b) == a
  {
    V(a.x + b.x, a.y + b.y)
  }

  /** `V.__sub__` */
  function Sub(a: V, b: V): V
  {
    V(a.x - b.x, a.y - b.y)
  }

  /** Subtracting `b` gives the vector that `b` must be added to in order
      to give `a`. */
  lemma SubThenAdd(a: V, b: V)
    ensures Add(Sub(a, b), b) == a
  {
  }

  /** `V.__mul__` by a scalar; dividing each component by a non-zero
      scalar gives the vector back. */
  function Scale(a: V, s: real): (r: V)
    ensures s != 0.0 ==> r.x / s == a.x && r.y / s == a.y
  {
    V(a.x * s, a.y * s)
  }

  /** Python's `a // b` on floats: the floor of the quotient, still a float. */
  function FloorDiv(a: real, b: real): (q: real)
    requires b != 0.0
    ensures q == q.Floor as real
    ensures q <= a / b < q + 1.0
  {
    (a / b).Floor as real
  }

  /** Python's `a % b` on floats: the remainder has the sign of the divisor. */
  function Mod(a: real, b: real): (m: real)
    requires b != 0.0
    ensures a == b * FloorDiv(a, b) + m
    ensures b > 0.0 ==> 0.0 <= m < b
  {
    var q := FloorDiv(a, b);
    assert b > 0.0 ==> 0.0 <= a - b * q < b by {
      if b > 0.0 {
        FloorDivBounds(a, b);
      }
    }
    a - b * q
  }

  lemma FloorDivBounds(a: real, b: real)
    requires b > 0.0
    ensures b * FloorDiv(a, b) <= a < b * FloorDiv(a, b) + b
  {
    var q := FloorDiv(a, b);
    assert (a / b) * b == a;
    MulMono(q, a / b, b);
    assert a / b < q + 1.0;
    MulMono(a / b, q + 1.0, b);
    assert a < (q + 1.0) * b;
    assert (q + 1.0) * b == q * b + b;
    assert q * b == b * q;
  }

  lemma MulMono(x: real, y: real, b: real)
    requires x <= y && b > 0.0
    ensures x * b <= y * b
    ensures x < y ==> x * b < y * b
  {
    assert y * b - x * b == (y - x) * b;
  }

  /** Python's `int(r)` on a float: truncation toward zero. */
  function Trunc(r: real): (t: int)
    ensures r >= 0.0 ==> t as real <= r < t as real + 1.0
    ensures r < 0.0 ==> t as real - 1.0 < r <= t as real
  {
    if r >= 0.0 then r.Floor else -((-r).Floor)
  }

  /** `V.__floordiv__`: each component is the floor of its quotient, an
      integral float `q` with `q <= c / s < q + 1`. */
  function FloorDivV(v: V, s: real): (r: V)
    requires s != 0.0
    ensures r.x == r.x.Floor as real && r.x <= v.x / s < r.x + 1.0
    ensures r.y == r.y.Floor as real && r.y <= v.y / s < r.y + 1.0
  {
    V(FloorDiv(v.x, s), FloorDiv(v.y, s))
  }

  /** `V.__mod__` */
  function ModV(v: V, s: real): (m: V)
    requires s != 0.0
    ensures Add(Scale(FloorDivV(v, s), s), m) == v
  {
    V(Mod(v.x, s), Mod(v.y, s))
  }

  /** `V.floor`, which calls `int()` on each component and so truncates
      toward zero; the result is the integer cell. */
  function FloorV(v: V): (c: Cell)
    ensures v.x >= 0.0 && v.y >= 0.0 ==> c.0 as real == FloorDiv(v.x, 1.0) && c.1 as real == FloorDiv(v.y, 1.0)
  {
    (Trunc(v.x), Trunc(v.y))
  }

  /** `V.floor` and `// 1` part ways on negative, non-integral coordinates:
      `int(-0.5)` is 0 while `-0.5 // 1` is -1. */
  lemma FloorDiffersFromFloorDiv()
    ensures FloorV(V(-0.5, 2.0)) == (0, 2)
    ensures FloorDivV(V(-0.5, 2.0), 1.0) == V(-1.0, 2.0)
  {
    assert FloorDiv(-0.5, 1.0) == -1.0 by {
      assert FloorDiv(-0.5, 1.0) <= -0.5 < FloorDiv(-0.5, 1.0) + 1.0;
    }
  }

  /** For every non-integral negative coordinate, truncation lands one above the floor. */
  lemma TruncOfNegative(r: real)
    requires r < 0.0 && r != r.Floor as real
    ensures Trunc(r) == r.Floor + 1
  {
    var t := Trunc(r);
    assert t as real - 1.0 < r <= t as real;
    assert r < t as real;
    assert r.Floor as real <= r < r.Floor as real + 1.0;
  }
}
