/** On which lines the error term of the display's line loop leaves the `int` range, in closed form. */
module LineOverflow {
  import opened Bytes
  import opened LineGeometry
  import opened LineDrawing

  function Gcd(a: nat, b: nat): nat
    decreases b
  {
    if b == 0 then a else Gcd(b, a % b)
  }

  lemma GcdStep(a: nat, b: nat)
    ensures Gcd(a, b) == if b == 0 then a else Gcd(b, a % b)
  {}

  lemma Multiple(q: nat, b: nat, r: nat, g: nat, u: nat, v: nat)
    requires b == g * u && r == g * v
    ensures q * b + r == g * (q * u + v)
  {
    assert q * (g * u) == g * (q * u);
    assert g * (q * u + v) == g * (q * u) + g * v;
  }

  lemma Combination(q: nat, b: nat, r: nat, s: int, t: int)
    ensures t * (q * b + r) + (s - q * t) * b == s * b + t * r
  {
    assert t * (q * b + r) == t * (q * b) + t * r;
    assert (s - q * t) * b == s * b - (q * t) * b;
    assert (q * t) * b == t * (q * b);
  }

  lemma Division(a: nat, b: nat)
    requires b > 0
    ensures a == a / b * b + a % b
  {}

  /** Both are multiples of their divisor, which is a combination of them. */
  lemma {:induction false} Bezout(a: nat, b: nat) returns (u: nat, v: nat, s: int, t: int)
    ensures a == Gcd(a, b) * u && b == Gcd(a, b) * v && s * a + t * b == Gcd(a, b)
    decreases b
  {
    GcdStep(a, b);
    hide Gcd;
    if b == 0 {
      u, v, s, t := 1, 0, 1, 0;
    } else {
      var q, r := a / b, a % b;
      var u', v', s', t' := Bezout(b, r);
      Division(a, b);
      Multiple(q, b, r, Gcd(b, r), u', v');
      Combination(q, b, r, s', t');
      u, v, s, t := q * u' + v', u', t', s' - q * t';
    }
  }

  lemma GcdPositive(a: nat, b: nat)
    requires a > 0
    ensures Gcd(a, b) > 0
  {
    var u, v, s, t := Bezout(a, b);
  }

  lemma MulOrder(g: nat, x: int, y: int)
    requires g > 0
    ensures x < y <==> g * x < g * y
    ensures x <= y <==> g * x <= g * y
  {
    if x < y {
      MulGap(g, x, y);
    } else if y < x {
      MulGap(g, y, x);
    }
  }

  // ----- how far points lie from the line -----

  /** How far the `k`-th point lies above the line, scaled by the longer side `m`. */
  function Offset(m: nat, c: nat, k: nat): int
    requires m > 0
  {
    m * Round(c, m, k) - c * k
  }

  /** Every offset is a multiple of the sides' divisor, at most half the longer side. */
  lemma OffsetIs(m: nat, c: nat, k: nat) returns (u: nat, w: int)
    requires m > 0
    ensures m == Gcd(m, c) * u && 0 < 2 * w + u <= 2 * u && Offset(m, c, k) == Gcd(m, c) * w
  {
    var v, s, t;
    u, v, s, t := Bezout(m, c);
    GcdPositive(m, c);
    var g, j := Gcd(m, c), Round(c, m, k);
    w := u * j - v * k;
    RoundError(c, m, k);
    hide Round, Gcd;
    Scaled(g, u, v, j, k);
    Doubled(g, u, w);
  }

  lemma Doubled(g: nat, u: nat, w: int)
    requires g > 0
    ensures 0 < 2 * w + u <= 2 * u <==> 0 < 2 * (g * w) + g * u <= 2 * (g * u)
  {
    MulOrder(g, 0, 2 * w + u);
    MulOrder(g, 2 * w + u, 2 * u);
    assert g * (2 * w + u) == 2 * (g * w) + g * u && g * (2 * u) == 2 * (g * u);
  }

  lemma Scaled(g: nat, u: nat, v: nat, j: nat, k: nat)
    ensures g * u * j - g * v * k == g * (u * j - v * k)
  {
    assert g * u * j == g * (u * j) && g * v * k == g * (v * k);
  }

  /** And every such multiple is an offset somewhere before the end. */
  lemma OffsetReached(m: nat, c: nat, u: nat, w: int) returns (k: nat)
    requires m > 0 && m == Gcd(m, c) * u && 0 < 2 * w + u <= 2 * u
    ensures k < m && Offset(m, c, k) == Gcd(m, c) * w
  {
    var u', v, s, t := Bezout(m, c);
    GcdPositive(m, c);
    hide Gcd, Round;
    var g, n := Gcd(m, c), -(w * t);
    var z := n / m;
    k := n % m;
    IntDivision(n, m);
    var j := w * s - c * z;
    Solves(m, c, g, s, t, w, z, k);
    Doubled(g, u, w);
    NotNegative(m, c, j, k);
    RoundUnique(c, m, k, j);
  }

  lemma IntDivision(n: int, m: nat)
    requires m > 0
    ensures n == n / m * m + n % m && 0 <= n % m < m
  {}

  lemma Solves(m: nat, c: nat, g: nat, s: int, t: int, w: int, z: int, k: int)
    requires s * m + t * c == g && -(w * t) == z * m + k
    ensures m * (w * s - c * z) - c * k == g * w
  {
    assert c * k == c * -(w * t) - c * (z * m);
    assert c * -(w * t) == -(w * (t * c));
    assert w * (t * c) == w * g - w * (s * m);
    assert m * (w * s - c * z) == w * (s * m) - c * (z * m);
  }

  lemma NotNegative(m: nat, c: nat, j: int, k: nat)
    requires m > 0 && 0 < 2 * (m * j - c * k) + m
    ensures j >= 0
  {
    assert c * k >= 0;
    if j < 0 {
      MulGap(m, j, 0);
    }
  }

  // ----- the condition -----

  /** The largest multiple of the sides' divisor that is at most half the longer side. */
  function HalfUp(m: nat, c: nat): int
    requires m > 0
  {
    GcdPositive(m, c);
    Gcd(m, c) * (m / Gcd(m, c) / 2)
  }

  /** The largest that is less than half. */
  function HalfDown(m: nat, c: nat): int
    requires m > 0
  {
    GcdPositive(m, c);
    Gcd(m, c) * ((m / Gcd(m, c) - 1) / 2)
  }

  /** A line that is `a` wide and `b` high keeps its error term in the `int` range. */
  predicate ErrorFits(a: nat, b: nat)
  {
    if a == 0 && b == 0 then true
    else if a >= b then
      2 * (a - b + HalfUp(a, b)) <= INT_MAX && INT_MIN <= a - 2 * b - HalfDown(a, b)
    else
      INT_MIN <= 2 * (a - b - HalfUp(b, a)) && (a > 0 ==> INT_MIN + b + HalfUp(b, a) <= 0)
  }

  lemma Halves(m: nat, c: nat, u: nat)
    requires m > 0 && m == Gcd(m, c) * u
    ensures u > 0 && HalfUp(m, c) == Gcd(m, c) * (u / 2) && HalfDown(m, c) == Gcd(m, c) * ((u - 1) / 2)
  {
    GcdPositive(m, c);
    hide Gcd;
    DivUnique(m, Gcd(m, c), u);
  }

  lemma MulNegative(g: nat, x: int)
    ensures g * (0 - x) == 0 - g * x
  {}

  lemma HalfBounds(u: nat, w: int)
    requires u > 0
    ensures 0 < 2 * w + u <= 2 * u <==> 0 - (u - 1) / 2 <= w <= u / 2
  {}

  /** The offsets of a line lie between these. */
  lemma OffsetRange(m: nat, c: nat, k: nat)
    requires m > 0
    ensures 0 <= Offset(m, c, k) + HalfDown(m, c) && Offset(m, c, k) <= HalfUp(m, c)
  {
    var u, w := OffsetIs(m, c, k);
    Halves(m, c, u);
    GcdPositive(m, c);
    hide *;
    var g: nat, h: int := Gcd(m, c), (u - 1) / 2;
    HalfBounds(u, w);
    MulOrder(g, w, u / 2);
    MulOrder(g, 0 - h, w);
    MulNegative(g, h);
  }

  /** Both are reached before the end. */
  lemma EndsReached(m: nat, c: nat) returns (k: nat, l: nat)
    requires m > 0
    ensures k < m && Offset(m, c, k) == HalfUp(m, c)
    ensures l < m && Offset(m, c, l) + HalfDown(m, c) == 0
  {
    var u, v, s, t := Bezout(m, c);
    Halves(m, c, u);
    hide *;
    var g: nat, h: int := Gcd(m, c), (u - 1) / 2;
    HalfBounds(u, u / 2);
    HalfBounds(u, 0 - h);
    k := OffsetReached(m, c, u, u / 2);
    l := OffsetReached(m, c, u, 0 - h);
    MulNegative(g, h);
  }

  /** Of two lines as wide and high the error terms are the same. */
  lemma ErrorIsOffset(p: Point, q: Point, k: nat)
    requires Steps(p, q) > 0
    ensures var a, b := Abs(q.x - p.x), Abs(q.y - p.y);
      ErrorAt(p, q, k) == a - b + if a >= b then Offset(a, b, k) else 0 - Offset(b, a, k)
  {
    ErrorIs(p, q, k);
    hide ErrorAt, Round;
  }

  lemma FlatIff(p: Point, q: Point)
    requires var a, b := Abs(q.x - p.x), Abs(q.y - p.y); b <= a && 0 < a <= INT_MAX
    ensures NoOverflow(p, q) <==> ErrorFits(Abs(q.x - p.x), Abs(q.y - p.y))
  {
    var a, b := Abs(q.x - p.x), Abs(q.y - p.y);
    var k, l := EndsReached(a, b);
    ErrorIsOffset(p, q, k);
    ErrorIsOffset(p, q, l);
    ErrorBounds(p, q, l);
    hide ErrorAt, Offset, HalfUp, HalfDown;
    if NoOverflow(p, q) {
      assert RoundFits(p, q, k) && RoundFits(p, q, l);
    }
    if ErrorFits(a, b) {
      forall n | 0 <= n < Steps(p, q) ensures RoundFits(p, q, n) {
        ErrorIsOffset(p, q, n);
        ErrorBounds(p, q, n);
        OffsetRange(a, b, n);
      }
    }
  }

  lemma Combine(g: nat, v: nat, u: nat, w: int)
    ensures g * (v - u + w) == g * v - g * u + g * w
  {}

  lemma AtLeastHalf(g: nat, u: nat, e: int)
    requires g > 0 && 0 <= 2 * (g * e) + g * u
    ensures 0 <= g * e + g * (u / 2)
  {
    assert g * (2 * e + u) == 2 * (g * e) + g * u;
    MulOrder(g, 0, 2 * e + u);
    assert 0 <= e + u / 2;
    MulOrder(g, 0, e + u / 2);
    assert g * (e + u / 2) == g * e + g * (u / 2);
  }

  /** Where a steep line steps right, its error term is at least this. */
  lemma RightFrom(b: nat, a: nat, k: nat)
    requires 0 < b && 2 * (a - b - Offset(b, a, k)) + b >= 0
    ensures a - b - Offset(b, a, k) + HalfUp(b, a) >= 0
  {
    var u: nat, v: nat, s, t := Bezout(b, a);
    var u', w := OffsetIs(b, a, k);
    Halves(b, a, u);
    GcdPositive(b, a);
    hide *;
    Combine(Gcd(b, a), v, u, 0 - w);
    MulNegative(Gcd(b, a), w);
    AtLeastHalf(Gcd(b, a), u, v - u - w);
  }

  lemma InRange(u: nat, v: nat)
    requires 0 < v < u
    ensures 0 < 2 * (v - u + u / 2) + u <= 2 * u
  {}

  /** Unless the line is vertical, that is reached before the end. */
  lemma RightReached(b: nat, a: nat) returns (k: nat)
    requires 0 < a < b
    ensures k < b && a - b - Offset(b, a, k) + HalfUp(b, a) == 0 && 2 * HalfUp(b, a) <= b
  {
    var u: nat, v: nat, s, t := Bezout(b, a);
    Halves(b, a, u);
    GcdPositive(b, a);
    hide *;
    var g: nat, h: int := Gcd(b, a), u / 2;
    MulOrder(g, 0, v);
    MulOrder(g, v, u);
    InRange(u, v);
    TwiceHalf(g, u);
    Combine(g, v, u, h);
    k := OffsetReached(b, a, u, v - u + h);
  }

  lemma TwiceHalf(g: nat, u: nat)
    requires g > 0
    ensures 2 * (g * (u / 2)) <= g * u
  {
    MulOrder(g, 2 * (u / 2), u);
    assert g * (2 * (u / 2)) == 2 * (g * (u / 2));
  }

  lemma SteepIff(p: Point, q: Point)
    requires var a, b := Abs(q.x - p.x), Abs(q.y - p.y); a < b <= INT_MAX
    ensures NoOverflow(p, q) <==> ErrorFits(Abs(q.x - p.x), Abs(q.y - p.y))
  {
    var a, b := Abs(q.x - p.x), Abs(q.y - p.y);
    var k, l := EndsReached(b, a);
    ErrorIsOffset(p, q, k);
    if NoOverflow(p, q) {
      assert RoundFits(p, q, k);
      if a > 0 {
        var n := RightReached(b, a);
        ErrorIsOffset(p, q, n);
        assert RoundFits(p, q, n);
      }
    }
    hide ErrorAt, Offset, HalfUp, HalfDown;
    if ErrorFits(a, b) {
      forall n | 0 <= n < Steps(p, q) ensures RoundFits(p, q, n) {
        ErrorIsOffset(p, q, n);
        ErrorBounds(p, q, n);
        OffsetRange(b, a, n);
        if a > 0 && 2 * ErrorAt(p, q, n) + b >= 0 {
          RightFrom(b, a, n);
        }
      }
    }
  }

  /**
  The error term stays in the `int` range on the whole line exactly if it does at the points farthest from the
  ideal line, whose distances the divisor of the two sides gives.
  */
  lemma NoOverflowIff(p: Point, q: Point)
    requires Steps(p, q) <= INT_MAX
    ensures NoOverflow(p, q) <==> ErrorFits(Abs(q.x - p.x), Abs(q.y - p.y))
  {
    hide NoOverflow, ErrorFits;
    if Steps(p, q) == 0 {
      NoSteps(p, q);
    } else if Abs(q.x - p.x) >= Abs(q.y - p.y) {
      FlatIff(p, q);
    } else {
      SteepIff(p, q);
    }
  }

  lemma NoSteps(p: Point, q: Point)
    requires Steps(p, q) == 0
    ensures NoOverflow(p, q) && ErrorFits(Abs(q.x - p.x), Abs(q.y - p.y))
  {}

  /** A horizontal line of 2^30 steps overflows in its first round. */
  lemma LongLineOverflows()
    ensures !NoOverflow(Point(0, 0), Point(0x4000_0000, 0))
  {
    NoOverflowIff(Point(0, 0), Point(0x4000_0000, 0));
    Halves(0x4000_0000, 0, 1);
  }
}
