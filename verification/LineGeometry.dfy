/** The points of a line in closed form: one step along the longer axis, rounding on the other. */
module LineGeometry {
  import opened Bytes

  datatype Point = Point(x: int, y: int)

  function Abs(v: int): nat { if v < 0 then -v else v }

  function Sign(from: int, to: int): int { if from < to then 1 else -1 }

  /** The number of steps from `p` to `q`. */
  function Steps(p: Point, q: Point): nat { Max(Abs(q.x - p.x), Abs(q.y - p.y)) }

  /** `c * k / m` rounded to the nearest integer, halves upwards. */
  function Round(c: nat, m: nat, k: nat): nat
    requires m > 0
  {
    (2 * (c * k) + m) / (2 * m)
  }

  /** The `k`-th point. */
  function PointAt(p: Point, q: Point, k: nat): Point
  {
    var m := Steps(p, q);
    if m == 0 then p
    else Point(p.x + Sign(p.x, q.x) * Round(Abs(q.x - p.x), m, k),
               p.y + Sign(p.y, q.y) * Round(Abs(q.y - p.y), m, k))
  }

  function Line(p: Point, q: Point): (l: seq<Point>)
    ensures |l| == Steps(p, q) + 1
    ensures forall k :: 0 <= k < |l| ==> l[k] == PointAt(p, q, k)
  {
    seq(Steps(p, q) + 1, k requires k >= 0 => PointAt(p, q, k))
  }

  // ----- rounding -----

  /** Rounding is the one value within half a unit, the upper one of two. */
  lemma RoundUnique(c: nat, m: nat, k: nat, j: nat)
    requires m > 0 && 0 < 2 * (m * j - c * k) + m <= 2 * m
    ensures Round(c, m, k) == j
  {
    assert 2 * m * j == 2 * (m * j);
    DivUnique(2 * (c * k) + m, 2 * m, j);
  }

  lemma RoundError(c: nat, m: nat, k: nat)
    requires m > 0
    ensures 0 < 2 * (m * Round(c, m, k) - c * k) + m <= 2 * m
  {
    var n, d := 2 * (c * k) + m, 2 * m;
    var j := n / d;
    assert n == d * j + n % d;
    assert d * j == 2 * (m * j);
  }

  lemma RoundEnds(c: nat, m: nat)
    requires m > 0
    ensures Round(c, m, 0) == 0 && Round(c, m, m) == c
  {
    RoundUnique(c, m, 0, 0);
    RoundUnique(c, m, m, c);
  }

  lemma RoundFull(m: nat, k: nat)
    requires m > 0
    ensures Round(m, m, k) == k
  {
    RoundUnique(m, m, k, k);
  }

  /** From one step to the next the rounded value moves by at most one, upwards. */
  lemma RoundNext(c: nat, m: nat, k: nat)
    requires c <= m && m > 0
    ensures Round(c, m, k) <= Round(c, m, k + 1) <= Round(c, m, k) + 1
  {
    hide Round;
    RoundError(c, m, k);
    RoundError(c, m, k + 1);
    var i, j := Round(c, m, k), Round(c, m, k + 1);
    assert c * (k + 1) == c * k + c;
    if j < i {
      MulGap(m, j, i);
    } else if j > i + 1 {
      MulGap(m, i, i + 1);
      MulGap(m, i + 1, j);
    }
  }

  // ----- the line -----

  /** The line starts at its first point and ends exactly at its last. */
  lemma LineEnds(p: Point, q: Point)
    ensures PointAt(p, q, 0) == p && PointAt(p, q, Steps(p, q)) == q
  {
    hide Round;
    var m := Steps(p, q);
    if m > 0 {
      RoundEnds(Abs(q.x - p.x), m);
      RoundEnds(Abs(q.y - p.y), m);
    }
  }

  /** Every point is within half a pixel of the ideal line, measured along the shorter axis. */
  lemma HalfPixel(p: Point, q: Point, k: nat)
    ensures 2 * Abs(Abs(q.x - p.x) * Abs(PointAt(p, q, k).y - p.y)
                    - Abs(q.y - p.y) * Abs(PointAt(p, q, k).x - p.x)) <= Steps(p, q)
    ensures Abs(q.x - p.x) == Steps(p, q) > 0 ==> Abs(PointAt(p, q, k).x - p.x) == k
    ensures Abs(q.y - p.y) == Steps(p, q) > 0 ==> Abs(PointAt(p, q, k).y - p.y) == k
  {
    hide Round;
    var a, b, m := Abs(q.x - p.x), Abs(q.y - p.y), Steps(p, q);
    if m > 0 {
      RoundFull(m, k);
      RoundError(a, m, k);
      RoundError(b, m, k);
    }
  }

  /** Consecutive points are neighbours; no step stands still. */
  lemma Connected(p: Point, q: Point, k: nat)
    requires k < Steps(p, q)
    ensures var (u, v) := (PointAt(p, q, k), PointAt(p, q, k + 1));
      Max(Abs(v.x - u.x), Abs(v.y - u.y)) == 1
  {
    hide Round;
    var m := Steps(p, q);
    RoundNext(Abs(q.x - p.x), m, k);
    RoundNext(Abs(q.y - p.y), m, k);
    RoundFull(m, k);
    RoundFull(m, k + 1);
  }

  /** The minor coordinate of the `k`-th point lies exactly between two pixels. */
  predicate Tie(p: Point, q: Point, k: nat)
  {
    var m := Steps(p, q);
    m > 0 && (2 * (Min(Abs(q.x - p.x), Abs(q.y - p.y)) * k) + m) % (2 * m) == 0
  }

  /** Drawing a line backwards hits the same pixel at step `k` exactly if that step is not a tie. */
  lemma ReversedAgreesIff(p: Point, q: Point, k: nat)
    requires k <= Steps(p, q)
    ensures PointAt(q, p, Steps(p, q) - k) == PointAt(p, q, k) <==> !Tie(p, q, k)
  {
    var a, b, m := Abs(q.x - p.x), Abs(q.y - p.y), Steps(p, q);
    if m > 0 {
      RoundReversed(a, m, k);
      RoundReversed(b, m, k);
      hide Round;
      RoundFull(m, k);
      RoundFull(m, m - k);
    }
  }

  /** From (0, 0) to (2, 1) the middle pixel is (1, 1), and (1, 0) the other way round. */
  lemma ReversedDiffers()
    ensures PointAt(Point(0, 0), Point(2, 1), 1) == Point(1, 1)
    ensures PointAt(Point(2, 1), Point(0, 0), 1) == Point(1, 0)
  {
    hide Round;
    RoundUnique(1, 2, 1, 1);
    RoundUnique(2, 2, 1, 1);
    assert Steps(Point(0, 0), Point(2, 1)) == 2;
  }

  lemma RoundReversed(c: nat, m: nat, k: nat)
    requires m > 0 && k <= m && c <= m
    ensures c - Round(c, m, m - k)
         == Round(c, m, k) - if (2 * (c * k) + m) % (2 * m) == 0 then 1 else 0
  {
    hide Round;
    var j := Round(c, m, k);
    var ck, mj, mc := c * k, m * j, m * c;
    RoundError(c, m, k);
    RoundAtMost(c, m, k);
    TieError(c, m, k);
    var tie := if 2 * (mj - ck) == m then 1 else 0;
    assert c * (m - k) == mc - ck;
    assert m * (c - j + tie) == mc - mj + m * tie;
    RoundUnique(c, m, m - k, c - j + tie);
  }

  lemma RoundAtMost(c: nat, m: nat, k: nat)
    requires m > 0 && k <= m
    ensures Round(c, m, k) <= c
  {
    hide Round;
    RoundError(c, m, k);
    assert c * m == c * k + c * (m - k);
    if Round(c, m, k) > c {
      MulGap(m, c, Round(c, m, k));
    }
  }

  lemma TieError(c: nat, m: nat, k: nat)
    requires m > 0
    ensures (2 * (c * k) + m) % (2 * m) == 0 <==> 2 * (m * Round(c, m, k) - c * k) == m
  {
    var n, d := 2 * (c * k) + m, 2 * m;
    var j := n / d;
    assert n == d * j + n % d;
    assert d * j == 2 * (m * j);
  }
}
