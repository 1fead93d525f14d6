/** The incremental line loop of the display, proved to plot the closed form. */
module LineDrawing {
  import opened Bytes
  import opened LineGeometry

  const INT_MIN := -0x8000_0000
  const INT_MAX := 0x7FFF_FFFF

  /** A frame buffer: `pitch` pixels from one row to the next. */
  datatype Frame = Frame(width: nat, height: nat, pitch: nat, pixels: seq<nat>) {
    ghost predicate Valid() { width <= pitch && height * pitch <= |pixels| }
  }

  /** Where pixel (x, y) is stored. */
  function Index(pitch: nat, x: nat, y: nat): nat { y * pitch + x }

  /** `set_pixel`: points off the screen are ignored. */
  function Paint(f: Frame, p: Point, color: nat): (g: Frame)
    requires f.Valid()
    ensures g.Valid()
  {
    if 0 <= p.x < f.width && 0 <= p.y < f.height then
      PixelInside(f, p.x, p.y);
      f.(pixels := f.pixels[Index(f.pitch, p.x, p.y) := color])
    else f
  }

  lemma PixelInside(f: Frame, x: nat, y: nat)
    requires f.Valid() && x < f.width && y < f.height
    ensures Index(f.pitch, x, y) < |f.pixels|
  {
    MulGap(f.pitch, y, f.height);
  }

  function PaintAll(f: Frame, points: seq<Point>, color: nat): (g: Frame)
    requires f.Valid()
    ensures g.Valid()
  {
    if points == [] then f else Paint(PaintAll(f, points[..|points| - 1], color), points[|points| - 1], color)
  }

  lemma PixelsDiffer(pitch: nat, x: nat, y: nat, x': nat, y': nat)
    requires x < pitch && x' < pitch && Index(pitch, x, y) == Index(pitch, x', y')
    ensures x == x' && y == y'
  {
    if y < y' {
      MulGap(pitch, y, y');
    } else if y' < y {
      MulGap(pitch, y', y);
    }
  }

  lemma PaintPixel(f: Frame, p: Point, color: nat, x: nat, y: nat)
    requires f.Valid() && x < f.width && y < f.height
    ensures var g := Paint(f, p, color);
      && Index(f.pitch, x, y) < |f.pixels| == |g.pixels|
      && g.width == f.width && g.height == f.height && g.pitch == f.pitch
      && g.pixels[Index(f.pitch, x, y)] == if Point(x, y) == p then color else f.pixels[Index(f.pitch, x, y)]
  {
    hide Index;
    PixelInside(f, x, y);
    if 0 <= p.x < f.width && 0 <= p.y < f.height {
      PixelInside(f, p.x, p.y);
    }
    if 0 <= p.x < f.width && 0 <= p.y < f.height && Index(f.pitch, p.x, p.y) == Index(f.pitch, x, y) {
      PixelsDiffer(f.pitch, p.x, p.y, x, y);
    }
  }

  /** Painting colours exactly the listed points that are on the screen. */
  lemma {:induction false} PaintAllPixel(f: Frame, points: seq<Point>, color: nat, x: nat, y: nat)
    requires f.Valid() && x < f.width && y < f.height
    ensures var g := PaintAll(f, points, color);
      && Index(f.pitch, x, y) < |f.pixels| == |g.pixels|
      && g.width == f.width && g.height == f.height && g.pitch == f.pitch
      && g.pixels[Index(f.pitch, x, y)] == if Point(x, y) in points then color else f.pixels[Index(f.pitch, x, y)]
  {
    hide Paint, Index;
    PixelInside(f, x, y);
    if points != [] {
      var rest, p := points[..|points| - 1], points[|points| - 1];
      PaintAllPixel(f, rest, color, x, y);
      PaintPixel(PaintAll(f, rest, color), p, color, x, y);
      assert points == rest + [p];
    }
  }

  /** Point `p` is on the screen and word `w` of the buffer is its pixel. */
  predicate IsWord(f: Frame, p: Point, w: nat)
  {
    0 <= p.x < f.width && 0 <= p.y < f.height && w == p.y * f.pitch + p.x
  }

  lemma PaintWord(f: Frame, p: Point, color: nat, w: nat)
    requires f.Valid() && w < |f.pixels|
    ensures var g := Paint(f, p, color);
      && g == f.(pixels := g.pixels) && |g.pixels| == |f.pixels|
      && g.pixels[w] == if IsWord(f, p, w) then color else f.pixels[w]
  {
    if 0 <= p.x < f.width && 0 <= p.y < f.height {
      PixelInside(f, p.x, p.y);
    }
  }

  /** Word by word, padding included: the colour is where a listed point on the screen is, and nothing else changes. */
  lemma {:induction false} PaintedWords(f: Frame, points: seq<Point>, color: nat, w: nat)
    requires f.Valid() && w < |f.pixels|
    ensures var g := PaintAll(f, points, color);
      && g == f.(pixels := g.pixels) && |g.pixels| == |f.pixels|
      && g.pixels[w] == if exists p :: p in points && IsWord(f, p, w) then color else f.pixels[w]
  {
    if points != [] {
      hide Paint, IsWord;
      var rest, p := points[..|points| - 1], points[|points| - 1];
      PaintedWords(f, rest, color, w);
      PaintWord(PaintAll(f, rest, color), p, color, w);
      assert points == rest + [p];
      SameFrame(f, PaintAll(f, rest, color), p, w);
    }
  }

  lemma SameFrame(f: Frame, g: Frame, p: Point, w: nat)
    requires g == f.(pixels := g.pixels)
    ensures IsWord(f, p, w) == IsWord(g, p, w)
  {}

  /** How far point (i, j) is above the ideal line, scaled by the longer side. */
  predicate Near(a: nat, b: nat, d: int)
  {
    if a >= b then 0 < 2 * d + a <= 2 * a else 0 < b - 2 * d <= 2 * b
  }

  /** After `k` rounds: `i` steps in x, `j` in y, and the error term that goes with them. */
  predicate OnTrack(a: nat, b: nat, i: nat, j: nat, k: nat, err: int)
  {
    && err == a * j - b * i + a - b
    && Near(a, b, a * j - b * i)
    && k == if a >= b then i else j
  }

  /** One round of the loop in terms of the distance: the longer axis always moves. */
  lemma StepNear(a: nat, b: nat, d: int)
    requires Max(a, b) > 0 && Near(a, b, d)
    ensures var e2 := 2 * (d + a - b);
      && (a >= b ==> e2 + b >= 0) && (b >= a ==> e2 <= a)
      && Near(a, b, d - (if e2 + b >= 0 then b else 0) + (if e2 <= a then a else 0))
      && 0 <= e2 + 3 * Max(a, b) <= 6 * Max(a, b)
  {}

  lemma StepOnTrack(a: nat, b: nat, i: nat, j: nat, k: nat, err: int)
    requires Max(a, b) > 0 && OnTrack(a, b, i, j, k, err)
    ensures var dx, dy := 2 * err + b >= 0, 2 * err <= a;
      OnTrack(a, b, if dx then i + 1 else i, if dy then j + 1 else j, k + 1,
              err - (if dx then b else 0) + (if dy then a else 0))
    ensures 0 <= 2 * err + 3 * Max(a, b) <= 6 * Max(a, b)
  {
    hide Near;
    assert a * (j + 1) == a * j + a && b * (i + 1) == b * i + b;
    StepNear(a, b, a * j - b * i);
  }

  lemma StartOnTrack(a: nat, b: nat)
    ensures Max(a, b) > 0 ==> OnTrack(a, b, 0, 0, 0, a - b)
  {
    assert a * 0 == 0 && b * 0 == 0;
  }

  /** A point on track is the one of the closed form. */
  lemma TrackIsPoint(p: Point, q: Point, i: nat, j: nat, k: nat, err: int)
    requires Steps(p, q) > 0 && OnTrack(Abs(q.x - p.x), Abs(q.y - p.y), i, j, k, err)
    ensures PointAt(p, q, k) == Point(p.x + Sign(p.x, q.x) * i, p.y + Sign(p.y, q.y) * j)
  {
    hide Round;
    var a, b, m := Abs(q.x - p.x), Abs(q.y - p.y), Steps(p, q);
    RoundFull(m, k);
    if a >= b {
      RoundUnique(b, a, k, j);
    } else {
      RoundUnique(a, b, k, i);
    }
  }

  // ----- the range of the error term -----

  /** The error term when the `k`-th point is plotted. */
  function ErrorAt(p: Point, q: Point, k: nat): int
  {
    var a, b := Abs(q.x - p.x), Abs(q.y - p.y);
    a * Abs(PointAt(p, q, k).y - p.y) - b * Abs(PointAt(p, q, k).x - p.x) + a - b
  }

  /** Neither doubling the error term nor lowering it for a step in x leaves the `int` range in the `k`-th round. */
  predicate RoundFits(p: Point, q: Point, k: nat)
  {
    var e, b := ErrorAt(p, q, k), Abs(q.y - p.y);
    INT_MIN <= 2 * e <= INT_MAX && (2 * e + b >= 0 ==> INT_MIN <= e - b)
  }

  predicate NoOverflow(p: Point, q: Point)
  {
    forall k :: 0 <= k < Steps(p, q) ==> RoundFits(p, q, k)
  }

  lemma ErrorIs(p: Point, q: Point, k: nat)
    requires Steps(p, q) > 0
    ensures var a, b := Abs(q.x - p.x), Abs(q.y - p.y);
      ErrorAt(p, q, k) == a - b + if a >= b then a * Round(b, a, k) - b * k else a * k - b * Round(a, b, k)
  {
    hide Round;
    RoundFull(Steps(p, q), k);
  }

  lemma ErrorEnds(p: Point, q: Point)
    ensures ErrorAt(p, q, Steps(p, q)) == Abs(q.x - p.x) - Abs(q.y - p.y)
  {
    LineEnds(p, q);
    hide PointAt;
  }

  lemma RoundZero(m: nat, k: nat)
    requires m > 0
    ensures Round(0, m, k) == 0
  {
    RoundUnique(0, m, k, 0);
  }

  /** The doubled error term in terms of the two distances. */
  lemma ErrorBounds(p: Point, q: Point, k: nat)
    requires Steps(p, q) > 0
    ensures var a, b := Abs(q.x - p.x), Abs(q.y - p.y);
      if a >= b then a - 2 * b < 2 * ErrorAt(p, q, k) <= 3 * a - 2 * b
      else 2 * a - 3 * b <= 2 * ErrorAt(p, q, k) < 2 * a - b
    ensures p.x == q.x || p.y == q.y ==> ErrorAt(p, q, k) == Abs(q.x - p.x) - Abs(q.y - p.y)
  {
    ErrorIs(p, q, k);
    hide Round, ErrorAt;
    var a, b := Abs(q.x - p.x), Abs(q.y - p.y);
    if a >= b {
      RoundError(b, a, k);
      RoundZero(a, k);
    } else {
      RoundError(a, b, k);
      RoundZero(b, k);
    }
  }

  /** Lines of up to 715827882 steps never overflow, horizontal and vertical ones of up to 1073741823. */
  lemma ShortLinesFit(p: Point, q: Point)
    requires Steps(p, q) <= 715827882 || (Steps(p, q) <= 1073741823 && (p.x == q.x || p.y == q.y))
    ensures NoOverflow(p, q)
  {
    hide ErrorAt;
    forall k | 0 <= k < Steps(p, q) ensures RoundFits(p, q, k) {
      ErrorBounds(p, q, k);
    }
  }

  /** On track the error term is that of the closed form. */
  lemma TrackError(p: Point, q: Point, i: nat, j: nat, k: nat, err: int)
    requires Steps(p, q) > 0 && OnTrack(Abs(q.x - p.x), Abs(q.y - p.y), i, j, k, err)
    ensures err == ErrorAt(p, q, k)
  {
    TrackIsPoint(p, q, i, j, k, err);
    hide PointAt, Near;
  }

  /** One round of the loop goes to the next point of the closed form, and its error term is the next one. */
  lemma LoopStep(p: Point, q: Point, i: nat, j: nat, k: nat, err: int)
    requires k < Steps(p, q) && OnTrack(Abs(q.x - p.x), Abs(q.y - p.y), i, j, k, err)
    ensures var a, b := Abs(q.x - p.x), Abs(q.y - p.y);
      var right, down := 2 * err + b >= 0, 2 * err <= a;
      var i', j' := if right then i + 1 else i, if down then j + 1 else j;
      var err' := err - (if right then b else 0) + (if down then a else 0);
      && (RoundFits(p, q, k) <==> INT_MIN <= 2 * err <= INT_MAX && (right ==> INT_MIN <= err - b))
      && err' == ErrorAt(p, q, k + 1) && OnTrack(a, b, i', j', k + 1, err')
      && var (u, v) := (PointAt(p, q, k), PointAt(p, q, k + 1));
         v == Point(u.x + if right then Sign(p.x, q.x) else 0, u.y + if down then Sign(p.y, q.y) else 0)
  {
    var a, b := Abs(q.x - p.x), Abs(q.y - p.y);
    hide Near, OnTrack, PointAt, ErrorAt, Sign;
    TrackIsPoint(p, q, i, j, k, err);
    TrackError(p, q, i, j, k, err);
    StepOnTrack(a, b, i, j, k, err);
    var right, down := 2 * err + b >= 0, 2 * err <= a;
    var i', j' := if right then i + 1 else i, if down then j + 1 else j;
    var err' := err - (if right then b else 0) + (if down then a else 0);
    TrackIsPoint(p, q, i', j', k + 1, err');
    TrackError(p, q, i', j', k + 1, err');
    var sx, sy := Sign(p.x, q.x), Sign(p.y, q.y);
    assert sx * (i + 1) == sx * i + sx && sy * (j + 1) == sy * j + sy;
  }

  lemma FitsIff(p: Point, q: Point, k: nat)
    ensures k < Steps(p, q) && !RoundFits(p, q, k) ==> !NoOverflow(p, q)
    ensures k == Steps(p, q) && (forall l :: 0 <= l < k ==> RoundFits(p, q, l)) ==> NoOverflow(p, q)
  {
    hide RoundFits;
  }

  /** An error term that has left the range by an addition makes the next round fail; the last one does not. */
  lemma NextFits(p: Point, q: Point, k: nat)
    ensures k < Steps(p, q) <= INT_MAX && ErrorAt(p, q, k + 1) > INT_MAX ==>
      k + 1 < Steps(p, q) && !RoundFits(p, q, k + 1) && !NoOverflow(p, q)
  {
    ErrorEnds(p, q);
    hide ErrorAt;
  }

  class Screen {
    const width: nat
    const height: nat
    const pitch: nat
    const pixels: array<nat>

    ghost predicate Valid() { width <= pitch && height * pitch <= pixels.Length }

    ghost function Shown(): Frame
      reads pixels
    {
      Frame(width, height, pitch, pixels[..])
    }

    /** `set_pixel`. */
    method SetPixel(p: Point, color: nat)
      requires Valid()
      modifies pixels
      ensures Shown() == Paint(old(Shown()), p, color)
      ensures forall w :: 0 <= w < pixels.Length ==>
        pixels[w] == if IsWord(Shown(), p, w) then color else old(pixels[w])
    {
      if 0 <= p.x < width && 0 <= p.y < height {
        PixelInside(Shown(), p.x, p.y);
        pixels[p.y * pitch + p.x] := color;
      }
    }

    /**
    `draw_line`, up to the first operation on the error term that leaves the `int` range, if there is one: from
    there on the program's behaviour is undefined. The loop ends although its text has no bound.
    */
    method DrawLine(p: Point, q: Point, color: nat) returns (overflows: bool, ghost plotted: nat)
      requires Valid()
      requires 0 <= p.x <= INT_MAX && 0 <= p.y <= INT_MAX && 0 <= q.x <= INT_MAX && 0 <= q.y <= INT_MAX
      modifies pixels
      ensures overflows <==> !NoOverflow(p, q)
      ensures plotted <= |Line(p, q)| && (!overflows ==> plotted == |Line(p, q)|)
      ensures Shown() == PaintAll(old(Shown()), Line(p, q)[..plotted], color)
      ensures overflows ==> 0 < plotted <= Steps(p, q) && (RoundFits(p, q, plotted - 1) ==>
        plotted < Steps(p, q) && !RoundFits(p, q, plotted))
    {
      var dx := Abs(q.x - p.x);
      var sx := Sign(p.x, q.x);
      var dy: int := 0 - Abs(q.y - p.y);
      var sy := Sign(p.y, q.y);
      var err: int := dx + dy;
      var x, y := p.x, p.y;
      ghost var a, b, m := Abs(q.x - p.x), Abs(q.y - p.y), Steps(p, q);
      ghost var i, j, k := 0, 0, 0;
      LineEnds(p, q);
      StartOnTrack(a, b);
      hide Round, PointAt, Near, OnTrack, Paint, ErrorAt, RoundFits, NoOverflow, Sign;
      while true
        invariant k <= m && Point(x, y) == PointAt(p, q, k)
        invariant m > 0 ==> OnTrack(a, b, i, j, k, err)
        invariant forall l :: 0 <= l < k ==> RoundFits(p, q, l)
        invariant Shown() == PaintAll(old(Shown()), Line(p, q)[..k], color)
        decreases m - k
      {
        SetPixel(Point(x, y), color);
        assert Line(p, q)[..k + 1][..k] == Line(p, q)[..k];
        if x == q.x && y == q.y {
          if k < m {
            EndsOnce(p, q, k);
          }
          assert Line(p, q)[..k + 1] == Line(p, q);
          FitsIff(p, q, k);
          return false, k + 1;
        }
        LoopStep(p, q, i, j, k, err);
        FitsIff(p, q, k);
        if !(INT_MIN <= 2 * err <= INT_MAX) {
          return true, k + 1;
        }
        var e2 := 2 * err;
        if e2 >= dy {
          if err + dy < INT_MIN {
            return true, k + 1;
          }
          err := err + dy;
          x := x + sx;
          i := i + 1;
        }
        if e2 <= dx {
          if err + dx > INT_MAX {
            NextFits(p, q, k);
            return true, k + 1;
          }
          err := err + dx;
          y := y + sy;
          j := j + 1;
        }
        k := k + 1;
      }
    }
  }

  /** The end point is not reached before the last step. */
  lemma EndsOnce(p: Point, q: Point, k: nat)
    requires k < Steps(p, q)
    ensures PointAt(p, q, k) != q
  {
    hide Round;
    RoundFull(Steps(p, q), k);
  }
}
