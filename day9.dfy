/**
 * Day 9: red tiles at integer coordinates; any two of them are opposite corners of a
 * rectangle of tiles, corners included. The answer is the largest such rectangle's area.
 */
module Day9 {
  import opened Common
  import opened PyText

  datatype Point = Point(x: int, y: int)

  // ---------------------------------------------------------------------------------------
  // Reading the points.

  /** `x, y = map(int, line.strip().split(','))`: two fields, each an integer, else ValueError. */
  function PointOf(line: string): Option<Point>
  {
    var parts := Split(Strip(line), ',');
    if |parts| != 2 then None
    else
      match (ParseInt(parts[0]), ParseInt(parts[1]))
      case (Some(x), Some(y)) => Some(Point(x, y))
      case _ => None
  }

  /** The points of the non-blank lines, or `None` from the first line that does not parse. */
  function PointsOf(lines: seq<string>): (r: Option<seq<Point>>)
  {
    if lines == [] then Some([]) else Extend(PointsOf(lines[..|lines| - 1]), lines[|lines| - 1])
  }

  /** One more line: blank lines are skipped, any other line adds its point or fails. */
  function Extend(read: Option<seq<Point>>, line: string): Option<seq<Point>>
  {
    match read
    case None => None
    case Some(ps) =>
      if Strip(line) == [] then Some(ps)
      else
        match PointOf(line)
        case None => None
        case Some(p) => Some(ps + [p])
  }

  lemma PointsPrefix(lines: seq<string>, k: nat)
    requires k < |lines|
    ensures PointsOf(lines[..k + 1]) == Extend(PointsOf(lines[..k]), lines[k])
  {
    assert lines[..k + 1][..k] == lines[..k];
  }

  lemma {:induction false} PointsNoneStays(lines: seq<string>, k: nat)
    requires k <= |lines| && PointsOf(lines[..k]) == None
    ensures PointsOf(lines) == None
    decreases |lines| - k
  {
    if k < |lines| {
      assert lines[..k + 1][..k] == lines[..k];
      PointsNoneStays(lines, k + 1);
    } else {
      assert lines[..k] == lines;
    }
  }

  /** The reading loop of `solve`: blank lines skipped, one point per other line. */
  method ReadPoints(text: string) returns (r: Option<seq<Point>>)
    ensures r == PointsOf(Split(text, '\n'))
  {
    var lines := Split(text, '\n');
    var points := [];
    for k := 0 to |lines|
      invariant PointsOf(lines[..k]) == Some(points)
    {
      PointsPrefix(lines, k);
      if Strip(lines[k]) != [] {
        var p := PointOf(lines[k]);
        if p.None? {
          PointsNoneStays(lines, k + 1);
          return None;
        }
        points := points + [p.value];
      }
    }
    assert lines[..|lines|] == lines;
    return Some(points);
  }

  // ---------------------------------------------------------------------------------------
  // The largest rectangle.

  /** `(abs(x2-x1) + 1) * (abs(y2-y1) + 1)`: the tiles of the rectangle with corners `p`, `q`. */
  function Area(p: Point, q: Point): nat
  {
    (Abs(q.x - p.x) + 1) * (Abs(q.y - p.y) + 1)
  }

  /** Every rectangle holds at least its corner tile. */
  lemma AreaPositive(p: Point, q: Point)
    ensures Area(p, q) >= 1
  {
    var a, b := Abs(q.x - p.x), Abs(q.y - p.y);
    assert (a + 1) * (b + 1) == a * b + a + b + 1;
  }

  /** The two corners can be given in either order. */
  lemma AreaSymmetric(p: Point, q: Point)
    ensures Area(p, q) == Area(q, p)
  {
    assert Abs(q.x - p.x) == Abs(p.x - q.x) && Abs(q.y - p.y) == Abs(p.y - q.y);
  }

  /** The two rectangles worked out by hand next to the formula. */
  lemma WorkedExamples()
    ensures Area(Point(2, 5), Point(9, 7)) == 24
    ensures Area(Point(2, 5), Point(11, 1)) == 50
  {
  }

  /**
   * `m` is the largest area over all pairs of distinct positions, and 0 when there is no
   * pair.
   */
  predicate IsMaxArea(ps: seq<Point>, m: nat)
  {
    (forall i, j | 0 <= i < j < |ps| :: Area(ps[i], ps[j]) <= m)
    && (if |ps| < 2 then m == 0 else exists i, j :: 0 <= i < j < |ps| && Area(ps[i], ps[j]) == m)
  }

  /** The two nested loops of `solve`, keeping the largest area seen. */
  method MaxArea(ps: seq<Point>) returns (m: nat)
    ensures IsMaxArea(ps, m)
  {
    var n := |ps|;
    m := 0;
    ghost var wi, wj := 0, 0;
    for i := 0 to n
      invariant forall i', j' | 0 <= i' < i && i' < j' < n :: Area(ps[i'], ps[j']) <= m
      invariant m == 0 || (wi < wj < n && Area(ps[wi], ps[wj]) == m)
      invariant i >= 1 && n >= 2 ==> m > 0
    {
      ghost var m0 := m;
      for j := i + 1 to n
        invariant forall i', j' | 0 <= i' < i && i' < j' < n :: Area(ps[i'], ps[j']) <= m
        invariant forall j' | i < j' < j :: Area(ps[i], ps[j']) <= m
        invariant m == 0 || (wi < wj < n && Area(ps[wi], ps[wj]) == m)
        invariant m >= m0 && (j > i + 1 ==> m > 0)
      {
        var area := Area(ps[i], ps[j]);
        AreaPositive(ps[i], ps[j]);
        if area > m {
          m := area;
          wi, wj := i, j;
        }
      }
    }
    if n >= 2 {
      assert m > 0;
      assert Area(ps[wi], ps[wj]) == m;
    }
  }

  /** The answer is 0 exactly when there are fewer than two points. */
  lemma ZeroIffFewerThanTwo(ps: seq<Point>, m: nat)
    requires IsMaxArea(ps, m)
    ensures m == 0 <==> |ps| < 2
  {
    if |ps| >= 2 {
      AreaPositive(ps[0], ps[1]);
    }
  }

  /** At most one value is the largest area, so the specification fixes the answer. */
  lemma MaxAreaUnique(ps: seq<Point>, m1: nat, m2: nat)
    requires IsMaxArea(ps, m1) && IsMaxArea(ps, m2)
    ensures m1 == m2
  {
    if |ps| >= 2 {
      var i1, j1 :| 0 <= i1 < j1 < |ps| && Area(ps[i1], ps[j1]) == m1;
      var i2, j2 :| 0 <= i2 < j2 < |ps| && Area(ps[i2], ps[j2]) == m2;
    }
  }

  /** The answer does not change when the points are listed in reverse. */
  lemma MaxAreaReversed(ps: seq<Point>, m: nat)
    requires IsMaxArea(ps, m)
    ensures IsMaxArea(Reversed(ps), m)
  {
    var rs := Reversed(ps);
    var n := |ps|;
    forall i, j | 0 <= i < j < n
      ensures Area(rs[i], rs[j]) <= m
    {
      AreaSymmetric(rs[i], rs[j]);
      assert rs[i] == ps[n - 1 - i] && rs[j] == ps[n - 1 - j];
    }
    if n >= 2 {
      var i, j :| 0 <= i < j < n && Area(ps[i], ps[j]) == m;
      AreaSymmetric(ps[i], ps[j]);
      assert rs[n - 1 - j] == ps[j] && rs[n - 1 - i] == ps[i];
    }
  }

  function Reversed(ps: seq<Point>): (rs: seq<Point>)
    ensures |rs| == |ps| && forall k | 0 <= k < |ps| :: rs[k] == ps[|ps| - 1 - k]
  {
    seq(|ps|, k requires 0 <= k < |ps| => ps[|ps| - 1 - k])
  }

  /** `solve`: the largest area, or `None` when a line does not parse. */
  method Solve(text: string) returns (r: Option<nat>)
    ensures r.None? <==> PointsOf(Split(text, '\n')).None?
    ensures r.Some? ==> IsMaxArea(PointsOf(Split(text, '\n')).value, r.value)
  {
    var points := ReadPoints(text);
    if points.None? {
      return None;
    }
    var m := MaxArea(points.value);
    return Some(m);
  }
}
