/** Which cap loops ear clipping fills, and which it gives up although they are simple. */
module CapFilling {
  import opened Geometry
  import opened Chains
  import opened EarClip

  // ----- Convex loops -------------------------------------------------------------------------------

  /** Any three points, taken in order, turn left by more than the tolerance of the ear test. */
  ghost predicate LeftRing(q: seq<Vec2>) {
    forall i, j, k :: 0 <= i < j < k < |q| ==> Cross2(q[i], q[j], q[k]) > INSIDE_EPSILON
  }

  ghost predicate RightRing(q: seq<Vec2>) {
    forall i, j, k :: 0 <= i < j < k < |q| ==> Cross2(q[i], q[j], q[k]) < -INSIDE_EPSILON
  }

  /** A convex loop, run through in either direction, with a margin of the tolerance. */
  ghost predicate Convex(q: seq<Vec2>) { LeftRing(q) || RightRing(q) }

  /** The points that remain, in their order. */
  ghost function Picked(rest: seq<nat>, xy: seq<Vec2>): (r: seq<Vec2>)
    requires forall i :: 0 <= i < |rest| ==> rest[i] < |xy|
  {
    seq(|rest|, i requires 0 <= i < |rest| => xy[rest[i]])
  }

  lemma SwapCross(a: Vec2, b: Vec2, c: Vec2)
    ensures Cross2(c, a, b) == Cross2(a, b, c) && Cross2(c, b, a) == -Cross2(a, b, c)
  {
  }

  /** The second of the points that remain is an ear: the others lie beyond the line from the third to the first. */
  lemma SecondIsEar(rest: seq<nat>, xy: seq<Vec2>)
    requires |rest| > 3 && (forall i :: 0 <= i < |rest| ==> rest[i] < |xy|) && LeftRing(Picked(rest, xy))
    ensures IsEar(rest, 1, xy)
  {
    var q := Picked(rest, xy);
    assert Cross2(q[0], q[1], q[2]) > INSIDE_EPSILON;
    forall m | 0 <= m < |rest| ensures !Blocks(rest[m], rest[0], rest[1], rest[2], xy) {
      if m > 2 {
        assert Cross2(q[0], q[2], q[m]) > INSIDE_EPSILON;
        SwapCross(q[2], q[0], q[m]);
        SwapCross(q[0], q[2], q[m]);
      }
    }
  }

  lemma {:induction false} ConvexClips(rest: seq<nat>, xy: seq<Vec2>)
    requires (forall i :: 0 <= i < |rest| ==> rest[i] < |xy|) && LeftRing(Picked(rest, xy))
    ensures Clips(rest, xy)
    decreases |rest|
  {
    if |rest| > 3 {
      SecondIsEar(rest, xy);
      var k := FirstEar(rest, xy, 0);
      var q, less := Picked(rest, xy), Picked(Without(rest, k), xy);
      forall i | 0 <= i < |less| ensures less[i] == q[if i < k then i else i + 1] {
      }
      ConvexClips(Without(rest, k), xy);
    }
  }

  lemma {:induction false} RingArea(points: seq<Vec3>, frame: Frame, s: seq<nat>)
    requires |s| >= 2 && InLoop(s, points)
    ensures |s| > 2 && LeftRing(Coordinates(points, s, frame)) ==> CycleFlux(s, AreaForm(points, frame)) > INSIDE_EPSILON
    ensures |s| > 2 && RightRing(Coordinates(points, s, frame)) ==> CycleFlux(s, AreaForm(points, frame)) < -INSIDE_EPSILON
    ensures |s| == 2 ==> CycleFlux(s, AreaForm(points, frame)) == 0.0
  {
    var w, m, q := AreaForm(points, frame), |s| - 1, Coordinates(points, s, frame);
    if |s| == 2 {
      assert w(s[0], s[1]) == -w(s[1], s[0]);
      assert PathFlux(s[..1], w) == 0.0;
    } else {
      RingArea(points, frame, s[..m]);
      var less := Coordinates(points, s[..m], frame);
      assert forall i :: 0 <= i < m ==> less[i] == q[i];
      CutCorner(s, m, w);
      assert s[..m] + s[m + 1..] == s[..m];
      CrossIsFlux(points, frame, s[m - 1], s[m], s[0]);
      SwapCross(q[m - 1], q[m], q[0]);
      assert Cross2(q[0], q[m - 1], q[m]) == Cross2(q[m - 1], q[m], q[0]);
    }
  }

  /** Whatever its direction, a convex loop is filled. */
  lemma ConvexFills(points: seq<Vec3>, frame: Frame, loop: seq<nat>)
    requires InLoop(loop, points) && Convex(Coordinates(points, loop, frame))
    ensures Fillable(points, frame, loop)
  {
    if |loop| >= 3 {
      RingArea(points, frame, loop);
      var xy, n := Coordinates(points, loop, frame), |loop|;
      var reverse := CycleFlux(loop, AreaForm(points, frame)) < 0.0;
      var rest := StartPositions(n, reverse);
      var q := Picked(rest, xy);
      forall i, j, k | 0 <= i < j < k < n ensures Cross2(q[i], q[j], q[k]) > INSIDE_EPSILON {
        if reverse {
          assert Cross2(xy[n - 1 - k], xy[n - 1 - j], xy[n - 1 - i]) < -INSIDE_EPSILON;
          SwapCross(q[k], q[j], q[i]);
        }
      }
      ConvexClips(rest, xy);
    }
  }

  // ----- Loops of four points -----------------------------------------------------------------------

  /** How far the remaining polygon turns left at a position. */
  ghost function Turn(rest: seq<nat>, k: nat, xy: seq<Vec2>): (r: real)
    requires k < |rest| && forall i :: 0 <= i < |rest| ==> rest[i] < |xy|
  {
    Cross2(xy[rest[Before(k, |rest|)]], xy[rest[k]], xy[rest[After(k, |rest|)]])
  }

  /** The turns decide on their own whether a corner of a quadrangle can be cut off. */
  ghost predicate Corners(before: real, turn: real, after: real, opposite: real) {
    turn > MIN_AREA && (before < -INSIDE_EPSILON || after < -INSIDE_EPSILON || opposite > INSIDE_EPSILON)
  }

  lemma CornerOfFour(p: Vec2, c: Vec2, q: Vec2, v: Vec2)
    ensures !InTriangle(v, p, c, q) <==>
              Cross2(v, p, c) < -INSIDE_EPSILON || Cross2(c, q, v) < -INSIDE_EPSILON || Cross2(q, v, p) > INSIDE_EPSILON
  {
    SwapCross(p, c, v);
    SwapCross(v, p, c);
    SwapCross(p, v, q);
    SwapCross(q, p, v);
  }

  /** Corner k of a quadrangle turns left while a neighbour turns right or the opposite corner turns left. */
  ghost predicate CutsOff(rest: seq<nat>, k: nat, xy: seq<Vec2>)
    requires |rest| == 4 && k < 4 && forall i :: 0 <= i < 4 ==> rest[i] < |xy|
  {
    var p, q := Before(k, 4), After(k, 4);
    Corners(Turn(rest, p, xy), Turn(rest, k, xy), Turn(rest, q, xy), Turn(rest, After(q, 4), xy))
  }

  lemma EarOfFour(rest: seq<nat>, k: nat, xy: seq<Vec2>)
    requires |rest| == 4 && k < 4 && Distinct(rest) && forall i :: 0 <= i < 4 ==> rest[i] < |xy|
    ensures IsEar(rest, k, xy) <==> CutsOff(rest, k, xy)
  {
    var p, c, q, v := rest[Before(k, 4)], rest[k], rest[After(k, 4)], rest[After(After(k, 4), 4)];
    CornerOfFour(xy[p], xy[c], xy[q], xy[v]);
    assert Blocks(v, p, c, q, xy) <==> InTriangle(xy[v], xy[p], xy[c], xy[q]);
    assert forall i :: 0 <= i < 4 ==> rest[i] == p || rest[i] == c || rest[i] == q || rest[i] == v;
  }

  lemma FourClips(rest: seq<nat>, xy: seq<Vec2>)
    requires |rest| == 4 && Distinct(rest) && forall i :: 0 <= i < 4 ==> rest[i] < |xy|
    ensures Clips(rest, xy) <==> exists k :: 0 <= k < 4 && CutsOff(rest, k, xy)
  {
    forall k | 0 <= k < 4 ensures IsEar(rest, k, xy) <==> CutsOff(rest, k, xy) {
      EarOfFour(rest, k, xy);
    }
    var ear := FirstEar(rest, xy, 0);
    if ear < 4 { assert |Without(rest, ear)| == 3 && CutsOff(rest, ear, xy); }
  }

  /**
   * Exactly when a loop of four points is filled: it has an area, and one of its corners, in the direction of positive
   * area, turns left while a neighbour turns right or the opposite corner turns left, each by more than the tolerance.
   */
  lemma FourPoints(points: seq<Vec3>, frame: Frame, loop: seq<nat>)
    requires InLoop(loop, points) && |loop| == 4
    ensures var area, xy := CycleFlux(loop, AreaForm(points, frame)), Coordinates(points, loop, frame);
            var rest := StartPositions(4, area < 0.0);
            Fillable(points, frame, loop) <==> Abs(area) > MIN_AREA && exists k :: 0 <= k < 4 && CutsOff(rest, k, xy)
  {
    FourClips(StartPositions(4, CycleFlux(loop, AreaForm(points, frame)) < 0.0), Coordinates(points, loop, frame));
  }

  // ----- A simple loop that is refused --------------------------------------------------------------

  /** The corners of a square, one of them at the origin. */
  function Square(a: real): (r: seq<Vec2>) { [Vec2(0.0, 0.0), Vec2(a, 0.0), Vec2(a, a), Vec2(0.0, a)] }

  lemma FourFlux(s: seq<nat>, w: Cochain)
    requires |s| == 4
    ensures CycleFlux(s, w) == w(s[0], s[1]) + w(s[1], s[2]) + w(s[2], s[3]) + w(s[3], s[0])
  {
    assert s[..3][..2] == s[..2] && s[..2][..1] == s[..1];
    assert PathFlux(s[..1], w) == 0.0;
    assert PathFlux(s[..2], w) == w(s[0], s[1]) && PathFlux(s[..3], w) == PathFlux(s[..2], w) + w(s[1], s[2]);
  }

  lemma SquareArea(points: seq<Vec3>, frame: Frame, loop: seq<nat>, a: real)
    requires InLoop(loop, points) && Coordinates(points, loop, frame) == Square(a)
    ensures CycleFlux(loop, AreaForm(points, frame)) == 2.0 * Product(a, a)
  {
    var w, xy := AreaForm(points, frame), Square(a);
    FourFlux(loop, w);
    assert frame.Project(points[loop[0]]) == xy[0] && frame.Project(points[loop[1]]) == xy[1];
    assert frame.Project(points[loop[2]]) == xy[2] && frame.Project(points[loop[3]]) == xy[3];
  }

  lemma SquareTurn(a: real, k: nat)
    requires k < 4
    ensures Turn(StartPositions(4, false), k, Square(a)) == Product(a, a)
  {
  }

  lemma SquareCorner(a: real, k: nat)
    requires k < 4 && Product(a, a) > MIN_AREA
    ensures CutsOff(StartPositions(4, false), k, Square(a)) <==> Product(a, a) > INSIDE_EPSILON
  {
    SquareTurn(a, Before(k, 4));
    SquareTurn(a, k);
    SquareTurn(a, After(k, 4));
    SquareTurn(a, After(After(k, 4), 4));
  }

  /**
   * The tolerance of the ear test is absolute: a square is filled exactly when the square of its side exceeds it.  A
   * smaller one is refused, though it is convex and has an area.
   */
  lemma SquareFilled(points: seq<Vec3>, frame: Frame, loop: seq<nat>, a: real)
    requires InLoop(loop, points) && Coordinates(points, loop, frame) == Square(a) && Product(a, a) > MIN_AREA
    ensures CycleFlux(loop, AreaForm(points, frame)) > MIN_AREA
    ensures Fillable(points, frame, loop) <==> Product(a, a) > INSIDE_EPSILON
  {
    var rest := StartPositions(4, false);
    SquareArea(points, frame, loop, a);
    forall k | 0 <= k < 4 ensures CutsOff(rest, k, Square(a)) <==> Product(a, a) > INSIDE_EPSILON {
      SquareCorner(a, k);
    }
    FourClips(rest, Square(a));
    assert CutsOff(rest, 0, Square(a)) <==> Product(a, a) > INSIDE_EPSILON;
  }

  lemma FlatView(frame: Frame, p: Vec3)
    requires frame == Frame(Vec3(1.0, 0.0, 0.0), Vec3(0.0, 1.0, 0.0))
    ensures frame.Project(p) == Vec2(p.x, p.y)
  {
  }

  lemma FlatSquare(points: seq<Vec3>, frame: Frame, loop: seq<nat>, a: real)
    requires points == [Vec3(0.0, 0.0, 0.0), Vec3(a, 0.0, 0.0), Vec3(a, a, 0.0), Vec3(0.0, a, 0.0)]
    requires frame == Frame(Vec3(1.0, 0.0, 0.0), Vec3(0.0, 1.0, 0.0)) && loop == [0, 1, 2, 3]
    ensures InLoop(loop, points) && Coordinates(points, loop, frame) == Square(a)
  {
    var xy := Coordinates(points, loop, frame);
    forall i | 0 <= i < 4 ensures xy[i] == Square(a)[i] {
      FlatView(frame, points[i]);
    }
  }

  /** A square with a side of half a micrometre is refused. */
  lemma SmallSquareRefused(points: seq<Vec3>, frame: Frame, loop: seq<nat>, a: real)
    requires points == [Vec3(0.0, 0.0, 0.0), Vec3(a, 0.0, 0.0), Vec3(a, a, 0.0), Vec3(0.0, a, 0.0)] && a == 0.0000005
    requires frame == Frame(Vec3(1.0, 0.0, 0.0), Vec3(0.0, 1.0, 0.0)) && loop == [0, 1, 2, 3]
    ensures InLoop(loop, points) && CycleFlux(loop, AreaForm(points, frame)) > MIN_AREA && !Fillable(points, frame, loop)
  {
    assert Product(a, a) == 0.00000000000025;
    FlatSquare(points, frame, loop, a);
    SquareFilled(points, frame, loop, a);
  }
}
