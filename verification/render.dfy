/**
 * What a redraw of src/main.ts sends to the 2D canvas context, as a sequence
 * of drawing operations, and a small model of the canvas that gives those
 * operations their meaning: which polylines end up visible.
 */
module Render {

  /** A recorded mouse position, in canvas pixels. */
  datatype Point = Point(x: int, y: int)

  /** The canvas context calls the redraw makes, in the order it makes them. */
  datatype Op =
    | ClearRect(x: int, y: int, w: int, h: int)
    | SetStrokeStyle(color: string)
    | SetLineWidth(width: int)
    | BeginPath
    | MoveTo(p: Point)
    | LineTo(p: Point)
    | StrokePath

  /** The canvas is created 256 by 256 pixels. */
  const CanvasWidth := 256
  const CanvasHeight := 256

  /** Every marker line is drawn black, four pixels wide. */
  const MarkerColor := "black"
  const MarkerWidth := 4

  /** One `lineTo` per point, in order. */
  function LineTos(ps: seq<Point>): seq<Op>
  {
    if ps == [] then [] else LineTos(ps[..|ps| - 1]) + [LineTo(ps[|ps| - 1])]
  }

  /** The `i`-th line-to goes to the `i`-th point. */
  lemma {:induction false} LineTosShape(ps: seq<Point>)
    ensures |LineTos(ps)| == |ps|
    ensures forall i :: 0 <= i < |ps| ==> LineTos(ps)[i] == LineTo(ps[i])
  {
    if ps != [] {
      LineTosShape(ps[..|ps| - 1]);
    }
  }

  /**
   * The `display` of one marker line: style, a fresh path, `moveTo` the
   * first point, `lineTo` every later point in order, then stroke.
   */
  function StrokeOps(pts: seq<Point>): seq<Op>
    requires |pts| >= 1
  {
    [SetStrokeStyle(MarkerColor), SetLineWidth(MarkerWidth), BeginPath, MoveTo(pts[0])]
      + LineTos(pts[1..]) + [StrokePath]
  }

  /**
   * The shape of one marker line's operations: the fixed style, a fresh
   * path, `moveTo` the first point, `lineTo` each later point in order, and
   * a final stroke.
   */
  lemma StrokeOpsShape(pts: seq<Point>)
    requires |pts| >= 1
    ensures |StrokeOps(pts)| == |pts| + 4
    ensures StrokeOps(pts)[..3] == [SetStrokeStyle(MarkerColor), SetLineWidth(MarkerWidth), BeginPath]
    ensures StrokeOps(pts)[3] == MoveTo(pts[0])
    ensures forall i :: 1 <= i < |pts| ==> StrokeOps(pts)[3 + i] == LineTo(pts[i])
    ensures StrokeOps(pts)[|pts| + 3] == StrokePath
  {
    LineTosShape(pts[1..]);
  }

  ghost predicate AllDrawable(strokes: seq<seq<Point>>)
  {
    forall i :: 0 <= i < |strokes| ==> |strokes[i]| >= 1
  }

  /** Every stroke's operations, one stroke after another in list order. */
  function DrawAll(strokes: seq<seq<Point>>): seq<Op>
    requires AllDrawable(strokes)
  {
    if strokes == [] then []
    else DrawAll(strokes[..|strokes| - 1]) + StrokeOps(strokes[|strokes| - 1])
  }

  /** Drawing one more stroke of a list appends that stroke's operations. */
  lemma DrawAllSnoc(strokes: seq<seq<Point>>, i: nat)
    requires AllDrawable(strokes) && i < |strokes|
    ensures AllDrawable(strokes[..i]) && AllDrawable(strokes[..i + 1])
    ensures DrawAll(strokes[..i + 1]) == DrawAll(strokes[..i]) + StrokeOps(strokes[i])
  {
    assert strokes[..i + 1][..i] == strokes[..i];
  }

  /** `redraw`: clear the whole canvas, then display every command in order. */
  function Replay(strokes: seq<seq<Point>>): (ops: seq<Op>)
    requires AllDrawable(strokes)
    ensures ops != [] && ops[0] == ClearRect(0, 0, CanvasWidth, CanvasHeight)
  {
    [ClearRect(0, 0, CanvasWidth, CanvasHeight)] + DrawAll(strokes)
  }

  /*
   * A canvas context, reduced to what these operations touch: the current
   * stroke style and line width, the current path as a list of subpaths, and
   * the marks painted so far, in painting order.
   */

  datatype Mark =
    | Line(color: string, width: int, pts: seq<Point>)
    | Erase(x: int, y: int, w: int, h: int)

  datatype Surface = Surface(color: string, width: int, path: seq<seq<Point>>, marks: seq<Mark>)

  /**
   * What stroking one subpath paints: a line through its points, drawn with
   * the given style. A subpath of a single point has no segment and paints
   * nothing.
   */
  function Painted(color: string, width: int, pts: seq<Point>): seq<Mark>
  {
    if |pts| >= 2 then [Line(color, width, pts)] else []
  }

  /** What stroking a whole path paints: each subpath in turn. */
  function Outline(path: seq<seq<Point>>, color: string, width: int): (ms: seq<Mark>)
    ensures |ms| <= |path|
    ensures forall j :: 0 <= j < |ms| ==>
      ms[j].Line? && ms[j].color == color && ms[j].width == width && |ms[j].pts| >= 2
    ensures (forall i :: 0 <= i < |path| ==> |path[i]| < 2) ==> ms == []
    ensures (forall i :: 0 <= i < |path| ==> |path[i]| >= 2) ==>
      |ms| == |path| && forall i :: 0 <= i < |path| ==> ms[i] == Line(color, width, path[i])
  {
    if path == [] then []
    else Outline(path[..|path| - 1], color, width) + Painted(color, width, path[|path| - 1])
  }

  /**
   * The effect of one operation. A non-positive line width is ignored, and
   * `lineTo` with no subpath starts one, as the canvas does.
   */
  function Step(s: Surface, op: Op): Surface
  {
    match op
    case ClearRect(x, y, w, h) => s.(marks := s.marks + [Erase(x, y, w, h)])
    case SetStrokeStyle(c) => s.(color := c)
    case SetLineWidth(w) => if w > 0 then s.(width := w) else s
    case BeginPath => s.(path := [])
    case MoveTo(p) => s.(path := s.path + [[p]])
    case LineTo(p) =>
      if s.path == [] then s.(path := [[p]])
      else s.(path := s.path[..|s.path| - 1] + [s.path[|s.path| - 1] + [p]])
    case StrokePath => s.(marks := s.marks + Outline(s.path, s.color, s.width))
  }

  function Run(s: Surface, ops: seq<Op>): Surface
    decreases |ops|
  {
    if ops == [] then s else Run(Step(s, ops[0]), ops[1..])
  }

  ghost predicate CoversCanvas(m: Mark)
  {
    m.Erase? && m.x <= 0 && m.y <= 0 && m.x + m.w >= CanvasWidth && m.y + m.h >= CanvasHeight
  }

  /** What is on the canvas: the marks painted since it was last cleared whole. */
  ghost function Visible(marks: seq<Mark>): seq<Mark>
  {
    if marks == [] then []
    else if CoversCanvas(marks[|marks| - 1]) then []
    else Visible(marks[..|marks| - 1]) + [marks[|marks| - 1]]
  }

  /**
   * The picture a list of strokes should give: one black line of width 4 per
   * stroke that has a segment, in list order.
   */
  function Picture(strokes: seq<seq<Point>>): seq<Mark>
  {
    Outline(strokes, MarkerColor, MarkerWidth)
  }

  lemma {:induction false} RunAppend(s: Surface, a: seq<Op>, b: seq<Op>)
    ensures Run(s, a + b) == Run(Run(s, a), b)
    decreases |a|
  {
    if a == [] {
      assert a + b == b;
    } else {
      assert (a + b)[1..] == a[1..] + b;
      RunAppend(Step(s, a[0]), a[1..], b);
    }
  }

  /** Line-tos extend the one open subpath and paint nothing. */
  lemma {:induction false} RunLineTos(s: Surface, ps: seq<Point>)
    requires |s.path| == 1
    ensures Run(s, LineTos(ps)) == s.(path := [s.path[0] + ps])
  {
    if ps == [] {
      assert s.path[0] + ps == s.path[0];
    } else {
      var init, p := ps[..|ps| - 1], ps[|ps| - 1];
      RunAppend(s, LineTos(init), [LineTo(p)]);
      RunLineTos(s, init);
      assert s.path[0] + init + [p] == s.path[0] + ps;
    }
  }

  /**
   * Displaying one marker line paints exactly that polyline, black and 4
   * wide, when it has at least two points, and paints nothing when it has
   * only the point where the mouse went down.
   */
  lemma RunStroke(s: Surface, pts: seq<Point>)
    requires |pts| >= 1
    ensures |pts| >= 2 ==> Run(s, StrokeOps(pts)).marks == s.marks + [Line(MarkerColor, MarkerWidth, pts)]
    ensures |pts| == 1 ==> Run(s, StrokeOps(pts)).marks == s.marks
  {
    var head := [SetStrokeStyle(MarkerColor), SetLineWidth(MarkerWidth), BeginPath, MoveTo(pts[0])];
    var t := s.(color := MarkerColor, width := MarkerWidth, path := [[pts[0]]]);
    var s1 := s.(color := MarkerColor);
    var s2 := s1.(width := MarkerWidth);
    var s3 := s2.(path := []);
    assert Run(s3, head[3..]) == t by {
      assert head[3..][1..] == [];
    }
    assert Run(s2, head[2..]) == t by {
      assert head[2..][1..] == head[3..];
    }
    assert Run(s1, head[1..]) == t by {
      assert head[1..][1..] == head[2..];
    }
    assert Run(s, head) == t;
    RunAppend(s, head, LineTos(pts[1..]) + [StrokePath]);
    assert head + (LineTos(pts[1..]) + [StrokePath]) == StrokeOps(pts);
    RunAppend(t, LineTos(pts[1..]), [StrokePath]);
    RunLineTos(t, pts[1..]);
    assert [pts[0]] + pts[1..] == pts;
    assert [pts][..0] == [];
  }

  /** Displaying strokes in order paints their polylines in the same order. */
  lemma {:induction false} RunDrawAll(s: Surface, strokes: seq<seq<Point>>)
    requires AllDrawable(strokes)
    ensures Run(s, DrawAll(strokes)).marks == s.marks + Picture(strokes)
  {
    if strokes != [] {
      var init, last := strokes[..|strokes| - 1], strokes[|strokes| - 1];
      RunAppend(s, DrawAll(init), StrokeOps(last));
      RunDrawAll(s, init);
      RunStroke(Run(s, DrawAll(init)), last);
    }
  }

  lemma {:induction false} VisibleAfterClear(before: seq<Mark>, e: Mark, lines: seq<Mark>)
    requires CoversCanvas(e)
    requires forall i :: 0 <= i < |lines| ==> lines[i].Line?
    ensures Visible(before + [e] + lines) == lines
  {
    if lines == [] {
      assert before + [e] + lines == before + [e];
    } else {
      var init := lines[..|lines| - 1];
      assert before + [e] + lines == (before + [e] + init) + [lines[|lines| - 1]];
      VisibleAfterClear(before, e, init);
    }
  }

  /**
   * Whatever the canvas showed before, a redraw leaves exactly the committed
   * strokes with at least two points visible, in commit order, each as one
   * black polyline of width 4 through all of its points.
   */
  lemma ReplayShowsPicture(s: Surface, strokes: seq<seq<Point>>)
    requires AllDrawable(strokes)
    ensures Visible(Run(s, Replay(strokes)).marks) == Picture(strokes)
  {
    var e := ClearRect(0, 0, CanvasWidth, CanvasHeight);
    RunAppend(s, [e], DrawAll(strokes));
    var t := Step(s, e);
    assert Run(s, [e]) == t;
    RunDrawAll(t, strokes);
    VisibleAfterClear(s.marks, Erase(0, 0, CanvasWidth, CanvasHeight), Picture(strokes));
  }

  /** Stroking two paths one after the other paints the first's lines, then the second's. */
  lemma {:induction false} OutlineAppend(a: seq<seq<Point>>, b: seq<seq<Point>>, color: string, width: int)
    ensures Outline(a + b, color, width) == Outline(a, color, width) + Outline(b, color, width)
    decreases |b|
  {
    if b == [] {
      assert a + b == a;
    } else {
      var init, last := b[..|b| - 1], b[|b| - 1];
      assert a + b == (a + init) + [last];
      assert ((a + init) + [last])[..|a + init|] == a + init;
      OutlineAppend(a, init, color, width);
    }
  }

  /** A click with no drag adds nothing to the picture, wherever it sits among the strokes. */
  lemma ClickAddsNothing(before: seq<seq<Point>>, p: Point, after: seq<seq<Point>>)
    ensures Picture(before + [[p]] + after) == Picture(before + after)
  {
    var c, w := MarkerColor, MarkerWidth;
    assert Outline([[p]], c, w) == [] by {
      assert [[p]][..0] == [];
    }
    OutlineAppend(before, [[p]], c, w);
    assert Outline(before + [[p]], c, w) == Outline(before, c, w);
    OutlineAppend(before + [[p]], after, c, w);
    OutlineAppend(before, after, c, w);
  }

  /**
   * A click with no drag commits a stroke that a redraw leaves invisible:
   * the canvas shows what it would show without that stroke.
   */
  lemma ClickPaintsNothing(s: Surface, before: seq<seq<Point>>, p: Point, after: seq<seq<Point>>)
    requires AllDrawable(before) && AllDrawable(after)
    ensures AllDrawable(before + [[p]] + after)
    ensures Visible(Run(s, Replay(before + [[p]] + after)).marks) == Picture(before + after)
  {
    var strokes := before + [[p]] + after;
    forall i | 0 <= i < |strokes|
      ensures |strokes[i]| >= 1
    {
      if i < |before| {
        assert strokes[i] == before[i];
      } else if i > |before| {
        assert strokes[i] == after[i - |before| - 1];
      }
    }
    ReplayShowsPicture(s, strokes);
    ClickAddsNothing(before, p, after);
  }

  /**
   * When every committed stroke was dragged at least once, a redraw shows
   * each of them, and only them, in commit order.
   */
  lemma ReplayShowsDraggedStrokes(s: Surface, strokes: seq<seq<Point>>)
    requires forall i :: 0 <= i < |strokes| ==> |strokes[i]| >= 2
    ensures AllDrawable(strokes)
    ensures |Visible(Run(s, Replay(strokes)).marks)| == |strokes|
    ensures forall i :: 0 <= i < |strokes| ==>
      Visible(Run(s, Replay(strokes)).marks)[i] == Line(MarkerColor, MarkerWidth, strokes[i])
  {
    ReplayShowsPicture(s, strokes);
  }
}
