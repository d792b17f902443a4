/**
 * The drawing state of src/main.ts and its mouse and button handlers.
 *
 * The source keeps two module-level arrays of command objects and a variable
 * naming the stroke being drawn. The arrays hold references: the stroke that
 * mouse-down creates is the same object as the tail of `commands`, and
 * mouse-move grows that object's `points` in place. The model keeps exactly
 * that sharing: `commands` and `redo` are sequences of `MarkerLine`
 * references and `current` is a nullable reference, so a drag extends the
 * stroke wherever it now sits.
 */
module Sketch {
  import opened Render
  import Stacks

  /** A marker line command: an append-only list of points, never empty. */
  class MarkerLine {
    var points: seq<Point>

    /** A new line holds the single point where the mouse went down. */
    constructor (x: int, y: int)
      ensures points == [Point(x, y)]
    {
      points := [Point(x, y)];
    }

    /** `drag`: append one point at the end; earlier points stay as they were. */
    method Drag(x: int, y: int)
      modifies this
      ensures points == old(points) + [Point(x, y)]
    {
      points := points + [Point(x, y)];
    }

    /** `display`: the canvas calls that draw this line as one polyline. */
    method Display() returns (ops: seq<Op>)
      requires |points| >= 1
      ensures ops == StrokeOps(points)
    {
      ops := [SetStrokeStyle(MarkerColor), SetLineWidth(MarkerWidth), BeginPath, MoveTo(points[0])];
      for i := 1 to |points|
        invariant ops == [SetStrokeStyle(MarkerColor), SetLineWidth(MarkerWidth), BeginPath, MoveTo(points[0])]
                         + LineTos(points[1..i])
      {
        assert points[1..i + 1][..i - 1] == points[1..i];
        assert points[1..i + 1][i - 1] == points[i];
        ops := ops + [LineTo(points[i])];
      }
      assert points[1..|points|] == points[1..];
      ops := ops + [StrokePath];
    }
  }

  /** The point lists of a sequence of lines, in the same order. */
  ghost function PointsOf(lines: seq<MarkerLine>): (r: seq<seq<Point>>)
    reads lines
    ensures |r| == |lines|
    ensures forall i :: 0 <= i < |lines| ==> r[i] == lines[i].points
  {
    if lines == [] then [] else PointsOf(lines[..|lines| - 1]) + [lines[|lines| - 1].points]
  }

  /** The module-level drawing state: `commands`, `redoCommands`, `currentLineCommand`. */
  class DrawingState {
    var commands: seq<MarkerLine>
    var redo: seq<MarkerLine>
    var current: MarkerLine?

    /** The two lists as a stack pair. */
    ghost function Stacked(): Stacks.History<MarkerLine>
      reads this
    {
      Stacks.History(commands, redo)
    }

    /**
     * No line appears twice in the two lists, and every line, in a list or
     * being drawn, has at least one point.
     */
    ghost predicate Valid()
      reads this, commands, redo, current
    {
      Stacks.Disjoint(Stacked())
      && Drawable()
      && (forall i :: 0 <= i < |redo| ==> |redo[i].points| >= 1)
      && (current != null ==> |current.points| >= 1)
    }

    /** Every committed line has a first point to move to. */
    ghost predicate Drawable()
      reads this, commands
    {
      forall i :: 0 <= i < |commands| ==> |commands[i].points| >= 1
    }

    /** `Drawable` says of the committed lines what `AllDrawable` says of their point lists. */
    lemma DrawableMeansAllDrawable()
      ensures Drawable() <==> AllDrawable(Committed())
    {
    }

    /** The point lists of the committed commands, the ones a redraw shows. */
    ghost function Committed(): seq<seq<Point>>
      reads this, commands
    {
      PointsOf(commands)
    }

    /** A stroke is being drawn and it is the newest committed command. */
    ghost predicate StrokeInProgress()
      reads this
    {
      current != null && commands != [] && commands[|commands| - 1] == current
    }

    /** The page loads with no commands, nothing to redo and no stroke in progress. */
    constructor ()
      ensures Valid()
      ensures commands == [] && redo == [] && current == null
    {
      commands, redo, current := [], [], null;
    }

    /**
     * Mouse-down: a new line holding the down point becomes the current
     * stroke and the newest committed command at once, and the redo stack is
     * emptied.
     */
    method MouseDown(x: int, y: int)
      requires Valid()
      modifies this
      ensures Valid() && StrokeInProgress()
      ensures fresh(current) && current.points == [Point(x, y)]
      ensures Stacked() == Stacks.Commit(old(Stacked()), current)
    {
      var line := new MarkerLine(x, y);
      Stacks.DisjointAfterCommit(Stacked(), line);
      current := line;
      commands := commands + [line];
      redo := [];
    }

    /**
     * Mouse-move: only while exactly the primary button is held and a stroke
     * is current, the move point is appended to that stroke, wherever it
     * sits; no list changes and no other line changes.
     */
    method MouseMove(buttons: int, x: int, y: int)
      requires Valid()
      modifies current
      ensures Valid()
      ensures commands == old(commands) && redo == old(redo) && current == old(current)
      ensures current != null ==>
        current.points == if buttons == 1 then old(current.points) + [Point(x, y)] else old(current.points)
      ensures forall i :: 0 <= i < |commands| && commands[i] != current ==> commands[i].points == old(commands[i].points)
      ensures forall i :: 0 <= i < |redo| && redo[i] != current ==> redo[i].points == old(redo[i].points)
      ensures forall i :: 0 <= i < |commands| ==> old(commands[i].points) <= commands[i].points
      ensures forall i :: 0 <= i < |redo| ==> old(redo[i].points) <= redo[i].points
      ensures old(StrokeInProgress()) && buttons == 1 ==>
        Committed() == old(Committed()[..|commands| - 1]) + [old(current.points) + [Point(x, y)]]
      ensures buttons != 1 || current == null ==> Committed() == old(Committed())
    {
      if buttons == 1 && current != null {
        current.Drag(x, y);
        if old(StrokeInProgress()) {
          assert forall i :: 0 <= i < |commands| - 1 ==> commands[i] != current;
        }
      }
    }

    /** Mouse-up: no stroke is current any more; the lists are untouched. */
    method MouseUp()
      requires Valid()
      modifies this
      ensures Valid()
      ensures current == null && commands == old(commands) && redo == old(redo)
    {
      current := null;
    }

    /** Clear: the committed list is emptied; the redo stack is kept. */
    method Clear()
      requires Valid()
      modifies this
      ensures Valid()
      ensures Stacked() == Stacks.Clear(old(Stacked())) && current == old(current)
    {
      Stacks.DisjointAfterClear(Stacked());
      commands := [];
    }

    /** Undo: with something committed, the newest command moves onto the redo stack. */
    method Undo()
      requires Valid()
      modifies this
      ensures Valid()
      ensures Stacked() == Stacks.Undo(old(Stacked())) && current == old(current)
    {
      Stacks.DisjointAfterUndo(Stacked());
      if |commands| > 0 {
        var line := commands[|commands| - 1];
        commands, redo := commands[..|commands| - 1], redo + [line];
      }
    }

    /** Redo: with something undone, the top of the redo stack becomes the newest command. */
    method Redo()
      requires Valid()
      modifies this
      ensures Valid()
      ensures Stacked() == Stacks.Redo(old(Stacked())) && current == old(current)
    {
      Stacks.DisjointAfterRedo(Stacked());
      if |redo| > 0 {
        var line := redo[|redo| - 1];
        redo, commands := redo[..|redo| - 1], commands + [line];
      }
    }

    /** `redraw`: clear the canvas and display every committed command in order. */
    method Redraw() returns (ops: seq<Op>)
      requires Drawable()
      ensures AllDrawable(Committed()) && ops == Replay(Committed())
    {
      ghost var strokes := Committed();
      ops := [ClearRect(0, 0, CanvasWidth, CanvasHeight)];
      for i := 0 to |commands|
        invariant AllDrawable(strokes[..i])
        invariant ops == [ClearRect(0, 0, CanvasWidth, CanvasHeight)] + DrawAll(strokes[..i])
      {
        var part := commands[i].Display();
        DrawAllSnoc(strokes, i);
        ops := ops + part;
      }
      assert strokes[..|commands|] == strokes;
    }
  }
}
