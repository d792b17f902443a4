/**
 * Handler sequences from src/main.ts, proved from the handlers' contracts
 * alone, the way the page's event loop would run them.
 */
module Scenarios {
  import opened Render
  import opened Sketch
  import Stacks

  /** Pressing undo and then redo puts back exactly what was drawn. */
  method UndoThenRedo(d: DrawingState)
    requires d.Valid() && d.commands != []
    modifies d
    ensures d.Valid()
    ensures d.commands == old(d.commands) && d.redo == old(d.redo) && d.current == old(d.current)
  {
    ghost var h := d.Stacked();
    d.Undo();
    d.Redo();
    Stacks.UndoThenRedo(h);
  }

  /**
   * Clear is not a history edit: after undo and clear, redo still brings the
   * undone stroke back, and it is then the only thing on the page.
   */
  method ClearThenRedo(d: DrawingState)
    requires d.Valid() && d.commands != []
    modifies d
    ensures d.Valid()
    ensures d.commands == [old(d.commands[|d.commands| - 1])] && d.redo == old(d.redo)
  {
    ghost var h := d.Stacked();
    d.Undo();
    d.Clear();
    d.Redo();
    Stacks.ClearThenRedo(h);
  }

  /**
   * A fresh stroke after an undo leaves nothing to redo: the undone stroke is
   * gone for good.
   */
  method DrawAfterUndo(d: DrawingState, x: int, y: int)
    requires d.Valid() && d.commands != []
    modifies d
    ensures d.Valid()
    ensures d.commands == old(d.commands[..|d.commands| - 1]) + [d.current]
    ensures d.redo == [] && d.current != null && d.current.points == [Point(x, y)]
  {
    d.Undo();
    d.MouseDown(x, y);
    d.Redo();
  }

  /**
   * The stroke being drawn is shared, not copied. If the button is released
   * off the canvas (so no mouse-up reaches it) and undo is pressed, the
   * stroke sits on the redo stack but is still current, and a later move
   * with the button held grows the undone stroke; redo would bring it back
   * longer than it was when it was undone.
   */
  method DragAfterUndo(d: DrawingState, x: int, y: int)
    requires d.Valid() && d.StrokeInProgress()
    modifies d, d.current
    ensures d.Valid()
    ensures d.commands == old(d.commands[..|d.commands| - 1]) && d.redo == old(d.redo) + [old(d.current)]
    ensures d.current == old(d.current) && d.current.points == old(d.current.points) + [Point(x, y)]
  {
    d.Undo();
    d.MouseMove(1, x, y);
  }
}
