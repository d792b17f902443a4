# Painote edit history, modelled in Dafny

Painote is a single-page drawing app. Its whole behaviour lives in
`src/main.ts`. Each mouse-down starts a *marker line command*. The command
holds an append-only list of points and can display itself on a 256 by 256
canvas. The page keeps three pieces of module-level state:

- `commands`, the committed list;
- `redoCommands`, the redo stack;
- `currentLineCommand`, the line being drawn.

The mouse handlers and the clear, undo and redo buttons change that state.
Every frame, `redraw` clears the canvas and displays every committed command
in order.

This project models that state and its handlers, and proves the stack
discipline of the history and the meaning of a redraw.

- `stacks.dfy` (module `Stacks`) models the two lists as a value,
  `History<T>`. It is generic, because the handlers only move command
  references between the lists and never look inside them. It defines:
  - the four edits (commit, undo, redo, clear), as pure functions;
  - repeated undo and redo;
  - a *timeline*, which is the committed list followed by the redo stack in
    redo order;
  - the no-duplicates invariant.
- `render.dfy` (module `Render`) describes the canvas calls.
  - `StrokeOps` lists the calls of one `display`. `Replay` lists the calls of
    one `redraw`.
  - A small canvas interpreter gives these calls their meaning. It has a
    stroke style, a line width, a current path and the marks painted so far.
  - `ReplayShowsPicture` proves what a redraw leaves visible.
- `sketch.dfy` (module `Sketch`) is the imperative core.
  - Class `MarkerLine` is a marker line command. Its `points` field is
    updated in place by `Drag`.
  - Class `DrawingState` holds the module-level state. It has one method per
    handler, and each method that changes the lists is proved against the
    `Stacks` functions.
  - The lists hold *references*. `current` is the same object as the tail of
    `commands`, so a drag extends that stroke wherever it sits.
- `scenarios.dfy` (module `Scenarios`) chains handler calls the way the page
  runs them, using only the handlers' contracts.

The clear button empties only `commands` (`src/main.ts:120-123`). The redo
stack is kept, so undone strokes can still be redone after a clear
(`Stacks.ClearThenRedo`, `Scenarios.ClearThenRedo`).

## Model

| member | source | states |
|---|---|---|
| Sketch.MarkerLine.constructor | src/main.ts:35-36 | a new marker line holds exactly the one point where the mouse went down |
| Sketch.MarkerLine.Drag | src/main.ts:53-55 | drag appends the point at the end and leaves every earlier point as it was |
| Sketch.MarkerLine.Display | src/main.ts:41-51 | display emits exactly `StrokeOps(points)`: black, width 4, a new path, moveTo the first point, lineTo each later point in order, stroke |
| Render.LineTosShape | src/main.ts:47-49 | one lineTo per remaining point, and the i-th goes to the i-th point |
| Render.StrokeOpsShape | src/main.ts:41-51 | a line of n points gives n + 4 calls: style, width, beginPath, moveTo(points[0]), lineTo(points[i]) for each i >= 1, stroke |
| Render.DrawAllSnoc | src/main.ts:101 | displaying one more command appends exactly that command's calls after the earlier ones |
| Render.Replay | src/main.ts:99-101 | a redraw always starts by clearing the whole 256 by 256 canvas |
| Render.Outline | src/main.ts:50 | stroking a path paints only lines in the current style with at least two points, never more lines than subpaths; nothing for a path of single points; exactly one line per subpath, in order, when every subpath has a segment |
| Render.RunStroke | src/main.ts:41-51 | on the canvas, one display of a line with at least two points paints exactly one black polyline of width 4 through all of its points; a line holding only its down point paints nothing |
| Render.RunDrawAll | src/main.ts:101 | displaying the commands in order paints the polylines of those with a segment, in the same order |
| Render.ReplayShowsPicture | src/main.ts:99-101 | whatever the canvas showed before, after a redraw exactly the committed strokes with at least two points are visible, in commit order, each as one black width-4 polyline |
| Render.OutlineAppend | src/main.ts:50 | stroking two paths in turn paints the first's lines, then the second's |
| Render.ClickAddsNothing | src/main.ts:80-101 | a one-point stroke from a click with no drag, anywhere among the committed strokes, leaves the picture as it would be without it |
| Render.ClickPaintsNothing | src/main.ts:80-101 | a stroke made by a click with no drag is committed, but wherever it sits among the other strokes a redraw shows exactly what it would show without it |
| Render.ReplayShowsDraggedStrokes | src/main.ts:99-101 | when every committed stroke has at least two points, a redraw shows exactly one black width-4 line per stroke, the i-th through the i-th stroke's points |
| Sketch.DrawingState.constructor | src/main.ts:30-33 | the page starts with no commands, an empty redo stack and no current line |
| Sketch.DrawingState.MouseDown | src/main.ts:80-85 | a fresh line holding only the down point becomes the current line and the new tail of `commands`; the redo stack is emptied (`Stacks.Commit`); no line appears twice |
| Sketch.DrawingState.MouseMove | src/main.ts:87-92 | exactly when the primary button alone is held and a line is current, the point is appended to that line; no list changes, no other line changes, every line's points only grow; while drawing, the committed point lists change only in their last entry |
| Sketch.DrawingState.MouseUp | src/main.ts:94-97 | no line is current afterwards; both lists are untouched |
| Sketch.DrawingState.Clear | src/main.ts:120-123 | `commands` is emptied and the redo stack is kept (`Stacks.Clear`) |
| Sketch.DrawingState.Undo | src/main.ts:129-134 | the two lists change exactly as `Stacks.Undo`: the tail command moves onto the redo stack, and nothing happens when `commands` is empty |
| Sketch.DrawingState.Redo | src/main.ts:140-145 | the two lists change exactly as `Stacks.Redo`: the top of the redo stack moves back to the tail of `commands`, and nothing happens when the stack is empty |
| Sketch.DrawingState.Redraw | src/main.ts:99-101 | every committed line has a point to move to, and the calls emitted are exactly `Replay` of the committed point lists |
| Sketch.DrawingState.DrawableMeansAllDrawable | src/main.ts:45 | the committed lines all have a first point exactly when their point lists are all drawable |
| Sketch.PointsOf | src/main.ts:27 | the point lists of a list of lines, position by position |
| Stacks.Commit | src/main.ts:80-85 | the new command is the last committed one, the timeline is the old commands plus it, and nothing is left to redo |
| Stacks.Undo | src/main.ts:129-134 | the combined length is kept; with commands, the tail command becomes the top of the redo stack and `commands` shrinks by one |
| Stacks.Redo | src/main.ts:140-145 | the combined length is kept; with something to redo, the top of the redo stack becomes the last committed command |
| Stacks.Clear | src/main.ts:120-123 | the redo stack is kept, the timeline becomes just the redo stack in redo order, and undo afterwards does nothing |
| Stacks.UndoKeepsElements | src/main.ts:131 | undo moves a command and so keeps the multiset of all commands |
| Stacks.RedoKeepsElements | src/main.ts:142 | redo moves a command and so keeps the multiset of all commands |
| Stacks.UndoNoOpIffEmpty | src/main.ts:130 | undo changes nothing if and only if `commands` is empty |
| Stacks.RedoNoOpIffEmpty | src/main.ts:141 | redo changes nothing if and only if the redo stack is empty |
| Stacks.UndoKeepsTimeline | src/main.ts:129-134 | undo only moves the boundary between the two lists; the timeline is unchanged |
| Stacks.RedoKeepsTimeline | src/main.ts:140-145 | redo only moves the boundary between the two lists; the timeline is unchanged |
| Stacks.UndoTimes | src/main.ts:129-134 | k undos move k commands from `commands` to the redo stack |
| Stacks.RedoTimes | src/main.ts:140-145 | k redos move k commands from the redo stack to `commands` |
| Stacks.RedoTimesKeepsTimeline | src/main.ts:140-145 | any number of redos leaves the timeline unchanged |
| Stacks.RedoTimesTakesTop | src/main.ts:140-145 | after k redos, `commands` has gained the top k entries of the redo stack, most recently undone first, and the redo stack is its own bottom entries |
| Stacks.UndoThenRedo | src/main.ts:129-145 | undo followed by redo restores both lists exactly |
| Stacks.RedoThenUndo | src/main.ts:129-145 | redo followed by undo restores both lists exactly |
| Stacks.RewindReplay | src/main.ts:129-145 | k undos followed by k redos restore both lists exactly |
| Stacks.UndoTimesPrefix | src/main.ts:129-134 | after k undos, `commands` is its own first n - k entries |
| Stacks.UndoTimesKeepsTimeline | src/main.ts:129-134 | any number of undos leaves the timeline unchanged |
| Stacks.CommitDropsRedo | src/main.ts:83 | a new stroke after any undo leaves nothing to redo, and redo then does nothing |
| Stacks.ClearThenRedo | src/main.ts:120-145 | after undo then clear, redo brings back the undone command as the only committed one and keeps the rest of the redo stack |
| Stacks.DisjointAfterUndo | src/main.ts:131 | undo never makes a command appear twice across the two lists |
| Stacks.DisjointAfterRedo | src/main.ts:142 | redo never makes a command appear twice across the two lists |
| Stacks.DisjointAfterClear | src/main.ts:121 | clear never makes a command appear twice |
| Stacks.DisjointAfterCommit | src/main.ts:81-83 | committing a command found in neither list keeps the lists free of duplicates |
| Scenarios.UndoThenRedo | src/main.ts:129-145 | pressing undo then redo on the live state restores both lists and the current line |
| Scenarios.ClearThenRedo | src/main.ts:120-145 | after undo then clear, redo makes the undone stroke the only committed one and keeps the redo stack below it |
| Scenarios.DrawAfterUndo | src/main.ts:80-85 | after undo and a new mouse-down, redo does nothing: the undone stroke can no longer be redone |
| Scenarios.DragAfterUndo | src/main.ts:87-92 | with a stroke in progress, undo then a held-button move grows the stroke that now sits on the redo stack, because the lists share the line object |

## Left out

- The DOM is not modelled: the page title, the canvas and button elements, and the style sheet. Handlers are methods called directly.
- The `EventTarget` bus and `notify("drawing-changed")` are not modelled. A notification only asks for another redraw, and `Redraw` models that redraw.
- `tick` and `requestAnimationFrame` are not modelled, because they only repeat `redraw` every frame.
- Render.Step: a subpath whose points all coincide (a drag back to the down point) is recorded as a line, though with the canvas's default butt caps it paints nothing; only single-point subpaths are dropped.
- The real 2D context is not modelled. `Render.Op` records the calls made, and `Render.Step` interprets just what those calls touch. A `clearRect` smaller than the canvas is recorded but never erases part of a line.
- Mouse offsets are JavaScript numbers, which can be fractional. The model uses `int`, and no property depends on the difference.
- The commented-out cursor command is not modelled, because it is dead code.
- Sketch.DrawingState.Undo: states only what happens to the lists of references. The lines' points cannot change, because the method modifies only the state object. `Stacks.UndoKeepsElements` and `Stacks.UndoKeepsTimeline` give the rest.
- Sketch.DrawingState.Redo: states only what happens to the lists of references, for the same reason as undo.
- Sketch.DrawingState.Clear: states only what happens to the lists of references, for the same reason as undo.
- Sketch.DrawingState.Redraw: requires only that every committed line has a point. That is all the source needs. Every state reached through the handlers satisfies it as part of `Valid`.
