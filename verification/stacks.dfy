/**
 * The stack discipline of the edit history in src/main.ts: a list of
 * committed commands whose tail is the most recent edit, and a redo stack
 * whose tail is the most recently undone edit. Everything here is generic in
 * the element type, because the source moves command *references* between
 * the two lists and never looks inside them.
 */
module Stacks {

  /** The committed commands (`commands`) and the redo stack (`redoCommands`). */
  datatype History<T> = History(commands: seq<T>, redo: seq<T>)

  function Last<T>(s: seq<T>): T
    requires s != []
  {
    s[|s| - 1]
  }

  function Reversed<T>(s: seq<T>): (r: seq<T>)
    ensures |r| == |s|
  {
    if s == [] then [] else [Last(s)] + Reversed(s[..|s| - 1])
  }

  /**
   * The timeline of a history: the committed commands followed by the undone
   * ones in the order in which a run of redos would bring them back.
   */
  function Timeline<T>(h: History<T>): seq<T>
  {
    h.commands + Reversed(h.redo)
  }

  /** Every element of either list, counted with multiplicity. */
  function Elements<T>(h: History<T>): multiset<T>
  {
    multiset(h.commands) + multiset(h.redo)
  }

  /**
   * No command occurs twice, within a list or across the two: each undone
   * command lives in exactly one place.
   */
  ghost predicate Disjoint<T>(h: History<T>)
  {
    (forall i, j | 0 <= i < j < |h.commands| :: h.commands[i] != h.commands[j])
    && (forall i, j | 0 <= i < j < |h.redo| :: h.redo[i] != h.redo[j])
    && (forall i, j | 0 <= i < |h.commands| && 0 <= j < |h.redo| :: h.commands[i] != h.redo[j])
  }

  /**
   * A fresh command is pushed onto the committed list and the redo stack is
   * emptied (the mouse-down handler).
   */
  function Commit<T>(h: History<T>, x: T): (r: History<T>)
    ensures Timeline(r) == h.commands + [x]
    ensures |r.commands| == |h.commands| + 1 && Last(r.commands) == x
    ensures Redo(r) == r
  {
    History(h.commands + [x], [])
  }

  /**
   * The undo button: the tail of the committed list moves onto the redo
   * stack; with nothing committed nothing changes.
   */
  function Undo<T>(h: History<T>): (r: History<T>)
    ensures |r.commands| + |r.redo| == |h.commands| + |h.redo|
    ensures h.commands != [] ==> r.redo != [] && Last(r.redo) == Last(h.commands) && |r.commands| == |h.commands| - 1
  {
    if |h.commands| > 0 then
      History(h.commands[..|h.commands| - 1], h.redo + [Last(h.commands)])
    else
      h
  }

  /**
   * The redo button: the top of the redo stack moves back onto the tail of
   * the committed list; with an empty redo stack nothing changes.
   */
  function Redo<T>(h: History<T>): (r: History<T>)
    ensures |r.commands| + |r.redo| == |h.commands| + |h.redo|
    ensures h.redo != [] ==> r.commands != [] && Last(r.commands) == Last(h.redo) && |r.redo| == |h.redo| - 1
  {
    if |h.redo| > 0 then
      History(h.commands + [Last(h.redo)], h.redo[..|h.redo| - 1])
    else
      h
  }

  /**
   * The clear button: only the committed list is emptied; the redo stack is
   * kept, and there is nothing left to undo.
   */
  function Clear<T>(h: History<T>): (r: History<T>)
    ensures Timeline(r) == Reversed(h.redo)
    ensures r.redo == h.redo
    ensures Undo(r) == r
  {
    History([], h.redo)
  }

  /** Undo only moves a command: both lists together hold the same commands. */
  lemma UndoKeepsElements<T>(h: History<T>)
    ensures Elements(Undo(h)) == Elements(h)
  {
    if h.commands != [] {
      assert h.commands == h.commands[..|h.commands| - 1] + [Last(h.commands)];
    }
  }

  /** Redo only moves a command: both lists together hold the same commands. */
  lemma RedoKeepsElements<T>(h: History<T>)
    ensures Elements(Redo(h)) == Elements(h)
  {
    if h.redo != [] {
      assert h.redo == h.redo[..|h.redo| - 1] + [Last(h.redo)];
    }
  }

  /** Undo changes nothing exactly when nothing is committed. */
  lemma UndoNoOpIffEmpty<T>(h: History<T>)
    ensures Undo(h) == h <==> h.commands == []
  {
  }

  /** Redo changes nothing exactly when the redo stack is empty. */
  lemma RedoNoOpIffEmpty<T>(h: History<T>)
    ensures Redo(h) == h <==> h.redo == []
  {
  }

  /** Undo moves the boundary between the two lists and nothing else. */
  lemma UndoKeepsTimeline<T>(h: History<T>)
    ensures Timeline(Undo(h)) == Timeline(h)
  {
  }

  /** Redo moves the boundary between the two lists and nothing else. */
  lemma RedoKeepsTimeline<T>(h: History<T>)
    ensures Timeline(Redo(h)) == Timeline(h)
  {
  }

  /** `k` presses of undo. */
  function UndoTimes<T>(h: History<T>, k: nat): (r: History<T>)
    requires k <= |h.commands|
    ensures |r.commands| == |h.commands| - k && |r.redo| == |h.redo| + k
  {
    if k == 0 then h else Undo(UndoTimes(h, k - 1))
  }

  /** `k` presses of redo. */
  function RedoTimes<T>(h: History<T>, k: nat): (r: History<T>)
    requires k <= |h.redo|
    ensures |r.commands| == |h.commands| + k && |r.redo| == |h.redo| - k
    decreases k
  {
    if k == 0 then h else RedoTimes(Redo(h), k - 1)
  }

  /** Undo immediately followed by redo restores both lists exactly. */
  lemma UndoThenRedo<T>(h: History<T>)
    requires h.commands != []
    ensures Redo(Undo(h)) == h
  {
  }

  /** Redo immediately followed by undo restores both lists exactly. */
  lemma RedoThenUndo<T>(h: History<T>)
    requires h.redo != []
    ensures Undo(Redo(h)) == h
  {
  }

  /** Rewinding `k` edits and replaying `k` edits gives back the same history. */
  lemma {:induction false} RewindReplay<T>(h: History<T>, k: nat)
    requires k <= |h.commands|
    ensures RedoTimes(UndoTimes(h, k), k) == h
  {
    if k > 0 {
      var g := UndoTimes(h, k - 1);
      RewindReplay(h, k - 1);
      UndoThenRedo(g);
      assert RedoTimes(Undo(g), k) == RedoTimes(Redo(Undo(g)), k - 1);
    }
  }

  /** After `k` undos the committed list is the first `|commands| - k` commands. */
  lemma {:induction false} UndoTimesPrefix<T>(h: History<T>, k: nat)
    requires k <= |h.commands|
    ensures UndoTimes(h, k).commands == h.commands[..|h.commands| - k]
  {
    if k > 0 {
      var g := UndoTimes(h, k - 1);
      UndoTimesPrefix(h, k - 1);
      assert g.commands[..|g.commands| - 1] == h.commands[..|h.commands| - k];
    }
  }

  /**
   * However many undos are pressed, the timeline stays the same: undo only
   * moves the boundary between what is shown and what can be redone.
   */
  lemma {:induction false} UndoTimesKeepsTimeline<T>(h: History<T>, k: nat)
    requires k <= |h.commands|
    ensures Timeline(UndoTimes(h, k)) == Timeline(h)
  {
    if k > 0 {
      var g := UndoTimes(h, k - 1);
      UndoTimesKeepsTimeline(h, k - 1);
      UndoKeepsTimeline(g);
    }
  }

  /** However many redos are pressed, the timeline stays the same. */
  lemma {:induction false} RedoTimesKeepsTimeline<T>(h: History<T>, k: nat)
    requires k <= |h.redo|
    ensures Timeline(RedoTimes(h, k)) == Timeline(h)
    decreases k
  {
    if k > 0 {
      RedoKeepsTimeline(h);
      RedoTimesKeepsTimeline(Redo(h), k - 1);
    }
  }

  /**
   * After `k` redos the committed list has gained the top `k` entries of the
   * redo stack, most recently undone first, and the redo stack keeps its
   * bottom `|redo| - k` entries.
   */
  lemma {:induction false} RedoTimesTakesTop<T>(h: History<T>, k: nat)
    requires k <= |h.redo|
    ensures RedoTimes(h, k).commands == h.commands + Reversed(h.redo)[..k]
    ensures RedoTimes(h, k).redo == h.redo[..|h.redo| - k]
    decreases k
  {
    if k == 0 {
      assert h.commands + Reversed(h.redo)[..0] == h.commands;
      assert h.redo[..|h.redo|] == h.redo;
    } else {
      var g := Redo(h);
      var init, x := h.redo[..|h.redo| - 1], Last(h.redo);
      assert g == History(h.commands + [x], init);
      RedoTimesTakesTop(g, k - 1);
      assert Reversed(h.redo) == [x] + Reversed(init);
      assert Reversed(h.redo)[..k] == [x] + Reversed(init)[..k - 1];
      assert init[..|init| - (k - 1)] == h.redo[..|h.redo| - k];
    }
  }

  /** A fresh edit after any undo leaves nothing to redo. */
  lemma CommitDropsRedo<T>(h: History<T>, x: T)
    ensures Redo(Commit(Undo(h), x)) == Commit(Undo(h), x)
    ensures Commit(Undo(h), x).redo == []
  {
  }

  /**
   * Clear leaves the redo stack alone, so an undone command can still be
   * brought back after a clear.
   */
  lemma ClearThenRedo<T>(h: History<T>)
    requires h.commands != []
    ensures Redo(Clear(Undo(h))) == History([Last(h.commands)], h.redo)
  {
  }

  /** Undo never duplicates a command: it only moves one. */
  lemma DisjointAfterUndo<T>(h: History<T>)
    requires Disjoint(h)
    ensures Disjoint(Undo(h))
  {
  }

  /** Redo never duplicates a command: it only moves one. */
  lemma DisjointAfterRedo<T>(h: History<T>)
    requires Disjoint(h)
    ensures Disjoint(Redo(h))
  {
  }

  /** Clear drops commands and so cannot duplicate one. */
  lemma DisjointAfterClear<T>(h: History<T>)
    requires Disjoint(h)
    ensures Disjoint(Clear(h))
  {
  }

  /** A commit of a command found in neither list keeps the lists duplicate-free. */
  lemma DisjointAfterCommit<T>(h: History<T>, x: T)
    requires Disjoint(h)
    requires x !in h.commands && x !in h.redo
    ensures Disjoint(Commit(h, x))
  {
  }
}
