/**
 * The edit-transaction discipline of a text widget's undo history (`TextHistory`): an edit is
 * opened, filled with primitive operations and closed into the bounded history; undo and redo
 * take an edit back out and restore the cursor state captured around it. A panic of the source
 * is a returned `Panic` status with nothing changed.
 */
module TextHistory {
  import opened Wrappers
  import opened TextEdit
  import opened UndoHistory

  datatype Status = Done | Panic(msg: string)

  /** The cursor after restoring `state` over the current cursor `cur` (restoreCursorState). */
  function Restored(cur: CursorState, state: CursorState): (r: CursorState)
    ensures r.index == state.index && r.selectionOn == state.selectionOn
    ensures state.selectionOn ==> r == state
    ensures !state.selectionOn ==> r.selectionIndex == cur.selectionIndex
  {
    if state.selectionOn then CursorState(state.index, true, state.selectionIndex)
    else cur.(selectionOn := false).(index := state.index)
  }

  /**
   * What restoreCursorState makes visible: the cursor index without a selection, otherwise the
   * selected range from its lower end, with a length that is never negative.
   */
  function VisibleAfter(c: CursorState): (v: Visible)
    ensures !c.selectionOn ==> v == IndexVisible(c.index)
    ensures c.selectionOn ==>
      v.RangeVisible? && v.len >= 0 &&
      v.index == (if c.index <= c.selectionIndex then c.index else c.selectionIndex) &&
      v.index + v.len == (if c.index <= c.selectionIndex then c.selectionIndex else c.index)
  {
    if !c.selectionOn then IndexVisible(c.index)
    else
      var (a, b) := SelectionIndexes(c);
      RangeVisible(a, b - a)
  }

  /** The modifier keys of a key event. */
  datatype Modifier = Shift | Ctrl | Alt | Meta | CapsLock | NumLock

  /** The input events the history handles: key presses, with their lower-cased rune. */
  datatype Event =
    | KeyDown(mods: set<Modifier>, lowerRune: char)
    | OtherEvent

  datatype Handle = Handled | NotHandled

  /** Mods.ClearLocks: the modifiers without the lock keys. */
  function ClearLocks(mods: set<Modifier>): set<Modifier>
  {
    mods - {CapsLock, NumLock}
  }

  /** The history command an event asks for: Some(true) to redo, Some(false) to undo. */
  function KeyCommand(ev: Event): Option<bool>
  {
    match ev
    case OtherEvent => None
    case KeyDown(mods, r) =>
      if ClearLocks(mods) == {Ctrl, Shift} then (if r == 'z' then Some(true) else None)
      else if ClearLocks(mods) == {Ctrl} then (if r == 'z' then Some(false) else None)
      else None
  }

  /**
   * Ctrl+Shift+Z redoes and Ctrl+Z undoes, whatever the lock keys; every other event, such as
   * Ctrl+Alt+Z, plain Z or Ctrl+Y, asks for nothing.
   */
  lemma KeyCommandSpec(ev: Event)
    ensures KeyCommand(ev) == Some(true) <==>
      ev.KeyDown? && ev.mods - {CapsLock, NumLock} == {Ctrl, Shift} && ev.lowerRune == 'z'
    ensures KeyCommand(ev) == Some(false) <==>
      ev.KeyDown? && ev.mods - {CapsLock, NumLock} == {Ctrl} && ev.lowerRune == 'z'
  {
  }

  class TextHistory {
    var hist: History
    const te: TextEdit
    /** The edit being recorded, if any: the history is Recording exactly when this is Some. */
    var edit: Option<Edit>

    /** Every committed edit has its post-state; an open edit has none yet. */
    ghost predicate Valid()
      reads this, hist
    {
      hist.Valid() &&
      (forall q :: 0 <= q < |hist.entries| ==> hist.entries[q].postState.Some?) &&
      (edit.Some? ==> edit.value.postState.None?)
    }

    /** NewTextHistory: an idle history bounded to 128 edits. */
    constructor (te: TextEdit)
      ensures Valid() && this.te == te && edit == None
      ensures fresh(hist) && hist.max == 128 && hist.entries == [] && hist.pos == 0
    {
      hist := new History(128);
      this.te := te;
      edit := None;
    }

    /** BeginEdit: opens an edit holding the current cursor state; a second one panics. */
    method BeginEdit() returns (st: Status)
      requires Valid()
      modifies this`edit
      ensures Valid()
      ensures old(edit).Some? ==> st == Panic("already editing") && edit == old(edit)
      ensures old(edit).None? ==> st == Done && edit == Some(Edit(te.cursor, None, []))
    {
      if edit.Some? {
        return Panic("already editing");
      }
      edit := Some(Edit(te.cursor, None, []));
      st := Done;
    }

    /**
     * EndEdit: records the post-state, commits the edit to the history and always leaves no
     * edit open; without an open edit the source dereferences nil and panics.
     */
    method EndEdit() returns (st: Status)
      requires Valid()
      modifies this`edit, hist
      ensures Valid() && edit == None && hist == old(hist)
      ensures old(edit).None? ==> st == Panic("nil edit") && unchanged(hist)
      ensures old(edit).Some? ==>
        st == Done &&
        hist.entries == AppendEntries(old(hist.entries), old(hist.pos), hist.max,
                                      old(edit).value.(postState := Some(te.cursor))) &&
        hist.pos == |hist.entries|
    {
      if edit.None? {
        return Panic("nil edit");
      }
      var e := edit.value.(postState := Some(te.cursor));
      hist.Append(e);
      edit := None;
      st := Done;
    }

    /** Append: adds a primitive operation to the open edit. */
    method Append(ur: UndoRedo) returns (st: Status)
      requires Valid()
      modifies this`edit
      ensures Valid()
      ensures old(edit).None? ==> st == Panic("nil edit") && edit == None
      ensures old(edit).Some? ==> st == Done && edit == Some(old(edit).value.(ops := old(edit).value.ops + [ur]))
    {
      if edit.None? {
        return Panic("nil edit");
      }
      edit := Some(edit.value.(ops := edit.value.ops + [ur]));
      st := Done;
    }

    /** restoreCursorState: sets the cursor through its setters, then scrolls it into view. */
    method RestoreCursorState(state: CursorState)
      modifies te`cursor, te`visible
      ensures te.cursor == Restored(old(te.cursor), state)
      ensures te.visible == VisibleAfter(te.cursor)
    {
      if state.selectionOn {
        te.SetSelection(state.selectionIndex, state.index);
      } else {
        te.SetSelectionOff();
        te.SetIndex(state.index);
      }
      if !te.cursor.selectionOn {
        te.MakeIndexVisible(te.cursor.index);
      } else {
        var a, b := te.cursor.selectionIndex, te.cursor.index;
        if a > b {
          a, b := b, a;
        }
        te.MakeRangeVisible(a, b - a);
      }
    }

    /**
     * undoRedo: panics while the cursor is inside an edit; does nothing when there is no edit
     * in that direction; otherwise moves the history position and restores the cursor state
     * captured after the edit (redo) or before it (undo).
     */
    method UndoRedo(redo: bool) returns (st: Status)
      requires Valid()
      modifies hist`pos, te`cursor, te`visible
      ensures Valid()
      ensures old(te.editing) ==> st == Panic("editing") && unchanged(hist) && unchanged(te)
      ensures !old(te.editing) ==> st == Done && hist.entries == old(hist.entries)
      ensures !old(te.editing) && redo && old(hist.pos) == |hist.entries| ==>
        hist.pos == old(hist.pos) && unchanged(te)
      ensures !old(te.editing) && redo && old(hist.pos) < |hist.entries| ==>
        hist.pos == old(hist.pos) + 1 &&
        te.cursor == Restored(old(te.cursor), hist.entries[old(hist.pos)].postState.value) &&
        te.visible == VisibleAfter(te.cursor)
      ensures !old(te.editing) && !redo && old(hist.pos) == 0 ==>
        hist.pos == old(hist.pos) && unchanged(te)
      ensures !old(te.editing) && !redo && old(hist.pos) > 0 ==>
        hist.pos == old(hist.pos) - 1 &&
        te.cursor == Restored(old(te.cursor), hist.entries[old(hist.pos) - 1].preState) &&
        te.visible == VisibleAfter(te.cursor)
    {
      if te.editing {
        return Panic("editing");
      }
      var e := hist.UndoRedo(redo);
      st := Done;
      if e.None? {
        return;
      }
      var state := if redo then e.value.postState.value else e.value.preState;
      RestoreCursorState(state);
    }

    method Undo() returns (st: Status)
      requires Valid()
      modifies hist`pos, te`cursor, te`visible
      ensures Valid()
      ensures old(te.editing) ==> st == Panic("editing") && unchanged(hist) && unchanged(te)
      ensures !old(te.editing) ==> st == Done && hist.entries == old(hist.entries)
      ensures !old(te.editing) && old(hist.pos) == 0 ==> hist.pos == 0 && unchanged(te)
      ensures !old(te.editing) && old(hist.pos) > 0 ==>
        hist.pos == old(hist.pos) - 1 &&
        te.cursor == Restored(old(te.cursor), hist.entries[hist.pos].preState) &&
        te.visible == VisibleAfter(te.cursor)
    {
      st := UndoRedo(false);
    }

    method Redo() returns (st: Status)
      requires Valid()
      modifies hist`pos, te`cursor, te`visible
      ensures Valid()
      ensures old(te.editing) ==> st == Panic("editing") && unchanged(hist) && unchanged(te)
      ensures !old(te.editing) ==> st == Done && hist.entries == old(hist.entries)
      ensures !old(te.editing) && old(hist.pos) == |hist.entries| ==> hist.pos == old(hist.pos) && unchanged(te)
      ensures !old(te.editing) && old(hist.pos) < |hist.entries| ==>
        hist.pos == old(hist.pos) + 1 &&
        te.cursor == Restored(old(te.cursor), hist.entries[old(hist.pos)].postState.value) &&
        te.visible == VisibleAfter(te.cursor)
    {
      st := UndoRedo(true);
    }

    /** HandleInputEvent: Ctrl+Shift+Z redoes, Ctrl+Z undoes; only those two are handled. */
    method HandleInputEvent(ev: Event) returns (h: Handle, st: Status)
      requires Valid()
      modifies hist`pos, te`cursor, te`visible
      ensures Valid()
      ensures h == (if KeyCommand(ev).Some? then Handled else NotHandled)
      ensures KeyCommand(ev).None? ==> st == Done && unchanged(hist) && unchanged(te)
      ensures KeyCommand(ev).Some? && old(te.editing) ==> st == Panic("editing") && unchanged(hist) && unchanged(te)
      ensures KeyCommand(ev).Some? && !old(te.editing) ==> st == Done && hist.entries == old(hist.entries)
      ensures KeyCommand(ev) == Some(true) && !old(te.editing) && old(hist.pos) == |hist.entries| ==>
        hist.pos == old(hist.pos) && unchanged(te)
      ensures KeyCommand(ev) == Some(true) && !old(te.editing) && old(hist.pos) < |hist.entries| ==>
        hist.pos == old(hist.pos) + 1 &&
        te.cursor == Restored(old(te.cursor), hist.entries[old(hist.pos)].postState.value) &&
        te.visible == VisibleAfter(te.cursor)
      ensures KeyCommand(ev) == Some(false) && !old(te.editing) && old(hist.pos) == 0 ==>
        hist.pos == 0 && unchanged(te)
      ensures KeyCommand(ev) == Some(false) && !old(te.editing) && old(hist.pos) > 0 ==>
        hist.pos == old(hist.pos) - 1 &&
        te.cursor == Restored(old(te.cursor), hist.entries[hist.pos].preState) &&
        te.visible == VisibleAfter(te.cursor)
    {
      h, st := NotHandled, Done;
      if ev.KeyDown? {
        if ClearLocks(ev.mods) == {Ctrl, Shift} {
          if ev.lowerRune == 'z' {
            st := Redo();
            h := Handled;
          }
        } else if ClearLocks(ev.mods) == {Ctrl} {
          if ev.lowerRune == 'z' {
            st := Undo();
            h := Handled;
          }
        }
      }
    }
  }
}
