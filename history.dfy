/**
 * The undo history the text history drives (`history.History` and `history.Edit`). Their own
 * package is not part of this model: this is a reference behaviour of a bounded list of edits
 * with a position, where appending drops the entries still pending redo and evicts the oldest
 * entries past the maximum.
 */
module UndoHistory {
  import opened Wrappers
  import opened TextEdit

  /** iout.UndoRedo: one primitive reversible operation, kept opaque. */
  datatype UndoRedo = UndoRedo(tag: nat)

  /**
   * history.Edit: the cursor state before the edit, the cursor state after it (set when the
   * edit ends) and the primitive operations recorded while it was open.
   */
  datatype Edit = Edit(preState: CursorState, postState: Option<CursorState>, ops: seq<UndoRedo>)

  /** The entries after appending `e` at position `pos`: forward entries dropped, oldest evicted. */
  function AppendEntries(entries: seq<Edit>, pos: nat, max: nat, e: Edit): (r: seq<Edit>)
    requires pos <= |entries| && 0 < max
    ensures 0 < |r| <= max && r[|r| - 1] == e
    ensures |r| == if pos + 1 <= max then pos + 1 else max
    ensures forall q :: 0 <= q < |r| - 1 ==> r[q] == entries[pos + 1 - |r| + q]
  {
    var kept := entries[..pos] + [e];
    if |kept| > max then kept[|kept| - max..] else kept
  }

  class History {
    var entries: seq<Edit>
    /** The number of entries that are done; undo takes entries[pos - 1], redo entries[pos]. */
    var pos: nat
    const max: nat

    ghost predicate Valid()
      reads this
    {
      0 < max && pos <= |entries| <= max
    }

    /** history.NewHistory(max): an empty history. */
    constructor (max: nat)
      requires 0 < max
      ensures Valid() && this.max == max && entries == [] && pos == 0
    {
      this.max := max;
      entries := [];
      pos := 0;
    }

    /** Append: the edit becomes the last entry and the position moves past it. */
    method Append(e: Edit)
      requires Valid()
      modifies this
      ensures Valid()
      ensures entries == AppendEntries(old(entries), old(pos), max, e) && pos == |entries|
    {
      entries := AppendEntries(entries, pos, max, e);
      pos := |entries|;
    }

    /** UndoRedo(redo): the edit to redo or to undo, moving the position, or None at either end. */
    method UndoRedo(redo: bool) returns (e: Option<Edit>)
      requires Valid()
      modifies this`pos
      ensures Valid()
      ensures redo ==>
        if old(pos) < |entries| then e == Some(entries[old(pos)]) && pos == old(pos) + 1
        else e == None && pos == old(pos)
      ensures !redo ==>
        if old(pos) > 0 then e == Some(entries[old(pos) - 1]) && pos == old(pos) - 1
        else e == None && pos == old(pos)
    {
      if redo {
        if pos < |entries| {
          e := Some(entries[pos]);
          pos := pos + 1;
        } else {
          e := None;
        }
      } else {
        if pos > 0 {
          e := Some(entries[pos - 1]);
          pos := pos - 1;
        } else {
          e := None;
        }
      }
    }
  }
}
