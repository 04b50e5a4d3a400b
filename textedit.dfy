/**
 * The text widget (`TextEdit`) and its cursor (`TextCursor`), as far as the highlighting rules
 * and the undo history use them. The widget's own source is not part of this model: these are
 * reference behaviours for the calls those two components make.
 */
module TextEdit {
  import opened Utf8

  /** TextCursorState: the cursor index and, when a selection is on, its other end. */
  datatype CursorState = CursorState(index: int, selectionOn: bool, selectionIndex: int)

  /** The last request to scroll part of the text into view. */
  datatype Visible =
    | NoRequest
    | IndexVisible(index: int)           // MakeIndexVisible(index)
    | RangeVisible(index: int, len: int) // MakeRangeVisible(index, len)

  /** The selection as an ordered pair of offsets (TextCursor.SelectionIndexes). */
  function SelectionIndexes(c: CursorState): (r: (int, int))
    ensures r.0 <= r.1
    ensures (r.0 == c.index && r.1 == c.selectionIndex) || (r.0 == c.selectionIndex && r.1 == c.index)
  {
    if c.index <= c.selectionIndex then (c.index, c.selectionIndex) else (c.selectionIndex, c.index)
  }

  class TextEdit {
    /** The text, read through the widget's reader. */
    var str: Str
    var cursor: CursorState
    /** The cursor is inside one of its own edits (what TextCursor.panicIfEditing tests). */
    var editing: bool
    var visible: Visible

    constructor (s: Str)
      ensures str == s && cursor == CursorState(0, false, 0) && !editing && visible == NoRequest
    {
      str := s;
      cursor := CursorState(0, false, 0);
      editing := false;
      visible := NoRequest;
    }

    /** TextCursor.SetSelection(anchor, index): a selection from `anchor` to `index`. */
    method SetSelection(anchor: int, index: int)
      modifies this`cursor
      ensures cursor == CursorState(index, true, anchor)
    {
      cursor := CursorState(index, true, anchor);
    }

    /** TextCursor.SetSelectionOff. */
    method SetSelectionOff()
      modifies this`cursor
      ensures cursor == old(cursor).(selectionOn := false)
    {
      cursor := cursor.(selectionOn := false);
    }

    /** TextCursor.SetIndex. */
    method SetIndex(index: int)
      modifies this`cursor
      ensures cursor == old(cursor).(index := index)
    {
      cursor := cursor.(index := index);
    }

    method MakeIndexVisible(index: int)
      modifies this`visible
      ensures visible == IndexVisible(index)
    {
      visible := IndexVisible(index);
    }

    method MakeRangeVisible(index: int, len: int)
      modifies this`visible
      ensures visible == RangeVisible(index, len)
    {
      visible := RangeVisible(index, len);
    }
  }
}
