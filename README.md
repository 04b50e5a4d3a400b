# A verified model of the editor's core bookkeeping

This project models, in Dafny, seven parts of a text editor written in Go and proves what each
promises.

- **Text scanning** (`ParseUtil`, parseutil.dfy). Rune-level searches forwards and backwards,
  also with a budget of examined runes. Line start and line end. Line/column to offset and back.
  Filename escaping and unescaping. The word around an offset and the "isolated word" test.
- **Highlighting rules of the extended text widget** (`Highlight`, texteditx.dfy).
  - The selection segment and the flash segment.
  - Bracket matching: a depth-counter scan forwards or backwards, bounded by the visible range.
  - The occurrences of the word at the cursor.
- **The edit-transaction discipline of the undo history** (`TextHistory`, texthistory.dfy).
  - An edit is begun, filled and ended, then undone or redone.
  - The cursor state captured around each edit is restored.
  - A misuse panic is a returned `Panic` status with nothing changed.
- **File-identity reconciliation** (`RowInfo`, erowinfo.dfy).
  - The registry of views open on one file.
  - The row states derived from the saved hash, the disk hash and the view count.
  - Re-hashing keyed on the modification time.
  - The save, reload and view-creation protocols.
  - The filesystem is the `FileSystem` object, and sha1 an uninterpreted digest function.
  - Reading an existing file can fail, and a write can fail after its open has truncated the file.
  - The goimports pass is a transform that may fail.
- **Session bookkeeping** (`Sessions`, sessions.dfy).
  - Replace-or-append by name, delete by name and the sorted listing.
  - Restoring a session into the editor. Restoring is stated over the trace of actions it asks
    of the editor, and every row position is set only after every row exists.
- **The padding widget** (`Pad`, pad.dfy, over `Geometry`). Measuring the child, insetting it,
  and the border strips painted around it.
- **The pointer warp** (`PointerWarp`, ui.dfy). The clamp-or-centre rule applied to each
  coordinate of the pointer.

Three supporting modules are reference definitions of packages whose source is not part of this
model. The rest of the model relies on them:

- `Utf8`: Go strings as decoded runes with byte widths.
- `Iout`: the reader scans `iout.IndexFunc`, `iout.LastIndexFunc`, `iout.Index` and
  `iout.ReadNAt`.
- `TextEdit` and `UndoHistory`: the cursor setters, and the bounded edit list with a position.

Shared types are in wrappers.dfy (`Option`, `Result`) and geometry.dfy (`Point`, `Rect`).

## Model

| member | source | states |
|---|---|---|
| ParseUtil.IndexFunc | core/parseutil/misc.go:22-35 | the byte offset and size of the first rune whose answer is `truth` (the scan stops at an invalid rune), or -1 and 0; the captured predicate state is threaded through |
| ParseUtil.FirstMatchIsFirst | core/parseutil/misc.go:22-35 | the match has the wanted answer, every rune examined before it has the other answer, and no match means the text ended or an invalid rune was met |
| ParseUtil.LastIndexFunc | core/parseutil/misc.go:37-49 | the byte offset and size of the last rune whose answer is `truth`, scanning backwards, or -1 and 0 |
| ParseUtil.LastMatchIsLast | core/parseutil/misc.go:37-49 | the backward match has the wanted answer and every rune after it that was examined does not |
| ParseUtil.ExpandIndexFunc | core/parseutil/misc.go:54-71 | -1 exactly when more than `max` runes are examined; otherwise the offset of the first match, or the text length when none |
| ParseUtil.CountingFirst | core/parseutil/misc.go:54-71 | counting the predicate's calls leaves the forward search unchanged while the budget lasts, and exceeds the budget otherwise |
| ParseUtil.ExpandLastIndexFunc | core/parseutil/misc.go:74-93 | -1 exactly when more than `max` runes are examined; otherwise the offset just past the last match, or 0 when none |
| ParseUtil.CountingLast | core/parseutil/misc.go:74-93 | counting the calls leaves the backward search unchanged while the budget lasts |
| ParseUtil.LineStartIndex | core/parseutil/misc.go:97-105 | the result is 0 or follows a newline, is at most `index`, and no newline lies between it and `index` |
| ParseUtil.LineEndIndexNextIndex | core/parseutil/misc.go:107-113 | with a newline at or after `index`: the offset just past the first one, and true; otherwise the text length and false |
| ParseUtil.LineStartSkip | core/parseutil/misc.go:97-105 | offsets with no newline between them have the same line start |
| ParseUtil.ExpandLastIndexOfFilenameFmt | core/parseutil/misc.go:117-149 | -1 exactly when the backward filename scan looks at more than `max` runes; otherwise the byte offset just after the rune that stopped the scan (0 when none did), plus one exactly when the scan ended on an escape rune, which is then the rune it ended on |
| ParseUtil.FmtScan | core/parseutil/misc.go:117-149 | the escape flag and pending rune the scan's closure keeps always describe the rune where the scan stopped |
| ParseUtil.LineColumnIndex | core/parseutil/misc.go:153-178 | the offset of the rune at 1-based (line, column); the start of the line when the column is past its end; 0 when the line does not exist |
| ParseUtil.PositionUnique | core/parseutil/misc.go:153-178 | at most one rune stands at a given line and column |
| ParseUtil.IndexLineColumn | core/parseutil/misc.go:180-191 | the line is one more than the number of newlines; the column is the text length less the offset of the last newline, or less 0 without one |
| ParseUtil.IndexLineColumnColumn | core/parseutil/misc.go:180-191 | that column is one past the byte column of the end after a newline, but equal to it without one |
| ParseUtil.IndexLineColumnOffByOne | core/parseutil/misc.go:180-191 | the same last line "ab" gets column 2 alone and column 3 after "x\n" |
| ParseUtil.IndexLineColumnCorrected | core/parseutil/misc.go:180-191 | with the line start taken past the last newline, the column is always the 1-based byte column of the end |
| ParseUtil.CorrectedColumnOfLastLine | core/parseutil/misc.go:180-191 | corrected, the column of the last line does not depend on the lines before it |
| ParseUtil.EscapeFilename | core/parseutil/misc.go:281-290 | each rune of `FilenameEscapeRunes` is preceded by a backslash; every rune is copied in order |
| ParseUtil.UnescapeString | core/parseutil/misc.go:292-306 | every backslash is dropped and the rune it escapes kept |
| ParseUtil.UnescapeRunes | core/parseutil/misc.go:308-327 | a backslash is dropped only before a rune of `escapable` |
| ParseUtil.EscapeRoundTrip | core/parseutil/misc.go:281-327 | for valid text without backslashes, unescaping the escaped filename, either way, gives the text back |
| ParseUtil.UnescapeEscaped | core/parseutil/misc.go:281-327 | unescaping undoes escaping whenever every filename escape rune is dropped |
| ParseUtil.UnescapeRunesAllEscapable | core/parseutil/misc.go:292-327 | when every rune is escapable, UnescapeRunes agrees with UnescapeString |
| ParseUtil.WordIsolatedRunes | core/parseutil/misc.go:418-430 | a range is isolated exactly when the runes just before and just after it are not word runes (or are missing) |
| ParseUtil.WordAtIndexSpec | core/parseutil/misc.go:382-416 | a word found is the whole run of word runes around `index`, starting at a rune boundary, and it is isolated |
| ParseUtil.WordAtIndexCovers | core/parseutil/misc.go:382-416 | the word found starts at or before `index` and ends after it, within the text |
| Highlight.LineIndexes | util/uiutil/widget/texteditx.go:137-153 | for an index inside the text: the line holding it, a newline-free range from a line start to the next newline or the end; (0, 0) past the end |
| Highlight.TextEditX.UpdateSelectionOpt | util/uiutil/widget/texteditx.go:77-97 | with a selection, the one segment from its lower to its upper index; none otherwise; untouched when segments are off |
| Highlight.TextEditX.StartFlash | util/uiutil/widget/texteditx.go:110-135 | a line flash covers the line's range; otherwise the flash is exactly [index, index + len) |
| Highlight.TextEditX.FlashLine | util/uiutil/widget/texteditx.go:101-103 | the flash covers the line holding `index` |
| Highlight.TextEditX.FlashIndexLen | util/uiutil/widget/texteditx.go:105-107 | a zero length flashes the whole line; otherwise [index, index + len) |
| Highlight.TextEditX.UpdateFlashOpt | util/uiutil/widget/texteditx.go:204-244 | the flash segment group holds [flashIndex, flashIndex + flashLen) while a flash is on, nothing otherwise |
| Highlight.PairsOfBrackets | util/uiutil/widget/texteditx.go:282-286 | the openers are { ( [, the closers } ) ], and each pairs with its own partner |
| Highlight.CloseScanAt | util/uiutil/widget/texteditx.go:313-347 | the forward scan finds the first closer where the nesting depth since the start returns below zero, before the visible bottom, or reports none |
| Highlight.OpenScanAt | util/uiutil/widget/texteditx.go:349-383 | the backward scan finds the nearest opener whose depth to the start is one, not before the visible top, or reports none |
| Highlight.TextEditX.FindParenthesisClose | util/uiutil/widget/texteditx.go:313-347 | appends the bracket's segment and then the matching closer's segment, if the scan found one |
| Highlight.TextEditX.FindParenthesisOpen | util/uiutil/widget/texteditx.go:349-383 | puts the matching opener's segment, if found, before the existing segments and the bracket's own segment last |
| Highlight.ParenthesisCloseMatch | util/uiutil/widget/texteditx.go:256-347 | at an opener: its own segment, and a second one exactly at the matching closer inside the visible range |
| Highlight.ParenthesisOpenMatch | util/uiutil/widget/texteditx.go:256-311 | at a closer: its own segment last, and one before it exactly at the matching opener inside the visible range |
| Highlight.TextEditX.UpdateParenthesisOpt | util/uiutil/widget/texteditx.go:256-311 | the parenthesis group holds the segments of the bracket at the cursor and its match while enabled |
| Highlight.WordSegsSpec | util/uiutil/widget/texteditx.go:434-464 | every segment is an isolated occurrence of the word inside the window, and the segments are ordered and do not overlap |
| Highlight.Window | util/uiutil/widget/texteditx.go:434-441 | the search window is clamped to [0, text length] |
| Highlight.WordLoop | util/uiutil/widget/texteditx.go:442-464 | the loop collects exactly the specified word segments |
| Highlight.HighlightSegsSpec | util/uiutil/widget/texteditx.go:411-465 | no segments with a selection or with highlighting off; otherwise isolated, ordered occurrences of the cursor's word |
| Highlight.TextEditX.UpdateHighlightWordOpt | util/uiutil/widget/texteditx.go:411-465 | the word group holds exactly those segments |
| TextHistory.TextHistory.constructor | util/uiutil/widget/texthistory.go:19-25 | an idle history bounded to 128 edits |
| TextHistory.TextHistory.BeginEdit | util/uiutil/widget/texthistory.go:44-50 | a second BeginEdit panics with "already editing"; otherwise an edit opens holding the cursor state |
| TextHistory.TextHistory.EndEdit | util/uiutil/widget/texthistory.go:52-60 | the open edit gets the post-state and is appended to the history; no edit is open afterwards, even on the nil-edit panic |
| TextHistory.TextHistory.Append | util/uiutil/widget/texthistory.go:64-66 | the operation is added to the open edit; without one it panics |
| TextHistory.Restored | util/uiutil/widget/texthistory.go:74-84 | the restored cursor takes the saved index and selection flag, keeping the old selection index when the saved state has no selection |
| TextHistory.VisibleAfter | util/uiutil/widget/texthistory.go:86-95 | without a selection the index is made visible; with one, the range from its lower end, of non-negative length |
| TextHistory.TextHistory.RestoreCursorState | util/uiutil/widget/texthistory.go:74-96 | the cursor and the visible range end as Restored and VisibleAfter say |
| TextHistory.TextHistory.UndoRedo | util/uiutil/widget/texthistory.go:103-117 | panics while editing; nothing at either end of the history; otherwise moves one step and restores the cursor captured after (redo) or before (undo) the edit |
| TextHistory.TextHistory.Undo | util/uiutil/widget/texthistory.go:100 | undo restores the pre-state of the edit before the position |
| TextHistory.TextHistory.Redo | util/uiutil/widget/texthistory.go:101 | redo restores the post-state of the edit at the position |
| TextHistory.KeyCommandSpec | util/uiutil/widget/texthistory.go:121-146 | Ctrl+Shift+Z redoes and Ctrl+Z undoes whatever the lock keys; nothing else is a command |
| TextHistory.TextHistory.HandleInputEvent | util/uiutil/widget/texthistory.go:121-146 | exactly those two events are handled; while editing it panics; otherwise, as for Redo and Undo, the history position moves one step when it can and the cursor and visible area are the ones restored from the edit's captured state, and nothing changes at either end |
| RowInfo.ERowInfo.constructor | core/erowinfo.go:38-62 | a new info has no views and its stat result recorded, except for a special name |
| RowInfo.ERowInfo.ReadFileInfo | core/erowinfo.go:46-62 | a stat success records the file info, a failure the error; every view's NotExist state follows |
| RowInfo.ERowInfo.Dir | core/erowinfo.go:96-104 | no directory for a special name, the name itself for a directory, otherwise its parent directory |
| RowInfo.ERowInfo.DirOfFile | core/erowinfo.go:96-104 | the directory of a file named d + "/" + f, for a clean directory d and a slash-free f, is d |
| RowInfo.PathDir | core/erowinfo.go:96-104 | "." without a slash, "/" when everything up to the last slash is slashes, otherwise the prefix up to the last slash with its trailing slashes removed, which is not empty and ends in a non-slash |
| RowInfo.PathDirJoin | core/erowinfo.go:96-104 | the directory of d + "/" + f is d |
| RowInfo.ERowInfo.SetSavedHash | core/erowinfo.go:108-112 | the saved hash and size are set and FsDiffer is recomputed |
| RowInfo.ERowInfo.SetFsHash | core/erowinfo.go:114-121 | the disk hash and its modification time are set when there is file info and FsDiffer is recomputed |
| RowInfo.ERowInfo.UpdateFsHashIfNeeded | core/erowinfo.go:123-133 | the file is re-read and re-hashed only when its modification time differs from the one hashed |
| RowInfo.ERowInfo.AddERow | core/erowinfo.go:137-146 | a new view is appended; adding one twice panics and changes nothing |
| RowInfo.ERowInfo.RemoveERow | core/erowinfo.go:148-159 | the registry loses the first occurrence of the view, which is then no longer registered; removing an unknown view panics and leaves the registry as it was |
| RowInfo.AddRemoveRoundTrip | core/erowinfo.go:137-159 | removing a view just added gives the registry back |
| RowInfo.RemoveFirstMultiset | core/erowinfo.go:148-159 | removing takes exactly one occurrence out of the registry |
| RowInfo.ERowInfo.NewERow | core/erowinfo.go:182-194 | special names and directories always get a view, files when a view exists or the file reads, the read error otherwise; a first file view holds the bytes read and their digest is the saved one; a further view mirrors the first; anything else is "unexpected erow type" |
| RowInfo.ERowInfo.NewERowCreateOnErr | core/erowinfo.go:196-203 | a view is always created; the error is NewERow's in every case: none for special names, directories and further views of a file, the read error for the first view of an unreadable file, "unexpected erow type" without file info; on success the view has NewERow's content and hashes |
| RowInfo.ERowInfo.NewDirERow | core/erowinfo.go:207-214 | "not a directory" unless the info is a directory, otherwise a new registered view |
| RowInfo.ERowInfo.NewFileERow | core/erowinfo.go:226-254 | a second view copies the first view's content; a first view reads the file, or fails with the read error and registers nothing |
| RowInfo.ERowInfo.ReloadFile | core/erowinfo.go:256-269 | every view shows the file's bytes, both hashes are those bytes' and no view is Edited or FsDiffer; a read error changes nothing |
| RowInfo.ERowInfo.SaveFile | core/erowinfo.go:274-296 | nothing without views; "not a file" for a non-file; the write's error otherwise, in which case the info and the views are unchanged and the file is left untouched by a refused open, or truncated to the bytes written by a failed write; on success the file holds the first view's bytes (after goimports for Go files), every view shows them and no view is Edited, NotExist or FsDiffer |
| RowInfo.ERowInfo.SaveBytes | core/erowinfo.go:298-318 | "not a file: " + name for a non-file; goimports output replaces Go content when it succeeds; a write error leaves the info and the row states unchanged, and the file untouched when its open failed or holding the part written when the write failed |
| RowInfo.ERowInfo.ReadFsFile | core/erowinfo.go:322-334 | a read success updates the stat info, the disk hash and the row states |
| RowInfo.ERowInfo.SaveFsFile | core/erowinfo.go:336-356 | a successful write makes the saved and disk hashes equal to the written bytes' hash, with the new modification time; a failed one changes no hash and no file information, and leaves the file as the filesystem's write left it |
| RowInfo.FileSystem.WriteFile | core/erowinfo.go:336-356 | opening fails on a read-only name or a directory and changes nothing; otherwise the file is truncated and stamped with the next clock time and holds the bytes written, all of them exactly when the write reports no error |
| RowInfo.ERowInfo.UpdateDiskEvent | core/erowinfo.go:361-366 | NotExist follows the stat; a file whose modification time changed is re-hashed and FsDiffer refreshed when it reads; when the read fails, or the time did not change, the digest and its time stay |
| RowInfo.ERowInfo.UpdateEditedRowState | core/erowinfo.go:370-391 | Edited is set to whether the first view's bytes differ in size or hash from the saved ones |
| RowInfo.ERowInfo.UpdateExistsRowState | core/erowinfo.go:393-395 | NotExist is set from the stat error |
| RowInfo.ERowInfo.UpdateFsDifferRowState | core/erowinfo.go:397-406 | FsDiffer is set to whether the disk hash differs from the saved hash, for files only |
| RowInfo.ERowInfo.UpdateDuplicateRowState | core/erowinfo.go:408-411 | Duplicate is set exactly when two or more views are open |
| RowInfo.ERowInfo.AnyHighlight | core/erowinfo.go:413-423 | true exactly when some view asks to highlight duplicates |
| RowInfo.ERowInfo.UpdateDuplicateHighlightRowState | core/erowinfo.go:413-423 | DuplicateHighlight is set when there are duplicates and some view asks for highlighting |
| RowInfo.ERowInfo.UpdateAnnotationsRowState | core/erowinfo.go:425-427 | every view's Annotations state is set to the given value |
| RowInfo.ERowInfo.UpdateAnnotationsEditedRowState | core/erowinfo.go:429-431 | every view's AnnotationsEdited state is set to the given value |
| RowInfo.ERowInfo.UpdateRowState | core/erowinfo.go:435-439 | exactly one state of every view is set, the others kept |
| RowInfo.ERowInfo.SetRowsBytes | core/erowinfo.go:443-451 | the first view gets the bytes, and unless its callbacks are off every view mirrors them and Edited is recomputed |
| RowInfo.ERowInfo.SetRowsStrFromMaster | core/erowinfo.go:453-469 | every view shows the master's content, the callbacks end enabled, and Edited is recomputed |
| RowInfo.ERowInfo.UpdateDuplicatesBytes | core/erowinfo.go:473-480 | every view gets the master's content without triggering a callback |
| Sessions.FirstNamed | core/sessions.go:257-269 | the index of the first session with the name, or none when no session has it |
| Sessions.SaveSession | core/sessions.go:244-276 | "savesession: missing session name" without exactly one argument; otherwise the session replaces the first with that name or is appended |
| Sessions.SavedSpec | core/sessions.go:257-269 | saving adds at most one entry, keeps entries with other names, and finds the saved session first under its name |
| Sessions.SaveNewThenDelete | core/sessions.go:244-276 | deleting a session just saved under a new name gives the list back |
| Sessions.DeleteSession | core/sessions.go:338-360 | missing-name and not-found errors leave the list; otherwise the first session with the name is removed |
| Sessions.DeletedSpec | core/sessions.go:347-355 | deleting removes exactly one entry, the first with the name |
| Sessions.SortNames | core/sessions.go:287-299 | the names sorted, a permutation of the input |
| Sessions.ListSessionsSpec | core/sessions.go:287-299 | the listing is one "OpenSession <name>" line per session, in sorted order |
| Sessions.ListSessionsShows | core/sessions.go:287-299 | every stored session's name has its own line in the listing |
| Sessions.OpenERow | core/sessions.go:200-228 | a toolbar without a first argument is an error; otherwise one row opens, an open error is reported, and the rest of the toolbar is set when not blank |
| Sessions.Positions | core/sessions.go:144-146 | one RestorePos action per created row, in creation order, with that row's saved indexes |
| Sessions.RestoreColumns | core/sessions.go:90-114 | the actions are exactly: the root toolbar set, the columns closed, one new column for each one missing, then the start of column i set to the session's i-th start, in column order |
| Sessions.CreateRow | core/sessions.go:122-139 | one row state: exactly its RowActions are asked for, and one row opens exactly when its toolbar has a first argument |
| Sessions.CreateColumnRows | core/sessions.go:121-140 | the rows of one column, top to bottom: for each row state, the actions of restoring it (RowActions); rows open only for states with a first argument |
| Sessions.CreateRows | core/sessions.go:117-141 | the actions are exactly every column's row actions, column by column, with row numbers counted across columns; exactly the rows that have a first argument are created |
| Sessions.ColumnRowsNoPositions | core/sessions.go:117-141 | opening and sizing rows never restores a position |
| Sessions.Restore | core/sessions.go:79-147 | the whole action trace: the column actions, then every row's actions (a missing first argument reported; otherwise the row opened, an open error reported, a non-blank toolbar rest set, the open error reported again, the row sized), then every row position, after all rows exist |
| Sessions.OpenSessionFromString | core/sessions.go:316-328 | "session not found: " + name leaves the editor alone; otherwise that session is restored |
| Geometry.IntersectPoints | util/uiutil/widget/pad.go:45 | the intersection holds exactly the points in both rectangles |
| Pad.Pad.Set | util/uiutil/widget/pad.go:24-29 | all four paddings become v |
| Pad.Pad.ChildHint | util/uiutil/widget/pad.go:31-34 | the child's hint is the pad's hint less the padding, never negative |
| Pad.ChildHintWithin | util/uiutil/widget/pad.go:31-34 | with non-negative padding the child is never offered more than the pad was |
| Pad.Pad.Measure | util/uiutil/widget/pad.go:30-40 | the child's size plus the padding, cut to the hint only where it exceeds it; never more than the hint |
| Pad.MeasureFits | util/uiutil/widget/pad.go:30-40 | with non-negative padding that fits the hint and a child keeping within its hint, nothing is cut |
| Pad.Pad.CalcChildsBounds | util/uiutil/widget/pad.go:41-50 | every child gets the pad's bounds inset by the padding, which lie within the pad's bounds |
| Pad.ChildBoundsPoints | util/uiutil/widget/pad.go:41-45 | a point is in the child's bounds exactly when it is in the pad and clear of all four sides |
| Pad.Pad.PaintRects | util/uiutil/widget/pad.go:51-76 | nothing is painted without a colour; otherwise four strips, each within the bounds |
| Pad.StripPoints | util/uiutil/widget/pad.go:55-75 | each strip holds exactly the points of the bounds within its side's width of that edge |
| Pad.BorderCovers | util/uiutil/widget/pad.go:41-76 | every point of the pad is in the child's bounds or in a strip |
| Pad.BorderMissesChild | util/uiutil/widget/pad.go:41-76 | no strip paints over a point of the child's bounds |
| PointerWarp.Half | ui/ui.go:41 | Go's halving, truncating toward zero for negative widths |
| PointerWarp.Set | ui/ui.go:39-49 | a narrow extent puts the coordinate in the middle; otherwise a coordinate outside the margins moves to the nearer margin and one inside stays |
| PointerWarp.WarpPointerToRectanglePad | ui/ui.go:31-56 | no warp when the query fails; otherwise X is clamped against the X extent and Y against the Y extent, independently |
| PointerWarp.PadClampedUnique | ui/ui.go:39-49 | the clamp gives exactly one coordinate for every coordinate and extent |
| PointerWarp.PadClampedNearest | ui/ui.go:43-47 | in a wide extent the new coordinate is the nearest point of the margin-free range |
| PointerWarp.PadClampedIdempotent | ui/ui.go:39-49 | clamping again leaves the coordinate where it is |
| PointerWarp.PadClampedNarrow | ui/ui.go:40-42 | in a narrow extent the coordinate lands between the edges, whichever way round they are |

## Left out

- UTF-8 decoding is a reference model: a rune carries its byte width, and an invalid byte is the one-byte U+FFFD. No Unicode tables are reimplemented. `unicode.IsLetter` and `unicode.IsDigit` are the `Classes` parameter.
- `Iout`, `TextEdit` and `UndoHistory` are reference definitions of packages whose source is not part of this model (`iout`, the `TextEdit` widget, `history`); they are concrete rather than abstract contracts.
  - An `iout` budget counts bytes, and `iout.Index` matches only at rune boundaries.
  - The undo list keeps at most `max` edits and drops the entries ahead of the position on append.
- ParseFilePos and AcceptAdvanceFilename are not modelled: they depend on the `statemach` package, which is not part of this model.
- Highlight.LineIndexes takes `0 <= index`: the source's `str[:index]` slice in LineStartIndex (core/parseutil/misc.go:98) panics on a negative index. That case is not modelled.
- Highlight.TextEditX.StartFlash takes `0 <= index` for a line flash, the case in which it calls Highlight.LineIndexes. The source queues its body to run later on the UI goroutine (`RunOnUIGoRoutine`, util/uiutil/widget/texteditx.go:111); the model sets the flash state at call time.
- Highlight.TextEditX.FlashLine takes `0 <= index`, as Highlight.TextEditX.StartFlash does.
- Highlight.TextEditX.FlashIndexLen takes `0 <= index` when the length is zero, the case in which it flashes a line.
- The flash animation (timing, tint and painting), OnThemeChange, the Enable* toggles and colourising are drawer configuration and pixel work. They are left out.
- TextHistory.TextHistory.UndoRedo restores the cursor but does not apply the edit's text operations (`ApplyUndoRedo`) or its error. `te.changes` is also not modelled.
- TextHistory.TextHistory.Undo calls UndoRedo and has the same gap.
- TextHistory.TextHistory.Redo calls UndoRedo and has the same gap.
- TextHistory.TextHistory.HandleInputEvent calls UndoRedo and has the same gap.
- TextHistory.ClearLocks removes exactly CapsLock and NumLock; the event package's own lock set is not part of this model.
- TextHistory: `clear`, `ClearForward`, `New` and `Use` pass straight to the history package. That package is not part of this model, so they are not modelled.
- RowInfo: the filesystem error texts are messages of the abstract `FileSystem`. A modification time of zero is `None`.
- RowInfo.IsSpecialName requires a non-empty name: the source indexes the name's first byte.
- RowInfo: `filepath.Clean` is modelled only as far as trailing slashes go in `PathDir`.
- RowInfo: sha1 is an uninterpreted digest function. goimports, with its 5-second timeout, is a transform that may fail; its failure is ignored, as in the source.
- RowInfo: reading a view's bytes (`TextArea.Bytes`) cannot fail in the model.
- RowInfo.ERowInfo.SaveFsFile: the re-stat after a successful write always finds the file just written, since nothing else changes the filesystem between the two calls.
- RowInfo.FileSystem: which names cannot be read and how many bytes a write gets onto the disk are fixed for the object's lifetime; the error of a short write is the single message "short write".
- RowInfo.ERowInfo.NewDirERow: the directory listing (ListDirERow) is not modelled. ReloadDir is also not modelled.
- RowInfo: ERowsInUIOrder depends on the UI column and row tree, which is not part of this model.
- RowInfo: creating a view registers it (the `NewERow` of erow.go). Setting one view's text mirrors it to the others unless their callbacks are disabled, as `SetRowsStrFromMaster` does. Both are assumptions about code outside this model.
- Sessions: the session file, its path and its JSON coding are left out, together with their load and save errors. The stored list is the `Store` object.
- Sessions: the session being saved is the `current` parameter. NewSessionFromEditor and NewColumnState read UI widgets that are not part of this model.
- Sessions: Go's map iteration order in restore is modelled as row creation order.
- Sessions: the toolbar parser, the home-variable decoding and opening a row are `Editor` parameters. Toolbar end offsets are counted in runes.
- Sessions: start percentages are reals, opaque to the model.
- Sessions: the OpenSession command's argument check (core/sessions.go:307-314) is not modelled; OpenSessionFromString is.
- Pad: pixel filling (`imageutil.FillRectangle`) is left out; only the painted rectangles are modelled.
- Pad: the child's own measure is the `measureChild` parameter. A child's recursive `CalcChildsBounds` is not modelled.
- Pad, PointerWarp: Go's 64-bit `int` is unbounded here, so overflow in the padding arithmetic is not modelled.
- PointerWarp: the pointer query and the warp request to the X server are I/O. The queried position is an `Option` parameter, and the warped position is the result.

## Findings

| source | as written | input that shows it | evidently intended | confidence | as-written member | corrected member |
|---|---|---|---|---|---|---|
| core/parseutil/misc.go:180-191 | the line start is 0 without a newline but the offset of the last newline itself after one, so the column is one less on the first line than on every later line | "ab" gives column 2, "x\nab" gives column 3 for the same last line | the line start one past the last newline, so both give column 3 | not executed | ParseUtil.IndexLineColumnOffByOne | ParseUtil.IndexLineColumnCorrected |
