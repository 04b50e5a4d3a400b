/**
 * Session bookkeeping: the stored list of named layouts, saving one under a name (replacing the
 * first with that name, or appending), deleting one by name, listing the names sorted, and
 * restoring one into the editor, where row positions are set only once every row exists.
 *
 * The session file and its JSON coding are left out: the stored list is the `Store` object.
 * The editor's widgets are the `Editor` object, which records what restoring asks of them.
 */
module Sessions {
  import opened Wrappers

  /** RowState: a row's toolbar text, its cursors and scroll offset, and its height share. */
  datatype RowState = RowState(tbStr: string, tbCursorIndex: int, taCursorIndex: int,
                               taOffsetIndex: int, startPercent: real)

  /** ColumnState: a column's width share and its rows, top to bottom. */
  datatype ColumnState = ColumnState(startPercent: real, rows: seq<RowState>)

  datatype Session = Session(name: string, rootTbStr: string, columns: seq<ColumnState>)

  /** The stored sessions, in the order the session file keeps them. */
  class Store {
    var sessions: seq<Session>

    constructor (sessions: seq<Session>)
      ensures this.sessions == sessions
    {
      this.sessions := sessions;
    }
  }

  /** The index of the first session called `name`, if any. */
  function FirstNamed(ss: seq<Session>, name: string): (r: Option<nat>)
    ensures r.Some? ==> r.value < |ss| && ss[r.value].name == name
    ensures r.Some? ==> forall k :: 0 <= k < r.value ==> ss[k].name != name
    ensures r.None? ==> forall k :: 0 <= k < |ss| ==> ss[k].name != name
  {
    if |ss| == 0 then None
    else if ss[0].name == name then Some(0)
    else match FirstNamed(ss[1..], name)
      case None => None
      case Some(i) => Some(i + 1)
  }

  /** The sessions with `s` stored: in place of the first one with its name, or appended. */
  function Saved(ss: seq<Session>, s: Session): seq<Session>
  {
    match FirstNamed(ss, s.name)
    case Some(i) => ss[i := s]
    case None => ss + [s]
  }

  /** The sessions without the first one called `name` (all of them when there is none). */
  function Deleted(ss: seq<Session>, name: string): seq<Session>
  {
    match FirstNamed(ss, name)
    case Some(i) => ss[..i] + ss[i + 1..]
    case None => ss
  }

  /**
   * saveSession: needs exactly the command and the name. The editor's current layout, under
   * that name, replaces the first stored session so named, or is appended.
   */
  method SaveSession(store: Store, args: seq<string>, current: Session) returns (err: Option<string>)
    modifies store
    ensures |args| != 2 ==> err == Some("savesession: missing session name") && unchanged(store)
    ensures |args| == 2 ==> err == None && store.sessions == Saved(old(store.sessions), current.(name := args[1]))
  {
    if |args| != 2 {
      return Some("savesession: missing session name");
    }
    var name := args[1];
    var s1 := current.(name := name);
    var replaced := false;
    var i := 0;
    while i < |store.sessions|
      invariant 0 <= i <= |store.sessions| && store.sessions == old(store.sessions)
      invariant forall k :: 0 <= k < i ==> store.sessions[k].name != name
    {
      if store.sessions[i].name == name {
        FirstNamedAt(store.sessions, name, i);
        store.sessions := store.sessions[i := s1];
        replaced := true;
        break;
      }
      i := i + 1;
    }
    if !replaced {
      store.sessions := store.sessions + [s1];
    }
    err := None;
  }

  /**
   * deleteSession: needs exactly the command and the name; removes the first session so named,
   * keeping the others in order, or reports that there is none and stores nothing.
   */
  method DeleteSession(store: Store, args: seq<string>) returns (err: Option<string>)
    modifies store
    ensures |args| != 2 ==> err == Some("deletesession: missing session name") && unchanged(store)
    ensures |args| == 2 && FirstNamed(old(store.sessions), args[1]).None? ==>
      err == Some("deletesession: session not found: " + args[1]) && unchanged(store)
    ensures |args| == 2 && FirstNamed(old(store.sessions), args[1]).Some? ==>
      err == None && store.sessions == Deleted(old(store.sessions), args[1])
  {
    if |args| != 2 {
      return Some("deletesession: missing session name");
    }
    var name := args[1];
    var found := false;
    var i := 0;
    while i < |store.sessions|
      invariant 0 <= i <= |store.sessions| && store.sessions == old(store.sessions)
      invariant forall k :: 0 <= k < i ==> store.sessions[k].name != name
    {
      if store.sessions[i].name == name {
        FirstNamedAt(store.sessions, name, i);
        found := true;
        store.sessions := store.sessions[..i] + store.sessions[i + 1..];
        break;
      }
      i := i + 1;
    }
    if !found {
      return Some("deletesession: session not found: " + name);
    }
    err := None;
  }

  /** The first index holding a name is what the lookup finds. */
  lemma {:induction false} FirstNamedAt(ss: seq<Session>, name: string, i: nat)
    requires i < |ss| && ss[i].name == name && forall k :: 0 <= k < i ==> ss[k].name != name
    ensures FirstNamed(ss, name) == Some(i)
    decreases i
  {
    if i > 0 {
      FirstNamedAt(ss[1..], name, i - 1);
    }
  }

  /**
   * Saving grows the list by at most one, leaves every other stored session where it was, and
   * the saved session is the first one found under its name afterwards.
   */
  lemma SavedSpec(ss: seq<Session>, s: Session)
    ensures |ss| <= |Saved(ss, s)| <= |ss| + 1
    ensures FirstNamed(ss, s.name).Some? ==> |Saved(ss, s)| == |ss|
    ensures forall k :: 0 <= k < |ss| && ss[k].name != s.name ==> Saved(ss, s)[k] == ss[k]
    ensures FirstNamed(Saved(ss, s), s.name).Some? && Saved(ss, s)[FirstNamed(Saved(ss, s), s.name).value] == s
  {
    var w := Saved(ss, s);
    var i := if FirstNamed(ss, s.name).Some? then FirstNamed(ss, s.name).value else |ss|;
    assert w[i] == s;
    FirstNamedAt(w, s.name, i);
  }

  /** Deleting the name of a session that saving appended gives back the sessions as they were. */
  lemma SaveNewThenDelete(ss: seq<Session>, s: Session)
    requires FirstNamed(ss, s.name).None?
    ensures Deleted(Saved(ss, s), s.name) == ss
  {
    FirstNamedAt(ss + [s], s.name, |ss|);
    assert (ss + [s])[..|ss|] == ss;
  }

  /** Deleting removes exactly one session, the first so named, and keeps the rest in order. */
  lemma DeletedSpec(ss: seq<Session>, name: string)
    requires FirstNamed(ss, name).Some?
    ensures |Deleted(ss, name)| == |ss| - 1
    ensures multiset(Deleted(ss, name)) == multiset(ss) - multiset{ss[FirstNamed(ss, name).value]}
  {
    SpliceMultiset(ss, FirstNamed(ss, name).value);
  }

  /** Splicing out one element takes exactly that element out of the multiset. */
  lemma SpliceMultiset<T>(s: seq<T>, i: nat)
    requires i < |s|
    ensures multiset(s[..i] + s[i + 1..]) == multiset(s) - multiset{s[i]}
  {
    assert s == s[..i] + ([s[i]] + s[i + 1..]);
    calc {
      multiset(s);
      multiset(s[..i]) + multiset([s[i]] + s[i + 1..]);
      multiset(s[..i]) + multiset{s[i]} + multiset(s[i + 1..]);
    }
  }

  /** Lexical order of strings by code point, which is Go's byte order on their UTF-8 form. */
  predicate StrLe(a: string, b: string)
  {
    |a| == 0 || (|b| > 0 && (a[0] < b[0] || (a[0] == b[0] && StrLe(a[1..], b[1..]))))
  }

  lemma {:induction false} StrLeTotal(a: string, b: string)
    ensures StrLe(a, b) || StrLe(b, a)
  {
    if |a| > 0 && |b| > 0 && a[0] == b[0] {
      StrLeTotal(a[1..], b[1..]);
    }
  }

  lemma {:induction false} StrLeTrans(a: string, b: string, c: string)
    requires StrLe(a, b) && StrLe(b, c)
    ensures StrLe(a, c)
  {
    if |a| > 0 && a[0] == b[0] && b[0] == c[0] {
      StrLeTrans(a[1..], b[1..], c[1..]);
    }
  }

  ghost predicate Sorted(u: seq<string>)
  {
    forall i, j :: 0 <= i < j < |u| ==> StrLe(u[i], u[j])
  }

  /** `x` put into the sorted `u` before the first name it does not follow. */
  function Insert(x: string, u: seq<string>): (r: seq<string>)
    requires Sorted(u)
    ensures Sorted(r) && multiset(r) == multiset(u) + multiset{x}
  {
    if |u| == 0 then [x]
    else if StrLe(x, u[0]) then
      PrependSorted(x, u);
      [x] + u
    else
      var t := Insert(x, u[1..]);
      InsertAfterHead(x, u, t);
      [u[0]] + t
  }

  /** A name not after the first of a sorted list goes in front of it. */
  lemma PrependSorted(x: string, u: seq<string>)
    requires Sorted(u) && |u| > 0 && StrLe(x, u[0])
    ensures Sorted([x] + u)
  {
    forall j | 0 < j < |u| {
      StrLeTrans(x, u[0], u[j]);
    }
  }

  /** A name after the first of a sorted list goes into the rest, and the first stays in front. */
  lemma InsertAfterHead(x: string, u: seq<string>, t: seq<string>)
    requires Sorted(u) && |u| > 0 && !StrLe(x, u[0])
    requires Sorted(t) && multiset(t) == multiset(u[1..]) + multiset{x}
    ensures Sorted([u[0]] + t) && multiset([u[0]] + t) == multiset(u) + multiset{x}
  {
    StrLeTotal(x, u[0]);
    forall j | 0 <= j < |t|
      ensures StrLe(u[0], t[j])
    {
      assert t[j] in multiset(t);
      assert t[j] == x || t[j] in multiset(u[1..]);
      if t[j] != x {
        var k :| 1 <= k < |u| && u[k] == t[j] by {
          assert t[j] in u[1..];
        }
      }
    }
    assert u == [u[0]] + u[1..];
  }

  /** sort.Strings: the names in order. */
  function SortNames(u: seq<string>): (r: seq<string>)
    ensures Sorted(r) && multiset(r) == multiset(u)
  {
    if |u| == 0 then []
    else
      assert u == [u[0]] + u[1..];
      Insert(u[0], SortNames(u[1..]))
  }

  /** The names of the sessions, in stored order. */
  function Names(ss: seq<Session>): (r: seq<string>)
    ensures |r| == |ss| && forall k :: 0 <= k < |ss| ==> r[k] == ss[k].name
  {
    if |ss| == 0 then [] else [ss[0].name] + Names(ss[1..])
  }

  /** One "OpenSession <name>\n" line per name, in order. */
  function SessionLines(u: seq<string>): string
  {
    if |u| == 0 then "" else "OpenSession " + u[0] + "\n" + SessionLines(u[1..])
  }

  /** ListSessions: the text shown in the +Sessions row. */
  function ListSessions(ss: seq<Session>): string
  {
    SessionLines(SortNames(Names(ss)))
  }

  /**
   * The listing is the lines of a name list that holds each stored session's name once and is
   * in order.
   */
  lemma ListSessionsSpec(ss: seq<Session>)
    ensures exists u :: ListSessions(ss) == SessionLines(u) && Sorted(u) &&
                       multiset(u) == multiset(Names(ss)) && |u| == |ss|
  {
    var u := SortNames(Names(ss));
    assert |u| == |multiset(u)| == |multiset(Names(ss))|;
  }

  /** The text of a name list is the lines before name k, the line of name k, and the lines after. */
  lemma {:induction false} LinesSplit(u: seq<string>, k: nat)
    requires k < |u|
    ensures SessionLines(u) == SessionLines(u[..k]) + "OpenSession " + u[k] + "\n" + SessionLines(u[k + 1..])
    decreases k
  {
    if k > 0 {
      LinesSplit(u[1..], k - 1);
      assert u[1..][..k - 1] == u[1..k];
      assert u[1..][k - 1] == u[k];
      assert u[1..][k..] == u[k + 1..];
      assert u[..k][1..] == u[1..k];
    }
  }

  /** Every stored session has its line in the listing. */
  lemma ListSessionsShows(ss: seq<Session>, i: nat)
    requires i < |ss|
    ensures exists k :: (0 <= k < |SortNames(Names(ss))| &&
      ListSessions(ss) == SessionLines(SortNames(Names(ss))[..k]) + "OpenSession " + ss[i].name + "\n" +
                          SessionLines(SortNames(Names(ss))[k + 1..]))
  {
    var u := SortNames(Names(ss));
    assert ss[i].name == Names(ss)[i];
    assert ss[i].name in multiset(u);
    var k :| 0 <= k < |u| && u[k] == ss[i].name;
    assert |u| == |multiset(u)| == |multiset(Names(ss))|;
    LinesSplit(u, k);
  }

  /** What restoring asks of the editor's widgets, in the order it asks. */
  datatype Action =
    | SetRootToolbar(text: string)
    | CloseColumns
    | NewColumn
    | SetColumnStart(col: nat, sp: real)
    | OpenRow(col: nat, name: string)
    | SetToolbarAfterName(row: nat, rest: string)
    | ReportError(msg: string)
    | SetRowStart(row: nat, sp: real)
    | RestorePos(row: nat, tbCursorIndex: int, taCursorIndex: int, taOffsetIndex: int)

  /** The first argument of a toolbar's first part and the offset where it ends. */
  datatype Arg = Arg(str: string, end: nat)

  /** The editor, as restoring a session drives it. Row k is the k-th row it opened. */
  class Editor {
    var columns: nat
    var rows: nat
    var trace: seq<Action>
    /** How many columns closing every column leaves at most (the editor may keep one). */
    const kept: nat
    /** toolbarparser.Parse(...).Part0Arg0. */
    const arg0Of: string -> Option<Arg>
    /** HomeVars.Decode: a name with its home-variable abbreviations expanded. */
    const decode: string -> string
    /** The error opening a name reports, if any; the row is created either way. */
    const openError: string -> Option<string>

    constructor (columns: nat, kept: nat, arg0Of: string -> Option<Arg>, decode: string -> string,
                 openError: string -> Option<string>)
      ensures this.columns == columns && rows == 0 && trace == []
      ensures this.kept == kept && this.arg0Of == arg0Of && this.decode == decode && this.openError == openError
    {
      this.columns := columns;
      rows := 0;
      trace := [];
      this.kept := kept;
      this.arg0Of := arg0Of;
      this.decode := decode;
      this.openError := openError;
    }
  }

  function Min(a: nat, b: nat): nat { if a < b then a else b }

  function Max(a: nat, b: nat): nat { if a < b then b else a }

  /** unicode.IsSpace. */
  predicate IsSpace(c: char)
  {
    c in {' ', '\t', '\n', '\U{000B}', '\U{000C}', '\r', '\U{0085}', '\U{00A0}', '\U{1680}',
          '\U{2028}', '\U{2029}', '\U{202F}', '\U{205F}', '\U{3000}'} ||
    ('\U{2000}' <= c <= '\U{200A}')
  }

  /** strings.TrimSpace(w) == "": nothing but white space. */
  predicate IsBlank(w: string)
  {
    forall k :: 0 <= k < |w| ==> IsSpace(w[k])
  }

  /** The toolbar text after its first argument. */
  function After(tb: string, end: nat): string
  {
    if end <= |tb| then tb[end..] else ""
  }

  /** The error of a row state whose toolbar has no first argument. */
  function MissingArg0(tb: string): string
  {
    "missing toolbar arg 0: " + tb
  }

  /**
   * RowState.OpenERow: without a first toolbar argument no row is made; otherwise a row is
   * opened on the decoded name even when opening reports an error, and keeps any non-blank
   * toolbar text after the name.
   */
  method OpenERow(ed: Editor, rs: RowState, col: nat) returns (row: nat, ok: bool, err: Option<string>)
    modifies ed`rows, ed`trace
    ensures ed.arg0Of(rs.tbStr).None? ==>
      !ok && err == Some(MissingArg0(rs.tbStr)) && ed.rows == old(ed.rows) && ed.trace == old(ed.trace)
    ensures ed.arg0Of(rs.tbStr).Some? ==>
      var name := ed.decode(ed.arg0Of(rs.tbStr).value.str);
      var rest := After(rs.tbStr, ed.arg0Of(rs.tbStr).value.end);
      ok && row == old(ed.rows) && ed.rows == row + 1 && err == ed.openError(name) &&
      ed.trace == old(ed.trace) + [OpenRow(col, name)] +
                  (if err.Some? then [ReportError(err.value)] else []) +
                  (if IsBlank(rest) then [] else [SetToolbarAfterName(row, rest)])
    ensures ExtendsWithout(old(ed.trace), ed.trace)
  {
    var a := ed.arg0Of(rs.tbStr);
    if a.None? {
      return 0, false, Some(MissingArg0(rs.tbStr));
    }
    var name := ed.decode(a.value.str);
    row := ed.rows;
    ed.rows := ed.rows + 1;
    ed.trace := ed.trace + [OpenRow(col, name)];
    err := ed.openError(name);
    if err.Some? {
      ed.trace := ed.trace + [ReportError(err.value)];
    }
    var w := After(rs.tbStr, a.value.end);
    if !IsBlank(w) {
      ed.trace := ed.trace + [SetToolbarAfterName(row, w)];
    }
    ok := true;
  }

  /** The row states of `rows` that open a row, in order. */
  function OpenableRows(arg0Of: string -> Option<Arg>, rows: seq<RowState>): seq<RowState>
  {
    if |rows| == 0 then []
    else OpenableRows(arg0Of, rows[..|rows| - 1]) +
         (if arg0Of(rows[|rows| - 1].tbStr).Some? then [rows[|rows| - 1]] else [])
  }

  /** The row states of every column that open a row, column by column. */
  function Openable(arg0Of: string -> Option<Arg>, cols: seq<ColumnState>): seq<RowState>
  {
    if |cols| == 0 then []
    else Openable(arg0Of, cols[..|cols| - 1]) + OpenableRows(arg0Of, cols[|cols| - 1].rows)
  }

  /**
   * What restoring one row state asks in column `col`, the row (if one opens) being row `row`:
   * a missing first argument is reported; otherwise the row is opened on the decoded name, an
   * open error is reported, the toolbar rest is set when not blank, the open error is reported
   * again by the caller, and the row's size is set.
   */
  function RowActions(ed: Editor, rs: RowState, col: nat, row: nat): seq<Action>
  {
    match ed.arg0Of(rs.tbStr)
    case None => [ReportError(MissingArg0(rs.tbStr))]
    case Some(a) =>
      var name := ed.decode(a.str);
      var rest := After(rs.tbStr, a.end);
      var open, sized := OpenRow(col, name), SetRowStart(row, rs.startPercent);
      match ed.openError(name)
      case None => if IsBlank(rest) then [open, sized] else [open, SetToolbarAfterName(row, rest), sized]
      case Some(e) =>
        if IsBlank(rest) then [open, ReportError(e), ReportError(e), sized]
        else [open, ReportError(e), SetToolbarAfterName(row, rest), ReportError(e), sized]
  }

  /**
   * The actions of the row states `rows` of column `col`, in order, the first row opened
   * being row `first`.
   */
  function ColumnRowsTrace(ed: Editor, rows: seq<RowState>, col: nat, first: nat): seq<Action>
  {
    if |rows| == 0 then []
    else ColumnRowsTrace(ed, rows[..|rows| - 1], col, first) +
         RowActions(ed, rows[|rows| - 1], col, first + |OpenableRows(ed.arg0Of, rows[..|rows| - 1])|)
  }

  /** The row actions of the columns `cols`, column by column, the first row opened being row `first`. */
  function RowsTrace(ed: Editor, cols: seq<ColumnState>, first: nat): seq<Action>
  {
    if |cols| == 0 then []
    else RowsTrace(ed, cols[..|cols| - 1], first) +
         ColumnRowsTrace(ed, cols[|cols| - 1].rows, |cols| - 1, first + |Openable(ed.arg0Of, cols[..|cols| - 1])|)
  }

  /** The position restores of the row states `rs`, opened as rows first, first + 1, ... */
  function Positions(rs: seq<RowState>, first: nat): (r: seq<Action>)
    ensures |r| == |rs|
    ensures forall k :: 0 <= k < |rs| ==>
      r[k] == RestorePos(first + k, rs[k].tbCursorIndex, rs[k].taCursorIndex, rs[k].taOffsetIndex)
  {
    if |rs| == 0 then []
    else Positions(rs[..|rs| - 1], first) +
         [RestorePos(first + |rs| - 1, rs[|rs| - 1].tbCursorIndex, rs[|rs| - 1].taCursorIndex, rs[|rs| - 1].taOffsetIndex)]
  }

  /**
   * What restoring `s` did to the editor: enough columns, one row opened for each row state
   * with a first toolbar argument, and the positions of exactly those rows, in that order,
   * restored at the very end, after every row has been opened and sized.
   */
  twostate predicate Restored(s: Session, ed: Editor)
    reads ed
  {
    RestoredFrom(s, ed, old(ed.columns), old(ed.rows), old(ed.trace), ed.columns, ed.rows, ed.trace)
  }

  /**
   * Restored, on the editor's state before (`columns0`, `rows0`, `trace0`) and after
   * (`columns`, `rows`, `trace`) restoring.
   */
  predicate RestoredFrom(s: Session, ed: Editor, columns0: nat, rows0: nat, trace0: seq<Action>,
                         columns: nat, rows: nat, trace: seq<Action>)
  {
    var o := Openable(ed.arg0Of, s.columns);
    var n := |trace0|;
    columns >= |s.columns| &&
    rows == rows0 + |o| &&
    |trace| >= n + 2 + |o| &&
    trace[n] == SetRootToolbar(s.rootTbStr) && trace[n + 1] == CloseColumns &&
    ExtendsWithout(trace0, trace[..|trace| - |o|]) &&
    trace[|trace| - |o|..] == Positions(o, rows0) &&
    columns == Max(Min(columns0, ed.kept), |s.columns|) &&
    trace == trace0 + [SetRootToolbar(s.rootTbStr), CloseColumns] +
             NewColumns(columns - Min(columns0, ed.kept)) + ColumnStarts(s.columns) +
             RowsTrace(ed, s.columns, rows0) + Positions(o, rows0)
  }

  /** No position is restored by any of the actions. */
  predicate NoPositions(t: seq<Action>)
  {
    forall a :: a in t ==> !a.RestorePos?
  }

  /** `t` is `t0` followed by actions none of which restores a position. */
  predicate ExtendsWithout(t0: seq<Action>, t: seq<Action>)
  {
    |t| >= |t0| && t[..|t0|] == t0 && NoPositions(t[|t0|..])
  }

  lemma ExtendsStep(t0: seq<Action>, t: seq<Action>, extra: seq<Action>)
    requires ExtendsWithout(t0, t) && NoPositions(extra)
    ensures ExtendsWithout(t0, t + extra)
  {
    assert (t + extra)[..|t0|] == t[..|t0|];
    assert (t + extra)[|t0|..] == t[|t0|..] + extra;
  }

  lemma ExtendsTrans(t0: seq<Action>, t1: seq<Action>, t2: seq<Action>)
    requires ExtendsWithout(t0, t1) && ExtendsWithout(t1, t2)
    ensures ExtendsWithout(t0, t2)
  {
    assert t2[..|t0|] == t2[..|t1|][..|t0|];
    assert t2[|t0|..] == t2[..|t1|][|t0|..] + t2[|t1|..];
  }

  /** `k` requests for a new column. */
  function NewColumns(k: nat): (t: seq<Action>)
    ensures |t| == k && forall j :: 0 <= j < k ==> t[j] == NewColumn
  {
    if k == 0 then [] else NewColumns(k - 1) + [NewColumn]
  }

  /** The start of every column of `cs` set, column by column. */
  function ColumnStarts(cs: seq<ColumnState>): (t: seq<Action>)
    ensures |t| == |cs| && forall i :: 0 <= i < |cs| ==> t[i] == SetColumnStart(i, cs[i].startPercent)
  {
    if |cs| == 0 then []
    else
      var t := ColumnStarts(cs[..|cs| - 1]);
      assert forall i :: 0 <= i < |cs| - 1 ==> cs[..|cs| - 1][i] == cs[i];
      t + [SetColumnStart(|cs| - 1, cs[|cs| - 1].startPercent)]
  }

  /**
   * The column part of Session.restore: the root toolbar set, every column closed, columns
   * added up to the session's count and their widths set.
   */
  method RestoreColumns(s: Session, ed: Editor)
    modifies ed`columns, ed`trace
    ensures ed.columns == Max(Min(old(ed.columns), ed.kept), |s.columns|)
    ensures ExtendsWithout(old(ed.trace), ed.trace) && |ed.trace| >= |old(ed.trace)| + 2
    ensures ed.trace[|old(ed.trace)|] == SetRootToolbar(s.rootTbStr) && ed.trace[|old(ed.trace)| + 1] == CloseColumns
    ensures ed.trace == old(ed.trace) + [SetRootToolbar(s.rootTbStr), CloseColumns] +
      NewColumns(ed.columns - Min(old(ed.columns), ed.kept)) + ColumnStarts(s.columns)
  {
    ed.trace := ed.trace + [SetRootToolbar(s.rootTbStr), CloseColumns];
    if ed.kept < ed.columns {
      ed.columns := ed.kept;
    }
    ghost var c0 := ed.columns;
    AddColumns(|s.columns|, ed);
    SetColumnStarts(s.columns, ed);
    ColumnTrace(old(ed.trace), ed.trace, s.rootTbStr, ed.columns - c0, s.columns);
  }

  /** Columns added until there are `n`. */
  method AddColumns(n: nat, ed: Editor)
    modifies ed`columns, ed`trace
    ensures ed.columns == Max(old(ed.columns), n)
    ensures ed.trace == old(ed.trace) + NewColumns(ed.columns - old(ed.columns))
  {
    while ed.columns < n
      invariant old(ed.columns) <= ed.columns && (ed.columns == old(ed.columns) || ed.columns <= n)
      invariant ed.trace == old(ed.trace) + NewColumns(ed.columns - old(ed.columns))
      decreases n - ed.columns
    {
      ed.columns := ed.columns + 1;
      ed.trace := ed.trace + [NewColumn];
    }
  }

  /** The start of every column set, in column order. */
  method SetColumnStarts(cs: seq<ColumnState>, ed: Editor)
    modifies ed`trace
    ensures ed.trace == old(ed.trace) + ColumnStarts(cs)
  {
    for i := 0 to |cs|
      invariant ed.trace == old(ed.trace) + ColumnStarts(cs[..i])
    {
      assert cs[..i + 1][..i] == cs[..i];
      ed.trace := ed.trace + [SetColumnStart(i, cs[i].startPercent)];
    }
    assert cs[..|cs|] == cs;
  }

  /** The column part of restoring restores no position, and starts with the root toolbar and the closing. */
  lemma ColumnTrace(t0: seq<Action>, t: seq<Action>, root: string, k: nat, cs: seq<ColumnState>)
    requires t == t0 + [SetRootToolbar(root), CloseColumns] + NewColumns(k) + ColumnStarts(cs)
    ensures ExtendsWithout(t0, t) && |t| >= |t0| + 2 && t[|t0|] == SetRootToolbar(root) && t[|t0| + 1] == CloseColumns
  {
    assert t[..|t0|] == t0;
    assert t[|t0|..] == [SetRootToolbar(root), CloseColumns] + NewColumns(k) + ColumnStarts(cs);
  }

  /** One row state restored: its row opened when it has a first argument, errors reported, the row sized. */
  method CreateRow(rs: RowState, col: nat, ed: Editor) returns (ok: bool)
    modifies ed`rows, ed`trace
    ensures ok == ed.arg0Of(rs.tbStr).Some?
    ensures ed.rows == old(ed.rows) + (if ok then 1 else 0)
    ensures ed.trace == old(ed.trace) + RowActions(ed, rs, col, old(ed.rows))
  {
    var row, err;
    row, ok, err := OpenERow(ed, rs, col);
    if err.Some? {
      ed.trace := ed.trace + [ReportError(err.value)];
    }
    if ok {
      ed.trace := ed.trace + [SetRowStart(row, rs.startPercent)];
    }
  }

  /** The rows of column `i` of the session opened and sized, top to bottom. */
  method CreateColumnRows(c: ColumnState, i: nat, ed: Editor) returns (made: seq<RowState>)
    modifies ed`rows, ed`trace
    ensures made == OpenableRows(ed.arg0Of, c.rows) && ed.rows == old(ed.rows) + |made|
    ensures ed.trace == old(ed.trace) + ColumnRowsTrace(ed, c.rows, i, old(ed.rows))
  {
    made := [];
    for j := 0 to |c.rows|
      invariant made == OpenableRows(ed.arg0Of, c.rows[..j]) && ed.rows == old(ed.rows) + |made|
      invariant ed.trace == old(ed.trace) + ColumnRowsTrace(ed, c.rows[..j], i, old(ed.rows))
    {
      assert c.rows[..j + 1][..j] == c.rows[..j];
      OpenableRowsNext(ed.arg0Of, c.rows, j);
      ColumnRowsNext(ed, c.rows, j, i, old(ed.rows), ed.rows);
      ghost var done, next := ColumnRowsTrace(ed, c.rows[..j], i, old(ed.rows)), RowActions(ed, c.rows[j], i, ed.rows);
      var ok := CreateRow(c.rows[j], i, ed);
      AppendAssoc(old(ed.trace), done, next);
      if ok {
        made := made + [c.rows[j]];
      }
    }
    assert c.rows[..|c.rows|] == c.rows;
  }

  /** Every column's rows, column by column. */
  method CreateRows(s: Session, ed: Editor) returns (made: seq<RowState>)
    modifies ed`rows, ed`trace
    ensures made == Openable(ed.arg0Of, s.columns) && ed.rows == old(ed.rows) + |made|
    ensures ed.trace == old(ed.trace) + RowsTrace(ed, s.columns, old(ed.rows))
  {
    made := [];
    var first := ed.rows;
    for i := 0 to |s.columns|
      invariant made == Openable(ed.arg0Of, s.columns[..i]) && ed.rows == old(ed.rows) + |made|
      invariant ed.trace == old(ed.trace) + RowsTrace(ed, s.columns[..i], old(ed.rows))
    {
      made := CreateNextColumn(s, i, first, old(ed.trace), made, ed);
    }
    assert s.columns[..|s.columns|] == s.columns;
  }

  /** The rows of column `i` created after those of the columns before it. */
  method CreateNextColumn(s: Session, i: nat, first: nat, ghost t0: seq<Action>, done: seq<RowState>, ed: Editor)
    returns (made: seq<RowState>)
    requires i < |s.columns|
    requires done == Openable(ed.arg0Of, s.columns[..i]) && ed.rows == first + |done|
    requires ed.trace == t0 + RowsTrace(ed, s.columns[..i], first)
    modifies ed`rows, ed`trace
    ensures made == Openable(ed.arg0Of, s.columns[..i + 1]) && ed.rows == first + |made|
    ensures ed.trace == t0 + RowsTrace(ed, s.columns[..i + 1], first)
  {
    assert s.columns[..i + 1][..i] == s.columns[..i];
    OpenableNext(ed.arg0Of, s.columns, i);
    RowsNext(ed, s.columns, i, first, ed.rows);
    ghost var prev, next := RowsTrace(ed, s.columns[..i], first), ColumnRowsTrace(ed, s.columns[i].rows, i, ed.rows);
    var more := CreateColumnRows(s.columns[i], i, ed);
    AppendAssoc(t0, prev, next);
    made := done + more;
  }

  /** One more row state, kept exactly when it opens a row. */
  lemma OpenableRowsNext(arg0Of: string -> Option<Arg>, rows: seq<RowState>, j: nat)
    requires j < |rows|
    ensures OpenableRows(arg0Of, rows[..j + 1]) ==
            OpenableRows(arg0Of, rows[..j]) + (if arg0Of(rows[j].tbStr).Some? then [rows[j]] else [])
  {
    var s := rows[..j + 1];
    assert |s| - 1 == j;
    assert s[..|s| - 1] == rows[..j];
    assert s[|s| - 1] == rows[j];
  }

  /** One more column's row states that open a row. */
  lemma OpenableNext(arg0Of: string -> Option<Arg>, cols: seq<ColumnState>, i: nat)
    requires i < |cols|
    ensures Openable(arg0Of, cols[..i + 1]) == Openable(arg0Of, cols[..i]) + OpenableRows(arg0Of, cols[i].rows)
  {
    var s := cols[..i + 1];
    assert |s| - 1 == i;
    assert s[..|s| - 1] == cols[..i];
    assert s[|s| - 1] == cols[i];
  }

  /** One more row state's actions, its row being the next after the rows the earlier ones open. */
  lemma ColumnRowsNext(ed: Editor, rows: seq<RowState>, j: nat, col: nat, first: nat, row: nat)
    requires j < |rows| && row == first + |OpenableRows(ed.arg0Of, rows[..j])|
    ensures ColumnRowsTrace(ed, rows[..j + 1], col, first) ==
            ColumnRowsTrace(ed, rows[..j], col, first) + RowActions(ed, rows[j], col, row)
  {
    var s := rows[..j + 1];
    assert |s| - 1 == j;
    assert s[..|s| - 1] == rows[..j];
    assert s[|s| - 1] == rows[j];
  }

  /** One more column's actions, its first row being the next after the rows the earlier columns open. */
  lemma RowsNext(ed: Editor, cols: seq<ColumnState>, i: nat, first: nat, row: nat)
    requires i < |cols| && row == first + |Openable(ed.arg0Of, cols[..i])|
    ensures RowsTrace(ed, cols[..i + 1], first) ==
            RowsTrace(ed, cols[..i], first) + ColumnRowsTrace(ed, cols[i].rows, i, row)
  {
    var s := cols[..i + 1];
    assert |s| - 1 == i;
    assert s[..|s| - 1] == cols[..i];
    assert s[|s| - 1] == cols[i];
  }

  lemma AppendAssoc(a: seq<Action>, b: seq<Action>, c: seq<Action>)
    ensures a + b + c == a + (b + c)
  {
  }

  lemma NoPositionsAppend(a: seq<Action>, b: seq<Action>)
    requires NoPositions(a) && NoPositions(b)
    ensures NoPositions(a + b)
  {
    assert forall k :: |a| <= k < |a + b| ==> (a + b)[k] == b[k - |a|];
  }

  lemma RowActionsNoPositions(ed: Editor, rs: RowState, col: nat, row: nat)
    ensures NoPositions(RowActions(ed, rs, col, row))
  {
  }

  /** Opening and sizing rows restores no position. */
  lemma {:induction false} ColumnRowsNoPositions(ed: Editor, rows: seq<RowState>, col: nat, first: nat)
    ensures NoPositions(ColumnRowsTrace(ed, rows, col, first))
  {
    if |rows| > 0 {
      var k := |rows| - 1;
      ColumnRowsNoPositions(ed, rows[..k], col, first);
      RowActionsNoPositions(ed, rows[k], col, first + |OpenableRows(ed.arg0Of, rows[..k])|);
    }
  }

  lemma {:induction false} RowsNoPositions(ed: Editor, cols: seq<ColumnState>, first: nat)
    ensures NoPositions(RowsTrace(ed, cols, first))
  {
    if |cols| > 0 {
      var k := |cols| - 1;
      var row := first + |Openable(ed.arg0Of, cols[..k])|;
      RowsNoPositions(ed, cols[..k], first);
      ColumnRowsNoPositions(ed, cols[k].rows, k, row);
      NoPositionsAppend(RowsTrace(ed, cols[..k], first), ColumnRowsTrace(ed, cols[k].rows, k, row));
    }
  }

  lemma ExtendsBy(t0: seq<Action>, x: seq<Action>, t: seq<Action>)
    requires NoPositions(x) && t == t0 + x
    ensures ExtendsWithout(t0, t)
  {
    assert t[..|t0|] == t0;
    assert t[|t0|..] == x;
  }

  /** The positions of the opened rows, restored in the order they were opened. */
  method RestorePositions(made: seq<RowState>, first: nat, ed: Editor)
    modifies ed`trace
    ensures ed.trace == old(ed.trace) + Positions(made, first)
  {
    for k := 0 to |made|
      invariant ed.trace == old(ed.trace) + Positions(made[..k], first)
    {
      var rs := made[k];
      assert made[..k + 1][..k] == made[..k];
      ed.trace := ed.trace + [RestorePos(first + k, rs.tbCursorIndex, rs.taCursorIndex, rs.taOffsetIndex)];
    }
    assert made[..|made|] == made;
  }

  /**
   * Session.restore: the columns first, then every row, and only once all rows exist the
   * positions of the rows opened; the map of the source from row states to rows is `made`.
   */
  method Restore(s: Session, ed: Editor)
    modifies ed`columns, ed`rows, ed`trace
    ensures Restored(s, ed)
    ensures ed.columns == Max(Min(old(ed.columns), ed.kept), |s.columns|)
  {
    var rows0 := ed.rows;
    RestoreColumns(s, ed);
    ghost var t1 := ed.trace;
    var made := CreateRows(s, ed);
    ghost var t2 := ed.trace;
    RestorePositions(made, rows0, ed);
    RestoredByPhases(s, ed, old(ed.columns), rows0, old(ed.trace), t1, t2, made, ed.columns, ed.rows, ed.trace);
  }

  /** The three phases of restoring put together: the positions come last. */
  lemma RestoredByPhases(s: Session, ed: Editor, columns0: nat, rows0: nat, t0: seq<Action>, t1: seq<Action>,
                         t2: seq<Action>, made: seq<RowState>, columns: nat, rows: nat, t: seq<Action>)
    requires columns == Max(Min(columns0, ed.kept), |s.columns|)
    requires t1 == t0 + [SetRootToolbar(s.rootTbStr), CloseColumns] +
                   NewColumns(columns - Min(columns0, ed.kept)) + ColumnStarts(s.columns)
    requires made == Openable(ed.arg0Of, s.columns) && rows == rows0 + |made|
    requires t2 == t1 + RowsTrace(ed, s.columns, rows0)
    requires t == t2 + Positions(made, rows0)
    ensures RestoredFrom(s, ed, columns0, rows0, t0, columns, rows, t)
  {
    ColumnTrace(t0, t1, s.rootTbStr, columns - Min(columns0, ed.kept), s.columns);
    RowsNoPositions(ed, s.columns, rows0);
    ExtendsBy(t1, RowsTrace(ed, s.columns, rows0), t2);
    ComposeTrace(t0, t1, t2, Positions(made, rows0));
  }

  /** Three phases of restoring, each extending the trace, with the positions last. */
  lemma ComposeTrace(t0: seq<Action>, t1: seq<Action>, t2: seq<Action>, p: seq<Action>)
    requires ExtendsWithout(t0, t1) && |t1| >= |t0| + 2 && ExtendsWithout(t1, t2)
    ensures var t := t2 + p;
      |t| >= |t0| + 2 + |p| && t[|t0|] == t1[|t0|] && t[|t0| + 1] == t1[|t0| + 1] &&
      ExtendsWithout(t0, t[..|t| - |p|]) && t[|t| - |p|..] == p
  {
    ExtendsTrans(t0, t1, t2);
    var t := t2 + p;
    assert t[..|t| - |p|] == t2;
    assert t2[..|t1|] == t1;
  }

  /** OpenSessionFromString: restores the first session with the name, or reports there is none. */
  method OpenSessionFromString(store: Store, name: string, ed: Editor) returns (err: Option<string>)
    modifies ed`columns, ed`rows, ed`trace
    ensures FirstNamed(store.sessions, name).None? ==> err == Some("session not found: " + name) && unchanged(ed)
    ensures FirstNamed(store.sessions, name).Some? ==>
      err == None && Restored(store.sessions[FirstNamed(store.sessions, name).value], ed)
  {
    var i := 0;
    while i < |store.sessions|
      invariant 0 <= i <= |store.sessions|
      invariant forall k :: 0 <= k < i ==> store.sessions[k].name != name
    {
      if store.sessions[i].name == name {
        FirstNamedAt(store.sessions, name, i);
        Restore(store.sessions[i], ed);
        return None;
      }
      i := i + 1;
    }
    err := Some("session not found: " + name);
  }
}
