/**
 * The rune-level text scanning of the editor's parse utilities: predicate searches forwards and
 * backwards (also with a budget of examined runes), line starts and ends, line/column
 * conversions, filename escaping, and word detection.
 *
 * A Go predicate `func(rune) bool` that updates variables it captures is modelled as a step
 * function from (state, rune) to (new state, answer); `Pure` lifts a predicate with no state.
 */
module ParseUtil {
  import opened Wrappers
  import opened Utf8
  import Iout

  /** The runes a filename escapes with a backslash (" :%?<>()"). */
  const FilenameEscapeRunes: set<char> := {' ', ':', '%', '?', '<', '>', '(', ')'}
  const EscapeRune: char := '\\'
  /** The runes that start an escape. */
  const EscapeRunes: seq<char> := [EscapeRune]
  /** The non-alphanumeric runes a filename may hold. */
  const FilenameSymbolRunes: seq<char> := "_/~\\-."

  /** unicode.IsLetter and unicode.IsDigit, which the model leaves uninterpreted. */
  datatype Classes = Classes(isLetter: char -> bool, isDigit: char -> bool)

  /** A step function for a predicate that keeps state between calls. */
  type Step<!S> = (S, char) -> (S, bool)

  /** The predicate state-free. */
  function Pure(f: char -> bool): Step<()>
  {
    (u: (), c: char) => (u, f(c))
  }

  /** The outcome of a scan: the index of the chosen rune (-1 for none) and the final state. */
  datatype Match<S> = Match(k: int, st: S)

  function Shift<S>(m: Match<S>, d: int): Match<S>
  {
    if m.k < 0 then m else Match(m.k + d, m.st)
  }

  // ----- forward and backward predicate search -----

  /**
   * The first rune, scanning forwards, whose answer is `truth`; the scan gives up at the first
   * error rune.
   */
  function FirstMatch<S>(s: Str, truth: bool, f: Step<S>, st: S): (m: Match<S>)
    ensures -1 <= m.k < |s|
    decreases |s|
  {
    if s == [] || s[0].ch == RuneError then Match(-1, st)
    else
      var (st1, b) := f(st, s[0].ch);
      if b == truth then Match(0, st1) else Shift(FirstMatch(s[1..], truth, f, st1), 1)
  }

  /** The last rune, scanning backwards, whose answer is `truth`; stops at an error rune. */
  function LastMatch<S>(s: Str, truth: bool, f: Step<S>, st: S): (m: Match<S>)
    ensures -1 <= m.k < |s|
    decreases |s|
  {
    if s == [] || s[|s| - 1].ch == RuneError then Match(-1, st)
    else
      var (st1, b) := f(st, s[|s| - 1].ch);
      if b == truth then Match(|s| - 1, st1) else LastMatch(s[..|s| - 1], truth, f, st1)
  }

  /** The number of leading runes before the first error rune. */
  function Stop(s: Str): (n: nat)
    ensures n <= |s|
    ensures forall j :: 0 <= j < n ==> s[j].ch != RuneError
    ensures n < |s| ==> s[n].ch == RuneError
    decreases |s|
  {
    if s == [] || s[0].ch == RuneError then 0 else 1 + Stop(s[1..])
  }

  /** The number of trailing runes after the last error rune. */
  function StopBack(s: Str): (n: nat)
    ensures n <= |s|
    ensures forall j :: |s| - n <= j < |s| ==> s[j].ch != RuneError
    ensures n < |s| ==> s[|s| - n - 1].ch == RuneError
    decreases |s|
  {
    if s == [] || s[|s| - 1].ch == RuneError then 0 else 1 + StopBack(s[..|s| - 1])
  }

  /** How many runes a forward scan asks the predicate about. */
  function Examined<S>(s: Str, m: Match<S>): nat
  {
    if m.k >= 0 then m.k + 1 else Stop(s)
  }

  /** How many runes a backward scan asks the predicate about. */
  function ExaminedBack<S>(s: Str, m: Match<S>): nat
    requires m.k < |s|
  {
    if m.k >= 0 then |s| - m.k else StopBack(s)
  }

  /**
   * For a predicate without state: the match has the wanted answer, and every rune before it
   * (or before the error rune or the end, when nothing matches) has the other answer.
   */
  lemma {:induction false} FirstMatchIsFirst(s: Str, truth: bool, f: char -> bool)
    ensures var m := FirstMatch(s, truth, Pure(f), ());
      (m.k >= 0 ==> s[m.k].ch != RuneError && f(s[m.k].ch) == truth) &&
      (forall j :: 0 <= j < Examined(s, m) && j != m.k ==> s[j].ch != RuneError && f(s[j].ch) != truth) &&
      (m.k < 0 ==> Stop(s) == |s| || s[Stop(s)].ch == RuneError)
    decreases |s|
  {
    if s != [] && s[0].ch != RuneError && f(s[0].ch) != truth {
      FirstMatchIsFirst(s[1..], truth, f);
      var m' := FirstMatch(s[1..], truth, Pure(f), ());
      forall j | 1 <= j < Examined(s, FirstMatch(s, truth, Pure(f), ()))
        ensures s[j] == s[1..][j - 1]
      {
      }
    }
  }

  /** The backward counterpart of FirstMatchIsFirst. */
  lemma {:induction false} LastMatchIsLast(s: Str, truth: bool, f: char -> bool)
    ensures var m := LastMatch(s, truth, Pure(f), ());
      (m.k >= 0 ==> s[m.k].ch != RuneError && f(s[m.k].ch) == truth) &&
      (forall j :: |s| - ExaminedBack(s, m) <= j < |s| && j != m.k ==> s[j].ch != RuneError && f(s[j].ch) != truth) &&
      (m.k < 0 ==> StopBack(s) == |s| || s[|s| - StopBack(s) - 1].ch == RuneError)
    decreases |s|
  {
    if s != [] && s[|s| - 1].ch != RuneError && f(s[|s| - 1].ch) != truth {
      var t := s[..|s| - 1];
      LastMatchIsLast(t, truth, f);
      forall j | 0 <= j < |t| ensures s[j] == t[j] {
      }
    }
  }

  /**
   * IndexFunc: the byte offset and byte size of the first rune whose predicate answer is
   * `truth`, or (-1, 0); the scan gives up at an invalid rune. The predicate's state after the
   * scan is returned too.
   */
  method IndexFunc<S>(s: Str, truth: bool, f: Step<S>, st0: S) returns (index: int, size: nat, st: S)
    ensures var m := FirstMatch(s, truth, f, st0);
      st == m.st &&
      (if m.k < 0 then index == -1 && size == 0 else index == Off(s, m.k) && size == s[m.k].size)
  {
    var l := Len(s);
    var i := 0;
    ghost var k: nat := 0;
    st := st0;
    OffFull(s);
    while i < l
      invariant k <= |s| && i == Off(s, k)
      invariant Shift(FirstMatch(s[k..], truth, f, st), k) == FirstMatch(s, truth, f, st0)
      decreases l - i
    {
      ReadRuneAtOff(s, k);
      var r := ReadRuneAt(s, i).value;
      assert s[k..][0] == s[k];
      if r.ch == RuneError {
        return -1, 0, st;
      }
      var (st1, b) := f(st, r.ch);
      if b == truth {
        return i, r.size, st1;
      }
      assert s[k..][1..] == s[k + 1..];
      LenStep(s, k);
      i := i + r.size;
      k := k + 1;
      st := st1;
    }
    if k < |s| {
      OffLeLen(s, k);
    }
    assert s[k..] == [];
    index, size := -1, 0;
  }

  /**
   * LastIndexFunc: the byte offset and size of the last rune whose answer is `truth`, scanning
   * from the end, or (-1, 0); the scan gives up at an invalid rune.
   */
  method LastIndexFunc<S>(s: Str, truth: bool, f: Step<S>, st0: S) returns (index: int, size: nat, st: S)
    ensures var m := LastMatch(s, truth, f, st0);
      st == m.st &&
      (if m.k < 0 then index == -1 && size == 0 else index == Off(s, m.k) && size == s[m.k].size)
  {
    var i := Len(s);
    ghost var k: nat := |s|;
    st := st0;
    OffFull(s);
    assert s[..|s|] == s;
    while i > 0
      invariant k <= |s| && i == Off(s, k)
      invariant LastMatch(s[..k], truth, f, st) == LastMatch(s, truth, f, st0)
      decreases i
    {
      assert s[..0] == [];
      ReadLastRuneAtOff(s, k);
      var r := ReadLastRuneAt(s, i).value;
      if r.ch == RuneError {
        break;
      }
      LenStep(s, k - 1);
      i := i - r.size;
      var (st1, b) := f(st, r.ch);
      assert s[..k][..k - 1] == s[..k - 1];
      if b == truth {
        return i, r.size, st1;
      }
      k := k - 1;
      st := st1;
    }
    assert s[..0] == [];
    index, size := -1, 0;
  }

  // ----- searches with a budget of examined runes -----

  /** The predicate wrapped with a call counter: past `max` calls it answers `truth`. */
  function Counting<S>(max: int, truth: bool, f: Step<S>): Step<(int, S)>
  {
    (cs: (int, S), ru: char) =>
      var c := cs.0 + 1;
      if c > max then ((c, cs.1), truth)
      else
        var (st1, b) := f(cs.1, ru);
        ((c, st1), b)
  }

  /**
   * Counting the calls does not change a forward scan while the budget lasts; once the scan
   * would examine more than `max` runes, the counter ends above `max`.
   */
  lemma {:induction false} CountingFirst<S>(s: Str, max: int, truth: bool, f: Step<S>, c0: int, st: S)
    ensures var m := FirstMatch(s, truth, f, st);
      var w := FirstMatch(s, truth, Counting(max, truth, f), (c0, st));
      (c0 + Examined(s, m) <= max ==> w == Match(m.k, (c0 + Examined(s, m), m.st))) &&
      (c0 + Examined(s, m) > max ==> w.st.0 > max)
    decreases |s|
  {
    if s != [] && s[0].ch != RuneError && c0 + 1 <= max {
      var (st1, b) := f(st, s[0].ch);
      if b != truth {
        CountingFirst(s[1..], max, truth, f, c0 + 1, st1);
      }
    }
  }

  /** The backward counterpart of CountingFirst. */
  lemma {:induction false} CountingLast<S>(s: Str, max: int, truth: bool, f: Step<S>, c0: int, st: S)
    ensures var m := LastMatch(s, truth, f, st);
      var w := LastMatch(s, truth, Counting(max, truth, f), (c0, st));
      (c0 + ExaminedBack(s, m) <= max ==> w == Match(m.k, (c0 + ExaminedBack(s, m), m.st))) &&
      (c0 + ExaminedBack(s, m) > max ==> w.st.0 > max)
    decreases |s|
  {
    if s != [] && s[|s| - 1].ch != RuneError && c0 + 1 <= max {
      var (st1, b) := f(st, s[|s| - 1].ch);
      if b != truth {
        CountingLast(s[..|s| - 1], max, truth, f, c0 + 1, st1);
      }
    }
  }

  /**
   * ExpandIndexFunc: -1 when the scan examines more than `max` runes; otherwise the offset of
   * the first match, or len(str) when nothing matches.
   */
  method ExpandIndexFunc(str: Str, max: int, truth: bool, f: char -> bool) returns (r: int)
    ensures var m := FirstMatch(str, truth, Pure(f), ());
      (r == -1 <==> Examined(str, m) > max) &&
      (r != -1 ==> r == if m.k >= 0 then Off(str, m.k) else Len(str))
  {
    var i, _, cs := IndexFunc(str, truth, Counting(max, truth, Pure(f)), (0, ()));
    CountingFirst(str, max, truth, Pure(f), 0, ());
    if cs.0 > max {
      return -1;
    }
    if i < 0 {
      i := Len(str);
    }
    return i;
  }

  /**
   * ExpandLastIndexFunc: -1 when the backward scan examines more than `max` runes; otherwise
   * the offset just past the last match, or 0 when nothing matches. The predicate's final state
   * is returned as well.
   */
  method ExpandLastIndexFunc<S>(str: Str, max: int, truth: bool, f: Step<S>, st0: S) returns (r: int, st: S)
    ensures var m := LastMatch(str, truth, f, st0);
      (r == -1 <==> ExaminedBack(str, m) > max) &&
      (r != -1 ==> st == m.st && r == if m.k >= 0 then Off(str, m.k + 1) else 0)
  {
    var i, size, cs := LastIndexFunc(str, truth, Counting(max, truth, f), (0, st0));
    CountingLast(str, max, truth, f, 0, st0);
    st := cs.1;
    if cs.0 > max {
      return -1, st;
    }
    if i < 0 {
      i := 0;
    } else {
      LenStep(str, LastMatch(str, truth, f, st0).k);
      i := i + size;
    }
    return i, st;
  }

  // ----- filename expansion -----

  /** isFilenameRune: a letter, a digit, or one of the filename symbols. */
  predicate IsFilenameRune(uc: Classes, ru: char)
  {
    uc.isLetter(ru) || uc.isDigit(ru) || ru in FilenameSymbolRunes
  }

  /** The variables the filename predicate captures: inside an escape, and the runes kept. */
  datatype FmtState = FmtState(esc: bool, w: seq<char>)

  /**
   * The filename predicate of ExpandLastIndexOfFilenameFmt, scanning backwards: an escapable
   * rune opens an escape; inside one, a backslash (or anything after ':') closes it; otherwise
   * a filename rune continues the name.
   */
  function FmtStep(uc: Classes, st: FmtState, ru: char): (FmtState, bool)
  {
    if !st.esc && ru in FilenameEscapeRunes then (FmtState(true, st.w + [ru]), true)
    else if st.esc then
      if ru == EscapeRune || (|st.w| > 0 && st.w[|st.w| - 1] == ':') then (FmtState(false, []), true)
      else (st, false)
    else (st, IsFilenameRune(uc, ru))
  }

  function FilenameFmtStep(uc: Classes): Step<FmtState>
  {
    (st: FmtState, ru: char) => FmtStep(uc, st, ru)
  }

  /**
   * The state after scanning back to rune `j`: inside an escape exactly when rune `j` is an
   * escapable rune not yet matched with a backslash, and then it is the only rune kept.
   */
  predicate FmtInv(s: Str, j: nat, st: FmtState)
  {
    (st.esc ==> j < |s| && s[j].ch in FilenameEscapeRunes && st.w == [s[j].ch]) &&
    (!st.esc ==> st.w == [])
  }

  /** One step of a backward scan over the prefix of `j` runes. */
  lemma LastMatchUnfold<S>(s: Str, j: nat, truth: bool, f: Step<S>, st: S)
    requires 0 < j <= |s| && s[j - 1].ch != RuneError
    ensures var p := f(st, s[j - 1].ch);
      LastMatch(s[..j], truth, f, st) ==
        (if p.1 == truth then Match(j - 1, p.0) else LastMatch(s[..j - 1], truth, f, p.0))
    ensures StopBack(s[..j]) == 1 + StopBack(s[..j - 1])
  {
    assert s[..j][..j - 1] == s[..j - 1];
  }

  /** One step keeps the invariant, and a rune that ends the name leaves the state alone. */
  lemma FmtStepInv(uc: Classes, s: Str, j: nat, st: FmtState)
    requires 0 < j <= |s| && FmtInv(s, j, st)
    ensures var (st1, b) := FmtStep(uc, st, s[j - 1].ch);
      (b ==> FmtInv(s, j - 1, st1)) && (!b ==> st1 == st)
  {
  }

  /**
   * A property of (rune index, state) that each step keeps: it holds where a backward scan
   * stops, and a matching step leaves the state as it was.
   */
  lemma {:induction false} LastMatchKeeps<S>(s: Str, j: nat, truth: bool, f: Step<S>, st: S, inv: (nat, S) -> bool)
    requires j <= |s| && inv(j, st)
    requires forall i: nat, x: S {:trigger f(x, s[i].ch)} :: i < |s| && inv(i + 1, x) ==>
      (f(x, s[i].ch).1 != truth ==> inv(i, f(x, s[i].ch).0)) && (f(x, s[i].ch).1 == truth ==> f(x, s[i].ch).0 == x)
    ensures Keeps(s, j, truth, f, st, inv)
    decreases j
  {
    if j > 0 && s[j - 1].ch != RuneError {
      var p := f(st, s[j - 1].ch);
      if p.1 != truth {
        LastMatchKeeps(s, j - 1, truth, f, p.0, inv);
      }
      KeepsStep(s, j, truth, f, st, inv);
    } else {
      assert j > 0 ==> s[..j][j - 1] == s[j - 1];
      assert LastMatch(s[..j], truth, f, st) == Match(-1, st);
      assert StopBack(s[..j]) == 0;
    }
  }

  /** What LastMatchKeeps promises for the prefix of `j` runes scanned from state `st`. */
  predicate Keeps<S>(s: Str, j: nat, truth: bool, f: Step<S>, st: S, inv: (nat, S) -> bool)
    requires j <= |s|
  {
    var m := LastMatch(s[..j], truth, f, st);
    (m.k >= 0 ==> inv(m.k + 1, m.st)) &&
    (m.k < 0 ==> inv(j - StopBack(s[..j]), m.st))
  }

  /** Keeps for `j` follows from one step and, when the step does not match, Keeps for `j - 1`. */
  lemma KeepsStep<S>(s: Str, j: nat, truth: bool, f: Step<S>, st: S, inv: (nat, S) -> bool)
    requires 0 < j <= |s| && s[j - 1].ch != RuneError && inv(j, st)
    requires var p := f(st, s[j - 1].ch);
      (p.1 != truth ==> Keeps(s, j - 1, truth, f, p.0, inv)) && (p.1 == truth ==> p.0 == st)
    ensures Keeps(s, j, truth, f, st, inv)
  {
    LastMatchUnfold(s, j, truth, f, st);
  }

  /** LastMatchKeeps for the whole text. */
  lemma LastMatchKeepsAll<S>(s: Str, truth: bool, f: Step<S>, st: S, inv: (nat, S) -> bool)
    requires inv(|s|, st)
    requires forall i: nat, x: S {:trigger f(x, s[i].ch)} :: i < |s| && inv(i + 1, x) ==>
      (f(x, s[i].ch).1 != truth ==> inv(i, f(x, s[i].ch).0)) && (f(x, s[i].ch).1 == truth ==> f(x, s[i].ch).0 == x)
    ensures var m := LastMatch(s, truth, f, st);
      (m.k >= 0 ==> inv(m.k + 1, m.st)) && (m.k < 0 ==> inv(|s| - StopBack(s), m.st))
  {
    LastMatchKeeps(s, |s|, truth, f, st, inv);
    assert s[..|s|] == s;
  }

  lemma FmtScan(uc: Classes, s: Str)
    ensures var m := LastMatch(s, false, FilenameFmtStep(uc), FmtState(false, []));
      (m.k >= 0 ==> FmtInv(s, m.k + 1, m.st)) &&
      (m.k < 0 ==> FmtInv(s, |s| - StopBack(s), m.st))
  {
    var inv := (i: nat, x: FmtState) => FmtInv(s, i, x);
    var f := FilenameFmtStep(uc);
    forall i: nat, x: FmtState {:trigger f(x, s[i].ch)} | i < |s| && inv(i + 1, x)
      ensures (f(x, s[i].ch).1 != false ==> inv(i, f(x, s[i].ch).0)) && (f(x, s[i].ch).1 == false ==> f(x, s[i].ch).0 == x)
    {
      FmtStepInv(uc, s, i + 1, x);
    }
    LastMatchKeepsAll(s, false, f, FmtState(false, []), inv);
  }

  /** A kept escapable rune is one byte wide. */
  lemma FmtEscWidth(s: Str, e: nat, st: FmtState)
    requires FmtInv(s, e, st) && |st.w| > 0
    ensures e < |s| && st.w == [s[e].ch] && Len(FromChars(st.w)) == 1
    ensures Off(s, e + 1) == Off(s, e) + 1 <= Len(s)
  {
    LenFromChars(st.w);
    LenStep(s, e);
    OffLeLen(s, e + 1);
  }

  /**
   * ExpandLastIndexOfFilenameFmt: -1 when the backward scan examines more than `max` runes;
   * otherwise ExpandLastIndexFunc's offset (just past the last rune the scan refused, or 0),
   * plus the one byte of the escapable rune the closure still keeps when the scan ends inside an
   * escape that no backslash closed. That rune is the one the scan stopped at.
   */
  method ExpandLastIndexOfFilenameFmt(uc: Classes, str: Str, max: int) returns (r: int)
    ensures -1 <= r <= Len(str)
    ensures var m := LastMatch(str, false, FilenameFmtStep(uc), FmtState(false, []));
      var e := if m.k >= 0 then m.k + 1 else |str| - StopBack(str);
      (r == -1 <==> ExaminedBack(str, m) > max) &&
      (r != -1 ==> r == (if m.k >= 0 then Off(str, m.k + 1) else 0) + (if |m.st.w| > 0 then 1 else 0)) &&
      (|m.st.w| > 0 <==> m.st.esc) &&
      (m.st.esc ==> e < |str| && m.st.w == [str[e].ch] && str[e].ch in FilenameEscapeRunes)
  {
    ghost var m := LastMatch(str, false, FilenameFmtStep(uc), FmtState(false, []));
    ghost var e := if m.k >= 0 then m.k + 1 else |str| - StopBack(str);
    FmtScan(uc, str);
    var i, st := ExpandLastIndexFunc(str, max, false, FilenameFmtStep(uc), FmtState(false, []));
    if i < 0 {
      return -1;
    }
    OffLeLen(str, e);
    if |st.w| > 0 {
      FmtEscWidth(str, e, st);
      i := i + Len(FromChars(st.w));
    }
    return i;
  }

  // ----- line starts and ends -----

  const Newline: Rune := DecodedRune('\n', 1)

  /** The byte at offset `j` is a newline. */
  predicate NewlineAt(s: Str, j: int)
  {
    ReadRuneAt(s, j) == Some(Newline)
  }

  /** A newline byte is a whole rune: it sits at a rune start, and that rune is '\n'. */
  lemma NewlineAtRune(s: Str, k: nat)
    requires k < |s|
    ensures NewlineAt(s, Off(s, k)) <==> s[k].ch == '\n'
  {
    ReadRuneAtOff(s, k);
  }

  lemma NoNewlineInside(s: Str, k: nat, p: int)
    requires k < |s| && Off(s, k) < p < Off(s, k + 1)
    ensures !NewlineAt(s, p)
  {
    ReadRuneAtInside(s, k, p);
  }

  /** strings.LastIndex(s[:index], "\n"). */
  function LastNewline(s: Str, index: int): (j: int)
    ensures -1 <= j < index || (j == -1 && index <= 0)
    ensures j >= 0 ==> NewlineAt(s, j)
    ensures forall p :: j < p < index ==> !NewlineAt(s, p)
    decreases index
  {
    if index <= 0 then (ReadRuneAtOutside(s, -1); -1)
    else if NewlineAt(s, index - 1) then index - 1
    else LastNewline(s, index - 1)
  }

  /** strings.Index(s[index:], "\n"), as an offset into `s`. */
  function NextNewline(s: Str, index: int): (j: int)
    requires 0 <= index
    ensures j == -1 || (index <= j < Len(s) && NewlineAt(s, j))
    ensures forall p :: index <= p < (if j < 0 then Len(s) else j) ==> !NewlineAt(s, p)
    decreases Len(s) - index
  {
    if index >= Len(s) then -1
    else if NewlineAt(s, index) then index
    else NextNewline(s, index + 1)
  }

  /**
   * LineStartIndex: the start of the line holding `index`, that is 0 or the offset just past
   * the last newline before `index`.
   */
  function LineStartIndex(s: Str, index: int): (r: int)
    requires 0 <= index <= Len(s)
    ensures 0 <= r <= index
    ensures r == 0 || NewlineAt(s, r - 1)
    ensures forall p :: r <= p < index ==> !NewlineAt(s, p)
  {
    var i := LastNewline(s, index);
    if i < 0 then 0 else i + 1
  }

  /**
   * LineEndIndexNextIndex: the offset just past the next newline at or after `index`, with
   * true; or len(s) with false when no newline follows.
   */
  function LineEndIndexNextIndex(s: Str, index: int): (r: (int, bool))
    requires 0 <= index <= Len(s)
    ensures r.1 ==>
      index < r.0 <= Len(s) && NewlineAt(s, r.0 - 1) && forall p :: index <= p < r.0 - 1 ==> !NewlineAt(s, p)
    ensures !r.1 ==> r.0 == Len(s) && forall p :: index <= p < Len(s) ==> !NewlineAt(s, p)
  {
    var i := NextNewline(s, index);
    if i < 0 then (Len(s), false) else (i + 1, true)
  }

  /** Two offsets with no newline between have the same line start. */
  lemma LineStartSkip(s: Str, a: int, b: int)
    requires 0 <= a <= b <= Len(s)
    requires forall p :: a <= p < b ==> !NewlineAt(s, p)
    ensures LineStartIndex(s, a) == LineStartIndex(s, b)
  {
    var i, j := LastNewline(s, a), LastNewline(s, b);
    assert i == j;
  }

  // ----- line and column positions -----

  /** The 0-based line of rune `k`: the number of newlines before it. */
  function LineOf(cs: seq<char>, k: nat): nat
    requires k <= |cs|
  {
    if k == 0 then 0 else LineOf(cs, k - 1) + (if cs[k - 1] == '\n' then 1 else 0)
  }

  /** The rune index where the line holding rune `k` begins. */
  function LineBegin(cs: seq<char>, k: nat): (b: nat)
    requires k <= |cs|
    ensures b <= k
    ensures b == 0 || cs[b - 1] == '\n'
    ensures forall j :: b <= j < k ==> cs[j] != '\n'
  {
    if k == 0 then 0 else if cs[k - 1] == '\n' then k else LineBegin(cs, k - 1)
  }

  /** The 0-based column of rune `k`, in runes. */
  function ColumnOf(cs: seq<char>, k: nat): nat
    requires k <= |cs|
  {
    k - LineBegin(cs, k)
  }

  lemma {:induction false} LineOfMono(cs: seq<char>, j: nat, k: nat)
    requires j <= k <= |cs|
    ensures LineOf(cs, j) <= LineOf(cs, k)
    ensures j < k && cs[k - 1] == '\n' ==> LineOf(cs, j) < LineOf(cs, k)
    decreases k - j
  {
    if j < k {
      LineOfMono(cs, j, k - 1);
    }
  }

  /** The line's first rune is at column 0 of the same line. */
  lemma {:induction false} LineBeginFacts(cs: seq<char>, k: nat)
    requires k <= |cs|
    ensures ColumnOf(cs, LineBegin(cs, k)) == 0 && LineOf(cs, LineBegin(cs, k)) == LineOf(cs, k)
  {
    if k > 0 && cs[k - 1] != '\n' {
      LineBeginFacts(cs, k - 1);
    }
  }

  /** A line begins at only one rune index. */
  lemma LineBeginUnique(cs: seq<char>, j: nat, k: nat)
    requires j <= |cs| && k <= |cs|
    requires ColumnOf(cs, j) == 0 && ColumnOf(cs, k) == 0 && LineOf(cs, j) == LineOf(cs, k)
    ensures j == k
  {
    if j < k {
      LineOfMono(cs, j, k);
    } else if k < j {
      LineOfMono(cs, k, j);
    }
  }

  /** Rune `k` stands at 0-based line `l0`, column `c0`. */
  predicate At(cs: seq<char>, k: nat, l0: int, c0: int)
    requires k <= |cs|
  {
    LineOf(cs, k) == l0 && ColumnOf(cs, k) == c0
  }

  /** Each (line, column) is the position of at most one rune index. */
  lemma PositionUnique(cs: seq<char>, k: nat, l0: int, c0: int)
    requires k <= |cs| && At(cs, k, l0, c0)
    ensures forall j :: 0 <= j <= |cs| && At(cs, j, l0, c0) ==> j == k
  {
    forall j | 0 <= j <= |cs| && At(cs, j, l0, c0) ensures j == k {
      LineBeginFacts(cs, j);
      LineBeginFacts(cs, k);
      LineBeginUnique(cs, LineBegin(cs, j), LineBegin(cs, k));
    }
  }

  /** No rune from `k` on stands on an earlier line than rune `k`. */
  lemma LaterLines(cs: seq<char>, k: nat)
    requires k <= |cs|
    ensures forall j :: k <= j <= |cs| ==> LineOf(cs, k) <= LineOf(cs, j)
    ensures forall j :: 0 <= j <= k ==> LineOf(cs, j) <= LineOf(cs, k)
  {
    forall j | k <= j <= |cs| ensures LineOf(cs, k) <= LineOf(cs, j) {
      LineOfMono(cs, k, j);
    }
    forall j | 0 <= j <= k ensures LineOf(cs, j) <= LineOf(cs, k) {
      LineOfMono(cs, j, k);
    }
  }

  /** Rune `k` stands at 1-based `line` and `column`. */
  predicate AtLineColumn(cs: seq<char>, k: nat, line: int, column: int)
    requires k <= |cs|
  {
    At(cs, k, line - 1, column - 1)
  }

  /**
   * A newline at rune `k` on or after the wanted line ends the search: no rune stands at the
   * wanted position, and the wanted line, if it is that of rune `k`, begins where rune `k`'s does.
   */
  lemma LineColumnPast(cs: seq<char>, k: nat, line: int, column: int)
    requires k < |cs| && cs[k] == '\n' && (LineOf(cs, k) == line - 1 || line < 1)
    requires forall j :: 0 <= j <= k ==> !AtLineColumn(cs, j, line, column)
    ensures forall j :: 0 <= j < |cs| ==> !AtLineColumn(cs, j, line, column)
    ensures forall j :: 0 <= j <= |cs| && AtLineColumn(cs, j, line, 1) ==> j == LineBegin(cs, k)
    ensures line >= 1 ==> AtLineColumn(cs, LineBegin(cs, k), line, 1)
  {
    LaterLines(cs, k + 1);
    LineBeginFacts(cs, k);
    forall j | 0 <= j <= |cs| && AtLineColumn(cs, j, line, 1) ensures j == LineBegin(cs, k) {
      PositionUnique(cs, LineBegin(cs, k), line - 1, 0);
    }
  }

  /** At the end of a text whose last line is not after the wanted one, the same holds. */
  lemma LineColumnEnd(cs: seq<char>, line: int)
    requires LineOf(cs, |cs|) <= line - 1 || line < 1
    ensures forall j :: 0 <= j <= |cs| && AtLineColumn(cs, j, line, 1) ==>
      LineOf(cs, |cs|) == line - 1 && j == LineBegin(cs, |cs|)
    ensures LineOf(cs, |cs|) == line - 1 ==> AtLineColumn(cs, LineBegin(cs, |cs|), line, 1)
  {
    LaterLines(cs, |cs|);
    LineBeginFacts(cs, |cs|);
    forall j | 0 <= j <= |cs| && AtLineColumn(cs, j, line, 1)
      ensures LineOf(cs, |cs|) == line - 1 && j == LineBegin(cs, |cs|)
    {
      PositionUnique(cs, LineBegin(cs, |cs|), line - 1, 0);
    }
  }

  /**
   * What LineColumnIndex answers: the offset of the rune at 1-based (line, column), where the
   * column counts runes; failing that, the offset where that line begins; failing that, 0.
   */
  predicate IsLineColumnIndex(str: Str, line: int, column: int, index: int)
  {
    var cs := Chars(str);
    (forall k :: 0 <= k < |cs| && AtLineColumn(cs, k, line, column) ==> index == Off(str, k)) &&
    ((forall k :: 0 <= k < |cs| ==> !AtLineColumn(cs, k, line, column)) ==>
       (forall k :: 0 <= k <= |cs| && AtLineColumn(cs, k, line, 1) ==> index == Off(str, k)) &&
       ((forall k :: 0 <= k <= |cs| ==> !AtLineColumn(cs, k, line, 1)) ==> index == 0))
  }

  /** The answer when a rune stands at the position. */
  lemma LineColumnFound(str: Str, line: int, column: int, k: nat)
    requires k < |str| && AtLineColumn(Chars(str), k, line, column)
    ensures IsLineColumnIndex(str, line, column, Off(str, k))
  {
    PositionUnique(Chars(str), k, line - 1, column - 1);
  }

  /** The answer when no rune stands at the position and the line begins at rune `b`, if anywhere. */
  lemma LineColumnMissing(str: Str, line: int, column: int, b: nat, index: int)
    requires b <= |str|
    requires forall j :: 0 <= j < |str| ==> !AtLineColumn(Chars(str), j, line, column)
    requires forall j :: 0 <= j <= |str| && AtLineColumn(Chars(str), j, line, 1) ==> j == b
    requires if AtLineColumn(Chars(str), b, line, 1) then index == Off(str, b) else index == 0
    ensures IsLineColumnIndex(str, line, column, index)
  {
  }

  /**
   * The scan's state after `k` runes: `ri` is rune `k`'s offset, `l` its 0-based line, and on
   * the wanted line `line0` the column `c` and the line's start `index` are tracked; no rune
   * before `k` stands at the wanted position.
   */
  predicate Scanned(str: Str, line0: int, column0: int, k: nat, ri: int, l: int, c: int, index: int)
  {
    var cs := Chars(str);
    k <= |str| && ri == Off(str, k) && l == LineOf(cs, k) && (l <= line0 || l == 0) &&
    (l == line0 ==> c == ColumnOf(cs, k) && index == Off(str, LineBegin(cs, k))) &&
    (l != line0 ==> c == 0 && index == 0) &&
    (forall j :: 0 <= j < k ==> !At(cs, j, line0, column0))
  }

  /** One rune of the scan, from the state (l, c, index) to (l', c', index'). */
  lemma ScannedStep(str: Str, line0: int, column0: int, k: nat, ri: int,
                    l: int, c: int, index: int, l': int, c': int, index': int)
    requires k < |str| && Scanned(str, line0, column0, k, ri, l, c, index)
    requires !(l == line0 && c == column0)
    requires c' == (if l == line0 then c + 1 else c)
    requires l' == (if str[k].ch == '\n' then l + 1 else l)
    requires index' == (if str[k].ch == '\n' && l' == line0 then ri + 1 else index)
    ensures !At(Chars(str), k, line0, column0)
    ensures l' <= line0 || l' == 0 ==> Scanned(str, line0, column0, k + 1, ri + str[k].size, l', c', index')
  {
    LenStep(str, k);
  }

  /** LineColumnIndex(str, line, column). */
  method LineColumnIndex(str: Str, line: int, column: int) returns (index: int)
    ensures IsLineColumnIndex(str, line, column, index)
  {
    ghost var cs := Chars(str);
    var line0, column0 := line - 1, column - 1;
    index := 0;
    var l, c := 0, 0;
    var k := 0;
    var ri := 0;
    assert Off(str, 0) == 0;
    while k < |str|
      invariant Scanned(str, line0, column0, k, ri, l, c, index)
    {
      var ru := str[k].ch;
      if l == line0 && c == column0 {
        index := ri;
        LineColumnFound(str, line, column, k);
        return;
      }
      ghost var l0, c0, index0 := l, c, index;
      if l == line0 {
        c := c + 1;
      }
      if ru == '\n' {
        l := l + 1;
        if l == line0 {
          index := ri + 1;
        } else if l > line0 {
          ScannedStep(str, line0, column0, k, ri, l0, c0, index0, l, c, index);
          LineColumnPast(cs, k, line, column);
          LineColumnMissing(str, line, column, LineBegin(cs, k), index);
          return;
        }
      }
      ScannedStep(str, line0, column0, k, ri, l0, c0, index0, l, c, index);
      k := k + 1;
      ri := ri + str[k - 1].size;
    }
    LineColumnEnd(cs, line);
    LineColumnMissing(str, line, column, LineBegin(cs, k), index);
  }

  // ----- offset to line and column -----

  /** A newline-free stretch of runes has no newline byte in it. */
  lemma {:induction false} NoNewlineBytes(s: Str, a: nat, b: nat)
    requires a <= b <= |s|
    requires forall j :: a <= j < b ==> s[j].ch != '\n'
    ensures forall p :: Off(s, a) <= p < Off(s, b) ==> !NewlineAt(s, p)
    decreases b - a
  {
    if a < b {
      NoNewlineBytes(s, a + 1, b);
      LenStep(s, a);
      NewlineAtRune(s, a);
      forall p | Off(s, a) < p < Off(s, a + 1) ensures !NewlineAt(s, p) {
        NoNewlineInside(s, a, p);
      }
    }
  }

  /** At a rune boundary, the byte-level line start is the rune-level line start. */
  lemma LineStartIndexOff(s: Str, k: nat)
    requires k <= |s|
    ensures Off(s, k) <= Len(s) && LineStartIndex(s, Off(s, k)) == Off(s, LineBegin(Chars(s), k))
  {
    var cs := Chars(s);
    var b := LineBegin(cs, k);
    OffLeLen(s, k);
    if b == 0 {
      assert Off(s, 0) == 0;
    } else {
      LenStep(s, b - 1);
      NewlineAtRune(s, b - 1);
      assert NewlineAt(s, Off(s, b) - 1);
      if b < k {
        OffMono(s, b, k);
      }
      assert LineStartIndex(s, Off(s, b)) == Off(s, b) by {
        assert LastNewline(s, Off(s, b)) == Off(s, b) - 1;
      }
    }
    NoNewlineBytes(s, b, k);
    if b < k {
      OffMono(s, b, k);
    }
    LineStartSkip(s, Off(s, b), Off(s, k));
  }

  /** The text holds a newline rune. */
  predicate HasNewline(s: Str)
  {
    exists k :: 0 <= k < |s| && s[k].ch == '\n'
  }

  lemma LineBeginZero(s: Str)
    ensures LineBegin(Chars(s), |s|) == 0 <==> !HasNewline(s)
  {
    var cs := Chars(s);
    var b := LineBegin(cs, |s|);
    if b > 0 {
      assert s[b - 1].ch == '\n';
    }
  }

  /** How line, line start and offset move over one rune. */
  lemma RuneStep(str: Str, k: nat)
    requires k < |str|
    ensures var cs := Chars(str);
      Off(str, k + 1) == Off(str, k) + str[k].size &&
      LineOf(cs, k + 1) == LineOf(cs, k) + (if str[k].ch == '\n' then 1 else 0) &&
      LineBegin(cs, k + 1) == (if str[k].ch == '\n' then k + 1 else LineBegin(cs, k)) &&
      (str[k].ch == '\n' ==> str[k].size == 1)
  {
    LenStep(str, k);
  }

  /** The offset of the text's last newline, or 0 when it has none. */
  function LastNewlineOrZero(str: Str): int
  {
    var b := LineBegin(Chars(str), |str|);
    if b == 0 then 0 else Off(str, b) - 1
  }

  /**
   * The count after `k` runes: `ri` is rune `k`'s offset, `line` the newlines before it, and
   * `lineStart` the offset of the last of them, or `none` when there is none.
   */
  predicate LinesScanned(str: Str, k: nat, ri: int, line: int, lineStart: int, none: int)
  {
    var cs := Chars(str);
    k <= |str| && ri == Off(str, k) && line == LineOf(cs, k) &&
    lineStart == (if LineBegin(cs, k) == 0 then none else Off(str, LineBegin(cs, k)) - 1)
  }

  /** One rune of the count. */
  lemma LinesScannedStep(str: Str, k: nat, ri: int, line: int, lineStart: int, none: int)
    requires k < |str| && LinesScanned(str, k, ri, line, lineStart, none)
    ensures var nl := str[k].ch == '\n';
      LinesScanned(str, k + 1, ri + str[k].size, if nl then line + 1 else line, if nl then ri else lineStart, none)
  {
    RuneStep(str, k);
  }

  /**
   * IndexLineColumn: the 1-based line of the end of the text (one more than its newline
   * count), and len(str) less the offset of its last newline, or less 0 when it has none.
   */
  method IndexLineColumn(str: Str) returns (line: int, col: int)
    ensures var cs := Chars(str);
      line == LineOf(cs, |cs|) + 1 &&
      col == Len(str) - LastNewlineOrZero(str)
  {
    ghost var cs := Chars(str);
    var lineStart := 0;
    line := 0;
    var k := 0;
    var ri := 0;
    assert Off(str, 0) == 0;
    while k < |str|
      invariant LinesScanned(str, k, ri, line, lineStart, 0)
    {
      LinesScannedStep(str, k, ri, line, lineStart, 0);
      if str[k].ch == '\n' {
        line := line + 1;
        lineStart := ri;
      }
      k := k + 1;
      ri := ri + str[k - 1].size;
    }
    OffFull(str);
    col := Len(str) - lineStart;
    line := line + 1;
  }

  /**
   * What IndexLineColumn's column means: with a newline in the text it is the 1-based byte
   * column of the end of the text; without one it is the 0-based column.
   */
  lemma IndexLineColumnColumn(str: Str)
    ensures var cs := Chars(str);
      var col := Len(str) - LastNewlineOrZero(str);
      (HasNewline(str) ==> col == Len(str) - LineStartIndex(str, Len(str)) + 1) &&
      (!HasNewline(str) ==> col == Len(str) - LineStartIndex(str, Len(str)))
  {
    var cs := Chars(str);
    var b := LineBegin(cs, |cs|);
    LineStartIndexOff(str, |str|);
    OffFull(str);
    LineBeginZero(str);
    if b > 0 {
      LenStep(str, b - 1);
    }
  }

  /** The two texts of the counterexample: "ab", and "x\nab" whose last line is also "ab". */
  const OneLine: Str := FromChars("ab")
  const TwoLines: Str := FromChars("x\nab")

  /**
   * The same last line "ab" gets column 2 when it is the only line and column 3 after a
   * newline: as written, IndexLineColumn's column depends on whether an earlier line exists.
   */
  lemma IndexLineColumnOffByOne()
    ensures Len(OneLine) - LastNewlineOrZero(OneLine) == 2
    ensures Len(TwoLines) - LastNewlineOrZero(TwoLines) == 3
  {
    assert Chars(OneLine) == "ab";
    assert Chars(TwoLines) == "x\nab";
    LenFromChars("ab");
    LenFromChars("x\nab");
    var t := TwoLines;
    assert t[..1] == FromChars("x");
    LenFromChars("x");
  }

  /**
   * IndexLineColumn with the evident intent: the line start is taken one past the last
   * newline (or at 0), so the column is the 1-based byte column of the end in every case.
   */
  method IndexLineColumnCorrected(str: Str) returns (line: int, col: int)
    ensures line == LineOf(Chars(str), |str|) + 1
    ensures col == Len(str) - LineStartIndex(str, Len(str)) + 1
  {
    ghost var cs := Chars(str);
    var lineStart := -1;
    assert Off(str, 0) == 0;
    line := 0;
    var k := 0;
    var ri := 0;
    while k < |str|
      invariant LinesScanned(str, k, ri, line, lineStart, -1)
    {
      LinesScannedStep(str, k, ri, line, lineStart, -1);
      if str[k].ch == '\n' {
        line := line + 1;
        lineStart := ri;
      }
      k := k + 1;
      ri := ri + str[k - 1].size;
    }
    OffFull(str);
    LineStartIndexOff(str, |str|);
    col := Len(str) - lineStart;
    line := line + 1;
  }

  /** Corrected, the column of a last line does not depend on the lines before it. */
  lemma CorrectedColumnOfLastLine(a: Str, b: Str)
    requires !HasNewline(b)
    ensures var s := a + [Newline] + b;
      Len(s) - LineStartIndex(s, Len(s)) + 1 == Len(b) - LineStartIndex(b, Len(b)) + 1
  {
    var s := a + [Newline] + b;
    LineBeginZero(b);
    LineStartIndexOff(b, |b|);
    OffFull(b);
    LastLineBegins(a, b);
    LineStartIndexOff(s, |s|);
    OffFull(s);
    LenAppend(a + [Newline], b);
    assert s[..|a| + 1] == a + [Newline];
  }

  lemma LastLineBegins(a: Str, b: Str)
    requires !HasNewline(b)
    ensures var s := a + [Newline] + b; LineBegin(Chars(s), |s|) == |a| + 1
  {
    var s := a + [Newline] + b;
    var n := |a| + 1;
    forall j | n <= j < |s| ensures Chars(s)[j] != '\n' {
      assert s[j] == b[j - n];
    }
    assert Chars(s)[n - 1] == '\n';
    LineBeginAfter(Chars(s), n, |s|);
  }

  /** With a newline just before rune `n` and none from there to `k`, line `k` begins at `n`. */
  lemma {:induction false} LineBeginAfter(cs: seq<char>, n: nat, k: nat)
    requires 0 < n <= k <= |cs| && cs[n - 1] == '\n'
    requires forall j :: n <= j < k ==> cs[j] != '\n'
    ensures LineBegin(cs, k) == n
    decreases k
  {
    if k > n {
      LineBeginAfter(cs, n, k - 1);
    }
  }

  // ----- escaping -----

  /** The runes of a filename with each escapable rune preceded by a backslash. */
  function Escaped(cs: seq<char>): seq<char>
  {
    if cs == [] then []
    else (if cs[0] in FilenameEscapeRunes then [EscapeRune, cs[0]] else [cs[0]]) + Escaped(cs[1..])
  }

  lemma {:induction false} EscapedAppend(a: seq<char>, b: seq<char>)
    ensures Escaped(a + b) == Escaped(a) + Escaped(b)
    decreases |a|
  {
    if a == [] {
      assert a + b == b;
    } else {
      assert (a + b)[1..] == a[1..] + b;
      EscapedAppend(a[1..], b);
    }
  }

  /** EscapeFilename: a backslash before every rune of " :%?<>()", other runes unchanged. */
  method EscapeFilename(str: Str) returns (r: Str)
    ensures r == FromChars(Escaped(Chars(str)))
  {
    ghost var cs := Chars(str);
    var w: seq<char> := [];
    var k := 0;
    while k < |str|
      invariant k <= |str| && w == Escaped(cs[..k])
    {
      var ru := str[k].ch;
      if ru in FilenameEscapeRunes {
        w := w + [EscapeRune];
      }
      w := w + [ru];
      assert cs[..k + 1] == cs[..k] + [ru];
      EscapedAppend(cs[..k], [ru]);
      k := k + 1;
    }
    assert cs[..k] == cs;
    r := FromChars(w);
  }

  /**
   * The runes with escapes removed: a backslash is dropped together with the escape when `drop`
   * holds of the rune after it, kept otherwise; a final lone backslash is dropped.
   */
  function Unescaped(cs: seq<char>, drop: char -> bool): seq<char>
    decreases |cs|
  {
    if cs == [] then []
    else if cs[0] == EscapeRune then
      if |cs| == 1 then []
      else (if drop(cs[1]) then [] else [EscapeRune]) + [cs[1]] + Unescaped(cs[2..], drop)
    else [cs[0]] + Unescaped(cs[1..], drop)
  }

  /** The unescaping loop's step after a backslash: the escape and the rune after it. */
  lemma UnescapedEscStep(cs: seq<char>, k: nat, drop: char -> bool, w: seq<char>, total: seq<char>)
    requires 0 < k < |cs| && cs[k - 1] == EscapeRune
    requires w + Unescaped(cs[k - 1..], drop) == total
    ensures (w + (if drop(cs[k]) then [] else [EscapeRune])) + [cs[k]] + Unescaped(cs[k + 1..], drop) == total
  {
    assert cs[k - 1..][2..] == cs[k + 1..];
  }

  /** The unescaping loop's step on a rune that is not a backslash. */
  lemma UnescapedPlainStep(cs: seq<char>, k: nat, drop: char -> bool, w: seq<char>, total: seq<char>)
    requires k < |cs| && cs[k] != EscapeRune
    requires w + Unescaped(cs[k..], drop) == total
    ensures (w + [cs[k]]) + Unescaped(cs[k + 1..], drop) == total
  {
    assert cs[k..][1..] == cs[k + 1..];
  }

  /** Every rune: UnescapeString drops the backslash before any of them. */
  predicate AnyRune(c: char) { true }

  /** UnescapeString: every escape backslash is dropped. */
  method UnescapeString(str: Str) returns (r: Str)
    ensures r == FromChars(Unescaped(Chars(str), AnyRune))
  {
    ghost var cs := Chars(str);
    var w: seq<char> := [];
    var esc := false;
    var k := 0;
    while k < |str|
      invariant k <= |str|
      invariant !esc ==> w + Unescaped(cs[k..], AnyRune) == Unescaped(cs, AnyRune)
      invariant esc ==>
        0 < k && cs[k - 1] == EscapeRune && w + Unescaped(cs[k - 1..], AnyRune) == Unescaped(cs, AnyRune)
    {
      var ru := str[k].ch;
      if !esc && ru in EscapeRunes {
        esc := true;
        k := k + 1;
        continue;
      }
      if esc {
        esc := false;
        UnescapedEscStep(cs, k, AnyRune, w, Unescaped(cs, AnyRune));
        assert w + [] == w;
      } else {
        UnescapedPlainStep(cs, k, AnyRune, w, Unescaped(cs, AnyRune));
      }
      w := w + [ru];
      k := k + 1;
    }
    if esc {
      assert cs[k - 1..] == [EscapeRune];
    }
    r := FromChars(w);
  }

  /** UnescapeRunes: an escape backslash is dropped only before a rune of `escapable`. */
  method UnescapeRunes(str: Str, escapable: Str) returns (r: Str)
    ensures r == FromChars(Unescaped(Chars(str), c => c in Chars(escapable)))
  {
    ghost var cs := Chars(str);
    ghost var drop := c => c in Chars(escapable);
    var w: seq<char> := [];
    var esc := false;
    var k := 0;
    while k < |str|
      invariant k <= |str|
      invariant !esc ==> w + Unescaped(cs[k..], drop) == Unescaped(cs, drop)
      invariant esc ==> 0 < k && cs[k - 1] == EscapeRune && w + Unescaped(cs[k - 1..], drop) == Unescaped(cs, drop)
    {
      var ru := str[k].ch;
      if !esc && ru in EscapeRunes {
        esc := true;
        k := k + 1;
        continue;
      }
      if esc {
        esc := false;
        UnescapedEscStep(cs, k, drop, w, Unescaped(cs, drop));
        if ru !in Chars(escapable) {
          w := w + [EscapeRune];
        } else {
          assert w + [] == w;
        }
      } else {
        UnescapedPlainStep(cs, k, drop, w, Unescaped(cs, drop));
      }
      w := w + [ru];
      k := k + 1;
    }
    if esc {
      assert cs[k - 1..] == [EscapeRune];
    }
    r := FromChars(w);
  }

  /**
   * Unescaping undoes escaping for text without backslashes, whenever every escapable filename
   * rune is one whose escape is dropped.
   */
  lemma {:induction false} UnescapeEscaped(cs: seq<char>, drop: char -> bool)
    requires EscapeRune !in cs
    requires forall c :: c in FilenameEscapeRunes ==> drop(c)
    ensures Unescaped(Escaped(cs), drop) == cs
    decreases |cs|
  {
    if cs != [] {
      UnescapeEscaped(cs[1..], drop);
      var e := Escaped(cs);
      if cs[0] in FilenameEscapeRunes {
        assert e[2..] == Escaped(cs[1..]);
      } else {
        assert e[1..] == Escaped(cs[1..]);
      }
    }
  }

  /**
   * UnescapeString(EscapeFilename(s)) == s for valid text without backslashes; likewise
   * UnescapeRunes with the filename escapable runes.
   */
  lemma EscapeRoundTrip(s: Str)
    requires ValidUtf8(s) && forall k :: 0 <= k < |s| ==> s[k].ch != EscapeRune
    ensures FromChars(Unescaped(Chars(FromChars(Escaped(Chars(s)))), AnyRune)) == s
    ensures FromChars(Unescaped(Chars(FromChars(Escaped(Chars(s)))), c => c in FilenameEscapeRunes)) == s
  {
    CharsFromChars(Escaped(Chars(s)));
    UnescapeEscaped(Chars(s), AnyRune);
    UnescapeEscaped(Chars(s), c => c in FilenameEscapeRunes);
    FromCharsChars(s);
  }

  /** Two drop rules that agree on the runes of the text unescape it alike. */
  lemma {:induction false} UnescapedAgree(cs: seq<char>, d1: char -> bool, d2: char -> bool)
    requires forall c :: c in cs ==> d1(c) == d2(c)
    ensures Unescaped(cs, d1) == Unescaped(cs, d2)
    decreases |cs|
  {
    if cs != [] {
      if cs[0] == EscapeRune && |cs| > 1 {
        assert cs[1] in cs;
        UnescapedAgree(cs[2..], d1, d2);
      } else if cs[0] != EscapeRune {
        UnescapedAgree(cs[1..], d1, d2);
      }
    }
  }

  /** UnescapeRunes agrees with UnescapeString when every rune of the text is escapable. */
  lemma UnescapeRunesAllEscapable(str: Str, escapable: Str)
    requires forall k :: 0 <= k < |str| ==> str[k].ch in Chars(escapable)
    ensures Unescaped(Chars(str), c => c in Chars(escapable)) == Unescaped(Chars(str), AnyRune)
  {
    UnescapedAgree(Chars(str), c => c in Chars(escapable), AnyRune);
  }

  // ----- words -----

  /** IsWordRune: a letter, a digit or '_'. */
  predicate IsWordRune(uc: Classes, ru: char)
  {
    uc.isLetter(ru) || uc.isDigit(ru) || ru == '_'
  }

  /** WordIsolated: no word rune right before offset `i`, and none at offset `i + le`. */
  predicate WordIsolated(uc: Classes, s: Str, i: int, le: int)
  {
    !(ReadLastRuneAt(s, i).Some? && IsWordRune(uc, ReadLastRuneAt(s, i).value.ch)) &&
    !(ReadRuneAt(s, i + le).Some? && IsWordRune(uc, ReadRuneAt(s, i + le).value.ch))
  }

  /** For the runes from `k` to `k2`: isolated iff neither neighbouring rune is a word rune. */
  lemma WordIsolatedRunes(uc: Classes, s: Str, k: nat, k2: nat)
    requires k <= k2 <= |s|
    ensures WordIsolated(uc, s, Off(s, k), Off(s, k2) - Off(s, k)) <==>
      (k == 0 || !IsWordRune(uc, s[k - 1].ch)) && (k2 == |s| || !IsWordRune(uc, s[k2].ch))
  {
    if k == 0 {
      assert s[..0] == [];
      ReadLastRuneAtOutside(s, 0);
    } else {
      ReadLastRuneAtOff(s, k);
    }
    if k2 == |s| {
      OffFull(s);
      ReadRuneAtOutside(s, Len(s));
    } else {
      ReadRuneAtOff(s, k2);
    }
  }

  /** IsWordRune as a predicate value. */
  function WordRune(uc: Classes): char -> bool
  {
    c => IsWordRune(uc, c)
  }

  /**
   * WordAtIndex: the word around offset `index` and its offset. The word ends, searching
   * forwards at most `max` bytes, at the first rune that is not a word rune or at the end of
   * the text; it starts, searching backwards, just after the last one or at 0. It is not found
   * when the rune at `index` is not a word rune.
   */
  function WordAtIndex(uc: Classes, s: Str, index: int, max: int): Result<(Str, int)>
  {
    var right := Iout.IndexFunc(s, index, max, false, WordRune(uc));
    if right.Failed? then Err("read error")
    else
      var i1 := match right
        case Found(j, _) => j
        case AtEof => Len(s)
        case _ => -1;
      if i1 == index then Err("word not found")
      else
        var left := Iout.LastIndexFunc(s, index, max, false, WordRune(uc));
        if left.Failed? then Err("read error")
        else
          var i0 := match left
            case Found(j, size) => j + size
            case AtEof => 0
            case _ => -1;
          match Iout.ReadNAt(s, i0, i1 - i0)
          case Ok(w) => Ok((w, i0))
          case Err(e) => Err(e)
  }

  /** A word is found only at a rune boundary inside the text, with a positive budget. */
  lemma WordAtIndexStart(uc: Classes, s: Str, index: int, max: int) returns (k: nat)
    requires !IsWordRune(uc, RuneError)
    requires WordAtIndex(uc, s, index, max).Ok?
    ensures k < |s| && index == Off(s, k) && max > 0
  {
    if max <= 0 {
      assert false;
    }
    if index < 0 {
      ReadRuneAtOutside(s, index);
      assert false;
    }
    if index >= Len(s) {
      ReadRuneAtOutside(s, index);
      ReadLastRuneAtOutside(s, index);
      assert false;
    }
    k := Locate(s, index);
    if Off(s, k) < index {
      ReadRuneAtInside(s, k, index);
      assert false;
    }
  }

  /**
   * A word found is the whole run of word runes around `index`: it starts at a rune boundary,
   * holds at least the rune at `index`, consists of word runes only, and is isolated. (The
   * error rune is not a word rune, as in Go's Unicode tables.)
   */
  lemma WordAtIndexSpec(uc: Classes, s: Str, index: int, max: int) returns (k0: nat, k: nat, k1: nat)
    requires !IsWordRune(uc, RuneError)
    requires WordAtIndex(uc, s, index, max).Ok?
    ensures var (w, i0) := WordAtIndex(uc, s, index, max).value;
      k0 <= k < k1 <= |s| && index == Off(s, k) && i0 == Off(s, k0) && w == s[k0..k1] &&
      (forall j :: k0 <= j < k1 ==> IsWordRune(uc, s[j].ch)) &&
      WordIsolated(uc, s, i0, Len(w))
  {
    k := WordAtIndexStart(uc, s, index, max);
    var r1 := Iout.IndexFuncAt(s, k, max, false, WordRune(uc));
    var r0 := Iout.LastIndexFuncAt(s, k, max, false, WordRune(uc));
    k0, k1 := r0, r1;
    WordAtIndexRange(uc, s, k, max, k0, k1);
  }

  lemma WordAtIndexRange(uc: Classes, s: Str, k: nat, max: int, k0: nat, k1: nat)
    requires k < |s| && max > 0
    requires WordAtIndex(uc, s, Off(s, k), max).Ok?
    requires k <= k1 <= |s| && forall j :: k <= j < k1 ==> IsWordRune(uc, s[j].ch)
    requires var r := Iout.IndexFunc(s, Off(s, k), max, false, WordRune(uc));
      (r.Found? ==> k1 < |s| && r.index == Off(s, k1) && !IsWordRune(uc, s[k1].ch)) && (r.AtEof? ==> k1 == |s|)
    requires k0 <= k && forall j :: k0 <= j < k ==> IsWordRune(uc, s[j].ch)
    requires var r := Iout.LastIndexFunc(s, Off(s, k), max, false, WordRune(uc));
      (r.Found? ==> 0 < k0 && r.index + r.size == Off(s, k0) && !IsWordRune(uc, s[k0 - 1].ch)) && (r.AtEof? ==> k0 == 0)
    ensures var (w, i0) := WordAtIndex(uc, s, Off(s, k), max).value;
      k0 <= k < k1 <= |s| && i0 == Off(s, k0) && w == s[k0..k1] &&
      (forall j :: k0 <= j < k1 ==> IsWordRune(uc, s[j].ch)) &&
      WordIsolated(uc, s, i0, Len(w))
  {
    var index := Off(s, k);
    var (w, i0) := WordAtIndex(uc, s, index, max).value;
    var right := Iout.IndexFunc(s, index, max, false, WordRune(uc));
    var left := Iout.LastIndexFunc(s, index, max, false, WordRune(uc));
    var i1 := if right.Found? then right.index else Len(s);
    OffFull(s);
    var a, b := Iout.ReadNAtOk(s, i0, i1 - i0);
    assert right.Found? || right.AtEof?;
    assert left.Found? || left.AtEof?;
    OffInjective(s, a, k0);
    OffInjective(s, b, k1);
    if k1 == k {
      assert false;
    }
    WordIsolatedSlice(uc, s, k0, k1);
  }

  /** Runes between two non-word neighbours, read as a slice, are isolated. */
  lemma WordIsolatedSlice(uc: Classes, s: Str, k0: nat, k1: nat)
    requires k0 <= k1 <= |s|
    requires k0 == 0 || !IsWordRune(uc, s[k0 - 1].ch)
    requires k1 == |s| || !IsWordRune(uc, s[k1].ch)
    ensures WordIsolated(uc, s, Off(s, k0), Len(s[k0..k1]))
  {
    assert Len(s[k0..k1]) == Off(s, k1) - Off(s, k0) by {
      assert s[..k1] == s[..k0] + s[k0..k1];
      LenAppend(s[..k0], s[k0..k1]);
    }
    WordIsolatedRunes(uc, s, k0, k1);
  }

  /** The two scans behind a word found: each stopped at a non-word rune or at an end of the text. */
  lemma WordAtIndexScans(uc: Classes, s: Str, index: int, max: int)
    returns (right: Iout.Scan, left: Iout.Scan, w: Str, i0: int)
    requires WordAtIndex(uc, s, index, max).Ok?
    ensures right == Iout.IndexFunc(s, index, max, false, WordRune(uc))
    ensures left == Iout.LastIndexFunc(s, index, max, false, WordRune(uc))
    ensures WordAtIndex(uc, s, index, max) == Ok((w, i0))
    ensures var i1 := if right.Found? then right.index else Len(s);
      (right.Found? || right.AtEof?) && (left.Found? || left.AtEof?) && i1 != index &&
      i0 == (if left.Found? then left.index + left.size else 0) && Iout.ReadNAt(s, i0, i1 - i0) == Ok(w)
  {
    right := Iout.IndexFunc(s, index, max, false, WordRune(uc));
    left := Iout.LastIndexFunc(s, index, max, false, WordRune(uc));
    w, i0 := WordAtIndex(uc, s, index, max).value.0, WordAtIndex(uc, s, index, max).value.1;
  }

  /** A word found lies at an offset inside the text. */
  lemma WordAtIndexInside(uc: Classes, s: Str, index: int, max: int)
    requires WordAtIndex(uc, s, index, max).Ok?
    ensures 0 <= index <= Len(s)
  {
    if index < 0 || index > Len(s) {
      ReadRuneAtOutside(s, index);
      ReadLastRuneAtOutside(s, index);
    }
  }

  /** What the two scans give, in offsets: the word read covers `index`. */
  lemma WordCovers(s: Str, index: int, right: Iout.Scan, left: Iout.Scan, wlen: int, i0: int)
    requires 0 <= index <= Len(s)
    requires (right.Found? || right.AtEof?) && (left.Found? || left.AtEof?)
    requires right.Found? ==> index <= right.index
    requires left.Found? ==> left.index + left.size <= index
    requires var i1 := if right.Found? then right.index else Len(s);
      i1 != index && i0 == (if left.Found? then left.index + left.size else 0) &&
      0 <= i0 && i0 + wlen == i1 <= Len(s)
    ensures 0 <= i0 <= index < i0 + wlen <= Len(s)
  {
  }

  /** A word found covers `index`: it starts at or before it and ends after it, inside the text. */
  lemma WordAtIndexCovers(uc: Classes, s: Str, index: int, max: int)
    requires WordAtIndex(uc, s, index, max).Ok?
    ensures 0 <= WordAtIndex(uc, s, index, max).value.1 <= index
    ensures index < WordAtIndex(uc, s, index, max).value.1 + Len(WordAtIndex(uc, s, index, max).value.0) <= Len(s)
  {
    var right, left, w, i0 := WordAtIndexScans(uc, s, index, max);
    WordAtIndexInside(uc, s, index, max);
    Iout.IndexFuncFrom(s, index, max, false, WordRune(uc));
    Iout.LastIndexFuncFrom(s, index, max, false, WordRune(uc));
    Iout.ReadNAtSpan(s, i0, (if right.Found? then right.index else Len(s)) - i0);
    WordCovers(s, index, right, left, Len(w), i0);
  }
}
