/**
 * The highlighting rules of the text widget with extensions (`TextEditX`): the selection
 * segment, the flash segment, bracket matching and the occurrences of the word at the cursor.
 * Each rule fills one segment group of the position drawer: 0 selection, 1 word,
 * 2 parenthesis, 3 flash. Offsets are byte offsets into the text; the drawer's first and last
 * visible offsets are given as inputs.
 */
module Highlight {
  import opened Wrappers
  import opened Utf8
  import Iout
  import ParseUtil
  import opened TextEdit

  /** drawer3.Segment: the byte range [pos, end) to highlight. */
  datatype Segment = Segment(pos: int, end: int)

  /** drawer3.SegGroup: a group of segments drawn with one colour, and whether it is drawn. */
  class SegGroup {
    var on: bool
    var segs: seq<Segment>

    constructor ()
      ensures !on && segs == []
    {
      on := false;
      segs := [];
    }
  }

  // ----- line indexes -----

  /**
   * lineIndexes(index): for an offset inside the text, the line holding it without its
   * newline; (0, 0) past the end. A negative offset makes the source slice out of range.
   */
  function LineIndexes(s: Str, index: int): (r: (int, int))
    requires 0 <= index
    ensures index < Len(s) ==>
      r.0 <= index <= r.1 <= Len(s) &&
      (r.0 == 0 || ParseUtil.NewlineAt(s, r.0 - 1)) &&
      (forall p :: r.0 <= p < r.1 ==> !ParseUtil.NewlineAt(s, p)) &&
      (r.1 == Len(s) || ParseUtil.NewlineAt(s, r.1))
    ensures index >= Len(s) ==> r == (0, 0)
  {
    if index < Len(s) then
      var i0 := ParseUtil.LineStartIndex(s, index);
      var (u, nl) := ParseUtil.LineEndIndexNextIndex(s, index);
      (i0, if nl then u - 1 else u)
    else (0, 0)
  }

  // ----- bracket matching -----

  /** The brackets that trigger matching: an opener at each even position, its closer next. */
  const Brackets: seq<char> := ['{', '}', '(', ')', '[', ']']

  /** The first position of `c` in `xs` from `j` on, or |xs|. */
  function FirstIndex(xs: seq<char>, c: char, j: nat): (pi: nat)
    requires j <= |xs|
    ensures j <= pi <= |xs|
    ensures pi < |xs| ==> xs[pi] == c
    ensures forall q :: j <= q < pi ==> xs[q] != c
    decreases |xs| - j
  {
    if j == |xs| || xs[j] == c then j else FirstIndex(xs, c, j + 1)
  }

  function BracketIndex(c: char): nat
  {
    FirstIndex(Brackets, c, 0)
  }

  /** The rune is an opener of the table. */
  predicate IsOpener(c: char)
  {
    BracketIndex(c) < |Brackets| && BracketIndex(c) % 2 == 0
  }

  /** The rune is a closer of the table. */
  predicate IsCloser(c: char)
  {
    BracketIndex(c) < |Brackets| && BracketIndex(c) % 2 == 1
  }

  /** The (open, close) pair a bracket belongs to. */
  function Pair(c: char): (char, char)
    requires IsOpener(c) || IsCloser(c)
  {
    var pi := BracketIndex(c);
    if pi % 2 == 0 then (Brackets[pi], Brackets[pi + 1]) else (Brackets[pi - 1], Brackets[pi])
  }

  /**
   * The table lookup of updateParenthesisOpt: whether `cru` is a bracket, whether it opens, and
   * the (open, close) pair it belongs to.
   */
  method ParenthesisType(cru: char) returns (found: bool, isOpen: bool, open: char, close: char)
    ensures found <==> IsOpener(cru) || IsCloser(cru)
    ensures found ==> isOpen == IsOpener(cru) && (open, close) == Pair(cru)
  {
    var pi := 0;
    while pi < |Brackets|
      invariant pi <= |Brackets|
      invariant forall q :: 0 <= q < pi ==> Brackets[q] != cru
    {
      if Brackets[pi] == cru {
        break;
      }
      pi := pi + 1;
    }
    assert pi == BracketIndex(cru);
    found, isOpen, open, close := false, false, cru, cru;
    if pi >= |Brackets| {
      return;
    }
    found := true;
    isOpen := pi % 2 == 0;
    if isOpen {
      open, close := Brackets[pi], Brackets[pi + 1];
    } else {
      open, close := Brackets[pi - 1], Brackets[pi];
    }
  }

  /** Only the three kinds of bracket match, each with its own partner. */
  lemma PairsOfBrackets(c: char)
    ensures IsOpener(c) <==> c == '{' || c == '(' || c == '['
    ensures IsCloser(c) <==> c == '}' || c == ')' || c == ']'
    ensures IsOpener(c) || IsCloser(c) ==>
      Pair(c) in {('{', '}'), ('(', ')'), ('[', ']')} && (Pair(c).0 == c || Pair(c).1 == c)
  {
    var pi := BracketIndex(c);
    if pi < |Brackets| {
      assert Brackets[pi] == c;
    } else {
      assert forall q :: 0 <= q < |Brackets| ==> Brackets[q] != c;
      assert c !in Brackets;
    }
  }

  /** +1 for an opener, -1 for a closer. */
  function Delta(c: char, open: char, close: char): int
  {
    if c == open then 1 else if c == close then -1 else 0
  }

  /** The nesting depth at the end of `t`: openers less closers. */
  function Depth(t: Str, open: char, close: char): int
  {
    if t == [] then 0 else Delta(t[0].ch, open, close) + Depth(t[1..], open, close)
  }

  lemma {:induction false} DepthSnoc(t: Str, r: Rune, open: char, close: char)
    ensures Depth(t + [r], open, close) == Depth(t, open, close) + Delta(r.ch, open, close)
  {
    if t != [] {
      assert (t + [r])[1..] == t[1..] + [r];
      DepthSnoc(t[1..], r, open, close);
    } else {
      assert [r][1..] == [];
    }
  }

  /**
   * The forward scan of findParenthesisClose from offset `i` at depth `c`: the offset of the
   * closer met at depth 0, unless the scan reaches `early` or the end of the text first.
   */
  function CloseScan(s: Str, i: int, early: int, open: char, close: char, c: nat): Option<int>
    decreases Len(s) - i
  {
    if i >= early then None
    else match ReadRuneAt(s, i)
      case None => None
      case Some(r) =>
        ReadRuneAtSome(s, i);
        var c1 := if r.ch == open then c + 1 else c;
        if r.ch == close && c1 == 0 then Some(i)
        else CloseScan(s, i + r.size, early, open, close, if r.ch == close then c1 - 1 else c1)
  }

  /**
   * The backward scan of findParenthesisOpen from offset `i` at depth `c`: the offset of the
   * opener met at depth 0, unless the scan is already before `early` or at the start.
   */
  function OpenScan(s: Str, i: int, early: int, open: char, close: char, c: nat): Option<int>
    decreases i
  {
    if i < early then None
    else match ReadLastRuneAt(s, i)
      case None => None
      case Some(r) =>
        ReadLastRuneAtSome(s, i);
        var c1 := if r.ch == close then c + 1 else c;
        if r.ch == open && c1 == 0 then Some(i - r.size)
        else OpenScan(s, i - r.size, early, open, close, if r.ch == open then c1 - 1 else c1)
  }

  /** The depth of a slice, split after its first rune. */
  lemma DepthCons(s: Str, k: nat, m: nat, open: char, close: char)
    requires k < m <= |s|
    ensures Depth(s[k..m], open, close) == Delta(s[k].ch, open, close) + Depth(s[k + 1..m], open, close)
  {
    assert s[k..m][1..] == s[k + 1..m];
  }

  /** The depth of a slice, split before its last rune. */
  lemma DepthSnocAt(s: Str, m: nat, k: nat, open: char, close: char)
    requires m < k <= |s|
    ensures Depth(s[m..k], open, close) == Depth(s[m..k - 1], open, close) + Delta(s[k - 1].ch, open, close)
  {
    assert s[m..k] == s[m..k - 1] + [s[k - 1]];
    DepthSnoc(s[m..k - 1], s[k - 1], open, close);
  }

  /** One step of the forward scan from a rune boundary before `early`. */
  lemma CloseScanUnfold(s: Str, k: nat, early: int, open: char, close: char, c: nat)
    requires k < |s| && Off(s, k) < early && open != close
    ensures CloseScan(s, Off(s, k), early, open, close, c) ==
      if s[k].ch == close && c == 0 then Some(Off(s, k))
      else CloseScan(s, Off(s, k + 1), early, open, close, c + Delta(s[k].ch, open, close))
  {
    ReadRuneAtOff(s, k);
    LenStep(s, k);
  }

  /** Runes k..j-1 lie before `early` and none of them drops the depth, started at c, below zero. */
  predicate CloseScanned(s: Str, k: nat, j: nat, early: int, open: char, close: char, c: int)
  {
    k <= j <= |s| &&
    forall m :: k <= m < j ==> Off(s, m) < early && c + Depth(s[k..m + 1], open, close) >= 0
  }

  lemma CloseScannedStep(s: Str, k: nat, j: nat, early: int, open: char, close: char, c: int)
    requires k < |s| && Off(s, k) < early && c + Delta(s[k].ch, open, close) >= 0
    requires CloseScanned(s, k + 1, j, early, open, close, c + Delta(s[k].ch, open, close))
    ensures CloseScanned(s, k, j, early, open, close, c)
    ensures j < |s| ==> Depth(s[k..j + 1], open, close) == Delta(s[k].ch, open, close) + Depth(s[k + 1..j + 1], open, close)
  {
    forall m | k <= m < j
      ensures Off(s, m) < early && c + Depth(s[k..m + 1], open, close) >= 0
    {
      DepthCons(s, k, m + 1, open, close);
    }
    if j < |s| {
      DepthCons(s, k, j + 1, open, close);
    }
  }

  /**
   * What a forward scan from rune `k` with result `r` means: with `Some(i)`, rune `j` is a closer
   * at offset `i` before `early` where the depth since `k` first drops below zero; with `None`,
   * the scan stopped at the end or at `early`. No rune before `j` drops the depth below zero.
   */
  predicate CloseResult(s: Str, k: nat, j: nat, early: int, open: char, close: char, c: int, r: Option<int>)
  {
    CloseScanned(s, k, j, early, open, close, c) &&
    match r
    case Some(i) =>
      j < |s| && i == Off(s, j) && i < early && s[j].ch == close && c + Depth(s[k..j + 1], open, close) == -1
    case None => j == |s| || Off(s, j) >= early
  }

  lemma CloseResultStep(s: Str, k: nat, j: nat, early: int, open: char, close: char, c: int, r: Option<int>)
    requires k < |s| && Off(s, k) < early && c + Delta(s[k].ch, open, close) >= 0
    requires CloseResult(s, k + 1, j, early, open, close, c + Delta(s[k].ch, open, close), r)
    ensures CloseResult(s, k, j, early, open, close, c, r)
  {
    CloseScannedStep(s, k, j, early, open, close, c);
  }

  /** A forward scan that starts at the end of the text finds nothing. */
  lemma CloseScanEnd(s: Str, early: int, open: char, close: char, c: nat)
    ensures CloseScan(s, Off(s, |s|), early, open, close, c) == None
  {
    OffFull(s);
    ReadRuneAtOutside(s, Len(s));
  }

  /**
   * What the forward scan finds, rune by rune from rune `k`: the first rune at which the depth
   * drops below zero, which is a closer. `j` is where the scan stopped; no rune before it drops
   * the depth below zero.
   */
  lemma {:induction false} CloseScanAt(s: Str, k: nat, early: int, open: char, close: char, c: nat) returns (j: nat)
    requires k <= |s| && open != close
    ensures CloseResult(s, k, j, early, open, close, c, CloseScan(s, Off(s, k), early, open, close, c))
    decreases |s| - k
  {
    if Off(s, k) >= early {
      j := k;
    } else if k == |s| {
      CloseScanEnd(s, early, open, close, c);
      j := k;
    } else {
      CloseScanUnfold(s, k, early, open, close, c);
      if s[k].ch == close && c == 0 {
        j := k;
        DepthCons(s, k, k + 1, open, close);
      } else {
        j := CloseScanAt(s, k + 1, early, open, close, c + Delta(s[k].ch, open, close));
        CloseResultStep(s, k, j, early, open, close, c, CloseScan(s, Off(s, k), early, open, close, c));
      }
    }
  }

  /** One step of the backward scan from a rune boundary at or after `early`. */
  lemma OpenScanUnfold(s: Str, k: nat, early: int, open: char, close: char, c: nat)
    requires 0 < k <= |s| && Off(s, k) >= early && open != close
    ensures OpenScan(s, Off(s, k), early, open, close, c) ==
      if s[k - 1].ch == open && c == 0 then Some(Off(s, k - 1))
      else OpenScan(s, Off(s, k - 1), early, open, close, c - Delta(s[k - 1].ch, open, close))
  {
    ReadLastRuneAtOff(s, k);
    LenStep(s, k - 1);
  }

  /**
   * Runes lo..k-1 end at or after `early` and, counted back from `k` with depth c, none of them
   * drops the depth below zero (rune m - 1 ends at Off(s, m)).
   */
  predicate OpenScanned(s: Str, lo: nat, k: nat, early: int, open: char, close: char, c: int)
  {
    lo <= k <= |s| &&
    forall m :: lo < m <= k ==> Off(s, m) >= early && c - Depth(s[m - 1..k], open, close) >= 0
  }

  lemma OpenScannedStep(s: Str, lo: nat, k: nat, early: int, open: char, close: char, c: int)
    requires 0 < k <= |s| && lo <= k && Off(s, k) >= early && c - Delta(s[k - 1].ch, open, close) >= 0
    requires lo < k ==> OpenScanned(s, lo, k - 1, early, open, close, c - Delta(s[k - 1].ch, open, close))
    ensures OpenScanned(s, lo, k, early, open, close, c)
  {
    forall m | lo < m <= k
      ensures Off(s, m) >= early && c - Depth(s[m - 1..k], open, close) >= 0
    {
      DepthSnocAt(s, m - 1, k, open, close);
      if m == k {
        assert s[m - 1..k - 1] == [];
      }
    }
  }

  /** An opener just before rune boundary `k`, met at depth 0, is what the scan finds. */
  lemma OpenResultHere(s: Str, k: nat, early: int, open: char, close: char)
    requires 0 < k <= |s| && Off(s, k) >= early && s[k - 1].ch == open && open != close
    ensures OpenResult(s, k - 1, k, early, open, close, 0, Some(Off(s, k - 1)))
  {
    DepthSnocAt(s, k - 1, k, open, close);
    LenStep(s, k - 1);
    assert s[k - 1..k - 1] == [];
  }

  /** A backward scan that starts at the start of the text finds nothing. */
  lemma OpenScanStart(s: Str, early: int, open: char, close: char, c: nat)
    ensures OpenScan(s, Off(s, 0), early, open, close, c) == None
  {
    assert s[..0] == [];
    ReadLastRuneAtOutside(s, 0);
  }

  /**
   * What a backward scan from rune `k` with result `r` means: with `Some(i)`, rune `j` is an
   * opener at offset `i` and the depth counted back from `k` first drops below zero there; with
   * `None`, the scan stopped at rune `j`, the start or before `early`, without such a rune.
   */
  predicate OpenResult(s: Str, j: nat, k: nat, early: int, open: char, close: char, c: int, r: Option<int>)
  {
    j <= k <= |s| &&
    match r
    case Some(i) =>
      j < k && i == Off(s, j) && Off(s, j + 1) >= early && s[j].ch == open &&
      c - Depth(s[j..k], open, close) == -1 && OpenScanned(s, j + 1, k, early, open, close, c)
    case None => (j == 0 || Off(s, j) < early) && OpenScanned(s, j, k, early, open, close, c)
  }

  lemma OpenResultStep(s: Str, j: nat, k: nat, early: int, open: char, close: char, c: int, r: Option<int>)
    requires 0 < k <= |s| && Off(s, k) >= early && c - Delta(s[k - 1].ch, open, close) >= 0
    requires OpenResult(s, j, k - 1, early, open, close, c - Delta(s[k - 1].ch, open, close), r)
    ensures OpenResult(s, j, k, early, open, close, c, r)
  {
    if r.Some? {
      OpenScannedStep(s, j + 1, k, early, open, close, c);
      DepthSnocAt(s, j, k, open, close);
    } else {
      OpenScannedStep(s, j, k, early, open, close, c);
    }
  }

  /**
   * What the backward scan finds, rune by rune back from rune `k`: the nearest rune at which the
   * depth, counted back from `k`, drops below zero, which is an opener.
   */
  lemma {:induction false} OpenScanAt(s: Str, k: nat, early: int, open: char, close: char, c: nat) returns (j: nat, r: Option<int>)
    requires k <= |s| && open != close
    ensures r == OpenScan(s, Off(s, k), early, open, close, c)
    ensures OpenResult(s, j, k, early, open, close, c, r)
    decreases k
  {
    r := OpenScan(s, Off(s, k), early, open, close, c);
    if Off(s, k) < early {
      j := k;
    } else if k == 0 {
      OpenScanStart(s, early, open, close, c);
      j := 0;
    } else {
      OpenScanUnfold(s, k, early, open, close, c);
      if s[k - 1].ch == open && c == 0 {
        j := k - 1;
        OpenResultHere(s, k, early, open, close);
      } else {
        var r';
        j, r' := OpenScanAt(s, k - 1, early, open, close, c - Delta(s[k - 1].ch, open, close));
        assert r == r';
        OpenResultStep(s, j, k, early, open, close, c, r);
      }
    }
  }

  /** The segment of a bracket found by a scan, if one was found. */
  function MatchSeg(r: Option<int>, bracket: char): seq<Segment>
  {
    match r
    case Some(i) => [Segment(i, i + EncodedWidth(bracket))]
    case None => []
  }

  /**
   * The parenthesis group for the cursor at `ci`: nothing unless the rune there is a bracket;
   * for an opener, its segment and then the matching closer's, searched up to `bottom`; for a
   * closer, the matching opener's segment, searched back to `top`, and then its own.
   */
  function ParenthesisSegments(s: Str, ci: int, top: int, bottom: int): seq<Segment>
  {
    match ReadRuneAt(s, ci)
    case None => []
    case Some(r) =>
      if IsOpener(r.ch) then
        var (open, close) := Pair(r.ch);
        [Segment(ci, ci + EncodedWidth(open))] +
          MatchSeg(CloseScan(s, ci + EncodedWidth(r.ch), bottom, open, close, 0), close)
      else if IsCloser(r.ch) then
        var (open, close) := Pair(r.ch);
        MatchSeg(OpenScan(s, ci, top, open, close, 0), open) + [Segment(ci, ci + EncodedWidth(close))]
      else []
  }

  /** A bracket read at the cursor is a whole rune of the text. */
  lemma BracketRune(s: Str, ci: int) returns (k: nat)
    requires ReadRuneAt(s, ci).Some?
    requires IsOpener(ReadRuneAt(s, ci).value.ch) || IsCloser(ReadRuneAt(s, ci).value.ch)
    ensures k < |s| && Off(s, k) == ci && ReadRuneAt(s, ci) == Some(s[k])
    ensures s[k].size == EncodedWidth(s[k].ch) == 1 && Off(s, k + 1) == ci + 1
    ensures Pair(s[k].ch).0 != Pair(s[k].ch).1
    ensures EncodedWidth(Pair(s[k].ch).0) == 1 && EncodedWidth(Pair(s[k].ch).1) == 1
  {
    PairsOfBrackets(ReadRuneAt(s, ci).value.ch);
    k := ReadRuneAtBoundary(s, ci);
    LenStep(s, k);
  }

  /**
   * With an opener at the cursor: its own segment comes first, and a second segment, when
   * there is one, is the first closer after it at which the depth drops below zero, before
   * `bottom`; without one, the depth stays at zero or above up to `bottom` or the end.
   */
  lemma ParenthesisCloseMatch(s: Str, ci: int, top: int, bottom: int) returns (k: nat, j: nat)
    requires ReadRuneAt(s, ci).Some? && IsOpener(ReadRuneAt(s, ci).value.ch)
    ensures k < j <= |s| && Off(s, k) == ci && IsOpener(s[k].ch)
    ensures var segs := ParenthesisSegments(s, ci, top, bottom);
      var (open, close) := Pair(s[k].ch);
      s[k].ch == open && CloseScanned(s, k + 1, j, bottom, open, close, 0) &&
      (|segs| == 1 || |segs| == 2) && segs[0] == Segment(ci, ci + 1) &&
      (|segs| == 2 ==>
         j < |s| && segs[1] == Segment(Off(s, j), Off(s, j + 1)) && ci + 1 <= Off(s, j) &&
         s[j].ch == close && Depth(s[k + 1..j + 1], open, close) == -1) &&
      (|segs| == 1 ==> j == |s| || Off(s, j) >= bottom)
  {
    k := BracketRune(s, ci);
    var (open, close) := Pair(s[k].ch);
    j := CloseScanAt(s, k + 1, bottom, open, close, 0);
    if j < |s| {
      LenStep(s, j);
      if k + 1 < j {
        OffMono(s, k + 1, j);
      }
    }
  }

  /**
   * With a closer at the cursor: its own segment comes last, and the one before it, when there
   * is one, is the nearest opener before it at which the depth counted back drops below zero.
   */
  lemma ParenthesisOpenMatch(s: Str, ci: int, top: int, bottom: int) returns (k: nat, j: nat)
    requires ReadRuneAt(s, ci).Some? && IsCloser(ReadRuneAt(s, ci).value.ch)
    ensures j <= k < |s| && Off(s, k) == ci && IsCloser(s[k].ch)
    ensures var segs := ParenthesisSegments(s, ci, top, bottom);
      var (open, close) := Pair(s[k].ch);
      s[k].ch == close &&
      (|segs| == 1 || |segs| == 2) && segs[|segs| - 1] == Segment(ci, ci + 1) &&
      (|segs| == 2 ==>
         j < k && segs[0] == Segment(Off(s, j), Off(s, j + 1)) && Off(s, j + 1) <= ci &&
         s[j].ch == open && Depth(s[j..k], open, close) == 1 && OpenScanned(s, j + 1, k, top, open, close, 0)) &&
      (|segs| == 1 ==> (j == 0 || Off(s, j) < top) && OpenScanned(s, j, k, top, open, close, 0))
  {
    k := BracketRune(s, ci);
    var (open, close) := Pair(s[k].ch);
    var r;
    j, r := OpenScanAt(s, k, top, open, close, 0);
    if j < k {
      LenStep(s, j);
      if j + 1 < k {
        OffMono(s, j + 1, k);
      }
    }
  }

  // ----- word highlight -----

  /**
   * The segments of the word-highlight loop from offset `i`: each occurrence of `w` found in
   * [i, b) that is an isolated word, scanning on after each occurrence found.
   */
  function WordSegs(uc: ParseUtil.Classes, s: Str, i: int, b: int, w: Str): seq<Segment>
    requires Len(w) > 0
    decreases b - i
  {
    if i >= b then []
    else match Iout.Index(s, i, b - i, w)
      case Err(_) => []
      case Ok(j) =>
        if j < 0 then []
        else
          Iout.SearchFromSpec(s, i, b, w);
          (if ParseUtil.WordIsolated(uc, s, j, Len(w)) then [Segment(j, j + Len(w))] else []) +
            WordSegs(uc, s, j + Len(w), b, w)
  }

  /** One step of the word-highlight loop: the next occurrence in the window, if any. */
  lemma WordSegsStep(uc: ParseUtil.Classes, s: Str, i: int, b: int, w: Str) returns (j: int, head: seq<Segment>)
    requires Len(w) > 0 && i < b
    ensures Iout.Index(s, i, b - i, w).Err? ==> WordSegs(uc, s, i, b, w) == []
    ensures Iout.Index(s, i, b - i, w).Ok? ==> j == Iout.Index(s, i, b - i, w).value
    ensures Iout.Index(s, i, b - i, w).Ok? && j < 0 ==> WordSegs(uc, s, i, b, w) == []
    ensures Iout.Index(s, i, b - i, w).Ok? && j >= 0 ==>
      i <= j && j + Len(w) <= b && Iout.OccursAt(s, j, w) &&
      head == (if ParseUtil.WordIsolated(uc, s, j, Len(w)) then [Segment(j, j + Len(w))] else []) &&
      WordSegs(uc, s, i, b, w) == head + WordSegs(uc, s, j + Len(w), b, w)
  {
    if Iout.Index(s, i, b - i, w).Ok? {
      j := Iout.Index(s, i, b - i, w).value;
      head := if j >= 0 && ParseUtil.WordIsolated(uc, s, j, Len(w)) then [Segment(j, j + Len(w))] else [];
      Iout.SearchFromSpec(s, i, b, w);
    } else {
      j, head := -1, [];
    }
  }

  /** The loop step keeps `done + todo == total` when `todo` splits into `head + rest`. */
  lemma AppendStep<T>(before: seq<T>, head: seq<T>, rest: seq<T>, todo: seq<T>, total: seq<T>)
    requires before + todo == total && todo == head + rest
    ensures (before + head) + rest == total
  {
    assert (before + head) + rest == before + (head + rest);
  }

  /** The segment is an isolated occurrence of `w` inside [i, b). */
  predicate IsWordSeg(uc: ParseUtil.Classes, s: Str, i: int, b: int, w: Str, g: Segment)
  {
    i <= g.pos && g.end == g.pos + Len(w) <= b &&
    Iout.OccursAt(s, g.pos, w) && ParseUtil.WordIsolated(uc, s, g.pos, Len(w))
  }

  /** All segments are isolated occurrences of `w` inside [i, b). */
  predicate AllWordSegs(uc: ParseUtil.Classes, s: Str, i: int, b: int, w: Str, segs: seq<Segment>)
  {
    forall n :: 0 <= n < |segs| ==> IsWordSeg(uc, s, i, b, w, segs[n])
  }

  /** Each segment starts at or after the end of the one before. */
  predicate Ordered(segs: seq<Segment>)
  {
    forall n :: 0 < n < |segs| ==> segs[n - 1].end <= segs[n].pos
  }

  lemma WordSegsCons(uc: ParseUtil.Classes, s: Str, i: int, b: int, w: Str, head: seq<Segment>, rest: seq<Segment>, lo: int)
    requires i <= lo && |head| <= 1
    requires |head| == 1 ==> IsWordSeg(uc, s, i, b, w, head[0]) && head[0].end <= lo
    requires AllWordSegs(uc, s, lo, b, w, rest) && Ordered(rest)
    ensures AllWordSegs(uc, s, i, b, w, head + rest) && Ordered(head + rest)
  {
    var segs := head + rest;
    forall n | 0 <= n < |segs|
      ensures IsWordSeg(uc, s, i, b, w, segs[n]) && (n > 0 ==> segs[n - 1].end <= segs[n].pos)
    {
      if n >= |head| {
        assert segs[n] == rest[n - |head|];
        assert IsWordSeg(uc, s, lo, b, w, rest[n - |head|]);
        if n - 1 >= |head| {
          assert segs[n - 1] == rest[n - 1 - |head|];
        }
      }
    }
  }

  /**
   * Every segment is an isolated occurrence of the word inside [i, b), and each starts at or
   * after the end of the one before.
   */
  lemma {:induction false} WordSegsSpec(uc: ParseUtil.Classes, s: Str, i: int, b: int, w: Str)
    requires Len(w) > 0
    ensures AllWordSegs(uc, s, i, b, w, WordSegs(uc, s, i, b, w))
    ensures Ordered(WordSegs(uc, s, i, b, w))
    decreases b - i
  {
    if i < b {
      var j, head := WordSegsStep(uc, s, i, b, w);
      if Iout.Index(s, i, b - i, w).Ok? && j >= 0 {
        WordSegsSpec(uc, s, j + Len(w), b, w);
        WordSegsCons(uc, s, i, b, w, head, WordSegs(uc, s, j + Len(w), b, w), j + Len(w));
      }
    }
  }

  /** The search window: the visible range widened by the word's length, inside the text. */
  function Window(s: Str, w: Str, top: int, bottom: int): (r: (int, int))
    ensures 0 <= r.0 && r.1 <= Len(s)
  {
    var a := top - Len(w);
    var b := bottom + Len(w);
    (if a < 0 then 0 else a, if b > Len(s) then Len(s) else b)
  }

  /**
   * The word group: nothing when the group is off or a selection is on or there is no word
   * at the cursor; otherwise the isolated occurrences of the word at the cursor in the window.
   */
  function HighlightSegs(uc: ParseUtil.Classes, s: Str, cur: CursorState, on: bool, top: int, bottom: int): seq<Segment>
  {
    if !on || cur.selectionOn then []
    else match ParseUtil.WordAtIndex(uc, s, cur.index, 100)
      case Err(_) => []
      case Ok(found) =>
        ParseUtil.WordAtIndexCovers(uc, s, cur.index, 100);
        var win := Window(s, found.0, top, bottom);
        WordSegs(uc, s, win.0, win.1, found.0)
  }

  /** With a word at the cursor, the group is the loop's segments over the window. */
  lemma HighlightSegsOk(uc: ParseUtil.Classes, s: Str, cur: CursorState, on: bool, top: int, bottom: int) returns (w: Str)
    requires on && !cur.selectionOn && ParseUtil.WordAtIndex(uc, s, cur.index, 100).Ok?
    ensures w == ParseUtil.WordAtIndex(uc, s, cur.index, 100).value.0 && Len(w) > 0
    ensures HighlightSegs(uc, s, cur, on, top, bottom) ==
      WordSegs(uc, s, Window(s, w, top, bottom).0, Window(s, w, top, bottom).1, w)
  {
    w := ParseUtil.WordAtIndex(uc, s, cur.index, 100).value.0;
    ParseUtil.WordAtIndexCovers(uc, s, cur.index, 100);
  }

  /**
   * The word group holds isolated occurrences of one word, inside the text and in increasing,
   * non-overlapping order; none at all with a selection on or the group off.
   */
  lemma HighlightSegsSpec(uc: ParseUtil.Classes, s: Str, cur: CursorState, on: bool, top: int, bottom: int)
    ensures !on || cur.selectionOn ==> HighlightSegs(uc, s, cur, on, top, bottom) == []
    ensures HighlightSegs(uc, s, cur, on, top, bottom) != [] ==>
      ParseUtil.WordAtIndex(uc, s, cur.index, 100).Ok? &&
      AllWordSegs(uc, s, 0, Len(s), ParseUtil.WordAtIndex(uc, s, cur.index, 100).value.0,
                  HighlightSegs(uc, s, cur, on, top, bottom)) &&
      Ordered(HighlightSegs(uc, s, cur, on, top, bottom))
  {
    if on && !cur.selectionOn && ParseUtil.WordAtIndex(uc, s, cur.index, 100).Ok? {
      var w := HighlightSegsOk(uc, s, cur, on, top, bottom);
      var win := Window(s, w, top, bottom);
      WordSegsSpec(uc, s, win.0, win.1, w);
      var segs := HighlightSegs(uc, s, cur, on, top, bottom);
      forall n | 0 <= n < |segs|
        ensures IsWordSeg(uc, s, 0, Len(s), w, segs[n])
      {
        assert IsWordSeg(uc, s, win.0, win.1, w, segs[n]);
      }
    }
  }

  // ----- the widget -----

  class TextEditX {
    const te: TextEdit
    /** The drawer is a position drawer; the updates below do nothing otherwise. */
    const posDrawer: bool
    /** The drawer's segments option is on. */
    var segmentsOn: bool
    const selection: SegGroup
    const word: SegGroup
    const parenthesis: SegGroup
    const flash: SegGroup
    /** flash.index: the range to flash. */
    var flashIndexOn: bool
    var flashIndex: int
    var flashLen: int
    /** flash.line.on: the line background flashes too. */
    var flashLineOn: bool

    /** NewTextEditX: a position drawer gets its segments on, with four groups. */
    constructor (te: TextEdit, posDrawer: bool)
      ensures this.te == te && this.posDrawer == posDrawer && segmentsOn == posDrawer
      ensures fresh(selection) && fresh(word) && fresh(parenthesis) && fresh(flash)
      ensures !selection.on && !word.on && !parenthesis.on && !flash.on
      ensures selection.segs == [] && word.segs == [] && parenthesis.segs == [] && flash.segs == []
      ensures !flashIndexOn && !flashLineOn
    {
      this.te := te;
      this.posDrawer := posDrawer;
      segmentsOn := posDrawer;
      selection := new SegGroup();
      word := new SegGroup();
      parenthesis := new SegGroup();
      flash := new SegGroup();
      flashIndexOn, flashIndex, flashLen, flashLineOn := false, 0, 0, false;
    }

    /** updateSelectionOpt: the selection, ordered, as the one segment of group 0. */
    method UpdateSelectionOpt()
      modifies selection
      ensures !posDrawer || !segmentsOn ==> unchanged(selection)
      ensures posDrawer && segmentsOn ==>
        selection.on == te.cursor.selectionOn &&
        selection.segs == if te.cursor.selectionOn
          then [Segment(SelectionIndexes(te.cursor).0, SelectionIndexes(te.cursor).1)] else []
    {
      if !posDrawer {
        return;
      }
      if !segmentsOn {
        return;
      }
      if te.cursor.selectionOn {
        selection.on := true;
        var (s, e) := SelectionIndexes(te.cursor);
        selection.segs := [Segment(s, e)];
      } else {
        selection.on := false;
        selection.segs := [];
      }
    }

    /** startFlash: flash `len` bytes at `index`, or, for a line flash, the whole line there. */
    method StartFlash(index: int, len: int, line: bool)
      requires line ==> 0 <= index
      modifies this`flashIndexOn, this`flashIndex, this`flashLen, this`flashLineOn
      ensures flashIndexOn
      ensures line ==>
        flashIndex == LineIndexes(te.str, index).0 &&
        flashIndex + flashLen == LineIndexes(te.str, index).1 && flashLineOn
      ensures !line ==> flashIndex == index && flashLen == len && flashLineOn == old(flashLineOn)
    {
      var index, len := index, len;
      if line {
        var (i0, i1) := LineIndexes(te.str, index);
        index := i0;
        len := i1 - index;
      }
      flashIndexOn := true;
      flashIndex := index;
      flashLen := len;
      if line {
        flashLineOn := true;
      }
    }

    /** FlashLine: flash the line holding `index`. */
    method FlashLine(index: int)
      requires 0 <= index
      modifies this`flashIndexOn, this`flashIndex, this`flashLen, this`flashLineOn
      ensures flashIndexOn && flashLineOn
      ensures (flashIndex, flashIndex + flashLen) == LineIndexes(te.str, index)
    {
      StartFlash(index, 0, true);
    }

    /** FlashIndexLen: flash `len` bytes at `index`; a zero length flashes the whole line. */
    method FlashIndexLen(index: int, len: int)
      requires len == 0 ==> 0 <= index
      modifies this`flashIndexOn, this`flashIndex, this`flashLen, this`flashLineOn
      ensures flashIndexOn
      ensures len == 0 ==> (flashIndex, flashIndex + flashLen) == LineIndexes(te.str, index) && flashLineOn
      ensures len != 0 ==> flashIndex == index && flashLen == len && flashLineOn == old(flashLineOn)
    {
      StartFlash(index, len, len == 0);
    }

    /** updateFlashOpt: the flashed range as the one segment of group 3. */
    method UpdateFlashOpt()
      modifies flash
      ensures !posDrawer || !segmentsOn ==> unchanged(flash)
      ensures posDrawer && segmentsOn ==>
        flash.on == flashIndexOn &&
        flash.segs == if flashIndexOn then [Segment(flashIndex, flashIndex + flashLen)] else []
    {
      if !posDrawer {
        return;
      }
      if !segmentsOn {
        return;
      }
      if !flashIndexOn {
        flash.on := false;
        flash.segs := [];
        return;
      }
      flash.on := true;
      flash.segs := [Segment(flashIndex, flashIndex + flashLen)];
    }

    /** updateParenthesisOpt: the bracket at the cursor and its match, in group 2. */
    method UpdateParenthesisOpt(top: int, bottom: int)
      modifies parenthesis
      ensures !posDrawer || !segmentsOn ==> unchanged(parenthesis)
      ensures posDrawer && segmentsOn ==>
        parenthesis.on == old(parenthesis.on) &&
        parenthesis.segs == if parenthesis.on then ParenthesisSegments(te.str, te.cursor.index, top, bottom) else []
    {
      if !posDrawer {
        return;
      }
      if !segmentsOn {
        return;
      }
      parenthesis.segs := [];
      if !parenthesis.on {
        return;
      }
      var ci := te.cursor.index;
      var rr := ReadRuneAt(te.str, ci);
      if rr.None? {
        return;
      }
      var cru := rr.value.ch;
      var found, isOpen, open, close := ParenthesisType(cru);
      if !found {
        return;
      }
      if isOpen {
        FindParenthesisClose(ci, cru, open, close, bottom);
      } else {
        FindParenthesisOpen(ci, cru, open, close, top);
      }
    }

    /** findParenthesisClose: the opener's segment, then the matching closer's, if found. */
    method FindParenthesisClose(ci: int, cru: char, open: char, close: char, bottom: int)
      modifies parenthesis
      ensures parenthesis.on == old(parenthesis.on)
      ensures parenthesis.segs == old(parenthesis.segs) + [Segment(ci, ci + EncodedWidth(open))] +
        MatchSeg(CloseScan(te.str, ci + EncodedWidth(cru), bottom, open, close, 0), close)
    {
      parenthesis.segs := parenthesis.segs + [Segment(ci, ci + EncodedWidth(open))];
      var c: nat := 0;
      var i := ci + EncodedWidth(cru);
      ghost var start := i;
      while true
        invariant parenthesis.on == old(parenthesis.on)
        invariant parenthesis.segs == old(parenthesis.segs) + [Segment(ci, ci + EncodedWidth(open))]
        invariant CloseScan(te.str, i, bottom, open, close, c) == CloseScan(te.str, start, bottom, open, close, 0)
        decreases Len(te.str) - i
      {
        if i >= bottom {
          return;
        }
        var rr := ReadRuneAt(te.str, i);
        if rr.None? {
          return;
        }
        ReadRuneAtSome(te.str, i);
        var ru, size := rr.value.ch, rr.value.size;
        if ru == open {
          c := c + 1;
        }
        if ru == close {
          if c > 0 {
            c := c - 1;
          } else {
            parenthesis.segs := parenthesis.segs + [Segment(i, i + EncodedWidth(close))];
            return;
          }
        }
        i := i + size;
      }
    }

    /** findParenthesisOpen: the matching opener's segment, if found, before the closer's. */
    method FindParenthesisOpen(ci: int, cru: char, open: char, close: char, top: int)
      modifies parenthesis
      ensures parenthesis.on == old(parenthesis.on)
      ensures parenthesis.segs ==
        MatchSeg(OpenScan(te.str, ci, top, open, close, 0), open) +
        old(parenthesis.segs) + [Segment(ci, ci + EncodedWidth(close))]
    {
      parenthesis.segs := parenthesis.segs + [Segment(ci, ci + EncodedWidth(close))];
      var c: nat := 0;
      var i := ci;
      while true
        invariant parenthesis.on == old(parenthesis.on)
        invariant parenthesis.segs == old(parenthesis.segs) + [Segment(ci, ci + EncodedWidth(close))]
        invariant OpenScan(te.str, i, top, open, close, c) == OpenScan(te.str, ci, top, open, close, 0)
        decreases i
      {
        if i < top {
          return;
        }
        var rr := ReadLastRuneAt(te.str, i);
        if rr.None? {
          return;
        }
        ReadLastRuneAtSome(te.str, i);
        var ru, size := rr.value.ch, rr.value.size;
        i := i - size;
        if ru == close {
          c := c + 1;
        }
        if ru == open {
          if c > 0 {
            c := c - 1;
          } else {
            parenthesis.segs := [Segment(i, i + EncodedWidth(open))] + parenthesis.segs;
            return;
          }
        }
      }
    }

    /** updateHighlightWordOpt: the isolated occurrences of the cursor's word, in group 1. */
    method UpdateHighlightWordOpt(uc: ParseUtil.Classes, top: int, bottom: int)
      modifies word
      ensures !posDrawer ==> unchanged(word)
      ensures posDrawer ==>
        word.on == old(word.on) && word.segs == HighlightSegs(uc, te.str, te.cursor, word.on, top, bottom)
    {
      if !posDrawer {
        return;
      }
      word.segs := [];
      if !word.on {
        return;
      }
      if te.cursor.selectionOn {
        return;
      }
      var s, cur := te.str, te.cursor;
      var found := ParseUtil.WordAtIndex(uc, s, cur.index, 100);
      if found.Err? {
        return;
      }
      var w := found.value.0;
      ghost var w' := HighlightSegsOk(uc, s, cur, word.on, top, bottom);
      var a, b := top, bottom;
      a := a - Len(w);
      b := b + Len(w);
      if a < 0 {
        a := 0;
      }
      var l := Len(s);
      if b > l {
        b := l;
      }
      assert (a, b) == Window(s, w, top, bottom);
      word.segs := WordLoop(uc, s, a, b, w);
    }
  }

  /** The loop of updateHighlightWordOpt over the window [a, b). */
  method WordLoop(uc: ParseUtil.Classes, s: Str, a: int, b: int, w: Str) returns (segs: seq<Segment>)
    requires Len(w) > 0
    ensures segs == WordSegs(uc, s, a, b, w)
  {
    segs := [];
    var i := a;
    while i < b
      invariant segs + WordSegs(uc, s, i, b, w) == WordSegs(uc, s, a, b, w)
      decreases b - i
    {
      ghost var j', head := WordSegsStep(uc, s, i, b, w);
      var found := Iout.Index(s, i, b - i, w);
      if found.Err? || found.value < 0 {
        assert segs + [] == segs;
        break;
      }
      var j := found.value;
      var seg := if ParseUtil.WordIsolated(uc, s, j, Len(w)) then [Segment(j, j + Len(w))] else [];
      assert seg == head;
      assert WordSegs(uc, s, i, b, w) == seg + WordSegs(uc, s, j + Len(w), b, w);
      AppendStep(segs, seg, WordSegs(uc, s, j + Len(w), b, w), WordSegs(uc, s, i, b, w), WordSegs(uc, s, a, b, w));
      segs := segs + seg;
      i := j + Len(w);
    }
  }
}
