/**
 * The reader the text widgets expose (`iout.Reader`) and the reader scans built on it, modelled
 * over a decoded string. The reader's own package is not part of this model; these are the
 * reference behaviours the rest of the model relies on.
 */
module Iout {
  import opened Wrappers
  import opened Utf8

  /** The outcome of a bounded predicate scan over a reader. */
  datatype Scan =
    | Found(index: int, size: nat) // the matching rune's offset and byte size
    | AtEof                        // the scan ran into the start or the end of the text (io.EOF)
    | Failed                       // a read outside the text
    | Exhausted                    // the byte budget ran out first; reported as index -1

  /**
   * iout.IndexFunc(r, i, n, truth, f): reads runes forwards from offset `i` while fewer than `n`
   * bytes have been read, and stops at the first rune whose answer is `truth`.
   */
  function IndexFunc(s: Str, i: int, n: int, truth: bool, f: char -> bool): Scan
    decreases n
  {
    if n <= 0 then Exhausted
    else match ReadRuneAt(s, i)
      case None => if i >= Len(s) then AtEof else Failed
      case Some(r) =>
        if f(r.ch) == truth then Found(i, r.size)
        else IndexFunc(s, i + r.size, n - r.size, truth, f)
  }

  /** iout.LastIndexFunc(r, i, n, truth, f): the same, reading backwards from offset `i`. */
  function LastIndexFunc(s: Str, i: int, n: int, truth: bool, f: char -> bool): Scan
    decreases n
  {
    if n <= 0 then Exhausted
    else match ReadLastRuneAt(s, i)
      case None => if i <= 0 then AtEof else Failed
      case Some(r) =>
        if f(r.ch) == truth then Found(i - r.size, r.size)
        else LastIndexFunc(s, i - r.size, n - r.size, truth, f)
  }

  /** ReadNAt(i, n): the `n` bytes at offset `i`, as runes; an error outside the text. */
  function ReadNAt(s: Str, i: int, n: int): Result<Str>
  {
    if i < 0 || n < 0 || i + n > Len(s) then Err("read out of range")
    else match (RuneIndexAt(s, i), RuneIndexAt(s, i + n))
      case (Some(a), Some(b)) => if a <= b <= |s| then Ok(s[a..b]) else Err("read out of range")
      case _ => Err("read splits a rune")
  }

  /** The word occurs at byte offset `p`: `p` starts a rune and the runes from there spell it. */
  predicate OccursAt(s: Str, p: int, word: Str)
  {
    match RuneIndexAt(s, p)
    case Some(k) => k + |word| <= |s| && s[k..k + |word|] == word
    case None => false
  }

  /** The first offset in [p, end - len(word)] where the word occurs, or -1. */
  function SearchFrom(s: Str, p: int, end: int, word: Str): (j: int)
    decreases end - p
  {
    if p + Len(word) > end then -1
    else if OccursAt(s, p, word) then p
    else SearchFrom(s, p + 1, end, word)
  }

  /**
   * iout.Index(r, i, n, word): the offset of the first occurrence of `word` inside the window of
   * `n` bytes at offset `i`, or -1; an error for a window outside the text.
   */
  function Index(s: Str, i: int, n: int, word: Str): Result<int>
  {
    if i < 0 || n < 0 || i + n > Len(s) then Err("index out of range")
    else Ok(SearchFrom(s, i, i + n, word))
  }

  /** What an occurrence found by Index is: the first one in the window. */
  lemma {:induction false} SearchFromSpec(s: Str, p: int, end: int, word: Str)
    requires 0 <= p
    ensures var j := SearchFrom(s, p, end, word);
      (j == -1 || (p <= j && j + Len(word) <= end && OccursAt(s, j, word))) &&
      (forall q :: p <= q < (if j == -1 then end - Len(word) + 1 else j) ==> !OccursAt(s, q, word))
    decreases end - p
  {
    if p + Len(word) > end {
      assert SearchFrom(s, p, end, word) == -1;
    } else if OccursAt(s, p, word) {
      assert SearchFrom(s, p, end, word) == p;
    } else {
      SearchFromSpec(s, p + 1, end, word);
    }
  }

  /** One rune of a forward scan started at rune boundary `k`. */
  lemma IndexFuncStep(s: Str, k: nat, n: int, truth: bool, f: char -> bool)
    requires k < |s| && n > 0
    ensures IndexFunc(s, Off(s, k), n, truth, f) ==
      if f(s[k].ch) == truth then Found(Off(s, k), s[k].size)
      else IndexFunc(s, Off(s, k + 1), n - s[k].size, truth, f)
  {
    ReadRuneAtOff(s, k);
    LenStep(s, k);
  }

  /** A forward scan with budget left that starts at the end of the text meets io.EOF. */
  lemma IndexFuncEnd(s: Str, n: int, truth: bool, f: char -> bool)
    requires n > 0
    ensures IndexFunc(s, Off(s, |s|), n, truth, f) == AtEof
  {
    OffFull(s);
    ReadRuneAtOutside(s, Len(s));
  }

  /**
   * A forward scan started at a rune boundary reads the runes of the text one by one: it finds
   * the first rune with the wanted answer, or reaches the end, or runs out of budget; it never
   * fails.
   */
  lemma {:induction false} IndexFuncAt(s: Str, k: nat, n: int, truth: bool, f: char -> bool) returns (k': nat)
    requires k <= |s|
    ensures k <= k' <= |s|
    ensures forall j :: k <= j < k' ==> f(s[j].ch) != truth
    ensures var r := IndexFunc(s, Off(s, k), n, truth, f);
      !r.Failed? &&
      (r.Found? ==> k' < |s| && r.index == Off(s, k') && r.size == s[k'].size && f(s[k'].ch) == truth) &&
      (r.AtEof? ==> k' == |s|)
    decreases n
  {
    if n <= 0 {
      k' := k;
    } else if k == |s| {
      IndexFuncEnd(s, n, truth, f);
      k' := k;
    } else {
      IndexFuncStep(s, k, n, truth, f);
      if f(s[k].ch) == truth {
        k' := k;
      } else {
        k' := IndexFuncAt(s, k + 1, n - s[k].size, truth, f);
      }
    }
  }

  /** One rune of a backward scan started at rune boundary `k`. */
  lemma LastIndexFuncStep(s: Str, k: nat, n: int, truth: bool, f: char -> bool)
    requires 0 < k <= |s| && n > 0
    ensures LastIndexFunc(s, Off(s, k), n, truth, f) ==
      if f(s[k - 1].ch) == truth then Found(Off(s, k - 1), s[k - 1].size)
      else LastIndexFunc(s, Off(s, k - 1), n - s[k - 1].size, truth, f)
  {
    ReadLastRuneAtOff(s, k);
    LenStep(s, k - 1);
  }

  /** A backward scan with budget left that starts at the start of the text meets io.EOF. */
  lemma LastIndexFuncStart(s: Str, n: int, truth: bool, f: char -> bool)
    requires n > 0
    ensures LastIndexFunc(s, Off(s, 0), n, truth, f) == AtEof
  {
    assert s[..0] == [];
    ReadLastRuneAtOutside(s, 0);
  }

  /** The backward counterpart: `k'` is the rune index where the backward scan stopped. */
  lemma {:induction false} LastIndexFuncAt(s: Str, k: nat, n: int, truth: bool, f: char -> bool) returns (k': nat)
    requires k <= |s|
    ensures k' <= k
    ensures forall j :: k' <= j < k ==> f(s[j].ch) != truth
    ensures var r := LastIndexFunc(s, Off(s, k), n, truth, f);
      !r.Failed? &&
      (r.Found? ==>
         0 < k' && r.index == Off(s, k' - 1) && r.index + r.size == Off(s, k') && f(s[k' - 1].ch) == truth) &&
      (r.AtEof? ==> k' == 0)
    decreases n
  {
    if n <= 0 {
      k' := k;
    } else if k == 0 {
      LastIndexFuncStart(s, n, truth, f);
      k' := k;
    } else {
      LastIndexFuncStep(s, k, n, truth, f);
      LenStep(s, k - 1);
      if f(s[k - 1].ch) == truth {
        k' := k;
      } else {
        k' := LastIndexFuncAt(s, k - 1, n - s[k - 1].size, truth, f);
      }
    }
  }

  /** A forward scan finds nothing before its start offset. */
  lemma {:induction false} IndexFuncFrom(s: Str, i: int, n: int, truth: bool, f: char -> bool)
    ensures var r := IndexFunc(s, i, n, truth, f); r.Found? ==> i <= r.index
    decreases n
  {
    if n > 0 && ReadRuneAt(s, i).Some? {
      var r := ReadRuneAt(s, i).value;
      if f(r.ch) != truth {
        IndexFuncFrom(s, i + r.size, n - r.size, truth, f);
      }
    }
  }

  /** A backward scan finds nothing that ends after its start offset. */
  lemma {:induction false} LastIndexFuncFrom(s: Str, i: int, n: int, truth: bool, f: char -> bool)
    ensures var r := LastIndexFunc(s, i, n, truth, f); r.Found? ==> r.index + r.size <= i
    decreases n
  {
    if n > 0 && ReadLastRuneAt(s, i).Some? {
      var r := ReadLastRuneAt(s, i).value;
      if f(r.ch) != truth {
        LastIndexFuncFrom(s, i - r.size, n - r.size, truth, f);
      }
    }
  }

  /** A successful read starts and ends at rune boundaries and returns the runes between. */
  lemma ReadNAtOk(s: Str, i: int, n: int) returns (a: nat, b: nat)
    requires ReadNAt(s, i, n).Ok?
    ensures a <= b <= |s| && Off(s, a) == i && Off(s, b) == i + n
    ensures ReadNAt(s, i, n).value == s[a..b]
  {
    RuneIndexAtSpec(s, i);
    RuneIndexAtSpec(s, i + n);
    a, b := RuneIndexAt(s, i).value, RuneIndexAt(s, i + n).value;
  }

  /** A successful read of `n` bytes at `i` lies inside the text and returns exactly `n` bytes. */
  lemma ReadNAtSpan(s: Str, i: int, n: int)
    requires ReadNAt(s, i, n).Ok?
    ensures 0 <= i && i + Len(ReadNAt(s, i, n).value) == i + n <= Len(s)
  {
    var a, b := ReadNAtOk(s, i, n);
    LenSlice(s, a, b);
    OffLeLen(s, b);
  }
}
