/**
 * Go strings as the editor sees them: a sequence of decoded runes, each with the number of
 * bytes it occupies. Byte offsets into the string are sums of those widths. A byte that is
 * not valid UTF-8 decodes, as in Go's unicode/utf8, as the one-byte rune U+FFFD.
 *
 * The reader operations (`ReadRuneAt`, `ReadLastRuneAt`) take any byte offset; an offset
 * that falls inside a multi-byte rune decodes, as Go's decoder does on a continuation byte
 * or a cut-off sequence, as the one-byte error rune.
 */
module Utf8 {
  import opened Wrappers

  /** utf8.RuneError, U+FFFD. */
  const RuneError: char := '\U{FFFD}'

  /** Number of bytes of the UTF-8 encoding of `c` (utf8.RuneLen). */
  function EncodedWidth(c: char): (w: nat)
    ensures 1 <= w <= 4
    ensures w == 1 <==> c as int < 0x80
  {
    if c as int < 0x80 then 1
    else if c as int < 0x800 then 2
    else if c as int < 0x10000 then 3
    else 4
  }

  datatype DecodedRune = DecodedRune(ch: char, size: nat)

  /** What a UTF-8 decoder can return: the rune and its encoded width, or an invalid byte. */
  predicate WellDecoded(r: DecodedRune) {
    r.size == EncodedWidth(r.ch) || (r.ch == RuneError && r.size == 1)
  }

  type Rune = r: DecodedRune | WellDecoded(r) witness DecodedRune(' ', 1)

  /** A Go string, decoded. */
  type Str = seq<Rune>

  /** What Go decodes an invalid byte as. */
  const ErrorByte: Rune := DecodedRune(RuneError, 1)

  /** len(s): the byte length. */
  function Len(s: Str): nat
  {
    if s == [] then 0 else Len(s[..|s| - 1]) + s[|s| - 1].size
  }

  /** The byte offset at which rune `k` starts. */
  function Off(s: Str, k: nat): nat
    requires k <= |s|
  {
    Len(s[..k])
  }

  /** The string holds only well-formed encodings (no invalid bytes). */
  predicate ValidUtf8(s: Str) {
    forall k :: 0 <= k < |s| ==> s[k].size == EncodedWidth(s[k].ch)
  }

  /** The runes a Go `for _, ru := range s` loop yields. */
  function Chars(s: Str): (cs: seq<char>)
    ensures |cs| == |s|
    ensures forall k :: 0 <= k < |s| ==> cs[k] == s[k].ch
  {
    seq(|s|, k requires 0 <= k < |s| => s[k].ch)
  }

  /** string(w) for a []rune w: every rune encoded at its UTF-8 width. */
  function FromChars(cs: seq<char>): (s: Str)
    ensures |s| == |cs|
    ensures forall k :: 0 <= k < |cs| ==> s[k] == DecodedRune(cs[k], EncodedWidth(cs[k]))
  {
    seq(|cs|, k requires 0 <= k < |cs| => DecodedRune(cs[k], EncodedWidth(cs[k])))
  }

  // ----- byte offsets -----

  lemma OffFull(s: Str)
    ensures Off(s, |s|) == Len(s)
  {
    assert s[..|s|] == s;
  }

  lemma LenStep(s: Str, k: nat)
    requires k < |s|
    ensures Off(s, k + 1) == Off(s, k) + s[k].size
  {
    assert s[..k + 1][..k] == s[..k];
  }

  lemma {:induction false} OffPrefix(s: Str, n: nat, k: nat)
    requires k <= n <= |s|
    ensures Off(s[..n], k) == Off(s, k)
  {
    assert s[..n][..k] == s[..k];
  }

  lemma {:induction false} OffMono(s: Str, j: nat, k: nat)
    requires j < k <= |s|
    ensures Off(s, j) + s[j].size <= Off(s, k)
    ensures Off(s, j) < Off(s, k)
    decreases k - j
  {
    LenStep(s, j);
    if j + 1 < k {
      OffMono(s, j + 1, k);
    }
  }

  lemma OffLeLen(s: Str, k: nat)
    requires k <= |s|
    ensures Off(s, k) <= Len(s)
    ensures k < |s| ==> Off(s, k) < Len(s)
  {
    OffFull(s);
    if k < |s| {
      OffMono(s, k, |s|);
    }
  }

  /** Offsets are strictly increasing, so an offset determines its rune index. */
  lemma OffInjective(s: Str, j: nat, k: nat)
    requires j <= |s| && k <= |s|
    requires Off(s, j) == Off(s, k)
    ensures j == k
  {
    if j < k {
      OffMono(s, j, k);
    } else if k < j {
      OffMono(s, k, j);
    }
  }

  lemma {:induction false} LenAppend(a: Str, b: Str)
    ensures Len(a + b) == Len(a) + Len(b)
    decreases |b|
  {
    if b == [] {
      assert a + b == a;
    } else {
      var b' := b[..|b| - 1];
      assert (a + b)[..|a + b| - 1] == a + b';
      LenAppend(a, b');
    }
  }

  /** The byte length of the runes between two indexes is the difference of their offsets. */
  lemma LenSlice(s: Str, a: nat, b: nat)
    requires a <= b <= |s|
    ensures Len(s[a..b]) == Off(s, b) - Off(s, a)
  {
    assert s[..b] == s[..a] + s[a..b];
    LenAppend(s[..a], s[a..b]);
  }

  // ----- the reader: decoding at a byte offset -----

  /** ReadRuneAt(i): the rune starting at byte `i`; None past the end or before the start. */
  function ReadRuneAt(s: Str, i: int): Option<Rune>
    decreases |s|
  {
    if s == [] then None
    else
      var p := Len(s[..|s| - 1]);
      if i < p then ReadRuneAt(s[..|s| - 1], i)
      else if i == p then Some(s[|s| - 1])
      else if i < p + s[|s| - 1].size then Some(ErrorByte)
      else None
  }

  /** ReadLastRuneAt(i): the rune ending at byte `i`; None at the start or past the end. */
  function ReadLastRuneAt(s: Str, i: int): Option<Rune>
    decreases |s|
  {
    if s == [] then None
    else
      var p := Len(s[..|s| - 1]);
      var e := p + s[|s| - 1].size;
      if i == e then Some(s[|s| - 1])
      else if p < i < e then Some(ErrorByte)
      else if i <= p then ReadLastRuneAt(s[..|s| - 1], i)
      else None
  }

  lemma {:induction false} ReadRuneAtPrefix(s: Str, n: nat, i: int)
    requires n <= |s|
    requires i < Off(s, n)
    ensures ReadRuneAt(s, i) == ReadRuneAt(s[..n], i)
    decreases |s| - n
  {
    if n < |s| {
      var t := s[..|s| - 1];
      OffMono(s, n, |s|);
      assert Len(t) == Off(s, |s| - 1);
      if n < |s| - 1 {
        OffMono(s, n, |s| - 1);
      }
      OffPrefix(s, |s| - 1, n);
      ReadRuneAtPrefix(t, n, i);
      assert t[..n] == s[..n];
    } else {
      assert s[..n] == s;
    }
  }

  lemma ReadRuneAtOff(s: Str, k: nat)
    requires k < |s|
    ensures ReadRuneAt(s, Off(s, k)) == Some(s[k])
  {
    LenStep(s, k);
    ReadRuneAtPrefix(s, k + 1, Off(s, k));
    assert s[..k + 1][..k] == s[..k];
  }

  lemma ReadRuneAtInside(s: Str, k: nat, i: int)
    requires k < |s|
    requires Off(s, k) < i < Off(s, k + 1)
    ensures ReadRuneAt(s, i) == Some(ErrorByte)
  {
    LenStep(s, k);
    ReadRuneAtPrefix(s, k + 1, i);
    assert s[..k + 1][..k] == s[..k];
  }

  lemma {:induction false} ReadRuneAtOutside(s: Str, i: int)
    requires i < 0 || i >= Len(s)
    ensures ReadRuneAt(s, i) == None
    decreases |s|
  {
    if s != [] {
      ReadRuneAtOutside(s[..|s| - 1], i);
    }
  }

  lemma {:induction false} ReadLastRuneAtPrefix(s: Str, n: nat, i: int)
    requires n <= |s|
    requires i <= Off(s, n)
    ensures ReadLastRuneAt(s, i) == ReadLastRuneAt(s[..n], i)
    decreases |s| - n
  {
    if n < |s| {
      var t := s[..|s| - 1];
      OffMono(s, n, |s|);
      assert Len(t) == Off(s, |s| - 1);
      if n < |s| - 1 {
        OffMono(s, n, |s| - 1);
      }
      OffPrefix(s, |s| - 1, n);
      ReadLastRuneAtPrefix(t, n, i);
      assert t[..n] == s[..n];
    } else {
      assert s[..n] == s;
    }
  }

  lemma ReadLastRuneAtOff(s: Str, k: nat)
    requires 0 < k <= |s|
    ensures ReadLastRuneAt(s, Off(s, k)) == Some(s[k - 1])
  {
    LenStep(s, k - 1);
    ReadLastRuneAtPrefix(s, k, Off(s, k));
    assert s[..k][..k - 1] == s[..k - 1];
  }

  lemma {:induction false} ReadLastRuneAtOutside(s: Str, i: int)
    requires i <= 0 || i > Len(s)
    ensures ReadLastRuneAt(s, i) == None
    decreases |s|
  {
    if s != [] {
      ReadLastRuneAtOutside(s[..|s| - 1], i);
    }
  }

  /** Every offset in range is either a rune start or strictly inside one rune. */
  lemma {:induction false} Locate(s: Str, i: int) returns (k: nat)
    requires 0 <= i < Len(s)
    ensures k < |s| && Off(s, k) <= i < Off(s, k + 1)
    decreases |s|
  {
    var t := s[..|s| - 1];
    LenStep(s, |s| - 1);
    OffFull(s);
    if i >= Len(t) {
      k := |s| - 1;
    } else {
      k := Locate(t, i);
      OffPrefix(s, |s| - 1, k);
      OffPrefix(s, |s| - 1, k + 1);
    }
  }

  /** A read succeeds only inside the text. */
  lemma ReadRuneAtSome(s: Str, i: int)
    ensures ReadRuneAt(s, i).Some? ==> 0 <= i < Len(s)
  {
    if i < 0 || i >= Len(s) {
      ReadRuneAtOutside(s, i);
    }
  }

  lemma ReadLastRuneAtSome(s: Str, i: int)
    ensures ReadLastRuneAt(s, i).Some? ==> 0 < i <= Len(s)
  {
    if i <= 0 || i > Len(s) {
      ReadLastRuneAtOutside(s, i);
    }
  }

  /** Reading at an offset yields a proper rune only at a rune start. */
  lemma ReadRuneAtBoundary(s: Str, i: int) returns (k: nat)
    requires ReadRuneAt(s, i).Some? && ReadRuneAt(s, i).value != ErrorByte
    ensures k < |s| && Off(s, k) == i && ReadRuneAt(s, i) == Some(s[k])
  {
    if i < 0 || i >= Len(s) {
      ReadRuneAtOutside(s, i);
      assert false;
    }
    k := Locate(s, i);
    if Off(s, k) < i {
      ReadRuneAtInside(s, k, i);
      assert false;
    }
    ReadRuneAtOff(s, k);
  }

  /** The rune index at which byte offset `i` starts a rune, if it does. */
  function RuneIndexAt(s: Str, i: int): Option<nat>
    decreases |s|
  {
    if i == Len(s) then Some(|s|)
    else if s == [] then None
    else RuneIndexAt(s[..|s| - 1], i)
  }

  lemma {:induction false} RuneIndexAtSpec(s: Str, i: int)
    ensures RuneIndexAt(s, i).Some? ==>
      RuneIndexAt(s, i).value <= |s| && Off(s, RuneIndexAt(s, i).value) == i
    ensures RuneIndexAt(s, i).None? ==> forall k :: 0 <= k <= |s| ==> Off(s, k) != i
    decreases |s|
  {
    OffFull(s);
    if i != Len(s) && s != [] {
      var t := s[..|s| - 1];
      RuneIndexAtSpec(t, i);
      if RuneIndexAt(t, i).Some? {
        OffPrefix(s, |s| - 1, RuneIndexAt(t, i).value);
      } else {
        forall k | 0 <= k <= |s| ensures Off(s, k) != i {
          if k < |s| {
            OffPrefix(s, |s| - 1, k);
          }
        }
      }
    }
  }

  lemma RuneIndexAtOff(s: Str, k: nat)
    requires k <= |s|
    ensures RuneIndexAt(s, Off(s, k)) == Some(k)
  {
    RuneIndexAtSpec(s, Off(s, k));
    if RuneIndexAt(s, Off(s, k)).Some? {
      OffInjective(s, RuneIndexAt(s, Off(s, k)).value, k);
    }
  }

  // ----- runes and chars -----

  lemma CharsFromChars(cs: seq<char>)
    ensures Chars(FromChars(cs)) == cs
  {
  }

  lemma FromCharsChars(s: Str)
    requires ValidUtf8(s)
    ensures FromChars(Chars(s)) == s
  {
  }

  lemma {:induction false} LenFromChars(cs: seq<char>)
    ensures Len(FromChars(cs)) >= |cs|
    ensures (forall k :: 0 <= k < |cs| ==> cs[k] as int < 0x80) ==> Len(FromChars(cs)) == |cs|
    decreases |cs|
  {
    if cs != [] {
      var u := cs[..|cs| - 1];
      assert FromChars(cs)[..|cs| - 1] == FromChars(u);
      LenFromChars(u);
    }
  }
}
