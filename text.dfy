/** The three Python `str` operations the parser is built from: `strip()`,
    `split()` with no separator, and `startswith(prefix)`. Whitespace is the set of
    characters Python's `str.isspace` accepts. */
module Text {

  /** Python's whitespace: the ASCII separators, the four information separators,
      NEL, NO-BREAK SPACE and the Unicode space and line/paragraph separators. */
  predicate IsSpace(c: char) {
    || ('\U{0009}' <= c <= '\U{000D}') || ('\U{001C}' <= c <= '\U{0020}')
    || c == '\U{0085}' || c == '\U{00A0}' || c == '\U{1680}'
    || ('\U{2000}' <= c <= '\U{200A}') || c == '\U{2028}' || c == '\U{2029}'
    || c == '\U{202F}' || c == '\U{205F}' || c == '\U{3000}'
  }

  predicate AllSpace(s: string) {
    forall i :: 0 <= i < |s| ==> IsSpace(s[i])
  }

  predicate NoSpace(s: string) {
    forall i :: 0 <= i < |s| ==> !IsSpace(s[i])
  }

  /** No whitespace at either end: what `strip()` returns. */
  predicate IsStripped(s: string) {
    s == [] || (!IsSpace(s[0]) && !IsSpace(s[|s| - 1]))
  }

  /** `s.startswith(p)` */
  predicate StartsWith(s: string, p: string) {
    |p| <= |s| && forall i :: 0 <= i < |p| ==> s[i] == p[i]
  }

  /** `s.lstrip()`: the suffix left after dropping leading whitespace. */
  function TrimLeft(s: string): (r: string)
    ensures |r| <= |s|
  {
    if s == [] || !IsSpace(s[0]) then s else TrimLeft(s[1..])
  }

  /** What `lstrip()` removes is a whitespace prefix, and what it keeps starts
      with a non-whitespace character. */
  lemma {:induction false} TrimLeftSpec(s: string)
    ensures TrimLeft(s) == s[|s| - |TrimLeft(s)|..]
    ensures AllSpace(s[..|s| - |TrimLeft(s)|])
    ensures TrimLeft(s) == [] || !IsSpace(TrimLeft(s)[0])
  {
    if s != [] && IsSpace(s[0]) {
      TrimLeftSpec(s[1..]);
      var n := |s| - |TrimLeft(s)|;
      assert s[..n] == [s[0]] + s[1..][..n - 1];
    }
  }

  /** `s.rstrip()`: the prefix left after dropping trailing whitespace. */
  function TrimRight(s: string): (r: string)
    ensures |r| <= |s|
  {
    if s == [] || !IsSpace(s[|s| - 1]) then s else TrimRight(s[..|s| - 1])
  }

  /** What `rstrip()` removes is a whitespace suffix, and what it keeps ends
      with a non-whitespace character. */
  lemma {:induction false} TrimRightSpec(s: string)
    ensures TrimRight(s) == s[..|TrimRight(s)|]
    ensures AllSpace(s[|TrimRight(s)|..])
    ensures TrimRight(s) == [] || !IsSpace(TrimRight(s)[|TrimRight(s)| - 1])
  {
    if s != [] && IsSpace(s[|s| - 1]) {
      var init := s[..|s| - 1];
      TrimRightSpec(init);
      var n := |TrimRight(s)|;
      assert s[n..] == init[n..] + [s[|s| - 1]];
    }
  }

  /** `s.strip()`: leading and trailing whitespace removed. */
  function Strip(s: string): string {
    TrimRight(TrimLeft(s))
  }

  /** What `strip()` returns has no whitespace at either end, and is a contiguous
      slice of `s` whose surroundings on both sides are all whitespace. */
  lemma StripIsSlice(s: string) returns (i: nat)
    ensures IsStripped(Strip(s))
    ensures i + |Strip(s)| <= |s| && Strip(s) == s[i..i + |Strip(s)|]
    ensures AllSpace(s[..i]) && AllSpace(s[i + |Strip(s)|..])
  {
    var t := TrimLeft(s);
    var r := TrimRight(t);
    TrimLeftSpec(s);
    TrimRightSpec(t);
    i := |s| - |t|;
    assert r == t[..|r|] == s[i..i + |r|];
    assert t[|r|..] == s[i + |r|..];
    if r != [] {
      assert r[0] == t[0];
    }
  }

  /** Length of the leading run of non-whitespace characters. */
  function WordEnd(s: string): (n: nat)
    ensures n <= |s|
  {
    if s == [] || IsSpace(s[0]) then 0 else 1 + WordEnd(s[1..])
  }

  /** The leading word holds no whitespace and is followed by whitespace or the
      end of the string. */
  lemma {:induction false} WordEndSpec(s: string)
    ensures NoSpace(s[..WordEnd(s)])
    ensures WordEnd(s) == |s| || IsSpace(s[WordEnd(s)])
  {
    if s != [] && !IsSpace(s[0]) {
      WordEndSpec(s[1..]);
      assert s[..WordEnd(s)] == [s[0]] + s[1..][..WordEnd(s[1..])];
    }
  }

  /** `s.split()`: the maximal runs of non-whitespace characters, left to right. */
  function Split(s: string): seq<string>
    decreases |s|
  {
    var t := TrimLeft(s);
    if t == [] then []
    else
      var n := WordEnd(t);
      [t[..n]] + Split(t[n..])
  }

  /** Every token is non-empty and contains no whitespace. */
  lemma {:induction false} SplitTokensHaveNoSpace(s: string)
    ensures forall w :: w in Split(s) ==> w != [] && NoSpace(w)
    decreases |s|
  {
    var t := TrimLeft(s);
    if t != [] {
      TrimLeftSpec(s);
      WordEndSpec(t);
      var n := WordEnd(t);
      assert n > 0;
      SplitTokensHaveNoSpace(t[n..]);
    }
  }

  /** `split()` finds no token exactly when the string is all whitespace. */
  lemma SplitEmptyIffBlank(s: string)
    ensures Split(s) == [] <==> AllSpace(s)
  {
    var t := TrimLeft(s);
    TrimLeftSpec(s);
    if t == [] {
      assert s[..|s| - |t|] == s;
    } else {
      assert !IsSpace(s[|s| - |t|]);
    }
  }

  /** On a string whose first character is not whitespace (such as a stripped,
      non-empty line) the first token is its first word. */
  lemma FirstTokenIsFirstWord(s: string)
    requires s != [] && !IsSpace(s[0])
    ensures Split(s) != [] && Split(s)[0] == s[..WordEnd(s)]
  {
    assert TrimLeft(s) == s;
  }

  /** Index `i` of `s` begins a word: a non-whitespace character at the start of
      `s` or right after whitespace. */
  predicate IsWordStart(s: string, i: int) {
    0 <= i < |s| && !IsSpace(s[i]) && (i == 0 || IsSpace(s[i - 1]))
  }

  /** The indices from `lo` on where a word of `s` begins, left to right. */
  function WordStartsFrom(s: string, lo: nat): (ps: seq<int>)
    ensures forall i :: 0 <= i < |ps| ==> lo <= ps[i] < |s|
    decreases |s| - lo
  {
    if lo >= |s| then []
    else (if IsWordStart(s, lo) then [lo] else []) + WordStartsFrom(s, lo + 1)
  }

  /** The indices where the words of `s` begin, left to right. */
  function WordStarts(s: string): seq<int> {
    WordStartsFrom(s, 0)
  }

  /** The word from index `p` on: the leading run of non-whitespace there. */
  function WordAt(s: string, p: nat): string
    requires p <= |s|
  {
    s[p..p + WordEnd(s[p..])]
  }

  /** `WordStartsFrom` lists every word start from `lo` on, each once, in
      increasing order. */
  lemma {:induction false} WordStartsFromSpec(s: string, lo: nat)
    ensures forall p :: p in WordStartsFrom(s, lo) <==> lo <= p && IsWordStart(s, p)
    ensures forall i, j :: 0 <= i < j < |WordStartsFrom(s, lo)| ==>
              WordStartsFrom(s, lo)[i] < WordStartsFrom(s, lo)[j]
    decreases |s| - lo
  {
    if lo < |s| {
      var ps := WordStartsFrom(s, lo);
      var rest := WordStartsFrom(s, lo + 1);
      WordStartsFromSpec(s, lo + 1);
      if IsWordStart(s, lo) {
        assert ps == [lo] + rest;
        forall i, j | 0 <= i < j < |ps| ensures ps[i] < ps[j] {
          assert ps[j] == rest[j - 1];
          if i > 0 {
            assert ps[i] == rest[i - 1];
          }
        }
      } else {
        assert ps == rest;
      }
    }
  }

  /** No word begins in `lo..hi - 1`, so the word starts from `lo` on are those
      from `hi` on. */
  lemma {:induction false} SkipNonStarts(s: string, lo: nat, hi: nat)
    requires lo <= hi <= |s|
    requires forall p :: lo <= p < hi ==> !IsWordStart(s, p)
    ensures WordStartsFrom(s, lo) == WordStartsFrom(s, hi)
    decreases hi - lo
  {
    if lo < hi {
      SkipNonStarts(s, lo + 1, hi);
    }
  }

  /** `lstrip()` of the suffix from `m` on, where `m` is not inside a word,
      starts at the first word start from `m` on, or is empty when there is
      none. */
  lemma SkipSpaces(s: string, m: nat) returns (q: nat)
    requires m <= |s|
    requires m == 0 || m == |s| || IsSpace(s[m - 1]) || IsSpace(s[m])
    ensures m <= q <= |s| && TrimLeft(s[m..]) == s[q..]
    ensures WordStartsFrom(s, m) == WordStartsFrom(s, q)
    ensures q == |s| || IsWordStart(s, q)
  {
    var u := s[m..];
    var t := TrimLeft(u);
    TrimLeftSpec(u);
    q := m + (|u| - |t|);
    assert t == s[q..];
    forall p | m <= p < q ensures !IsWordStart(s, p) {
      assert s[p] == u[..|u| - |t|][p - m];
    }
    SkipNonStarts(s, m, q);
    if q > m && q < |s| {
      assert s[q - 1] == u[..|u| - |t|][q - 1 - m];
    }
  }

  /** A word that begins at `q` is not empty, and the next word start comes
      after it, at or beyond the whitespace (or end) that closes it. */
  lemma TakeWord(s: string, q: nat, n: nat)
    requires IsWordStart(s, q) && n == WordEnd(s[q..])
    ensures 0 < n && q + n <= |s| && (q + n == |s| || IsSpace(s[q + n]))
    ensures WordStartsFrom(s, q) == [q] + WordStartsFrom(s, q + n)
  {
    WordEndAt(s, q);
    InsideWord(s, q, n);
    SkipNonStarts(s, q + 1, q + n);
    StartHere(s, q);
  }

  /** The word at `q`, read off by index: no whitespace in `q..q + n - 1`, and
      whitespace or the end of `s` at `q + n`; it is not empty when `s[q]` is
      not whitespace. */
  lemma WordEndAt(s: string, q: nat)
    requires q <= |s|
    ensures var n := WordEnd(s[q..]);
            && q + n <= |s| && (q + n == |s| || IsSpace(s[q + n]))
            && (forall p :: q <= p < q + n ==> !IsSpace(s[p]))
            && (q < |s| && !IsSpace(s[q]) ==> n > 0)
  {
    var t := s[q..];
    var n := WordEnd(t);
    WordEndSpec(t);
    forall p | q <= p < q + n ensures !IsSpace(s[p]) {
      assert s[p] == t[..n][p - q];
    }
    if q + n < |s| {
      assert s[q + n] == t[n];
    }
    if q < |s| {
      assert t[0] == s[q];
    }
  }

  /** No word starts strictly inside a run of non-whitespace. */
  lemma InsideWord(s: string, q: nat, n: nat)
    requires q + n <= |s| && forall p :: q <= p < q + n ==> !IsSpace(s[p])
    ensures forall p :: q < p < q + n ==> !IsWordStart(s, p)
  {
    forall p | q < p < q + n ensures !IsWordStart(s, p) {
      assert !IsSpace(s[p - 1]);
    }
  }

  /** A word start heads the list of word starts from it on. */
  lemma StartHere(s: string, q: nat)
    requires IsWordStart(s, q)
    ensures WordStartsFrom(s, q) == [q] + WordStartsFrom(s, q + 1)
  {
  }

  /** When `lstrip()` of the suffix from `m` on starts at `q`, `split()` of that
      suffix is empty if `q` is the end of `s`, and otherwise the word at `q`,
      of length `n`, followed by `split()` of what follows that word. */
  lemma SplitAt(s: string, m: nat, q: nat, n: nat)
    requires m <= q <= |s| && TrimLeft(s[m..]) == s[q..] && n == WordEnd(s[q..])
    ensures q == |s| ==> Split(s[m..]) == []
    ensures q < |s| ==> Split(s[m..]) == [WordAt(s, q)] + Split(s[q + n..])
  {
    var t := s[q..];
    if q < |s| {
      assert t[n..] == s[q + n..];
      assert WordAt(s, q) == t[..n];
    } else {
      assert t == [];
    }
  }

  /** One step of `split()` on the suffix from `m` on, where `m` is not inside a
      word: either no word starts from `m` on and there is no token, or the
      first token is the word at the first word start `q`, of length `n`, and
      the rest are the tokens of what follows it. */
  lemma NextWord(s: string, m: nat) returns (q: nat, n: nat)
    requires m <= |s|
    requires m == 0 || m == |s| || IsSpace(s[m - 1]) || IsSpace(s[m])
    ensures m <= q <= q + n <= |s|
    ensures q == |s| ==> Split(s[m..]) == [] && WordStartsFrom(s, m) == []
    ensures q < |s| ==> && 0 < n && (q + n == |s| || IsSpace(s[q + n]))
                        && Split(s[m..]) == [WordAt(s, q)] + Split(s[q + n..])
                        && WordStartsFrom(s, m) == [q] + WordStartsFrom(s, q + n)
  {
    q := SkipSpaces(s, m);
    n := WordEnd(s[q..]);
    SplitAt(s, m, q, n);
    if q < |s| {
      TakeWord(s, q, n);
    } else {
      assert WordStartsFrom(s, q) == [];
    }
  }

  /** `split()` of the suffix from `m` on, where `m` is not inside a word: one
      token per word start from `m` on, and each token is the word there. */
  lemma {:induction false} SplitWords(s: string, m: nat)
    requires m <= |s|
    requires m == 0 || m == |s| || IsSpace(s[m - 1]) || IsSpace(s[m])
    ensures |Split(s[m..])| == |WordStartsFrom(s, m)|
    ensures forall i :: 0 <= i < |Split(s[m..])| ==>
              Split(s[m..])[i] == WordAt(s, WordStartsFrom(s, m)[i])
    decreases |s| - m
  {
    var q, n := NextWord(s, m);
    if q < |s| {
      SplitWords(s, q + n);
      WordsCons(s, Split(s[m..]), Split(s[q + n..]), WordStartsFrom(s, m), WordStartsFrom(s, q + n), q);
    }
  }

  /** Putting the word at `q` in front of a list of words keeps each token
      matched with its start. */
  lemma WordsCons(s: string, ws: seq<string>, ws': seq<string>, ps: seq<int>, ps': seq<int>, q: nat)
    requires q <= |s| && forall i :: 0 <= i < |ps'| ==> 0 <= ps'[i] <= |s|
    requires ws == [WordAt(s, q)] + ws' && ps == [q] + ps' && |ws'| == |ps'|
    requires forall i :: 0 <= i < |ws'| ==> ws'[i] == WordAt(s, ps'[i])
    ensures |ws| == |ps| && forall i :: 0 <= i < |ws| ==> ws[i] == WordAt(s, ps[i])
  {
    forall i | 0 < i < |ws| ensures ws[i] == WordAt(s, ps[i]) {
      assert ws[i] == ws'[i - 1] && ps[i] == ps'[i - 1];
    }
  }

  /** `s.split()` has one token per word of `s`: token `i` is the maximal run of
      non-whitespace that begins at the `i`-th word start. */
  lemma SplitSpec(s: string)
    ensures |Split(s)| == |WordStarts(s)|
    ensures forall i :: 0 <= i < |Split(s)| ==> Split(s)[i] == WordAt(s, WordStarts(s)[i])
  {
    SplitWords(s, 0);
    assert s[0..] == s;
  }

  /** `s[1:]`: everything after the first character; empty when `s` is. */
  function Tail(s: string): string {
    if s == [] then [] else s[1..]
  }
}
