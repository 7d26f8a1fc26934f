/**
 * The pattern `[\w\.-]+@[\w\.-]+\.\w+` that content.js uses to find and clean up e-mail
 * addresses, with JavaScript's `String.prototype.match` semantics: the match starting at the
 * leftmost position where the pattern can match, found by greedy quantifiers with backtracking.
 * Without the `u` flag `\w` is exactly `[A-Za-z0-9_]`.
 */
module EmailPattern {
  import opened Wrappers
  import opened Search

  predicate IsWordChar(c: char) {
    'a' <= c <= 'z' || 'A' <= c <= 'Z' || '0' <= c <= '9' || c == '_'
  }

  /** The class `[\w\.-]`. */
  predicate IsAddressChar(c: char) {
    IsWordChar(c) || c == '.' || c == '-'
  }

  /** `s[i..e]` is, in full, a string the pattern describes: local part, `@`, domain, `.`, word. */
  ghost predicate EmailSpan(s: string, i: int, e: int) {
    exists at, dot :: EmailSplit(s, i, at, dot, e)
  }

  /** `s[i..e]` splits as `s[i..at] + "@" + s[at+1..dot] + "." + s[dot+1..e]` with each part in its class. */
  ghost predicate EmailSplit(s: string, i: int, at: int, dot: int, e: int) {
    && 0 <= i < at && at + 1 < dot && dot + 1 < e <= |s|
    && s[at] == '@' && s[dot] == '.'
    && (forall k :: i <= k < at ==> IsAddressChar(s[k]))
    && (forall k :: at < k < dot ==> IsAddressChar(s[k]))
    && (forall k :: dot < k < e ==> IsWordChar(s[k]))
  }

  /** End of the longest run of characters accepted by `ok` from position `i`: what a greedy class repetition consumes. */
  function RunEnd(s: string, i: nat, ok: char -> bool): (j: nat)
    requires i <= |s|
    ensures i <= j <= |s|
    ensures forall k :: i <= k < j ==> ok(s[k])
    ensures j < |s| ==> !ok(s[j])
    decreases |s| - i
  {
    if i < |s| && ok(s[i]) then RunEnd(s, i + 1, ok) else i
  }

  /** Position `q` holds a `.` followed by a word character: where `\.\w+` can start. */
  predicate DotThenWord(s: string, q: int) {
    0 <= q && q + 1 < |s| && s[q] == '.' && IsWordChar(s[q + 1])
  }

  /**
   * The last position in `[lo, hi)` where `\.\w+` can start: backtracking the greedy domain
   * part gives characters back from the right, one at a time.
   */
  function LastDotThenWord(s: string, lo: nat, hi: nat): (r: Option<nat>)
    requires hi <= |s|
    ensures r.Some? ==> lo <= r.value < hi && DotThenWord(s, r.value)
    ensures r.Some? ==> forall q :: r.value < q < hi ==> !DotThenWord(s, q)
    ensures r.None? ==> forall q :: lo <= q < hi ==> !DotThenWord(s, q)
    decreases hi
  {
    if hi <= lo then None
    else if DotThenWord(s, hi - 1) then Some(hi - 1)
    else LastDotThenWord(s, lo, hi - 1)
  }

  /**
   * The end of the match the regex engine finds when it starts at position `i`, or None.
   * The greedy local part can only stop at the end of its run (`@` is outside the class);
   * the greedy domain part backtracks to the last `.` that a word character follows.
   */
  function MatchEnd(s: string, i: nat): (r: Option<nat>)
    requires i <= |s|
    ensures r.Some? ==> i < r.value <= |s|
  {
    var at := RunEnd(s, i, IsAddressChar);
    if at == i || at == |s| || s[at] != '@' then None
    else
      var domainEnd := RunEnd(s, at + 1, IsAddressChar);
      match LastDotThenWord(s, at + 2, domainEnd)
      case None => None
      case Some(dot) => Some(RunEnd(s, dot + 1, IsWordChar))
  }

  /** Every match the engine reports is an e-mail-shaped span. */
  lemma MatchEndSound(s: string, i: nat)
    requires i <= |s|
    requires MatchEnd(s, i).Some?
    ensures EmailSpan(s, i, MatchEnd(s, i).value)
  {
    var at := RunEnd(s, i, IsAddressChar);
    var domainEnd := RunEnd(s, at + 1, IsAddressChar);
    var dot := LastDotThenWord(s, at + 2, domainEnd).value;
    var e := RunEnd(s, dot + 1, IsWordChar);
    assert EmailSplit(s, i, at, dot, e);
  }

  /**
   * Backtracking the greedy domain part from an `@` at `at` stops at a `.` no earlier than the
   * one at `d`, and the word run after it reaches at least to `e`.
   */
  lemma DomainReachesEnd(s: string, at: nat, d: nat, e: nat)
    requires at + 1 < d && d + 1 < e <= |s| && s[d] == '.'
    requires forall k :: at < k < d ==> IsAddressChar(s[k])
    requires forall k :: d < k < e ==> IsWordChar(s[k])
    ensures var q := LastDotThenWord(s, at + 2, RunEnd(s, at + 1, IsAddressChar));
      q.Some? && q.value >= d && RunEnd(s, q.value + 1, IsWordChar) >= e
  {
    var domainEnd := RunEnd(s, at + 1, IsAddressChar);
    assert domainEnd >= e by {
      assert forall k :: at < k < e ==> IsAddressChar(s[k]);
    }
    var q := LastDotThenWord(s, at + 2, domainEnd);
    assert q.Some? && q.value >= d by {
      assert DotThenWord(s, d);
    }
    assert q.value == d || q.value >= e by {
      assert !IsWordChar(s[q.value]);
    }
  }

  /** The engine's match from `i` is the longest e-mail-shaped span starting at `i`, and there is one whenever any exists. */
  lemma MatchEndLongest(s: string, i: nat, e: nat)
    requires i <= |s|
    requires EmailSpan(s, i, e)
    ensures MatchEnd(s, i).Some? && e <= MatchEnd(s, i).value
  {
    var a, d :| EmailSplit(s, i, a, d, e);
    var at := RunEnd(s, i, IsAddressChar);
    assert at == a by {
      assert !IsAddressChar(s[a]);
    }
    DomainReachesEnd(s, at, d, e);
  }

  /** What the engine finds at each start position of `s`, left to right. */
  function MatchEnds(s: string): seq<Option<nat>> {
    seq(|s|, k requires 0 <= k < |s| => MatchEnd(s, k))
  }

  /** The first start position where the engine finds a match, with the match's end. */
  function FirstMatch(s: string): (r: Option<(nat, nat)>)
    ensures r.Some? ==> r.value.0 < r.value.1 <= |s| && MatchEnd(s, r.value.0) == Some(r.value.1)
  {
    var ends := MatchEnds(s);
    match FindFirst(ends, (o: Option<nat>) => o.Some?)
    case Some(i) => Some((i, ends[i].value))
    case None => None
  }

  /**
   * JavaScript's `s.match(pattern)` for this pattern: the leftmost, and from there the longest,
   * e-mail-shaped span of `s`; None when `s` has none.
   */
  lemma MatchIsLeftmostLongest(s: string)
    ensures FirstMatch(s).None? <==> forall i, e :: !EmailSpan(s, i, e)
    ensures FirstMatch(s).Some? ==>
      var (i, e) := FirstMatch(s).value;
      && EmailSpan(s, i, e)
      && (forall e' :: EmailSpan(s, i, e') ==> e' <= e)
      && (forall i', e' :: EmailSpan(s, i', e') ==> i <= i')
  {
    var m := FirstMatch(s);
    var ends := MatchEnds(s);
    forall i, e | EmailSpan(s, i, e) ensures m.Some? && m.value.0 <= i {
      var a, d :| EmailSplit(s, i, a, d, e);
      MatchEndLongest(s, i, e);
      assert ends[i].Some?;
    }
    if m.Some? {
      var (i, e) := m.value;
      MatchEndSound(s, i);
      forall e' | EmailSpan(s, i, e') ensures e' <= e {
        MatchEndLongest(s, i, e');
      }
    }
  }

  /** `s.match(/[\w\.-]+@[\w\.-]+\.\w+/)?.[0]`: the matched text, which always holds an `@`. */
  function FindEmail(s: string): (r: Option<string>)
    ensures r.Some? ==> '@' in r.value
  {
    match FirstMatch(s)
    case None => None
    case Some((i, e)) =>
      MatchEndSound(s, i);
      AtInSpan(s, i, e);
      Some(s[i..e])
  }

  lemma AtInSpan(s: string, i: int, e: int)
    requires EmailSpan(s, i, e)
    ensures 0 <= i <= e <= |s| && '@' in s[i..e]
  {
    var at, dot :| EmailSplit(s, i, at, dot, e);
    assert s[i..e][at - i] == '@';
  }

  /** A string the pattern describes in full is its own match: cleaning a well-formed address keeps it. */
  lemma WholeEmailMatchesItself(s: string)
    requires EmailSpan(s, 0, |s|)
    ensures FindEmail(s) == Some(s)
  {
    MatchEndLongest(s, 0, |s|);
    var ends := MatchEnds(s);
    assert ends[0] == MatchEnd(s, 0);
    FindFirstIs(ends, (o: Option<nat>) => o.Some?, 0);
    assert FirstMatch(s) == Some((0, |s|));
    assert s[0..|s|] == s;
  }

  /** An address assembled from a local part, a domain and a final word is matched in full. */
  lemma AssembledAddressMatches(local: string, domain: string, tld: string)
    requires local != [] && forall k :: 0 <= k < |local| ==> IsAddressChar(local[k])
    requires domain != [] && forall k :: 0 <= k < |domain| ==> IsAddressChar(domain[k])
    requires tld != [] && forall k :: 0 <= k < |tld| ==> IsWordChar(tld[k])
    ensures FindEmail(local + (['@'] + (domain + (['.'] + tld)))) == Some(local + (['@'] + (domain + (['.'] + tld))))
  {
    var s := local + (['@'] + (domain + (['.'] + tld)));
    var at := |local|;
    var dot := at + 1 + |domain|;
    assert s[..at] == local;
    assert s[at + 1..dot] == domain;
    assert s[dot + 1..] == tld;
    forall k | at < k < dot ensures IsAddressChar(s[k]) {
      assert s[k] == s[at + 1..dot][k - at - 1];
    }
    forall k | dot < k < |s| ensures IsWordChar(s[k]) {
      assert s[k] == s[dot + 1..][k - dot - 1];
    }
    assert EmailSplit(s, 0, at, dot, |s|);
    WholeEmailMatchesItself(s);
  }
}
