/**
 * The JavaScript string operations the content script relies on: `||` on strings, `trim`,
 * `includes`, `split(sep)[0]`, ASCII `toUpperCase`/`toLowerCase` and `replace(/\n/g, '<br>')`.
 */
module Text {

  /** JavaScript's `a || b` on two strings: the empty string is falsy. */
  function Or(a: string, b: string): string {
    if a != "" then a else b
  }

  /** The characters `String.prototype.trim` removes: ECMAScript WhiteSpace and LineTerminator. */
  predicate IsJsSpace(c: char) {
    || c == '\t' || c == '\U{000B}' || c == '\U{000C}' || c == ' ' || c == '\U{00A0}' || c == '\U{FEFF}'
    || c == '\n' || c == '\r' || c == '\U{2028}' || c == '\U{2029}'
    || c == '\U{1680}' || ('\U{2000}' <= c <= '\U{200A}') || c == '\U{202F}' || c == '\U{205F}' || c == '\U{3000}'
  }

  /** The end of the run of white space that starts at position `i`. */
  function SkipSpaces(s: string, i: nat): (j: nat)
    requires i <= |s|
    ensures i <= j <= |s|
    ensures forall k :: i <= k < j ==> IsJsSpace(s[k])
    ensures j == |s| || !IsJsSpace(s[j])
    decreases |s| - i
  {
    if i < |s| && IsJsSpace(s[i]) then SkipSpaces(s, i + 1) else i
  }

  /** The start of the run of white space that ends just before position `j`, going back no further than `lo`. */
  function SkipSpacesBack(s: string, lo: nat, j: nat): (i: nat)
    requires lo <= j <= |s|
    ensures lo <= i <= j
    ensures forall k :: i <= k < j ==> IsJsSpace(s[k])
    ensures i == lo || !IsJsSpace(s[i - 1])
    decreases j - lo
  {
    if lo < j && IsJsSpace(s[j - 1]) then SkipSpacesBack(s, lo, j - 1) else j
  }

  /** `r` is the stretch of `s` from position `i` on, and every character of `s` outside it is white space. */
  predicate TrimmedAt(s: string, r: string, i: int) {
    && 0 <= i <= |s| - |r| && s[i..i + |r|] == r
    && (forall k :: 0 <= k < i ==> IsJsSpace(s[k]))
    && (forall k :: i + |r| <= k < |s| ==> IsJsSpace(s[k]))
  }

  /** `s.trim()`: a stretch of `s` that neither starts nor ends with white space, with only white space around it. */
  function Trim(s: string): (r: string)
    ensures exists i :: TrimmedAt(s, r, i)
    ensures r == [] || (!IsJsSpace(r[0]) && !IsJsSpace(r[|r| - 1]))
  {
    var a := SkipSpaces(s, 0);
    var b := SkipSpacesBack(s, a, |s|);
    assert TrimmedAt(s, s[a..b], a);
    s[a..b]
  }

  /** Trimming removes only white space: every other character of `s` is still there, and nothing new. */
  lemma TrimKeeps(s: string, c: char)
    requires !IsJsSpace(c)
    ensures c in Trim(s) <==> c in s
  {
    var r := Trim(s);
    var i :| TrimmedAt(s, r, i);
    if c in s {
      var k :| 0 <= k < |s| && s[k] == c;
      assert r[k - i] == c;
    }
    if c in r {
      var k :| 0 <= k < |r| && r[k] == c;
      assert s[i + k] == c;
    }
  }

  /** The trimmed string is blank only when every character of `s` is white space. */
  lemma TrimBlank(s: string)
    ensures Trim(s) == "" <==> forall k :: 0 <= k < |s| ==> IsJsSpace(s[k])
  {
    var r := Trim(s);
    var i :| TrimmedAt(s, r, i);
    if r != "" {
      assert s[i] == r[0];
    }
  }

  /** A character outside the Basic Multilingual Plane, which JavaScript stores as a surrogate pair. */
  predicate IsAstral(c: char) {
    c as int >= 0x1_0000
  }

  /**
   * `s.length`: JavaScript counts UTF-16 code units, so a character outside the Basic
   * Multilingual Plane counts twice; every other character counts once.
   */
  function Utf16Length(s: string): (n: nat)
    ensures |s| <= n <= 2 * |s|
    ensures n == |s| <==> forall k :: 0 <= k < |s| ==> !IsAstral(s[k])
  {
    if s == [] then 0
    else
      var rest := Utf16Length(s[1..]);
      assert forall k :: 1 <= k < |s| ==> s[k] == s[1..][k - 1];
      (if IsAstral(s[0]) then 2 else 1) + rest
  }

  /** The length of a concatenation is the sum of the lengths. */
  lemma {:induction false} Utf16LengthAppend(a: string, b: string)
    ensures Utf16Length(a + b) == Utf16Length(a) + Utf16Length(b)
  {
    if a == [] {
      assert a + b == b;
    } else {
      assert (a + b)[0] == a[0] && (a + b)[1..] == a[1..] + b;
      Utf16LengthAppend(a[1..], b);
    }
  }

  /** `s.includes(t)` for a string `t`. */
  predicate Includes(s: string, t: string) {
    exists k | 0 <= k <= |s| - |t| :: IncludesAt(s, t, k)
  }

  /** `t` occurs in `s` starting at position `k`. */
  predicate IncludesAt(s: string, t: string, k: int) {
    0 <= k <= |s| - |t| && s[k..k + |t|] == t
  }

  /** ASCII `toLowerCase` on one character; every other character is kept. */
  function LowerChar(c: char): char {
    if 'A' <= c <= 'Z' then (c as int + 32) as char else c
  }

  /** ASCII `toUpperCase` on one character; every other character is kept. */
  function UpperChar(c: char): char {
    if 'a' <= c <= 'z' then (c as int - 32) as char else c
  }

  /** `s.toLowerCase()` on ASCII: each upper-case letter becomes its lower-case letter, and every other character stays in place. */
  function ToLower(s: string): (r: string)
    ensures |r| == |s|
    ensures forall k :: 0 <= k < |r| ==> !('A' <= r[k] <= 'Z')
    ensures forall k :: 0 <= k < |s| && 'A' <= s[k] <= 'Z' ==> r[k] as int == s[k] as int + 32
    ensures forall k :: 0 <= k < |s| && !('A' <= s[k] <= 'Z') ==> r[k] == s[k]
  {
    seq(|s|, k requires 0 <= k < |s| => LowerChar(s[k]))
  }

  /** `s.toUpperCase()` on ASCII: each lower-case letter becomes its upper-case letter, and every other character stays in place. */
  function ToUpper(s: string): (r: string)
    ensures |r| == |s|
    ensures forall k :: 0 <= k < |r| ==> !('a' <= r[k] <= 'z')
    ensures forall k :: 0 <= k < |s| && 'a' <= s[k] <= 'z' ==> r[k] as int == s[k] as int - 32
    ensures forall k :: 0 <= k < |s| && !('a' <= s[k] <= 'z') ==> r[k] == s[k]
  {
    seq(|s|, k requires 0 <= k < |s| => UpperChar(s[k]))
  }

  /** Case mapping changes letters only: a non-letter is in the result exactly when it is in the input. */
  lemma CaseMappingKeepsNonLetters(s: string, c: char)
    requires !('a' <= c <= 'z') && !('A' <= c <= 'Z')
    ensures c in ToLower(s) <==> c in s
    ensures c in ToUpper(s) <==> c in s
  {
    if c in ToLower(s) {
      var k :| 0 <= k < |s| && ToLower(s)[k] == c;
      assert s[k] == c;
    }
    if c in ToUpper(s) {
      var k :| 0 <= k < |s| && ToUpper(s)[k] == c;
      assert s[k] == c;
    }
    if c in s {
      var k :| 0 <= k < |s| && s[k] == c;
      assert ToLower(s)[k] == c && ToUpper(s)[k] == c;
    }
  }

  /**
   * `s.split(sep)[0]`: the text before the first character that `stop` accepts, or all of `s`
   * when there is none.
   */
  function TakeUntil(s: string, stop: char -> bool): (r: string)
    ensures |r| <= |s| && r == s[..|r|]
    ensures forall k :: 0 <= k < |r| ==> !stop(r[k])
    ensures |r| < |s| ==> stop(s[|r|])
  {
    if s == [] || stop(s[0]) then [] else [s[0]] + TakeUntil(s[1..], stop)
  }

  /** The three contracts of TakeUntil fix its result: any prefix with those properties is it. */
  lemma TakeUntilUnique(s: string, stop: char -> bool, n: nat)
    requires n <= |s|
    requires forall k :: 0 <= k < n ==> !stop(s[k])
    requires n < |s| ==> stop(s[n])
    ensures TakeUntil(s, stop) == s[..n]
  {
  }

  /** Text cut at a stop character that follows a stretch with none: the stretch. */
  lemma TakeUntilStops(a: string, b: string, stop: char -> bool)
    requires forall k :: 0 <= k < |a| ==> !stop(a[k])
    requires b != [] && stop(b[0])
    ensures TakeUntil(a + b, stop) == a
  {
    var s := a + b;
    assert s[..|a|] == a;
    assert forall k :: 0 <= k < |a| ==> s[k] == a[k];
    TakeUntilUnique(s, stop, |a|);
  }

  /** `s.replace(/\n/g, '<br>')`: every line feed becomes a `<br>` tag. */
  function ReplaceNewlines(s: string): (r: string)
    ensures '\n' !in r
  {
    if s == [] then [] else (if s[0] == '\n' then "<br>" else [s[0]]) + ReplaceNewlines(s[1..])
  }

  /** The replacement works character by character, so it distributes over concatenation. */
  lemma {:induction false} ReplaceNewlinesAppend(a: string, b: string)
    ensures ReplaceNewlines(a + b) == ReplaceNewlines(a) + ReplaceNewlines(b)
  {
    if a == [] {
      assert a + b == b;
    } else {
      assert (a + b)[0] == a[0] && (a + b)[1..] == a[1..] + b;
      ReplaceNewlinesAppend(a[1..], b);
    }
  }

  /** Text without line feeds is written unchanged. */
  lemma {:induction false} ReplaceNewlinesIdentity(s: string)
    requires '\n' !in s
    ensures ReplaceNewlines(s) == s
  {
    if s != [] {
      assert '\n' !in s[1..];
      ReplaceNewlinesIdentity(s[1..]);
    }
  }

  /** Nothing is written only when there was nothing to write. */
  lemma ReplaceNewlinesEmpty(s: string)
    ensures ReplaceNewlines(s) == "" <==> s == ""
  {
  }

  /** Reads markup back as text: every `<br>` tag becomes a line feed again. */
  function RestoreNewlines(s: string): string {
    if s == [] then []
    else if |s| >= 4 && s[..4] == "<br>" then "\n" + RestoreNewlines(s[4..])
    else [s[0]] + RestoreNewlines(s[1..])
  }

  /** Text holding no `<` is recovered exactly from the markup written for it. */
  lemma {:induction false} RestoreNewlinesInverse(s: string)
    requires '<' !in s
    ensures RestoreNewlines(ReplaceNewlines(s)) == s
  {
    if s != [] {
      var rest := ReplaceNewlines(s[1..]);
      assert '<' !in s[1..];
      RestoreNewlinesInverse(s[1..]);
      if s[0] == '\n' {
        var m := "<br>" + rest;
        assert m[..4] == "<br>" && m[4..] == rest;
        assert s == "\n" + s[1..];
      } else {
        var m := [s[0]] + rest;
        assert m[0] == s[0] && m[1..] == rest;
        assert s == [s[0]] + s[1..];
      }
    }
  }
}
