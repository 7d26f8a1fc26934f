/**
 * The field resolver of content.js: which element is the compose window, whose address is the
 * recipient's, and which elements receive the subject, the body and the attachment. Each
 * search is a specification function built from the Search combinators; the searches the
 * script runs as loops over a snapshot it does not change are also methods proved equal to them.
 */
module Resolver {
  import opened Wrappers
  import opened Text
  import opened EmailPattern
  import opened Search
  import opened Page
  import opened Selectors

  /** The `querySelectorAll` result of each compose-window selector, in the selectors' order. */
  function ComposeWindowTiers(page: Page): seq<seq<Element>> {
    seq(ComposeWindowCount, i requires 0 <= i < ComposeWindowCount => QueryAll(page, ComposeWindow(i)))
  }

  /** The same for the recipient selectors. */
  function RecipientTiers(page: Page): seq<seq<Element>> {
    seq(RecipientCount, i requires 0 <= i < RecipientCount => QueryAll(page, Recipient(i)))
  }

  /** The same for the subject selectors. */
  function SubjectTiers(page: Page): seq<seq<Element>> {
    seq(SubjectCount, i requires 0 <= i < SubjectCount => QueryAll(page, Subject(i)))
  }

  /** The same for the body selectors. */
  function BodyTiers(page: Page): seq<seq<Element>> {
    seq(BodyCount, i requires 0 <= i < BodyCount => QueryAll(page, Body(i)))
  }

  // ---------------------------------------------------------------- compose window

  predicate HasToSignal(e: Element) { QueryAllWithin(e, ToSignal) != [] }
  predicate HasSubjectSignal(e: Element) { QueryAllWithin(e, SubjectSignal) != [] }
  predicate HasBodySignal(e: Element) { QueryAllWithin(e, BodySignal) != [] }

  /** `composeScore`: one point per signal present. */
  function ComposeScore(hasTo: bool, hasSubject: bool, hasBody: bool): nat {
    (if hasTo then 1 else 0) + (if hasSubject then 1 else 0) + (if hasBody then 1 else 0)
  }

  /** `isComposeWindow`: accepted exactly when at least two of the three signals are present. */
  function IsComposeWindow(e: Element): (r: bool)
    ensures r <==> (HasToSignal(e) && HasSubjectSignal(e)) || (HasToSignal(e) && HasBodySignal(e))
                   || (HasSubjectSignal(e) && HasBodySignal(e))
  {
    ComposeScore(HasToSignal(e), HasSubjectSignal(e), HasBodySignal(e)) >= 2
  }

  /** Adding a signal never turns acceptance into rejection. */
  lemma ComposeWindowMonotone(e: Element, e': Element)
    requires HasToSignal(e) ==> HasToSignal(e')
    requires HasSubjectSignal(e) ==> HasSubjectSignal(e')
    requires HasBodySignal(e) ==> HasBodySignal(e')
    requires IsComposeWindow(e)
    ensures IsComposeWindow(e')
  {
  }

  /** The first container, from rank `from` on, that `e.closest` finds. */
  function FirstContainer(e: Element, from: nat): (r: Option<Element>)
    ensures r.None? <==> forall k :: from <= k < ContainerCount ==> Closest(e, Container(k)).None?
    ensures r.Some? ==> exists k :: from <= k < ContainerCount && Closest(e, Container(k)) == r
                                   && forall b :: from <= b < k ==> Closest(e, Container(b)).None?
    decreases ContainerCount - from
  {
    if from >= ContainerCount then None
    else match Closest(e, Container(from))
      case Some(c) => Some(c)
      case None => FirstContainer(e, from + 1)
  }

  /** The compose container of a compose control: a known container, else a reasonable parent. */
  function ContainerOf(e: Element): Option<Element> {
    match FirstContainer(e, 0)
    case Some(c) => Some(c)
    case None => Closest(e, Parent)
  }

  /** The container of the compose control of rank `k`, when that control is found and has one. */
  function ControlContainer(page: Page, k: nat): Option<Element> {
    match QueryFirst(page, ComposeControl(k))
    case None => None
    case Some(e) => ContainerOf(e)
  }

  /** Method 2 from rank `from` on: the container of the first compose control found that has one. */
  function ViaComposeControl(page: Page, from: nat): (r: Option<Element>)
    ensures r.None? <==> forall k :: from <= k < ComposeControlCount ==> ControlContainer(page, k).None?
  {
    var f := (k: nat) => ControlContainer(page, k);
    assert forall k: nat :: f(k) == ControlContainer(page, k);
    FirstRank(f, from, ComposeControlCount)
  }

  /** Method 2 settles on the container of the first compose control, from rank `from` on, that has one. */
  lemma ViaComposeControlIs(page: Page, from: nat, k: nat)
    requires from <= k < ComposeControlCount && ControlContainer(page, k).Some?
    requires forall b :: from <= b < k ==> ControlContainer(page, b).None?
    ensures ViaComposeControl(page, from) == ControlContainer(page, k)
  {
    FirstRankIs((b: nat) => ControlContainer(page, b), from, ComposeControlCount, k);
  }

  /** One step of method 2: a control with a container decides it, otherwise the next control is tried. */
  lemma ViaComposeControlStep(page: Page, from: nat)
    requires from < ComposeControlCount
    ensures ViaComposeControl(page, from) ==
      if ControlContainer(page, from).Some? then ControlContainer(page, from) else ViaComposeControl(page, from + 1)
  {
    FirstRankStep((k: nat) => ControlContainer(page, k), from, ComposeControlCount);
  }

  /** `findActiveComposeWindow`: a candidate that passes `isComposeWindow`, else a control's container, else the document. */
  function ActiveComposeWindow(page: Page): (w: Scope)
    ensures w.Node? ==> IsComposeWindow(w.element) || ViaComposeControl(page, 0) == Some(w.element)
    ensures w == Document ==> ViaComposeControl(page, 0).None?
  {
    var tiers := ComposeWindowTiers(page);
    match FindInTiers(tiers, IsComposeWindow)
    case Some((i, j)) => Node(tiers[i][j])
    case None =>
      match ViaComposeControl(page, 0)
      case Some(c) => Node(c)
      case None => Document
  }

  /**
   * The document is used only when no candidate passes `isComposeWindow` and no compose control
   * found has a container; otherwise the result is an element that passes the test (the first
   * in selector order, then document order) or a container of a compose control.
   */
  lemma ActiveComposeWindowCases(page: Page)
    ensures var tiers := ComposeWindowTiers(page);
      ActiveComposeWindow(page) == Document <==>
        && (forall a, b :: 0 <= a < |tiers| && 0 <= b < |tiers[a]| ==> !IsComposeWindow(tiers[a][b]))
        && (forall k :: 0 <= k < ComposeControlCount ==>
             QueryFirst(page, ComposeControl(k)).None? || ContainerOf(QueryFirst(page, ComposeControl(k)).value).None?)
    ensures ActiveComposeWindow(page).Node? ==>
      IsComposeWindow(ActiveComposeWindow(page).element) || ViaComposeControl(page, 0) == Some(ActiveComposeWindow(page).element)
  {
  }

  /**
   * Method 1 wins: when a candidate passes `isComposeWindow` with none passing before it, in
   * selector then document order, that candidate is the window, whatever method 2 would find.
   */
  lemma ActiveComposeWindowIs(page: Page, i: nat, j: nat)
    requires var tiers := ComposeWindowTiers(page);
      && i < |tiers| && j < |tiers[i]| && IsComposeWindow(tiers[i][j])
      && forall a, b :: 0 <= a < |tiers| && 0 <= b < |tiers[a]| && Before(a, b, i, j) ==> !IsComposeWindow(tiers[a][b])
    ensures ActiveComposeWindow(page) == Node(QueryAll(page, ComposeWindow(i))[j])
  {
    FindInTiersIs(ComposeWindowTiers(page), IsComposeWindow, i, j);
  }

  /**
   * Method 2 is used only when no candidate passes: then the window is the container of the
   * first compose control that has one.
   */
  lemma ActiveComposeWindowViaControl(page: Page, k: nat)
    requires var tiers := ComposeWindowTiers(page);
      forall a, b :: 0 <= a < |tiers| && 0 <= b < |tiers[a]| ==> !IsComposeWindow(tiers[a][b])
    requires k < ComposeControlCount && ControlContainer(page, k).Some?
    requires forall b :: 0 <= b < k ==> ControlContainer(page, b).None?
    ensures ActiveComposeWindow(page) == Node(ControlContainer(page, k).value)
  {
    ViaComposeControlIs(page, 0, k);
  }

  /** `findActiveComposeWindow`, as the script runs it. It always returns a window: the document is the last resort. */
  method FindActiveComposeWindow(page: Page) returns (w: Scope)
    ensures w == ActiveComposeWindow(page)
  {
    ghost var tiers := ComposeWindowTiers(page);
    for i := 0 to ComposeWindowCount
      invariant forall a, b :: 0 <= a < i && 0 <= b < |tiers[a]| ==> !IsComposeWindow(tiers[a][b])
    {
      var elements := QueryAll(page, ComposeWindow(i));
      for j := 0 to |elements|
        invariant forall b :: 0 <= b < j ==> !IsComposeWindow(elements[b])
      {
        if IsComposeWindow(elements[j]) {
          FindInTiersIs(tiers, IsComposeWindow, i, j);
          return Node(elements[j]);
        }
      }
    }
    var container := FindComposeControlContainer(page);
    if container.Some? {
      return Node(container.value);
    }
    return Document;
  }

  /** Method 2 of `findActiveComposeWindow`: the compose controls in turn, until one has a container. */
  method FindComposeControlContainer(page: Page) returns (container: Option<Element>)
    ensures container == ViaComposeControl(page, 0)
  {
    for i := 0 to ComposeControlCount
      invariant forall b :: 0 <= b < i ==> ControlContainer(page, b).None?
    {
      container := FindControlContainer(page, i);
      if container.Some? {
        ViaComposeControlIs(page, 0, i);
        return;
      }
    }
    return None;
  }

  /** One round of method 2: the compose control of rank `i`, when found, and its container. */
  method FindControlContainer(page: Page, i: nat) returns (container: Option<Element>)
    ensures container == ControlContainer(page, i)
  {
    var element := QueryFirst(page, ComposeControl(i));
    if element.Some? {
      container := FindContainer(element.value);
    } else {
      container := None;
    }
  }

  /** The known containers tried with `closest` in turn, then the parent fallback. */
  method FindContainer(e: Element) returns (container: Option<Element>)
    ensures container == ContainerOf(e)
  {
    for k := 0 to ContainerCount
      invariant FirstContainer(e, 0) == FirstContainer(e, k)
    {
      container := Closest(e, Container(k));
      if container.Some? {
        return;
      }
    }
    return Closest(e, Parent);
  }

  // ---------------------------------------------------------------- recipient

  /** `element.value || element.textContent || element.innerText || email || data-hovercard-id || title || ''`. */
  function CandidateText(e: Element): string {
    Or(e.value, Or(e.textContent, Or(e.innerText, Or(Attribute(e, "email"),
      Or(Attribute(e, "data-hovercard-id"), Or(Attribute(e, "title"), "")))))) 
  }

  /** First tier: the element's candidate text holds an `@`. */
  predicate ShowsAddress(e: Element) { '@' in CandidateText(e) }

  /** `element.textContent || element.innerText || ''`. */
  function VisibleText(e: Element): string {
    Or(e.textContent, Or(e.innerText, ""))
  }

  /** Second tier: a short text (under 200 UTF-16 code units) in which the e-mail pattern matches. */
  predicate ShortTextWithEmail(e: Element) {
    FindEmail(VisibleText(e)).Some? && Utf16Length(VisibleText(e)) < 200
  }

  /** Third tier: an input whose value holds an `@`. */
  predicate InputWithAt(e: Element) { '@' in e.value }

  /** First tier: the trimmed candidate text of the first recipient element, in selector then document order, that shows an `@`. */
  function FirstTierEmail(page: Page): (r: Option<string>)
    ensures r.Some? ==> '@' in r.value
    ensures var tiers := RecipientTiers(page);
      r.None? <==> forall a, b :: 0 <= a < |tiers| && 0 <= b < |tiers[a]| ==> !ShowsAddress(tiers[a][b])
  {
    var tiers := RecipientTiers(page);
    match FindInTiers(tiers, ShowsAddress)
    case Some((i, j)) =>
      TrimKeeps(CandidateText(tiers[i][j]), '@');
      Some(Trim(CandidateText(tiers[i][j])))
    case None => None
  }

  /** The pattern's match in a short text: `None` when the text is too long or holds no match. */
  function ShortTextEmail(e: Element): (r: Option<string>)
    ensures r.Some? ==> '@' in r.value
    ensures r.Some? <==> ShortTextWithEmail(e)
  {
    var text := VisibleText(e);
    var found := FindEmail(text);
    if found.Some? && Utf16Length(text) < 200 then found else None
  }

  /** Second tier: the pattern's match in the first short text, in document order, that has one. */
  function SecondTierEmail(page: Page): (r: Option<string>)
    ensures r.Some? ==> '@' in r.value
    ensures var all := QueryAll(page, AnyElement);
      r.None? <==> forall k :: 0 <= k < |all| ==> !ShortTextWithEmail(all[k])
  {
    FirstSome(QueryAll(page, AnyElement), ShortTextEmail, 0)
  }

  /** The second tier settles on the first short text in which the pattern matches, and yields that match. */
  lemma SecondTierFrom(page: Page, k: nat)
    requires var all := QueryAll(page, AnyElement);
      && k < |all| && ShortTextWithEmail(all[k])
      && forall b :: 0 <= b < k ==> !ShortTextWithEmail(all[b])
    ensures SecondTierEmail(page) == FindEmail(VisibleText(QueryAll(page, AnyElement)[k]))
  {
    var all := QueryAll(page, AnyElement);
    FirstSomeIs(all, ShortTextEmail, 0, k);
  }

  /** The third tier settles on the value of the first input holding an `@`. */
  lemma ThirdTierFrom(page: Page, k: nat)
    requires var inputs := QueryAll(page, AnyInput);
      && k < |inputs| && InputWithAt(inputs[k])
      && forall b :: 0 <= b < k ==> !InputWithAt(inputs[b])
    ensures ThirdTierEmail(page) == Some(QueryAll(page, AnyInput)[k].value)
  {
    FindFirstIs(QueryAll(page, AnyInput), InputWithAt, k);
  }

  /** Third tier: the value of the first input holding an `@`. */
  function ThirdTierEmail(page: Page): (r: Option<string>)
    ensures r.Some? ==> '@' in r.value
    ensures var inputs := QueryAll(page, AnyInput);
      r.None? <==> forall k :: 0 <= k < |inputs| ==> !InputWithAt(inputs[k])
  {
    var inputs := QueryAll(page, AnyInput);
    match FindFirst(inputs, InputWithAt)
    case Some(k) => Some(inputs[k].value)
    case None => None
  }

  /** The raw address `extractRecipientName` settles on: the first tier's, only if there is none the second's, only then the third's, else "". */
  function FoundEmail(page: Page): (r: string)
    ensures r == "" || '@' in r
    ensures r == "" <==> FirstTierEmail(page).None? && SecondTierEmail(page).None? && ThirdTierEmail(page).None?
  {
    match FirstTierEmail(page)
    case Some(e) => e
    case None =>
      match SecondTierEmail(page)
      case Some(e) => e
      case None =>
        match ThirdTierEmail(page)
        case Some(e) => e
        case None => ""
  }

  /** `/[._-]/`, the separators of the local part. */
  predicate IsNameSeparator(c: char) { c == '.' || c == '_' || c == '-' }

  predicate IsAt(c: char) { c == '@' }

  /** The cleaned address: the pattern's match when there is one, otherwise the raw text. */
  function CleanEmail(raw: string): (r: string)
    ensures Includes(raw, r)
    ensures '@' in raw ==> '@' in r
  {
    match FindEmail(raw)
    case Some(m) =>
      var (i, e) := FirstMatch(raw).value;
      assert IncludesAt(raw, m, i);
      m
    case None =>
      assert IncludesAt(raw, raw, 0);
      raw
  }

  /** Cleaning keeps the leftmost address-shaped span of the raw text, the longest from its start. */
  lemma CleanEmailIs(raw: string, i: nat, e: nat)
    requires EmailSpan(raw, i, e)
    requires forall e' :: EmailSpan(raw, i, e') ==> e' <= e
    requires forall i', e' :: EmailSpan(raw, i', e') ==> i <= i'
    ensures i <= e <= |raw| && CleanEmail(raw) == raw[i..e]
  {
    MatchIsLeftmostLongest(raw);
    AtInSpan(raw, i, e);
    var (i0, e0) := FirstMatch(raw).value;
    assert i0 == i && e0 == e;
  }

  /** Raw text in which no span is address-shaped is kept as it is. */
  lemma CleanEmailWithoutMatch(raw: string)
    requires forall i, e :: !EmailSpan(raw, i, e)
    ensures CleanEmail(raw) == raw
  {
    MatchIsLeftmostLongest(raw);
  }

  /** `firstName.charAt(0).toUpperCase() + firstName.slice(1).toLowerCase()`. */
  function Capitalize(w: string): (r: string)
    ensures |r| == |w|
    ensures |w| > 0 ==> r[0] == UpperChar(w[0])
    ensures forall k :: 0 < k < |w| ==> r[k] == LowerChar(w[k])
  {
    if w == [] then [] else ToUpper(w[..1]) + ToLower(w[1..])
  }

  /** A word written in lower-case letters is capitalised by upper-casing its first letter alone. */
  lemma CapitalizeLowerWord(w: string)
    requires w != [] && forall k :: 0 <= k < |w| ==> 'a' <= w[k] <= 'z'
    ensures Capitalize(w) == [UpperChar(w[0])] + w[1..]
  {
    var r := Capitalize(w);
    var t := [UpperChar(w[0])] + w[1..];
    forall k | 0 <= k < |r| ensures r[k] == t[k] {
      if k > 0 {
        assert r[k] == LowerChar(w[k]) == w[k] == t[k];
      }
    }
    assert r == t;
  }

  /** The first `.`/`_`/`-`-separated token of the text before the first `@` of the cleaned address. */
  function FirstNameToken(raw: string): string {
    TakeUntil(TakeUntil(CleanEmail(raw), IsAt), IsNameSeparator)
  }

  /** The name the script derives from a raw address. */
  function NameFromEmail(raw: string): (r: string)
    ensures forall k :: 0 <= k < |r| ==> !IsAt(r[k]) && !IsNameSeparator(r[k])
    ensures |r| == |FirstNameToken(raw)|
    ensures |r| > 0 ==> r[0] == UpperChar(FirstNameToken(raw)[0])
    ensures forall k :: 0 < k < |r| ==> r[k] == LowerChar(FirstNameToken(raw)[k])
  {
    FirstNameTokenIsPrefix(raw);
    Capitalize(FirstNameToken(raw))
  }

  /** `extractRecipientName`: null when no tier yields an `@`, else the derived name. */
  function RecipientName(page: Page): (r: Option<string>)
    ensures r.None? <==> FoundEmail(page) == ""
    ensures r.Some? ==> forall k :: 0 <= k < |r.value| ==> !IsAt(r.value[k]) && !IsNameSeparator(r.value[k])
  {
    var email := FoundEmail(page);
    if '@' in email then Some(NameFromEmail(email)) else None
  }

  /** The token is a prefix of the cleaned address holding no `@` and no separator, and it stops only at one of those. */
  lemma FirstNameTokenIsPrefix(raw: string)
    ensures var t := FirstNameToken(raw); var c := CleanEmail(raw);
      && |t| <= |c| && t == c[..|t|]
      && (forall k :: 0 <= k < |t| ==> !IsAt(t[k]) && !IsNameSeparator(t[k]))
      && (|t| < |c| ==> IsAt(c[|t|]) || IsNameSeparator(c[|t|]))
  {
    var c := CleanEmail(raw);
    var l := TakeUntil(c, IsAt);
    var t := TakeUntil(l, IsNameSeparator);
    assert forall k :: 0 <= k < |t| ==> t[k] == l[k];
  }

  /** The derived name never contains `@`, `.`, `_` or `-`. */
  lemma NameHasNoSeparators(raw: string)
    ensures var n := NameFromEmail(raw); '@' !in n && '.' !in n && '_' !in n && '-' !in n
  {
    var t := FirstNameToken(raw);
    FirstNameTokenIsPrefix(raw);
    var n := Capitalize(t);
    forall c | c in n ensures c != '@' && c != '.' && c != '_' && c != '-' {
      var k :| 0 <= k < |n| && n[k] == c;
      assert !IsAt(t[k]) && !IsNameSeparator(t[k]);
    }
  }

  /**
   * For a well-formed address the name depends on the local part alone: it is the local part's
   * text before its first `.`, `_` or `-`, capitalised.
   */
  lemma NameOfAddress(local: string, domain: string, tld: string)
    requires local != [] && forall k :: 0 <= k < |local| ==> IsAddressChar(local[k])
    requires domain != [] && forall k :: 0 <= k < |domain| ==> IsAddressChar(domain[k])
    requires tld != [] && forall k :: 0 <= k < |tld| ==> IsWordChar(tld[k])
    ensures NameFromEmail(local + (['@'] + (domain + (['.'] + tld)))) == Capitalize(TakeUntil(local, IsNameSeparator))
  {
    var rest := ['@'] + (domain + (['.'] + tld));
    AssembledAddressMatches(local, domain, tld);
    assert forall k :: 0 <= k < |local| ==> !IsAt(local[k]);
    TakeUntilStops(local, rest, IsAt);
    NameOfCleanAddress(local + rest, local);
  }

  /** An address that cleans to itself and whose text before the `@` is `local` is named after `local`. */
  lemma NameOfCleanAddress(s: string, local: string)
    requires FindEmail(s) == Some(s)
    requires TakeUntil(s, IsAt) == local
    ensures NameFromEmail(s) == Capitalize(TakeUntil(local, IsNameSeparator))
  {
  }

  /** "jane.doe@example.com" greets "Jane". */
  lemma NameOfDottedAddress()
    ensures NameFromEmail("jane.doe@example.com") == "Jane"
  {
    var local, domain, tld := "jane.doe", "example", "com";
    assert "jane.doe@example.com" == local + (['@'] + (domain + (['.'] + tld)));
    NameOfAddress(local, domain, tld);
    DottedLocalPartName();
  }

  /** The local part "jane.doe" gives the name "Jane". */
  lemma DottedLocalPartName()
    ensures Capitalize(TakeUntil("jane.doe", IsNameSeparator)) == "Jane"
  {
    var local := "jane.doe";
    assert 'a' <= local[0] <= 'z' && 'a' <= local[1] <= 'z' && 'a' <= local[2] <= 'z' && 'a' <= local[3] <= 'z';
    LowerTokenName(local, 4);
    assert local[1..4] == "ane";
  }

  /** A local part that starts with lower-case letters up to a separator is named after those letters, the first upper-cased. */
  lemma LowerTokenName(local: string, n: nat)
    requires 0 < n < |local| && IsNameSeparator(local[n])
    requires forall k :: 0 <= k < n ==> 'a' <= local[k] <= 'z'
    ensures Capitalize(TakeUntil(local, IsNameSeparator)) == [UpperChar(local[0])] + local[1..n]
  {
    TakeUntilUnique(local, IsNameSeparator, n);
    CapitalizeLowerWord(local[..n]);
    assert local[..n][1..] == local[1..n];
  }

  /** "bob_smith99@x.org" greets "Bob": an underscore ends the name as a dot does. */
  lemma NameOfUnderscoredAddress()
    ensures NameFromEmail("bob_smith99@x.org") == "Bob"
  {
    var local, domain, tld := "bob_smith99", "x", "org";
    assert "bob_smith99@x.org" == local + (['@'] + (domain + (['.'] + tld)));
    NameOfAddress(local, domain, tld);
    UnderscoredLocalPartName();
  }

  /** The local part "bob_smith99" gives the name "Bob". */
  lemma UnderscoredLocalPartName()
    ensures Capitalize(TakeUntil("bob_smith99", IsNameSeparator)) == "Bob"
  {
    var local := "bob_smith99";
    assert 'a' <= local[0] <= 'z' && 'a' <= local[1] <= 'z' && 'a' <= local[2] <= 'z';
    LowerTokenName(local, 3);
    assert local[1..3] == "ob";
  }

  /**
   * The name is absent exactly when no tier yields an `@`: no first-tier element shows one, no
   * short text matches the pattern, and no input value holds one.
   */
  lemma RecipientAbsent(page: Page)
    ensures var tiers := RecipientTiers(page);
      var all := QueryAll(page, AnyElement);
      var inputs := QueryAll(page, AnyInput);
      RecipientName(page).None? <==>
        && (forall a, b :: 0 <= a < |tiers| && 0 <= b < |tiers[a]| ==> !ShowsAddress(tiers[a][b]))
        && (forall k :: 0 <= k < |all| ==> !ShortTextWithEmail(all[k]))
        && (forall k :: 0 <= k < |inputs| ==> !InputWithAt(inputs[k]))
  {
    assert RecipientName(page).None? <==> FoundEmail(page) == "";
  }

  /** The first tier decides whenever one of its elements shows an `@`: the address is that text, trimmed. */
  lemma RecipientFromFirstTier(page: Page, i: nat, j: nat)
    requires var tiers := RecipientTiers(page);
      && i < |tiers| && j < |tiers[i]| && ShowsAddress(tiers[i][j])
      && forall a, b :: 0 <= a < |tiers| && 0 <= b < |tiers[a]| && Before(a, b, i, j) ==> !ShowsAddress(tiers[a][b])
    ensures var e := QueryAll(page, Recipient(i))[j];
      RecipientName(page) == Some(NameFromEmail(Trim(CandidateText(e))))
  {
    var tiers := RecipientTiers(page);
    FindInTiersIs(tiers, ShowsAddress, i, j);
    TrimKeeps(CandidateText(tiers[i][j]), '@');
  }

  /**
   * Without a first-tier address the second tier decides, before the third is looked at: the
   * name comes from the match in the first short text that has one.
   */
  lemma RecipientFromSecondTier(page: Page, k: nat)
    requires var tiers := RecipientTiers(page);
      forall a, b :: 0 <= a < |tiers| && 0 <= b < |tiers[a]| ==> !ShowsAddress(tiers[a][b])
    requires var all := QueryAll(page, AnyElement);
      && k < |all| && ShortTextWithEmail(all[k])
      && forall b :: 0 <= b < k ==> !ShortTextWithEmail(all[b])
    ensures var e := QueryAll(page, AnyElement)[k];
      FindEmail(VisibleText(e)).Some? && RecipientName(page) == Some(NameFromEmail(FindEmail(VisibleText(e)).value))
  {
    SecondTierFrom(page, k);
  }

  /** Only when the first two tiers find nothing does the third decide: the name comes from the first input value holding an `@`. */
  lemma RecipientFromThirdTier(page: Page, k: nat)
    requires var tiers := RecipientTiers(page);
      forall a, b :: 0 <= a < |tiers| && 0 <= b < |tiers[a]| ==> !ShowsAddress(tiers[a][b])
    requires var all := QueryAll(page, AnyElement);
      forall b :: 0 <= b < |all| ==> !ShortTextWithEmail(all[b])
    requires var inputs := QueryAll(page, AnyInput);
      && k < |inputs| && InputWithAt(inputs[k])
      && forall b :: 0 <= b < k ==> !InputWithAt(inputs[b])
    ensures RecipientName(page) == Some(NameFromEmail(QueryAll(page, AnyInput)[k].value))
  {
    ThirdTierFrom(page, k);
  }

  /** The first loop of `extractRecipientName`: "" when no recipient element shows an `@`. */
  method SearchRecipientElements(page: Page) returns (email: string)
    ensures FirstTierEmail(page) == (if email == "" then None else Some(email))
    ensures email == "" || '@' in email
  {
    ghost var tiers := RecipientTiers(page);
    for i := 0 to RecipientCount
      invariant forall a, b :: 0 <= a < i && 0 <= b < |tiers[a]| ==> !ShowsAddress(tiers[a][b])
    {
      var elements := QueryAll(page, Recipient(i));
      var j := FirstShowingAddress(elements);
      if j < |elements| {
        email := Trim(CandidateText(elements[j]));
        assert FirstTierEmail(page) == Some(email) by {
          FindInTiersIs(tiers, ShowsAddress, i, j);
        }
        return;
      }
    }
    return "";
  }

  /** The elements of one recipient selector in turn: the index of the first whose candidate text holds an `@`, or their number. */
  method FirstShowingAddress(elements: seq<Element>) returns (j: nat)
    ensures j <= |elements| && (j < |elements| ==> ShowsAddress(elements[j]))
    ensures forall b :: 0 <= b < j ==> !ShowsAddress(elements[b])
  {
    j := 0;
    while j < |elements|
      invariant j <= |elements|
      invariant forall b :: 0 <= b < j ==> !ShowsAddress(elements[b])
    {
      var value := CandidateText(elements[j]);
      if '@' in value {
        return;
      }
      j := j + 1;
    }
  }

  /** The second loop: the match in the first short text that has one, or "". */
  method SearchShortTexts(page: Page) returns (email: string)
    ensures SecondTierEmail(page) == (if email == "" then None else Some(email))
    ensures email == "" || '@' in email
  {
    email := "";
    var all := QueryAll(page, AnyElement);
    for k := 0 to |all|
      invariant email == ""
      invariant SecondTierEmail(page) == FirstSome(all, ShortTextEmail, k)
    {
      var text := VisibleText(all[k]);
      var emailMatch := FindEmail(text);
      FirstSomeStep(all, ShortTextEmail, k);
      if emailMatch.Some? && Utf16Length(text) < 200 {
        email := emailMatch.value;
        return;
      }
    }
  }

  /** The third loop: the value of the first input holding an `@`, or "". */
  method SearchInputValues(page: Page) returns (email: string)
    ensures ThirdTierEmail(page) == (if email == "" then None else Some(email))
    ensures email == "" || '@' in email
  {
    email := "";
    var inputs := QueryAll(page, AnyInput);
    for k := 0 to |inputs|
      invariant email == ""
      invariant forall b :: 0 <= b < k ==> !InputWithAt(inputs[b])
    {
      var value := inputs[k].value;
      if '@' in value {
        email := value;
        FindFirstIs(inputs, InputWithAt, k);
        return;
      }
    }
  }

  /** `extractRecipientName`, as the script runs it: each tier runs only while `email` holds no `@`. */
  method ExtractRecipientName(page: Page) returns (name: Option<string>)
    ensures name == RecipientName(page)
  {
    var email := SearchRecipientElements(page);
    if '@' !in email {
      email := SearchShortTexts(page);
    }
    if '@' !in email {
      email := SearchInputValues(page);
    }
    assert email == FoundEmail(page);
    if email == "" || '@' !in email {
      return None;
    }
    var cleaned := email;
    var emailMatch := FindEmail(email);
    if emailMatch.Some? {
      cleaned := emailMatch.value;
    }
    var emailPart := TakeUntil(cleaned, IsAt);
    var firstName := TakeUntil(emailPart, IsNameSeparator);
    return Some(Capitalize(firstName));
  }

  // ---------------------------------------------------------------- subject and body fields

  /** `rect.width > 0 && rect.height > 0`. */
  predicate IsVisible(e: Element) { e.width > 0 && e.height > 0 }

  /** `aria-label || placeholder || ''`: the placeholder is read only when the label is empty. */
  function SubjectLabel(e: Element): string {
    Or(Attribute(e, "aria-label"), Or(Attribute(e, "placeholder"), ""))
  }

  predicate LabelMentionsSubject(e: Element) {
    Includes(ToLower(SubjectLabel(e)), "subject")
  }

  /** The subject field: the first visible candidate, else the first text input or editable labelled "subject" in any case. */
  function SubjectField(page: Page): (r: Option<Element>)
    ensures r.Some? ==> IsVisible(r.value) || LabelMentionsSubject(r.value)
  {
    var tiers := SubjectTiers(page);
    match FindInTiers(tiers, IsVisible)
    case Some((i, j)) => Some(tiers[i][j])
    case None => LabelledSubject(page)
  }

  /** The subject fallback: the first text input or editable whose label mentions "subject" in any case. */
  function LabelledSubject(page: Page): (r: Option<Element>)
    ensures var fallback := QueryAll(page, SubjectFallback);
      r.None? <==> forall k :: 0 <= k < |fallback| ==> !LabelMentionsSubject(fallback[k])
    ensures var fallback := QueryAll(page, SubjectFallback);
      r.Some? ==> exists k :: 0 <= k < |fallback| && fallback[k] == r.value && LabelMentionsSubject(fallback[k])
                              && forall b :: 0 <= b < k ==> !LabelMentionsSubject(fallback[b])
  {
    var fallback := QueryAll(page, SubjectFallback);
    match FindFirst(fallback, LabelMentionsSubject)
    case Some(k) => Some(fallback[k])
    case None => None
  }

  /** The first visible candidate, in selector then document order, is the subject field. */
  lemma SubjectFieldIs(page: Page, i: nat, j: nat)
    requires var tiers := SubjectTiers(page);
      && i < |tiers| && j < |tiers[i]| && IsVisible(tiers[i][j])
      && forall a, b :: 0 <= a < |tiers| && 0 <= b < |tiers[a]| && Before(a, b, i, j) ==> !IsVisible(tiers[a][b])
    ensures SubjectField(page) == Some(QueryAll(page, Subject(i))[j])
  {
    FindInTiersIs(SubjectTiers(page), IsVisible, i, j);
  }

  /** The labelled fallback is used only when no candidate is visible. */
  lemma SubjectFieldFallback(page: Page)
    requires var tiers := SubjectTiers(page);
      forall a, b :: 0 <= a < |tiers| && 0 <= b < |tiers[a]| ==> !IsVisible(tiers[a][b])
    ensures SubjectField(page) == LabelledSubject(page)
  {
  }

  /** There is no subject field exactly when no candidate is visible and no fallback is labelled "subject". */
  lemma SubjectFieldAbsent(page: Page)
    ensures var tiers := SubjectTiers(page);
      var fallback := QueryAll(page, SubjectFallback);
      SubjectField(page).None? <==>
        && (forall a, b :: 0 <= a < |tiers| && 0 <= b < |tiers[a]| ==> !IsVisible(tiers[a][b]))
        && (forall k :: 0 <= k < |fallback| ==> !LabelMentionsSubject(fallback[k]))
  {
  }

  /** `rect.width > 200 && rect.height > 50 && element.isContentEditable`. */
  predicate LooksLikeBody(e: Element) {
    e.width > 200 && e.height > 50 && e.isContentEditable
  }

  /** The smallest area, exclusive, the size heuristic accepts. */
  const MinBodyArea: nat := 10000

  /** The body field: the first candidate that looks like a body, else the editable with the strictly largest area above 10000. */
  function BodyField(page: Page): (r: Option<Element>)
    ensures r.Some? ==> LooksLikeBody(r.value) || Area(r.value) > MinBodyArea
  {
    var tiers := BodyTiers(page);
    match FindInTiers(tiers, LooksLikeBody)
    case Some((i, j)) => Some(tiers[i][j])
    case None =>
      var editables := QueryAll(page, Editable);
      match ArgMaxAbove(editables, Area, MinBodyArea)
      case Some(k) => Some(editables[k])
      case None => None
  }

  /** The first candidate that looks like a body, in selector then document order, is the body field, whatever the sizes of the editables. */
  lemma BodyFieldIs(page: Page, i: nat, j: nat)
    requires var tiers := BodyTiers(page);
      && i < |tiers| && j < |tiers[i]| && LooksLikeBody(tiers[i][j])
      && forall a, b :: 0 <= a < |tiers| && 0 <= b < |tiers[a]| && Before(a, b, i, j) ==> !LooksLikeBody(tiers[a][b])
    ensures BodyField(page) == Some(QueryAll(page, Body(i))[j])
  {
    FindInTiersIs(BodyTiers(page), LooksLikeBody, i, j);
  }

  /**
   * When no candidate looks like a body, the body field is an editable of area above 10000 that
   * no other editable exceeds and that every earlier one falls short of; there is none exactly
   * when every editable has area at most 10000.
   */
  lemma BodyFieldBySize(page: Page)
    requires var tiers := BodyTiers(page);
      forall a, b :: 0 <= a < |tiers| && 0 <= b < |tiers[a]| ==> !LooksLikeBody(tiers[a][b])
    ensures var es := QueryAll(page, Editable);
      match BodyField(page)
      case None => forall k :: 0 <= k < |es| ==> Area(es[k]) <= MinBodyArea
      case Some(f) =>
        exists m :: (&& 0 <= m < |es| && es[m] == f && Area(f) > MinBodyArea
                     && (forall k :: 0 <= k < |es| ==> Area(es[k]) <= Area(f))
                     && (forall k :: 0 <= k < m ==> Area(es[k]) < Area(f)))
  {
    var es := QueryAll(page, Editable);
    match ArgMaxAbove(es, Area, MinBodyArea)
    case Some(m) => assert es[m] == BodyField(page).value;
    case None =>
  }

  /** The search half of `injectSubject`: the candidates in selector then document order, then the labelled fallback. */
  method FindSubjectField(page: Page) returns (field: Option<Element>)
    ensures field == SubjectField(page)
  {
    ghost var tiers := SubjectTiers(page);
    for i := 0 to SubjectCount
      invariant forall a, b :: 0 <= a < i && 0 <= b < |tiers[a]| ==> !IsVisible(tiers[a][b])
    {
      var elements := QueryAll(page, Subject(i));
      for j := 0 to |elements|
        invariant forall b :: 0 <= b < j ==> !IsVisible(elements[b])
      {
        if elements[j].width > 0 && elements[j].height > 0 {
          FindInTiersIs(tiers, IsVisible, i, j);
          return Some(elements[j]);
        }
      }
    }
    field := FindLabelledSubject(page);
  }

  /** The fallback loop of the subject search: each text input or editable's label, lower-cased, searched for "subject". */
  method FindLabelledSubject(page: Page) returns (field: Option<Element>)
    ensures field == LabelledSubject(page)
  {
    var allInputs := QueryAll(page, SubjectFallback);
    for k := 0 to |allInputs|
      invariant forall b :: 0 <= b < k ==> !LabelMentionsSubject(allInputs[b])
    {
      var labelText := Or(Attribute(allInputs[k], "aria-label"), Or(Attribute(allInputs[k], "placeholder"), ""));
      if Includes(ToLower(labelText), "subject") {
        FindFirstIs(allInputs, LabelMentionsSubject, k);
        return Some(allInputs[k]);
      }
    }
    return None;
  }

  /** The search half of `injectBody`: the candidates that look like a body, then the largest editable by a running maximum. */
  method FindBodyField(page: Page) returns (field: Option<Element>)
    ensures field == BodyField(page)
  {
    ghost var tiers := BodyTiers(page);
    for i := 0 to BodyCount
      invariant forall a, b :: 0 <= a < i && 0 <= b < |tiers[a]| ==> !LooksLikeBody(tiers[a][b])
    {
      var elements := QueryAll(page, Body(i));
      for j := 0 to |elements|
        invariant forall b :: 0 <= b < j ==> !LooksLikeBody(elements[b])
      {
        var e := elements[j];
        if e.width > 200 && e.height > 50 && e.isContentEditable {
          FindInTiersIs(tiers, LooksLikeBody, i, j);
          return Some(e);
        }
      }
    }
    var contentEditables := QueryAll(page, Editable);
    var largestArea: nat := 0;
    field := None;
    for k := 0 to |contentEditables|
      invariant ArgMaxAbove(contentEditables[..k], Area, MinBodyArea).None? <==> field.None?
      invariant field.Some? ==> var m := ArgMaxAbove(contentEditables[..k], Area, MinBodyArea).value;
        field.value == contentEditables[m] && largestArea == Area(contentEditables[m])
      invariant field.None? ==> largestArea == 0
    {
      var area := contentEditables[k].width * contentEditables[k].height;
      ArgMaxAboveStep(contentEditables, Area, MinBodyArea, k);
      if area > largestArea && area > MinBodyArea {
        largestArea := area;
        field := Some(contentEditables[k]);
      }
    }
    assert contentEditables[..|contentEditables|] == contentEditables;
  }

  // ---------------------------------------------------------------- attach control

  /** How the sample file is delivered: assigned to a file input, or dropped on a target. */
  datatype Delivery = SetFiles(input: Element) | DropOn(target: Target)

  /** The first attach candidate, from rank `from` on, that `scope.querySelector` finds. */
  function FirstAttach(page: Page, scope: Scope, from: nat): (r: Option<Element>)
    ensures r.None? <==> forall k :: from <= k < AttachCount ==> QueryIn(page, scope, Attach(k)).None?
    ensures r.Some? ==> exists k :: from <= k < AttachCount && QueryIn(page, scope, Attach(k)) == r
                                   && forall b :: from <= b < k ==> QueryIn(page, scope, Attach(b)).None?
    decreases AttachCount - from
  {
    if from >= AttachCount then None
    else match QueryIn(page, scope, Attach(from))
      case Some(e) => Some(e)
      case None => FirstAttach(page, scope, from + 1)
  }

  /** The attach control: the first attach candidate in the compose window, else one anywhere in the document. */
  function AttachControl(page: Page, scope: Scope): (r: Option<Element>)
    ensures r.None? <==> (forall k :: 0 <= k < AttachCount ==> QueryIn(page, scope, Attach(k)).None?)
                         && QueryFirst(page, AttachFallback).None?
  {
    match FirstAttach(page, scope, 0)
    case Some(c) => Some(c)
    case None => QueryFirst(page, AttachFallback)
  }

  /** The first attach candidate the window holds, in selector order, is the attach control. */
  lemma AttachControlIs(page: Page, scope: Scope, k: nat)
    requires k < AttachCount && QueryIn(page, scope, Attach(k)).Some?
    requires forall b :: 0 <= b < k ==> QueryIn(page, scope, Attach(b)).None?
    ensures AttachControl(page, scope) == QueryIn(page, scope, Attach(k))
  {
    var r := FirstAttach(page, scope, 0);
    var k' :| 0 <= k' < AttachCount && QueryIn(page, scope, Attach(k')) == r
              && forall b :: 0 <= b < k' ==> QueryIn(page, scope, Attach(b)).None?;
    assert k' == k;
  }

  /** The document-wide fallback is used only when the window holds no attach candidate. */
  lemma AttachControlFallback(page: Page, scope: Scope)
    requires forall k :: 0 <= k < AttachCount ==> QueryIn(page, scope, Attach(k)).None?
    ensures AttachControl(page, scope) == QueryFirst(page, AttachFallback)
  {
  }

  /** A file input in the compose window, else one anywhere in the document. */
  function FileInputFor(page: Page, scope: Scope): Option<Element> {
    match QueryIn(page, scope, FileInput)
    case Some(f) => Some(f)
    case None => QueryFirst(page, FileInput)
  }

  /** The control `attachFile` ends with: a control that is not a file input gives way to a file input when there is one. */
  function ChosenControl(page: Page, scope: Scope, control: Element): (r: Element)
    ensures r == control || Some(r) == FileInputFor(page, scope)
    ensures control.inputType == "file" || FileInputFor(page, scope).None? ==> r == control
  {
    if control.inputType != "file" && FileInputFor(page, scope).Some? then FileInputFor(page, scope).value else control
  }

  /** The delivery `attachFile` attempts, or None when it finds no attach control. */
  function AttachPlan(page: Page, scope: Scope): (r: Option<Delivery>)
    ensures r.Some? <==> AttachControl(page, scope).Some?
    ensures r.Some? && r.value.SetFiles? ==> r.value.input.inputType == "file"
    ensures r.Some? && r.value.DropOn? ==> ChosenControl(page, scope, AttachControl(page, scope).value).inputType != "file"
    ensures r.Some? ==> (r.value.SetFiles? <==> ChosenControl(page, scope, AttachControl(page, scope).value).inputType == "file")
    ensures r.Some? && r.value.SetFiles? ==> r.value.input == ChosenControl(page, scope, AttachControl(page, scope).value)
    ensures r.Some? && r.value.DropOn? ==>
      r.value.target == (match QueryIn(page, scope, DropArea) case Some(a) => ElementTarget(a.id) case None => ScopeTarget(scope))
  {
    match AttachControl(page, scope)
    case None => None
    case Some(control) =>
      var chosen := ChosenControl(page, scope, control);
      if chosen.inputType == "file" then Some(SetFiles(chosen))
      else
        var area := QueryIn(page, scope, DropArea);
        Some(DropOn(if area.Some? then ElementTarget(area.value.id) else ScopeTarget(scope)))
  }

  /** Every element `input[type="file"]` selects, in the window or the document, has type "file". */
  ghost predicate FileInputsAreFiles(page: Page, scope: Scope) {
    (forall f :: f in QueryAll(page, FileInput) ==> f.inputType == "file") &&
    (scope.Node? ==> forall f :: f in QueryAllWithin(scope.element, FileInput) ==> f.inputType == "file")
  }

  /**
   * On a page whose file inputs are what their selector says, a file input found in the window
   * or the document always takes the file; a drop happens only when the control is not a file
   * input and there is no file input anywhere; and nothing is delivered without an attach control.
   */
  lemma AttachPrefersFileInput(page: Page, scope: Scope)
    requires FileInputsAreFiles(page, scope)
    ensures AttachPlan(page, scope).Some? <==> AttachControl(page, scope).Some?
    ensures AttachPlan(page, scope).Some? && AttachPlan(page, scope).value.SetFiles? ==>
      AttachPlan(page, scope).value.input.inputType == "file"
    ensures AttachPlan(page, scope).Some? && AttachPlan(page, scope).value.DropOn? <==>
      AttachControl(page, scope).Some? && AttachControl(page, scope).value.inputType != "file" && FileInputFor(page, scope).None?
  {
    var f := FileInputFor(page, scope);
    if f.Some? {
      var g := QueryIn(page, scope, FileInput);
      if g.Some? {
        match scope
        case Document => assert g.value == QueryAll(page, FileInput)[0];
        case Node(e) => assert g.value == QueryAllWithin(e, FileInput)[0];
      } else {
        assert f.value == QueryAll(page, FileInput)[0];
      }
    }
  }
}
