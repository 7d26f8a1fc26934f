/**
 * The text `handleComposeEmail` builds around the extracted name: the greeting placed before the
 * requested body, and the message sent back to the popup on success.
 */
module Greeting {
  import opened Wrappers
  import opened Text
  import opened Resolver

  /** `recipientName` is truthy: a name was extracted and it is not the empty string. */
  predicate Personalised(name: Option<string>) {
    name.Some? && name.value != ""
  }

  const PersonalOpening: string := "Hi "
  const GenericOpening: string := "Hi,\n\n"
  const PersonalMessage: string := "Email composed with greeting for "
  const GenericMessage: string := "Email composed (no recipient name found for personalization)"

  /** `finalBody`: "Hi {name},\n\n{body}" for a truthy name, "Hi,\n\n{body}" otherwise. */
  function FinalBody(name: Option<string>, body: string): (r: string)
    ensures |r| >= |body| + |GenericOpening| && r[|r| - |body|..] == body
    ensures r[..2] == "Hi"
  {
    if Personalised(name) then PersonalOpening + name.value + ",\n\n" + body else GenericOpening + body
  }

  /** `resultMessage`: names the recipient when the greeting does. */
  function ResultMessage(name: Option<string>): (r: string)
    ensures Personalised(name) ==> |r| == |PersonalMessage| + |name.value| + 1 && r[|PersonalMessage|..|r| - 1] == name.value
  {
    if Personalised(name) then PersonalMessage + name.value + "!" else GenericMessage
  }

  /** Reads the name back out of a final body, given the body it was built around ("" for the generic greeting). */
  function GreetedName(text: string, body: string): string {
    if |text| >= |PersonalOpening| + |body| + 3 && text[..|PersonalOpening|] == PersonalOpening
    then text[|PersonalOpening|..|text| - |body| - 3]
    else ""
  }

  /** The greeting can be read back: it carries exactly the truthy name, and nothing for a falsy one. */
  lemma GreetingRoundTrip(name: Option<string>, body: string)
    ensures GreetedName(FinalBody(name, body), body) == (if Personalised(name) then name.value else "")
  {
    var r := FinalBody(name, body);
    if Personalised(name) {
      assert r[..|PersonalOpening|] == PersonalOpening;
      assert r[|PersonalOpening|..|r| - |body| - 3] == name.value;
    } else {
      assert r[2] == ',';
    }
  }

  /** `finalBody.trim()` is never empty, so the body is always injected. */
  lemma GreetingNeverBlank(name: Option<string>, body: string)
    ensures Trim(FinalBody(name, body)) != ""
  {
    var r := FinalBody(name, body);
    assert r[0] == 'H';
    TrimBlank(r);
  }

  /** The greeting and the result message agree: both are personal exactly when the name is truthy, and name the same person. */
  lemma MessageMatchesGreeting(name: Option<string>, body: string)
    ensures var r := FinalBody(name, body);
      (r[2] == ' ') <==> Personalised(name)
    ensures var m := ResultMessage(name);
      (|m| > |PersonalMessage| && m[..|PersonalMessage|] == PersonalMessage) <==> Personalised(name)
    ensures Personalised(name) ==> GreetedName(FinalBody(name, body), body) == ResultMessage(name)[|PersonalMessage|..|ResultMessage(name)| - 1]
  {
    GreetingRoundTrip(name, body);
    var m := ResultMessage(name);
    if !Personalised(name) {
      assert m[|PersonalMessage| - 6] != PersonalMessage[|PersonalMessage| - 6];
    }
  }

  /** A local part that starts with a separator yields the empty name, which is falsy: the greeting is generic. */
  lemma LeadingSeparatorGivesGenericGreeting(body: string)
    ensures NameFromEmail("-bob@x.com") == ""
    ensures FinalBody(Some(NameFromEmail("-bob@x.com")), body) == GenericOpening + body
  {
    var local, domain, tld := "-bob", "x", "com";
    assert "-bob@x.com" == local + (['@'] + (domain + (['.'] + tld)));
    NameOfAddress(local, domain, tld);
    TakeUntilUnique(local, IsNameSeparator, 0);
  }
}
