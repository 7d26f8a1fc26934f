/**
 * `GmailComposeAssistant`, the content script's one class: it answers a compose request from the
 * popup by finding the compose window, extracting the recipient's name, injecting the subject
 * and the greeted body, and attaching a sample file, then reporting success or the first error.
 * `Compose` specifies a whole request on a page snapshot; the class's methods run it step by
 * step against a `Dom` and are proved to agree with it.
 */
module Assistant {
  import opened Wrappers
  import opened Text
  import opened Page
  import opened Selectors
  import opened Resolver
  import opened Greeting
  import opened Injector

  const SubjectMissing: string := "Could not find subject field. Make sure the compose window is fully loaded."
  const BodyMissing: string := "Could not find message body field. Make sure the compose window is focused."
  const NoComposeWindow: string := "No compose window found. Please open a compose window first."

  /** A `composeEmail` message from the popup; a missing `subject` or `body` is "". */
  datatype Request = Request(subject: string, body: string)

  /** What `sendResponse` receives. */
  datatype Response = Success(message: string) | Failure(error: string)

  /** The state after an optional subject write: none for an empty subject. */
  function AfterSubject(page: Page, req: Request, st: DomState): DomState {
    if req.subject != "" && SubjectField(page).Some? then SubjectWrite(st, SubjectField(page).value, req.subject) else st
  }

  /** The state after attaching, which happens only when an attach control is found. */
  function AfterAttach(page: Page, scope: Scope, st: DomState): DomState {
    match AttachPlan(page, scope)
    case None => st
    case Some(d) => Deliver(st, d)
  }

  /**
   * `handleComposeEmail` on a page snapshot: the response and the DOM afterwards. A non-empty
   * subject with no subject field fails before anything is written; a missing body field fails
   * after the subject is written; otherwise the body is written, the file attached if possible,
   * and the result message names the recipient when there is one.
   */
  function Compose(page: Page, req: Request, st: DomState): (r: (Response, DomState))
    ensures r.0.Success? <==> (req.subject == "" || SubjectField(page).Some?) && BodyField(page).Some?
    ensures r.0.Success? ==> r.0.message == ResultMessage(RecipientName(page))
    ensures r.0.Failure? ==> r.0.error == SubjectMissing || r.0.error == BodyMissing
    ensures req.subject != "" && SubjectField(page).None? ==> r.1 == st
  {
    var name := RecipientName(page);
    if req.subject != "" && SubjectField(page).None? then (Failure(SubjectMissing), st)
    else
      var st1 := AfterSubject(page, req, st);
      match BodyField(page)
      case None => (Failure(BodyMissing), st1)
      case Some(field) =>
        var st2 := BodyWrite(st1, field, FinalBody(name, req.body));
        (Success(ResultMessage(name)), AfterAttach(page, ActiveComposeWindow(page), st2))
  }

  /** The response decided by the fields alone, without looking at the attach control or the DOM. */
  function Outcome(page: Page, req: Request): Response {
    if req.subject != "" && SubjectField(page).None? then Failure(SubjectMissing)
    else if BodyField(page).None? then Failure(BodyMissing)
    else Success(ResultMessage(RecipientName(page)))
  }

  class ComposeAssistant {
    /** Kept only to mirror content.js:4 and :11; no modelled operation reads it. */
    var isReady: bool

    /** A new assistant is not ready until the page has loaded. */
    constructor()
      ensures !isReady
    {
      isReady := false;
    }

    /** The continuation of `init`'s wait: the page has loaded. */
    method MarkReady()
      modifies this
      ensures isReady
    {
      isReady := true;
    }

    /** `injectSubject`: finds the subject field and writes the subject, or fails with the subject error. */
    method InjectSubject(dom: Dom, page: Page, subject: string) returns (r: Result<bool>)
      modifies dom
      ensures match SubjectField(page)
        case None => r == Err(SubjectMissing) && dom.State() == old(dom.State())
        case Some(f) => r == Ok(true) && dom.State() == SubjectWrite(old(dom.State()), f, subject)
    {
      var subjectField := FindSubjectField(page);
      if subjectField.None? {
        return Err(SubjectMissing);
      }
      var f := subjectField.value;
      var target := ElementTarget(f.id);
      if f.tagName == "INPUT" {
        dom.Focus(f.id);
        dom.SetValue(f.id, subject);
        DispatchAll(dom, target, InputEvents);
      } else if f.contentEditable == "true" {
        dom.Focus(f.id);
        dom.SetTextContent(f.id, subject);
        DispatchAll(dom, target, EditableEvents);
      }
      return Ok(true);
    }

    /** One `dispatchEvent(new Event(kind, { bubbles: true }))` per kind, in order. */
    method DispatchAll(dom: Dom, target: Target, kinds: seq<string>)
      modifies dom
      ensures dom.State() == old(dom.State()).(log := old(dom.log) + Dispatches(target, kinds))
    {
      for k := 0 to |kinds|
        invariant dom.State() == old(dom.State()).(log := old(dom.log) + Dispatches(target, kinds[..k]))
      {
        assert Dispatches(target, kinds[..k + 1]) == Dispatches(target, kinds[..k]) + [Dispatched(target, Plain(kinds[k]))];
        dom.Dispatch(target, Plain(kinds[k]));
      }
      assert kinds[..|kinds|] == kinds;
    }

    /** `injectBody`: finds the body field and writes the text, or fails with the body error. */
    method InjectBody(dom: Dom, page: Page, bodyText: string) returns (r: Result<bool>)
      modifies dom
      ensures match BodyField(page)
        case None => r == Err(BodyMissing) && dom.State() == old(dom.State())
        case Some(f) => r == Ok(true) && dom.State() == BodyWrite(old(dom.State()), f, bodyText)
    {
      var bodyField := FindBodyField(page);
      if bodyField.None? {
        return Err(BodyMissing);
      }
      var f := bodyField.value;
      var target := ElementTarget(f.id);
      dom.Focus(f.id);
      dom.SetInnerHtml(f.id, ReplaceNewlines(bodyText));
      if dom.InnerHtml(f.id) == "" {
        dom.SetTextContent(f.id, bodyText);
      }
      DispatchAll(dom, target, BodyEvents);
      dom.Dispatch(target, SpaceKeyUp);
      return Ok(true);
    }

    /** `attachFile`: true when an attach control was found and the sample file delivered, false (and nothing done) otherwise. */
    method AttachFile(dom: Dom, page: Page, composeWindow: Scope) returns (attached: bool)
      modifies dom
      ensures attached <==> AttachPlan(page, composeWindow).Some?
      ensures dom.State() == AfterAttach(page, composeWindow, old(dom.State()))
    {
      var attachButton: Option<Element> := None;
      var i := 0;
      while i < AttachCount
        invariant 0 <= i <= AttachCount
        invariant attachButton.None?
        invariant forall b :: 0 <= b < i ==> QueryIn(page, composeWindow, Attach(b)).None?
      {
        attachButton := QueryIn(page, composeWindow, Attach(i));
        if attachButton.Some? {
          AttachControlIs(page, composeWindow, i);
          break;
        }
        i := i + 1;
      }
      if attachButton.None? {
        AttachControlFallback(page, composeWindow);
        attachButton := QueryFirst(page, AttachFallback);
      }
      if attachButton.None? {
        return false;
      }
      assert AttachControl(page, composeWindow) == attachButton;
      var control := attachButton.value;
      if control.inputType != "file" {
        var fileInput := QueryIn(page, composeWindow, FileInput);
        if fileInput.None? {
          fileInput := QueryFirst(page, FileInput);
        }
        assert fileInput == FileInputFor(page, composeWindow);
        if fileInput.Some? {
          control := fileInput.value;
        }
      }
      assert control == ChosenControl(page, composeWindow, attachButton.value);
      if control.inputType == "file" {
        dom.SetFiles(control.id, [SampleResume]);
        dom.Dispatch(ElementTarget(control.id), Plain("change"));
      } else {
        var targetArea := QueryIn(page, composeWindow, DropArea);
        var target := if targetArea.Some? then ElementTarget(targetArea.value.id) else ScopeTarget(composeWindow);
        dom.Dispatch(target, DropFile(SampleResume));
      }
      return true;
    }

    /**
     * `handleComposeEmail`: the response sent to the popup and the DOM left behind are those
     * `Compose` specifies. A thrown error becomes a failure response carrying its message.
     */
    method HandleComposeEmail(dom: Dom, page: Page, request: Request) returns (response: Response)
      modifies dom
      ensures (response, dom.State()) == Compose(page, request, old(dom.State()))
    {
      ghost var st := dom.State();
      var composeWindow := FindActiveComposeWindow(page);
      var recipientName := ExtractRecipientName(page);
      if request.subject != "" {
        var r := InjectSubject(dom, page, request.subject);
        if r.Err? {
          return Failure(r.error);
        }
      }
      ghost var st1 := dom.State();
      assert st1 == AfterSubject(page, request, st);
      var finalBody := FinalBody(recipientName, request.body);
      GreetingNeverBlank(recipientName, request.body);
      if Trim(finalBody) != "" {
        var r := InjectBody(dom, page, finalBody);
        if r.Err? {
          return Failure(r.error);
        }
      }
      assert BodyField(page).Some? && dom.State() == BodyWrite(st1, BodyField(page).value, finalBody);
      var _ := AttachFile(dom, page, composeWindow);
      return Success(ResultMessage(recipientName));
    }
  }

  // ---------------------------------------------------------------- properties of a request

  /**
   * The response depends on the fields alone: the attach control, and whether the file could be
   * delivered, never change it, and neither does the DOM the request starts from.
   */
  lemma ResponseIgnoresAttachment(page: Page, req: Request, st: DomState)
    ensures Compose(page, req, st).0 == Outcome(page, req)
  {
  }

  /**
   * A request succeeds exactly when its subject is empty or a subject field is found, and a body
   * field is found; a failure carries one of the two field errors, never the compose-window one.
   */
  lemma ComposeSucceedsIff(page: Page, req: Request, st: DomState)
    ensures Compose(page, req, st).0.Success? <==>
      (req.subject == "" || SubjectField(page).Some?) && BodyField(page).Some?
    ensures Compose(page, req, st).0.Failure? ==>
      Compose(page, req, st).0.error in {SubjectMissing, BodyMissing}
    ensures Compose(page, req, st).0 != Failure(NoComposeWindow)
  {
    assert |SubjectMissing| != |NoComposeWindow| && |BodyMissing| != |NoComposeWindow|;
  }

  /** A missing subject field aborts before anything is written; a missing body field keeps only the subject write. */
  lemma FailureEffects(page: Page, req: Request, st: DomState)
    ensures req.subject != "" && SubjectField(page).None? ==> Compose(page, req, st).1 == st
    ensures !(req.subject != "" && SubjectField(page).None?) && BodyField(page).None? ==>
      Compose(page, req, st).1 == AfterSubject(page, req, st)
  {
  }

  /** The writes of attaching leave values, texts and markup alone and only add to the log. */
  lemma AfterAttachKeepsFields(page: Page, scope: Scope, st: DomState)
    ensures var st' := AfterAttach(page, scope, st);
      Extends(st, st') && st'.values == st.values && st'.texts == st.texts && st'.html == st.html
  {
    match AttachPlan(page, scope)
    case None =>
    case Some(d) => DeliverShows(st, d);
  }

  /** Growing the log is transitive. */
  lemma ExtendsTransitive(a: DomState, b: DomState, c: DomState)
    requires Extends(a, b) && Extends(b, c)
    ensures Extends(a, c)
  {
    assert c.log[..|a.log|] == c.log[..|b.log|][..|a.log|];
  }

  /** The optional subject write only adds to the log, leaves the markup alone, and puts the subject into an input field. */
  lemma AfterSubjectShows(page: Page, req: Request, st: DomState)
    ensures var st' := AfterSubject(page, req, st);
      && Extends(st, st') && st'.html == st.html
      && (req.subject != "" && SubjectField(page).Some? && SubjectField(page).value.tagName == "INPUT" ==>
            SubjectField(page).value.id in st'.values && st'.values[SubjectField(page).value.id] == req.subject)
  {
    if req.subject != "" && SubjectField(page).Some? {
      SubjectWriteShows(st, SubjectField(page).value, req.subject);
    }
  }

  /**
   * After a successful request the body field holds the greeted body as markup, the message
   * names the recipient exactly when the greeting does, an input subject field holds the
   * subject, and the log only grows.
   */
  lemma SuccessEffects(page: Page, req: Request, st: DomState)
    requires Compose(page, req, st).0.Success?
    ensures var st' := Compose(page, req, st).1;
      var name := RecipientName(page);
      var body := BodyField(page).value;
      && Extends(st, st')
      && body.id in st'.html && st'.html[body.id] == ReplaceNewlines(FinalBody(name, req.body))
      && Compose(page, req, st).0.message == ResultMessage(name)
      && (req.subject != "" && SubjectField(page).value.tagName == "INPUT" ==>
            SubjectField(page).value.id in st'.values && st'.values[SubjectField(page).value.id] == req.subject)
  {
    var name := RecipientName(page);
    var body := BodyField(page).value;
    var text := FinalBody(name, req.body);
    var st1 := AfterSubject(page, req, st);
    AfterSubjectShows(page, req, st);
    var st2 := BodyWrite(st1, body, text);
    BodyWriteShows(st1, body, text);
    var st3 := AfterAttach(page, ActiveComposeWindow(page), st2);
    AfterAttachKeepsFields(page, ActiveComposeWindow(page), st2);
    ExtendsTransitive(st, st1, st2);
    ExtendsTransitive(st, st2, st3);
    assert Compose(page, req, st) == (Success(ResultMessage(name)), st3);
  }
}
