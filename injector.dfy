/**
 * What content.js does to the page: the values, text and markup it writes into the fields it
 * found, the file it hands to the attach control, and the focus calls and events it dispatches
 * so that the webmail client notices. The writable part of the DOM is a `Dom` object whose
 * methods change it one step at a time; `DomState` is a snapshot of it, and the pure transitions
 * below state what each injection does to a snapshot.
 */
module Injector {
  import opened Wrappers
  import opened Text
  import opened Page
  import opened Resolver

  /** The file `createSampleFile` builds. Its PDF content is not modelled. */
  datatype SampleFile = SampleFile(name: string, mimeType: string)

  const SampleResume: SampleFile := SampleFile("sample-resume.pdf", "application/pdf")

  /** `new Event(kind)`, `new KeyboardEvent(kind, {key, code})`, or a drop carrying the sample file; all bubble. */
  datatype Event = Plain(kind: string) | Key(kind: string, key: string, code: string) | DropFile(file: SampleFile)

  /** One observable step, in the order the script takes them: a `focus()` call or a `dispatchEvent`. */
  datatype Effect = Focused(id: nat) | Dispatched(target: Target, event: Event)

  /**
   * The writes the script makes, by element id: `value`, `textContent`, `innerHTML` and `files`;
   * and the log of focus calls and dispatched events.
   */
  datatype DomState = DomState(
    values: map<nat, string>,
    texts: map<nat, string>,
    html: map<nat, string>,
    files: map<nat, seq<SampleFile>>,
    log: seq<Effect>)

  /** Events after writing a subject input. */
  const InputEvents: seq<string> := ["focus", "input", "change", "blur"]
  /** Events after writing an editable subject. */
  const EditableEvents: seq<string> := ["focus", "input", "keyup", "blur"]
  /** Events after writing the body. */
  const BodyEvents: seq<string> := ["focus", "input", "keydown", "keyup", "change", "blur"]
  /** The extra space key-up the body receives. */
  const SpaceKeyUp: Event := Key("keyup", " ", "Space")

  /** One plain event of each kind, in order, on the target. */
  function Dispatches(target: Target, kinds: seq<string>): seq<Effect> {
    seq(|kinds|, k requires 0 <= k < |kinds| => Dispatched(target, Plain(kinds[k])))
  }

  /** The writable part of the DOM. */
  class Dom {
    var values: map<nat, string>
    var texts: map<nat, string>
    var html: map<nat, string>
    var files: map<nat, seq<SampleFile>>
    var log: seq<Effect>

    function State(): DomState
      reads this
    {
      DomState(values, texts, html, files, log)
    }

    constructor(initial: DomState)
      ensures State() == initial
    {
      values, texts, html, files, log := initial.values, initial.texts, initial.html, initial.files, initial.log;
    }

    /** `element.focus()`. */
    method Focus(id: nat)
      modifies this
      ensures State() == old(State()).(log := old(log) + [Focused(id)])
    {
      log := log + [Focused(id)];
    }

    /** `element.value = v`. */
    method SetValue(id: nat, v: string)
      modifies this
      ensures State() == old(State()).(values := old(values)[id := v])
    {
      values := values[id := v];
    }

    /** `element.textContent = t`. */
    method SetTextContent(id: nat, t: string)
      modifies this
      ensures State() == old(State()).(texts := old(texts)[id := t])
    {
      texts := texts[id := t];
    }

    /** `element.innerHTML = h`. */
    method SetInnerHtml(id: nat, h: string)
      modifies this
      ensures State() == old(State()).(html := old(html)[id := h])
    {
      html := html[id := h];
    }

    /** `element.innerHTML`, read back as it was last written ("" if never). */
    function InnerHtml(id: nat): string
      reads this
    {
      if id in html then html[id] else ""
    }

    /** `input.files = fs`: the list replaces whatever the input held. */
    method SetFiles(id: nat, fs: seq<SampleFile>)
      modifies this
      ensures State() == old(State()).(files := old(files)[id := fs])
    {
      files := files[id := fs];
    }

    /** `target.dispatchEvent(event)`. */
    method Dispatch(target: Target, event: Event)
      modifies this
      ensures State() == old(State()).(log := old(log) + [Dispatched(target, event)])
    {
      log := log + [Dispatched(target, event)];
    }
  }

  // ---------------------------------------------------------------- transitions

  /**
   * The writing half of `injectSubject`: an `INPUT` gets the subject as its value, focus and the
   * input events; an element whose `contentEditable` is "true" gets it as its text, focus and the
   * editable events; any other element is left as it is.
   */
  function SubjectWrite(st: DomState, field: Element, subject: string): (r: DomState)
    ensures Extends(st, r) && r.html == st.html && r.files == st.files
    ensures r == st <==> field.tagName != "INPUT" && field.contentEditable != "true"
  {
    var target := ElementTarget(field.id);
    if field.tagName == "INPUT" then
      st.(values := st.values[field.id := subject], log := st.log + [Focused(field.id)] + Dispatches(target, InputEvents))
    else if field.contentEditable == "true" then
      st.(texts := st.texts[field.id := subject], log := st.log + [Focused(field.id)] + Dispatches(target, EditableEvents))
    else st
  }

  /**
   * The writing half of `injectBody`: focus, the text as markup with `<br>` for each line feed,
   * the text itself as `textContent` only when that markup is empty, the six body events and the
   * space key-up.
   */
  function BodyWrite(st: DomState, field: Element, text: string): (r: DomState)
    ensures Extends(st, r) && |r.log| == |st.log| + 8
    ensures field.id in r.html && '\n' !in r.html[field.id]
    ensures r.values == st.values && r.files == st.files
  {
    var target := ElementTarget(field.id);
    var markup := ReplaceNewlines(text);
    var texts := if markup == "" then st.texts[field.id := text] else st.texts;
    st.(html := st.html[field.id := markup], texts := texts,
        log := st.log + [Focused(field.id)] + Dispatches(target, BodyEvents) + [Dispatched(target, SpaceKeyUp)])
  }

  /** The delivering half of `attachFile`: the file input's files become the sample file and it gets `change`; or the sample file is dropped on the target. */
  function Deliver(st: DomState, d: Delivery): (r: DomState)
    ensures Extends(st, r) && |r.log| == |st.log| + 1
    ensures r.values == st.values && r.texts == st.texts && r.html == st.html
  {
    match d
    case SetFiles(input) =>
      st.(files := st.files[input.id := [SampleResume]], log := st.log + [Dispatched(ElementTarget(input.id), Plain("change"))])
    case DropOn(target) =>
      st.(log := st.log + [Dispatched(target, DropFile(SampleResume))])
  }

  /** The log only grows: every transition appends to it. */
  predicate Extends(st: DomState, st': DomState) {
    |st.log| <= |st'.log| && st'.log[..|st.log|] == st.log
  }

  /**
   * After the subject write the field shows the subject (as its value for an input, as its text
   * for an editable), focus comes first and `blur` last, and nothing else is written.
   */
  lemma SubjectWriteShows(st: DomState, field: Element, subject: string)
    ensures var st' := SubjectWrite(st, field, subject);
      && Extends(st, st')
      && st'.html == st.html && st'.files == st.files
      && (field.tagName == "INPUT" ==>
            st'.values == st.values[field.id := subject] && st'.texts == st.texts
            && |st'.log| == |st.log| + 5 && st'.log[|st.log|] == Focused(field.id)
            && st'.log[|st'.log| - 1] == Dispatched(ElementTarget(field.id), Plain("blur")))
      && (field.tagName != "INPUT" && field.contentEditable == "true" ==>
            st'.texts == st.texts[field.id := subject] && st'.values == st.values
            && |st'.log| == |st.log| + 5 && st'.log[|st.log|] == Focused(field.id)
            && st'.log[|st'.log| - 1] == Dispatched(ElementTarget(field.id), Plain("blur")))
      && (field.tagName != "INPUT" && field.contentEditable != "true" ==> st' == st)
  {
  }

  /** Writing the same subject again changes no field: only more focus calls and events are logged. */
  lemma SubjectWriteIdempotent(st: DomState, field: Element, subject: string)
    ensures var once := SubjectWrite(st, field, subject);
      var twice := SubjectWrite(once, field, subject);
      twice.(log := once.log) == once
  {
    var once := SubjectWrite(st, field, subject);
    if field.tagName == "INPUT" {
      assert once.values[field.id := subject] == once.values;
    } else if field.contentEditable == "true" {
      assert once.texts[field.id := subject] == once.texts;
    }
  }

  /**
   * After the body write the field's markup is the text with every line feed as `<br>`, holds
   * no line feed, and gives the text back when the text holds no `<`; `textContent` is written
   * only for the empty text; values and files are untouched; eight steps are logged.
   */
  lemma BodyWriteShows(st: DomState, field: Element, text: string)
    ensures var st' := BodyWrite(st, field, text);
      && Extends(st, st')
      && field.id in st'.html && st'.html == st.html[field.id := st'.html[field.id]]
      && '\n' !in st'.html[field.id]
      && ('<' !in text ==> RestoreNewlines(st'.html[field.id]) == text)
      && (st'.texts != st.texts ==> text == "" && st'.texts == st.texts[field.id := ""])
      && st'.values == st.values && st'.files == st.files
      && |st'.log| == |st.log| + 8
  {
    if '<' !in text {
      RestoreNewlinesInverse(text);
    }
    ReplaceNewlinesEmpty(text);
  }

  /** Writing the same body again changes no field: only more focus calls and events are logged. */
  lemma BodyWriteIdempotent(st: DomState, field: Element, text: string)
    ensures var once := BodyWrite(st, field, text);
      var twice := BodyWrite(once, field, text);
      twice.(log := once.log) == once
  {
    var once := BodyWrite(st, field, text);
    assert once.html[field.id := ReplaceNewlines(text)] == once.html;
    if ReplaceNewlines(text) == "" {
      assert once.texts[field.id := text] == once.texts;
    }
  }

  /**
   * A file input ends up holding exactly one file, the sample, whatever it held before, and gets
   * one `change`; a drop adds one event to the log and writes nothing.
   */
  lemma DeliverShows(st: DomState, d: Delivery)
    ensures var st' := Deliver(st, d);
      && Extends(st, st') && |st'.log| == |st.log| + 1
      && st'.values == st.values && st'.texts == st.texts && st'.html == st.html
      && (d.SetFiles? ==> st'.files == st.files[d.input.id := [SampleResume]]
                          && st'.log[|st.log|] == Dispatched(ElementTarget(d.input.id), Plain("change")))
      && (d.DropOn? ==> st'.files == st.files && st'.log[|st.log|] == Dispatched(d.target, DropFile(SampleResume)))
  {
  }
}
