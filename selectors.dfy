/**
 * The queries content.js makes, in the order it makes them, and the CSS selector text of each.
 * The page snapshot is keyed by `Query`; the selector text is kept here so that every query can
 * be read against the script, while the proofs never look inside it.
 */
module Selectors {

  /** One `querySelectorAll`, `querySelector` or `closest` call of the script, by purpose and rank. */
  datatype Query =
    | ComposeWindow(rank: nat)    // findActiveComposeWindow, method 1, `selectors[rank]`
    | ComposeControl(rank: nat)   // findActiveComposeWindow, method 2, `composeElements[rank]`
    | Container(rank: nat)        // `containers[rank]`, used with `closest`
    | Parent                      // the reasonable parent, used with `closest`
    | ToSignal                    // isComposeWindow's three signals, on the candidate element
    | SubjectSignal
    | BodySignal
    | Recipient(rank: nat)        // extractRecipientName, first tier
    | AnyElement                  // second tier
    | AnyInput                    // third tier
    | Subject(rank: nat)          // injectSubject candidates
    | SubjectFallback
    | Body(rank: nat)             // injectBody candidates
    | Editable                    // injectBody's size heuristic
    | Attach(rank: nat)           // attachFile candidates, in the compose window
    | AttachFallback              // attachFile, document-wide
    | FileInput
    | DropArea

  const ComposeWindowCount: nat := 7
  const ComposeControlCount: nat := 5
  const ContainerCount: nat := 4
  const RecipientCount: nat := 16
  const SubjectCount: nat := 10
  const BodyCount: nat := 9
  const AttachCount: nat := 5

  /** The CSS selector text of each query ("" for a rank beyond its list). */
  function Selector(q: Query): string {
    match q
    case ComposeWindow(k) => if k < |ComposeWindowSelectors| then ComposeWindowSelectors[k] else ""
    case ComposeControl(k) => if k < |ComposeElementSelectors| then ComposeElementSelectors[k] else ""
    case Container(k) => if k < |ContainerSelectors| then ContainerSelectors[k] else ""
    case Parent => ParentSelector
    case ToSignal => ToSignalSelector
    case SubjectSignal => SubjectSignalSelector
    case BodySignal => BodySignalSelector
    case Recipient(k) => if k < |RecipientSelectors| then RecipientSelectors[k] else ""
    case AnyElement => AnyElementSelector
    case AnyInput => InputSelector
    case Subject(k) => if k < |SubjectSelectors| then SubjectSelectors[k] else ""
    case SubjectFallback => SubjectFallbackSelector
    case Body(k) => if k < |BodySelectors| then BodySelectors[k] else ""
    case Editable => EditableSelector
    case Attach(k) => if k < |AttachSelectors| then AttachSelectors[k] else ""
    case AttachFallback => AttachFallbackSelector
    case FileInput => FileInputSelector
    case DropArea => DropAreaSelector
  }

  /** The counts the searches loop to are the lengths of the script's selector lists. */
  lemma CountsMatchLists()
    ensures |ComposeWindowSelectors| == ComposeWindowCount && |ComposeElementSelectors| == ComposeControlCount
    ensures |ContainerSelectors| == ContainerCount && |RecipientSelectors| == RecipientCount
    ensures |SubjectSelectors| == SubjectCount && |BodySelectors| == BodyCount && |AttachSelectors| == AttachCount
  {
  }
  /** Candidate compose containers (`findActiveComposeWindow`, method 1). */
  const ComposeWindowSelectors: seq<string> := [
    "[role=\"dialog\"][aria-label*=\"compose\" i]",
    "[role=\"dialog\"] .nH",
    ".nH .if",
    ".nH .iN",
    ".nH .n3",
    ".M9",
    ".T-I-J3.J-J5-Ji.T-I-Js-Gs.aaq.T-I-ax7.L3"
  ]

  /** Compose controls whose container is looked up (`findActiveComposeWindow`, method 2). */
  const ComposeElementSelectors: seq<string> := [
    "input[name=\"to\"]",
    "input[name=\"subject\"]",
    "[role=\"textbox\"]",
    "[aria-label*=\"To\" i]",
    "[aria-label*=\"Subject\" i]"
  ]

  /** Containers tried with `closest`, in order. */
  const ContainerSelectors: seq<string> := [".nH", "[role=\"dialog\"]", ".M9", ".T-I-J3"]

  /** The last-resort parent tried with `closest`. */
  const ParentSelector: string := "div[class*=\"n\"], div[role=\"dialog\"]"

  /** The three signals of `isComposeWindow`. */
  const ToSignalSelector: string := "[name=\"to\"], [aria-label*=\"To\" i], .vR, input[type=\"text\"], input[type=\"email\"]"
  const SubjectSignalSelector: string := "[name=\"subject\"], [aria-label*=\"Subject\" i], .aoT, input[placeholder*=\"Subject\" i]"
  const BodySignalSelector: string := "[role=\"textbox\"], .Am, [aria-label*=\"Message Body\" i], [contenteditable=\"true\"]"

  /** Recipient elements (`extractRecipientName`, first tier), searched document-wide. */
  const RecipientSelectors: seq<string> := [
    "input[name=\"to\"]",
    "input[aria-label*=\"To\" i]",
    ".vR .vN",
    ".vR .go .vN",
    ".oL.aDm .vN",
    "span.vN",
    "[contenteditable=\"true\"][aria-label*=\"To\" i]",
    ".aoD .vR input",
    ".GS .vR input",
    ".vR input",
    "[role=\"textbox\"][aria-label*=\"To\" i]",
    ".vR [email]",
    ".vR span[email]",
    "span[email]",
    "[data-hovercard-id*=\"@\"]",
    "[title*=\"@\"]"
  ]

  /** Every element of the document (second tier). */
  const AnyElementSelector: string := "*"

  /** Every input (third tier). */
  const InputSelector: string := "input"

  /** Subject field candidates (`injectSubject`). */
  const SubjectSelectors: seq<string> := [
    "input[name=\"subject\"]",
    "input[aria-label*=\"Subject\" i]",
    "input[placeholder*=\"Subject\" i]",
    ".aoT input[name=\"subject\"]",
    ".aoT input",
    ".aoT [contenteditable=\"true\"]",
    "[data-tooltip*=\"Subject\" i]",
    ".Ha .aoT input",
    "[aria-label=\"Subject\"]",
    "input[type=\"text\"][aria-label*=\"Subject\" i]"
  ]

  /** The subject field's broader fallback search. */
  const SubjectFallbackSelector: string := "input[type=\"text\"], [contenteditable=\"true\"]"

  /** Body field candidates (`injectBody`). */
  const BodySelectors: seq<string> := [
    "[role=\"textbox\"]",
    "div[contenteditable=\"true\"][role=\"textbox\"]",
    ".Am.Al.editable",
    ".Am[contenteditable=\"true\"]",
    "[aria-label*=\"Message Body\" i]",
    "[aria-label*=\"Message body\" i]",
    ".editable[contenteditable=\"true\"]",
    "div[contenteditable=\"true\"]",
    "[contenteditable=\"true\"]"
  ]

  /** The body field's largest-area fallback search. */
  const EditableSelector: string := "[contenteditable=\"true\"]"

  /** Attach controls, searched in the compose window (`attachFile`). */
  const AttachSelectors: seq<string> := [
    "[aria-label*=\"Attach\" i]",
    ".a1.aaA.aMZ",
    "input[type=\"file\"]",
    "[title*=\"Attach\" i]",
    ".T-I.J-J5-Ji.aFf.T-I-atl"
  ]

  /** The document-wide attach fallback. */
  const AttachFallbackSelector: string := "[aria-label*=\"Attach\" i], .a1.aaA.aMZ"

  const FileInputSelector: string := "input[type=\"file\"]"

  /** Where a simulated drop is delivered inside the compose window. */
  const DropAreaSelector: string := "[role=\"textbox\"], .Am"
}
