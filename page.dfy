/**
 * A snapshot of the webmail page as content.js sees it. The browser's selector engine and layout
 * are not modelled: the results of the `querySelectorAll`, `querySelector`, `closest` and
 * `getBoundingClientRect` calls the script makes are given. Element identity is an element id.
 */
module Page {
  import opened Wrappers
  import opened Selectors

  /**
   * One DOM element. Properties that are undefined and attributes that are missing read as "",
   * which is falsy in the script's `||` chains just as `undefined` and `null` are.
   */
  datatype Element = Element(
    id: nat,                              // identity of the node, for the writes and events the script makes
    tagName: string,                      // `tagName`, e.g. "INPUT" or "DIV"
    inputType: string,                    // the `type` property ("file", "text", ...)
    width: nat,                           // `getBoundingClientRect().width`, in whole CSS pixels
    height: nat,                          // `getBoundingClientRect().height`
    contentEditable: string,              // the `contentEditable` property: "true", "false" or "inherit"
    isContentEditable: bool,              // the `isContentEditable` property
    value: string,                        // the `value` property; a numeric `value` (as on `<li>` or `<progress>`) cannot be represented
    textContent: string,
    innerText: string,
    attributes: map<string, string>,      // `getAttribute(name)`
    within: map<Query, seq<Element>>,     // `querySelectorAll(selector)` on this element, in document order
    closest: map<Query, Element>)         // `closest(selector)` where it is not null

  /** The document: `document.querySelectorAll(selector)`, in document order, for every selector the script uses. */
  datatype Page = Page(all: map<Query, seq<Element>>)

  /** What `findActiveComposeWindow` returns: an element, or the document itself as a last resort. */
  datatype Scope = Document | Node(element: Element)

  /** Where an event is dispatched. */
  datatype Target = DocumentTarget | ElementTarget(id: nat)

  function Attribute(e: Element, name: string): string {
    if name in e.attributes then e.attributes[name] else ""
  }

  /** `getBoundingClientRect()` width times height. */
  function Area(e: Element): nat {
    e.width * e.height
  }

  /** `document.querySelectorAll(selector)`. */
  function QueryAll(page: Page, q: Query): seq<Element> {
    if q in page.all then page.all[q] else []
  }

  /** The first element of a `querySelectorAll` result, which is what `querySelector` returns. */
  function First(es: seq<Element>): Option<Element> {
    if es == [] then None else Some(es[0])
  }

  /** `document.querySelector(selector)`. */
  function QueryFirst(page: Page, q: Query): Option<Element> {
    First(QueryAll(page, q))
  }

  /** `element.querySelectorAll(selector)`. */
  function QueryAllWithin(e: Element, q: Query): seq<Element> {
    if q in e.within then e.within[q] else []
  }

  /** `scope.querySelector(selector)` on the compose window, element or document. */
  function QueryIn(page: Page, scope: Scope, q: Query): Option<Element> {
    match scope
    case Document => QueryFirst(page, q)
    case Node(e) => First(QueryAllWithin(e, q))
  }

  /** `element.closest(selector)`. */
  function Closest(e: Element, q: Query): Option<Element> {
    if q in e.closest then Some(e.closest[q]) else None
  }

  /** Where an event sent to the compose window itself is dispatched. */
  function ScopeTarget(scope: Scope): Target {
    match scope
    case Document => DocumentTarget
    case Node(e) => ElementTarget(e.id)
  }
}
