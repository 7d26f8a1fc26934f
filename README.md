# Gmail Compose Assistant: a Dafny model of the content script

The content script `content.js` defines one class, `GmailComposeAssistant`. When the popup
sends a `composeEmail` request, the class does five things in order:

1. It finds the active compose window.
2. It extracts the recipient's first name from the address in the "To" field. It searches
   recipient elements, then short texts matching `[\w\.-]+@[\w\.-]+\.\w+`, then input values.
3. It writes the subject into the subject field.
4. It writes the body, preceded by a greeting ("Hi Jane,\n\n" or "Hi,\n\n"), into the message
   body field.
5. It hands a sample PDF to the attach control.

It then answers the popup with a success message, or with the message of the first error
raised.

The model is split into modules:

- `Page`, `Selectors`: the page the script sees. A snapshot gives every `querySelectorAll`,
  `querySelector`, `closest` and `getBoundingClientRect` result it asks for. The selector text
  of each query is kept verbatim.
- `Search`: the "first success wins" scans every cascade is built from. They cover one list,
  lists in priority order, and the running maximum of the size heuristic.
- `Text`: the JavaScript string operations used. These are `||`, `trim`, `includes`,
  `split(..)[0]`, ASCII case mapping and `replace(/\n/g, '<br>')`.
- `EmailPattern`: the address pattern with the semantics of `String.prototype.match`. It finds
  the leftmost match, using greedy quantifiers with backtracking.
- `Resolver`: the element searches, as specification functions and as the loops the script
  runs, proved equal.
- `Greeting`: the greeting and the result message.
- `Injector`: the writable DOM (class `Dom`) and the pure transitions saying what each
  injection does to it.
- `Assistant`: the class itself. `Compose` specifies a whole request. `HandleComposeEmail` runs
  it step by step against a `Dom` and is proved to agree with it.

## Model

| member | source | states |
|---|---|---|
| Text.SkipSpaces | content.js:226 | the scan from a position stops at the first character that is not ECMAScript white space, and passes only white space |
| Text.SkipSpacesBack | content.js:226 | the backward scan from a position stops after the last character that is not white space, and passes only white space |
| Text.Trim | content.js:226 | `trim()` gives a stretch of the text, with only white space before and after it, that neither starts nor ends with white space |
| Text.TrimKeeps | content.js:225-231 | trimming keeps every non-space character, so an `@` seen before `value.trim()` is still in `email` afterwards |
| Text.TrimBlank | content.js:78 | `finalBody.trim()` is empty exactly when every character is white space |
| Text.Utf16Length | content.js:241 | `text.length` counts UTF-16 code units: between one and two per character, and one per character exactly when no character lies outside the Basic Multilingual Plane |
| Text.Utf16LengthAppend | content.js:241 | the UTF-16 length of a concatenation is the sum of the lengths |
| Text.ToLower | content.js:283 | lower-casing keeps the length, turns each upper-case ASCII letter into its lower-case letter (32 code points on) and keeps every other character in place |
| Text.ToUpper | content.js:283 | upper-casing keeps the length, turns each lower-case ASCII letter into its upper-case letter (32 code points back) and keeps every other character in place |
| Text.CaseMappingKeepsNonLetters | content.js:283 | case mapping changes letters only: a non-letter is in the result exactly when it is in the input |
| Text.TakeUntil | content.js:278-280 | `split(sep)[0]` is the longest prefix without a separator, and is followed by one when shorter than the text |
| Text.TakeUntilUnique | content.js:278-280 | any prefix that has those properties is the result of `split(sep)[0]` |
| Text.TakeUntilStops | content.js:278 | text made of a part without separators, then a separator, is cut exactly at the separator |
| Text.ReplaceNewlines | content.js:438 | the markup written to the body holds no line feed |
| Text.ReplaceNewlinesAppend | content.js:438 | the replacement distributes over concatenation |
| Text.ReplaceNewlinesIdentity | content.js:438 | text without line feeds is written unchanged |
| Text.ReplaceNewlinesEmpty | content.js:438-443 | the markup is empty exactly when the text is, so the `textContent` fallback runs only for empty text |
| Text.RestoreNewlinesInverse | content.js:438 | reading `<br>` back as a line feed recovers any text holding no `<` |
| EmailPattern.RunEnd | content.js:240 | a greedy class repetition stops at the end of the longest run of accepted characters |
| EmailPattern.LastDotThenWord | content.js:240 | backtracking the domain part finds the last `.` that a word character follows, or none |
| EmailPattern.MatchEnd | content.js:240 | a match starting at a position ends after it, within the text |
| EmailPattern.MatchEndSound | content.js:240 | every match the engine reports splits as local part, `@`, domain, `.`, word, each in its class |
| EmailPattern.MatchEndLongest | content.js:240 | from a given start the engine finds a match whenever one exists, and the longest one |
| EmailPattern.FirstMatch | content.js:240 | the reported start and end delimit a match of the engine |
| EmailPattern.MatchIsLeftmostLongest | content.js:240 | `text.match` finds nothing exactly when no span matches the pattern; otherwise it finds the leftmost start and, from it, the longest span |
| EmailPattern.FindEmail | content.js:240-242 | the matched text always holds an `@` |
| EmailPattern.AtInSpan | content.js:240 | every address-shaped span lies within the text and holds an `@` |
| EmailPattern.WholeEmailMatchesItself | content.js:271-275 | cleaning a string that is a whole address leaves it unchanged |
| EmailPattern.AssembledAddressMatches | content.js:271-275 | an address built from a local part, a domain and a final word is matched in full |
| Search.FindFirst | content.js:238-246 | the first element the test accepts: accepted, and nothing before it is; none when nothing is accepted |
| Search.FirstSome | content.js:238-246 | the first non-empty result of a scan, and none exactly when every result is empty |
| Search.FindInTiers | content.js:119-127 | the first position in selector order, then document order, that the test accepts; none exactly when none is |
| Search.ArgMaxAbove | content.js:412-422 | the scan's result has an area above the floor that no candidate exceeds and every earlier candidate falls short of; none exactly when no area is above the floor |
| Search.FindFirstIs | content.js:238-246 | an accepted element with none accepted before it is the one found |
| Search.FindInTiersIs | content.js:119-127 | an accepted position with none accepted before it is the one found |
| Search.FirstSomeIs | content.js:238-246 | a position with a result and none before it decides the scan |
| Search.FirstSomeStep | content.js:238-246 | one step of the scan: a result at the current position decides it, otherwise the scan goes on |
| Search.FirstRank | content.js:138-158 | the first result, in rank order, of a search over ranks; none exactly when every rank gives none |
| Search.FirstRankIs | content.js:138-158 | a rank with a result and none before it decides the search |
| Search.FirstRankStep | content.js:138-158 | one step of the search: a result at the current rank decides it, otherwise the next rank is tried |
| Search.ArgMaxAboveStep | content.js:415-422 | one step of the running maximum: the new element replaces the best only when its area is strictly larger and above the floor |
| Selectors.CountsMatchLists | content.js:105-117 | the bounds the searches loop to are the lengths of the script's selector lists |
| Resolver.IsComposeWindow | content.js:165-175 | an element is a compose window exactly when at least two of the three signals (To, Subject, Body) are present |
| Resolver.ComposeWindowMonotone | content.js:171-174 | adding signals never turns acceptance into rejection |
| Resolver.FirstContainer | content.js:142-149 | the container is what `closest` gives for the first container selector that finds one, every earlier one giving null; none exactly when every selector gives null |
| Resolver.ViaComposeControl | content.js:138-158 | method 2 gives the container of the first compose control that has one, every earlier control being missing or without one; none exactly when no control has one |
| Resolver.ActiveComposeWindow | content.js:101-163 | the window chosen passes `isComposeWindow` or is the container method 2 finds; the document is returned only when method 2 finds nothing |
| Resolver.ActiveComposeWindowCases | content.js:101-163 | the document is returned exactly when no candidate passes `isComposeWindow` and no compose control has a container; otherwise the window passes the test or is the container method 2 finds |
| Resolver.ActiveComposeWindowIs | content.js:119-127 | method 1 wins: the first candidate, in selector then document order, that passes `isComposeWindow` is the window, whatever method 2 would find |
| Resolver.ActiveComposeWindowViaControl | content.js:129-162 | when no candidate passes, the window is the container of the first compose control that has one |
| Resolver.FindActiveComposeWindow | content.js:101-163 | the loops of `findActiveComposeWindow` return the window `ActiveComposeWindow` chooses |
| Resolver.FindComposeControlContainer | content.js:138-158 | the loop over compose controls returns the container of the first control that has one |
| Resolver.FindControlContainer | content.js:139-155 | one round of the loop: the compose control of that rank, when found, gives the container method 2 assigns it |
| Resolver.ViaComposeControlIs | content.js:138-158 | a compose control with a container, every earlier control being missing or without one, decides method 2 |
| Resolver.ViaComposeControlStep | content.js:138-158 | one step of method 2: a control with a container decides it, otherwise the next control is tried |
| Resolver.FindContainer | content.js:142-156 | the loop over container selectors, then the parent fallback, returns the control's container |
| Resolver.FirstTierEmail | content.js:210-232 | the first tier's address holds an `@`, and there is none exactly when no recipient element's candidate text shows an `@` |
| Resolver.ShortTextEmail | content.js:239-241 | an element's text yields a match exactly when its length is under 200 UTF-16 code units and the pattern matches, and the match holds an `@` |
| Resolver.SecondTierEmail | content.js:234-247 | the second tier's address holds an `@`, and there is none exactly when no element's text is under 200 UTF-16 code units and matches |
| Resolver.SecondTierFrom | content.js:238-245 | the second tier yields the match in the first text, in document order, that is under 200 UTF-16 code units and has one |
| Resolver.ThirdTierEmail | content.js:249-261 | the third tier's address holds an `@`, and there is none exactly when no input value holds one |
| Resolver.ThirdTierFrom | content.js:249-261 | the third tier yields the value of the first input, in document order, that holds an `@` |
| Resolver.FoundEmail | content.js:207-261 | the address settled on is empty or holds an `@`, and is empty exactly when all three tiers find nothing; which tier decides is stated by the `RecipientFrom` lemmas |
| Resolver.CleanEmail | content.js:271-275 | cleaning gives a part of the raw address, and keeps an `@` when the raw address has one |
| Resolver.CleanEmailIs | content.js:270-275 | cleaning keeps exactly the leftmost address-shaped span of the raw text, the longest one from that start |
| Resolver.CleanEmailWithoutMatch | content.js:270-275 | raw text without an address-shaped span is kept as it is |
| Resolver.NameFromEmail | content.js:277-286 | the name holds no `@`, `.`, `_` or `-`; it is the first-name token of the cleaned address with its first character upper-cased and every other character lower-cased |
| Resolver.RecipientName | content.js:177-291 | the name is null exactly when no tier finds an address, and otherwise holds no `@` or separator |
| Resolver.Capitalize | content.js:283 | the name keeps the token's length: its first character upper-cased, the rest lower-cased |
| Resolver.FirstNameTokenIsPrefix | content.js:277-280 | the first-name token is a prefix of the cleaned address holding no `@` and no separator, cut only at one of those |
| Resolver.NameHasNoSeparators | content.js:277-286 | the derived name never contains `@`, `.`, `_` or `-` |
| Resolver.RecipientAbsent | content.js:263-266 | the name is null exactly when no tier finds an `@` |
| Resolver.RecipientFromFirstTier | content.js:210-232 | the first recipient element showing an `@` decides the name: it comes from that element's text, trimmed |
| Resolver.RecipientFromSecondTier | content.js:234-286 | without a first-tier address the second tier decides, before the third is consulted: the name comes from the match in the first short text that has one |
| Resolver.RecipientFromThirdTier | content.js:249-286 | only when the first two tiers find nothing does the third decide: the name comes from the first input value holding an `@` |
| Resolver.SearchRecipientElements | content.js:210-232 | the first loop returns the first tier's address, or "" |
| Resolver.FirstShowingAddress | content.js:214-230 | the inner loop stops at the first element whose candidate text holds an `@` |
| Resolver.SearchShortTexts | content.js:234-247 | the second loop returns the second tier's address, or "" |
| Resolver.SearchInputValues | content.js:249-261 | the third loop returns the third tier's address, or "" |
| Resolver.ExtractRecipientName | content.js:177-291 | the method returns the name `RecipientName` derives: null without an address, else the capitalised first token of the cleaned address |
| Resolver.SubjectField | content.js:313-341 | the subject field found is visible, or is a fallback whose label mentions "subject" |
| Resolver.LabelledSubject | content.js:331-341 | the fallback is the first text input or editable, in document order, whose lower-cased label contains "subject"; none exactly when no label does |
| Resolver.SubjectFieldIs | content.js:313-329 | the first visible candidate, in selector then document order, is the subject field |
| Resolver.SubjectFieldFallback | content.js:331-341 | the labelled fallback is consulted only when no candidate is visible, and then decides |
| Resolver.BodyField | content.js:393-427 | the body field found looks like a message body, or is an editable whose area is above 10000 |
| Resolver.BodyFieldIs | content.js:393-408 | the first candidate that looks like a body, in selector then document order, is the body field, whatever the sizes of the editables |
| Resolver.SubjectFieldAbsent | content.js:313-346 | there is no subject field exactly when no candidate is visible and no fallback's label mentions "subject" |
| Resolver.BodyFieldBySize | content.js:410-427 | when no candidate looks like a body, the body field is the earliest editable of largest area above 10000; there is none exactly when every area is at most 10000 |
| Resolver.FindSubjectField | content.js:313-341 | the subject search's loops return the field `SubjectField` chooses |
| Resolver.FindLabelledSubject | content.js:330-341 | the fallback loop returns the first text input or editable whose lower-cased label contains "subject" |
| Resolver.FindBodyField | content.js:393-427 | the body search's loops, the running maximum included, return the field `BodyField` chooses |
| Resolver.FirstAttach | content.js:478-482 | the window's attach candidate is the result of the first attach selector that finds one, every earlier one giving null; none exactly when every selector gives null there |
| Resolver.AttachControl | content.js:478-491 | there is no attach control exactly when every attach selector gives null in the window and the document-wide fallback gives null too |
| Resolver.AttachControlIs | content.js:478-482 | the window's first attach candidate, in selector order, is the attach control |
| Resolver.AttachControlFallback | content.js:484-487 | the document-wide fallback is used only when the window holds no attach candidate, and then decides |
| Resolver.ChosenControl | content.js:493-501 | the control used is the attach control or the file input, which is the window's first `input[type="file"]`, else the document's; it stays the attach control when that is a file input or no file input exists |
| Resolver.AttachPlan | content.js:478-519 | a delivery is planned exactly when an attach control is found; the files go to the chosen control exactly when it is a file input; otherwise the file is dropped on the window's first `[role="textbox"], .Am` element, or on the window itself |
| Resolver.AttachPrefersFileInput | content.js:493-519 | a file is delivered exactly when an attach control is found; a file input always takes the file; a drop happens only when the control is not a file input and there is no file input anywhere |
| Resolver.NameOfAddress | content.js:271-286 | for a well-formed address the name is the capitalised text of the local part before its first `.`, `_` or `-` |
| Resolver.NameOfCleanAddress | content.js:271-286 | when cleaning leaves the address whole, the name is the capitalised first token of its local part |
| Resolver.NameOfDottedAddress | content.js:271-286 | "jane.doe@example.com" gives the name "Jane" |
| Resolver.DottedLocalPartName | content.js:278-283 | the local part "jane.doe" gives "Jane" |
| Resolver.NameOfUnderscoredAddress | content.js:271-286 | "bob_smith99@x.org" gives the name "Bob" |
| Resolver.UnderscoredLocalPartName | content.js:278-283 | the local part "bob_smith99" gives "Bob" |
| Resolver.CapitalizeLowerWord | content.js:283 | a word already in lower case is only given an upper-case first letter |
| Resolver.LowerTokenName | content.js:278-283 | a lower-case first token ending at a `.`, `_` or `-` becomes the name with only its first letter raised |
| Greeting.FinalBody | content.js:67-75 | the final body starts with "Hi" and ends with the requested body |
| Greeting.ResultMessage | content.js:89-92 | a personal message carries exactly the name between its prefix and the closing "!" |
| Greeting.GreetingRoundTrip | content.js:67-75 | the name can be read back from the greeting; a falsy name leaves none |
| Greeting.GreetingNeverBlank | content.js:78 | `finalBody.trim()` is never empty, so the body is always injected |
| Greeting.MessageMatchesGreeting | content.js:67-92 | the greeting and the result message are personal for the same names, and name the same person |
| Greeting.LeadingSeparatorGivesGenericGreeting | content.js:69-75 | "-bob@x.com" gives the empty name, which is falsy, so the greeting is generic |
| Injector.Dom.Focus | content.js:351 | `focus()` only appends a focus step to the log |
| Injector.Dom.SetValue | content.js:352 | assigning `value` changes that element's value and nothing else |
| Injector.Dom.SetTextContent | content.js:362 | assigning `textContent` changes that element's text and nothing else |
| Injector.Dom.SetInnerHtml | content.js:438 | assigning `innerHTML` changes that element's markup and nothing else |
| Injector.Dom.SetFiles | content.js:508 | assigning `files` replaces that input's files and nothing else |
| Injector.Dom.Dispatch | content.js:509 | `dispatchEvent` only appends the event to the log |
| Injector.SubjectWrite | content.js:348-369 | the subject write only adds to the log and leaves markup and files alone; it changes nothing exactly when the field is neither an input nor editable |
| Injector.BodyWrite | content.js:434-456 | the body write logs eight steps, leaves values and files alone, and leaves markup without line feeds in the field |
| Injector.Deliver | content.js:507-519 | delivering logs one step and leaves values, texts and markup alone |
| Injector.SubjectWriteShows | content.js:348-369 | after the subject write an input shows the subject as its value and an editable as its text; focus comes first and `blur` last; any other element is untouched |
| Injector.SubjectWriteIdempotent | content.js:348-369 | writing the same subject twice leaves the same fields as writing it once |
| Injector.BodyWriteShows | content.js:434-456 | after the body write the markup holds no line feed and gives the text back; `textContent` is written only for empty text; eight steps are logged |
| Injector.BodyWriteIdempotent | content.js:434-456 | writing the same body twice leaves the same fields as writing it once |
| Injector.DeliverShows | content.js:507-519 | a file input ends up holding exactly the sample file and gets one `change`; a drop writes nothing and logs one event |
| Assistant.Compose | content.js:37-99 | a request succeeds exactly when its subject is empty or a subject field exists, and a body field exists; success names the recipient, a failure carries one of the two field errors, and a missing subject field leaves the DOM untouched |
| Assistant.ComposeAssistant.constructor | content.js:3-6 | a new assistant is not ready |
| Assistant.ComposeAssistant.MarkReady | content.js:10-13 | once the page has loaded the assistant is ready |
| Assistant.ComposeAssistant.InjectSubject | content.js:293-373 | fails with the subject error and writes nothing when there is no subject field; otherwise performs the subject write |
| Assistant.ComposeAssistant.DispatchAll | content.js:446-449 | dispatches one event of each kind, in order, and changes nothing else |
| Assistant.ComposeAssistant.InjectBody | content.js:375-465 | fails with the body error and writes nothing when there is no body field; otherwise performs the body write |
| Assistant.ComposeAssistant.AttachFile | content.js:467-527 | returns true exactly when an attach control is found, and then delivers the sample file as planned; otherwise it changes nothing |
| Assistant.ComposeAssistant.HandleComposeEmail | content.js:37-99 | the response and the DOM left behind are those `Compose` gives for the request |
| Assistant.ResponseIgnoresAttachment | content.js:83-94 | the response never depends on the attach control or on the starting DOM |
| Assistant.ComposeSucceedsIff | content.js:37-99 | a request succeeds exactly when its subject is empty or a subject field exists, and a body field exists; a failure carries one of the two field errors |
| Assistant.FailureEffects | content.js:61-81 | a missing subject field aborts before any write; a missing body field keeps only the subject write |
| Assistant.AfterAttachKeepsFields | content.js:503-519 | attaching leaves values, texts and markup alone and only adds to the log |
| Assistant.ExtendsTransitive | content.js:37-99 | the log only grows across the steps of a request |
| Assistant.AfterSubjectShows | content.js:61-65 | the optional subject write only adds to the log, leaves the markup alone, and puts the subject into an input field |
| Assistant.SuccessEffects | content.js:37-99 | after a success the body field holds the greeted body as markup, the message names the recipient exactly when the greeting does, an input subject field holds the subject, and the log only grows |

## Left out

- `waitForGmail` (content.js:24-35) and the 500 ms pause before composing. They are polling and timers. `MarkReady` stands for the wait completing. `HandleComposeEmail` assumes the wait for readiness (content.js:41-43) ends. On a page where neither `[role="main"]` nor `.nH` ever appears, the source never answers the request, while the model always returns `Compose(...)`.
- The `chrome.runtime.onMessage` listener (content.js:16-21) and `sendResponse`. These are browser messaging. The response is the method's result.
- `popup.js` is not part of this model.
- `console.log` and `console.error` output.
- The delayed re-focus of the body field (`setTimeout`, content.js:459-461). It is a timer.
- The PDF bytes that `createSampleFile` builds. Only the file's name and type (content.js:585) are modelled.
- The browser's selector engine and layout. Query results, `closest` results and bounding rectangles are given as a snapshot, and element identity is given there as an element id that keys every write. One snapshot serves the whole request, so the writes of one step are not seen by the searches of the next.
- The DOM's own coupling between `textContent` and `innerHTML`. `innerHTML` is read back as the string last written.
- `getBoundingClientRect` dimensions are whole CSS pixels, not floating-point numbers.
- Case mapping covers ASCII letters only. Every other character is kept.
- The `if (!composeWindow)` branch (content.js:49-52) cannot run. `findActiveComposeWindow` always returns an element or the document, so the model has no null window. `ComposeSucceedsIff` states that the error is never produced.
- The `catch` of `extractRecipientName` (content.js:287-290). The source reaches it when a first-tier element's `value` property is a non-zero number, such as an `<li value="3" title="jane@x.com">`: `substring` and `includes` (content.js:223, 225) then throw, and the name is null. `Element.value` is a string in the model, so a non-string `value` cannot be represented, and the null it causes is not modelled; the model reads "3", moves on and may find a name.
- The `catch` of `attachFile` (content.js:522-525) is reached in the model only through the missing attach control. A failure inside `createSampleFile`, `DataTransfer` or `dispatchEvent` is browser behaviour and is not modelled.
- Overlapping requests. A request runs to completion in the model, while in the browser two requests could interleave at the `await`s of content.js:42-46, 85 and 503 and their writes mix.
- `Resolver.FirstShowingAddress`, `Resolver.FindComposeControlContainer`, `Resolver.FindControlContainer` (the body of that loop), `Resolver.FindContainer` and `Resolver.FindLabelledSubject` are inner loops of the source methods, written as separate methods. The order of queries and the results are unchanged.
