# Web-flow recorder: selector synthesis, capture and map assembly

This project models the recording core of a small browser-automation
mapper. An operator opens a page through the server (`POST /mapear`) and
clicks, types, presses Enter and downloads files. A script injected into the
page turns each DOM event into an *interaction* with a unique CSS selector.
The host process appends each interaction to a log and correlates downloads
and PDF-viewer navigations with the last click. `POST /stop` turns the log
into a *map*. A map holds an inferred login descriptor, de-duplicated steps
and a logout selector. The server also lists maps, returns one map, and
rewrites the `key` of fill and upload steps through a mapping sent by the
client.

The modules follow the two source files.

- `Wrappers`: `Option` and `Result`.
- `JsText`: the JavaScript string and number operations the code relies on.
  - truthiness and `||`;
  - ASCII `toLowerCase`;
  - `trim` and `\s` removal;
  - `split('?')[0]`;
  - decimal and hex numerals;
  - `parseInt(t, 10)`.
- `Interactions`: the logged interaction and the saved step, login and map.
- `Dom`: an abstract DOM tree, with a node named by its path of child
  positions. The browser's selector matching, visibility test and
  clickable-list matching are an `Oracle` supplied from outside.
- `Selectors`: selector synthesis in the injected script.
  - the `CSS.escape` polyfill and `cssQuote`, each with a decoder and a
    round-trip proof;
  - `shortSelector`;
  - `uniqueSelector`, the ancestor-chaining loop, as a method;
  - clickable-ancestor resolution;
  - the click and field decisions.
- `PageScript`: what `pushInteractionRaw` and the Enter listener report, and
  the per-selector input debounce as a class of listeners.
- `Assembly`: `stop`'s two passes, as methods proved equal to specification
  functions, with the properties of the saved map as lemmas. The passes are
  login inference, then step derivation with de-duplication and the
  download/click collision, followed by the logout pop and the result anchor.
- `Capture`: the recorder's module state as a class.
  - `start`;
  - the XHR/fetch counter;
  - the `reportInteraction` binding;
  - `pushDownloadOnce` with its 2000 ms window;
  - the download and PDF-response handlers;
  - `stop`.
- `Server`: the Express routes as a class holding the `running` flag, the
  recorder and the map directory.
  - file-name validation through `path.basename`;
  - the listing filter and sort;
  - the key-remap loop over an array of steps.

### Behaviour worth knowing

- **Login username.** The username slot takes the first text, email or tel
  field, whether or not a password was already seen.
- **`expectedUrl`.** It is read from `it.meta.reqUrl`. The host binding stores
  the request URL at the top level (`meta.reqUrl` of the binding's argument
  is the interaction's own `reqUrl`). So no map saved by this recorder has an
  `expectedUrl` (`Capture.NoExpectedUrlInSavedMap`).
- **Downloads 2000 ms or more apart.** Two such signals for one selector are
  both logged (`Capture.DownloadsApartBothLogged`). Assembly then
  de-duplicates them by `download::selector`, so the map has one download
  step (`Assembly.RepeatedDownloadsCollapse`).
- **Partial login.** A partly filled login descriptor is discarded, but its
  selectors still remove the matching interactions from the steps.
- **An element with an `id`.** It gets `#id` only when it has no truthy
  `data-testid` and no truthy `name` (`Selectors.IdComesAfterTestIdAndName`).
- **No retained step.** `steps.pop()` on an empty list throws. The model makes
  this an error: `stop` fails and the server answers 500 with the session
  still live.

## Model

| member | source | states |
|---|---|---|
| JsText.Or | app/src/funcoes/mapear.js:415-416 | `a \|\| b` on optional strings: the result is truthy iff either is, and it is `a` when `a` is truthy, else `b` |
| JsText.FirstTruthy | app/src/funcoes/mapear.js:409 | `a \|\| b \|\| c \|\| ''`: the first truthy of the three, else the empty string |
| JsText.LowerChar | app/src/funcoes/mapear.js:96 | an ASCII upper-case letter becomes the letter 32 code points later (its lower-case counterpart), every other character is unchanged, and whitespace stays whitespace |
| JsText.LowerOfLower | app/src/funcoes/mapear.js:409 | lower-casing a string with no upper-case letter gives the string back |
| JsText.StripSpaces | app/src/funcoes/mapear.js:409 | `replace(/\s+/g, '')`: no whitespace is left, a single character is dropped iff it is whitespace, and a string without whitespace is unchanged |
| JsText.StripSpacesAppend | app/src/funcoes/mapear.js:409 | stripping a concatenation strips each part, so with the one-character case every non-whitespace character survives, in order |
| JsText.NormalizeKeyIdempotent | app/src/funcoes/mapear.js:409 | a step key is lower-case and free of whitespace, and normalising it again changes nothing |
| JsText.TrimStart | app/src/funcoes/mapear.js:223 | the result is a suffix of the input, does not start with whitespace, and only whitespace was dropped |
| JsText.TrimEnd | app/src/funcoes/mapear.js:223 | the result is a prefix of the input, does not end in whitespace, and only whitespace was dropped |
| JsText.TrimEmptyIff | app/src/server.js:105 | `trim()` gives the empty string iff every character is whitespace |
| JsText.TrimNonEmptyIff | app/src/server.js:105 | `trim() !== ''` iff the string has a non-whitespace character |
| JsText.BeforeQuery | app/src/funcoes/mapear.js:437 | `split('?')[0]`: a prefix of the URL without `?`, cut exactly at the first `?` |
| JsText.Decimal | app/src/funcoes/mapear.js:141 | the decimal numeral of a number is non-empty and made of decimal digits |
| JsText.Hex | app/src/funcoes/mapear.js:74 | the hex numeral of a code unit is non-empty and made of hex digits |
| JsText.DecimalRoundTrip | app/src/funcoes/mapear.js:141 | reading back the decimal numeral of `n` gives `n` |
| JsText.HexRoundTrip | app/src/funcoes/mapear.js:74 | reading back the hex numeral of `n` gives `n` |
| JsText.DecimalInjective | app/src/funcoes/mapear.js:140-144 | different numbers have different decimal numerals |
| JsText.LeadingDigits | app/src/funcoes/mapear.js:92 | the longest prefix of digits that `parseInt` reads |
| JsText.ParseSignedDigits | app/src/funcoes/mapear.js:92 | `parseInt` of an optional `-` followed by digits gives that sign and the digits' value |
| JsText.ParseIntRoundTrip | app/src/funcoes/mapear.js:92 | `parseInt` of a signed decimal numeral gives back its sign and value |
| Dom.AncestorValid | app/src/funcoes/mapear.js:151-156 | every ancestor of a node is a node, so the chaining loop only visits nodes |
| Dom.AttrIn | app/src/funcoes/mapear.js:91 | `getAttribute` is `null` iff the element has no attribute of that name, and otherwise returns one of its values |
| Selectors.SpaceFrom | app/src/funcoes/mapear.js:75 | the decoder finds the space that ends an escape: the first space at or after the position, or the end |
| Selectors.CssEscape | app/src/funcoes/mapear.js:72-76 | the `CSS.escape` polyfill: ASCII letters, digits, `_`, `-` and every character from U+00A0 up are kept (a character above U+FFFF stands for its two kept surrogates), any other character becomes `\HEX `; `EscapeRoundTrip` proves it decodable |
| Selectors.IdSelector | app/src/funcoes/mapear.js:82 | `#` followed by the escaped id; `IdSelectorRoundTrip` proves the id recoverable |
| Selectors.CssQuote | app/src/funcoes/mapear.js:81 | backslashes, then double quotes, escaped with a backslash; `CssQuotePerChar` and `QuoteRoundTrip` prove it a per-character, decodable escape |
| Selectors.EscapeRoundTrip | app/src/funcoes/mapear.js:72-76 | the `CSS.escape` polyfill is decodable: unescaping `\HEX ` sequences recovers the original string |
| Selectors.IdSelectorRoundTrip | app/src/funcoes/mapear.js:82 | `idSelector(id)` is `#` followed by an escape that decodes to `id` |
| Selectors.QuoteRoundTrip | app/src/funcoes/mapear.js:81 | `cssQuote` is decodable: removing the backslash escapes recovers the original value |
| Selectors.CssQuotePerChar | app/src/funcoes/mapear.js:81 | the two chained `replace` calls equal escaping each character on its own |
| Selectors.FirstDataAria | app/src/funcoes/mapear.js:131-137 | the chosen attribute is the first name in `getAttributeNames()` order that starts with `data-` or `aria-` and has a truthy value, returned with that value; when none is chosen, no name qualifies |
| Selectors.PositionalSelectorInjective | app/src/funcoes/mapear.js:138-144 | the `:nth-child` selector determines the child position |
| Selectors.ShortSelector | app/src/funcoes/mapear.js:126-145 | the test id, else the name, else the id, else the first usable `data-`/`aria-` attribute, else tag, classes and `:nth-child`; `IdComesAfterTestIdAndName`, `SiblingsGetDistinctSelectors` and `ShortSelectorNonEmpty` state its properties |
| Selectors.SiblingsGetDistinctSelectors | app/src/funcoes/mapear.js:126-145 | two siblings with the same tag and classes and no distinguishing attribute still get different short selectors |
| Selectors.IdComesAfterTestIdAndName | app/src/funcoes/mapear.js:126-130 | an element with an `id` but no truthy `data-testid` or `name` gets `idSelector(id)` |
| Selectors.AncestorShortsAt | app/src/funcoes/mapear.js:148-158 | entry `m` of the ancestor chain is the short selector of the ancestor at depth `m` |
| Selectors.UniqueLevel | app/src/funcoes/mapear.js:148-158 | the chaining stops at the first level whose chained selector is unique, or at the root |
| Selectors.UniqueLevelIs | app/src/funcoes/mapear.js:148-158 | the stopping level is pinned down by its two properties: the first unique level at or above the start, else the root |
| Selectors.ChainStep | app/src/funcoes/mapear.js:152-155 | one loop iteration prepends the parent's short selector with ` > ` |
| Selectors.UniqueSelector | app/src/funcoes/mapear.js:148-158 | the loop returns the chained selector of the first unique level, or the root-level chain when none is unique |
| Selectors.HasPositiveTab | app/src/funcoes/mapear.js:90-93 | a `tabindex` whose `parseInt` is a number not below zero; `PositiveTabOfNumeral` gives its value on every signed numeral |
| Selectors.HasRole | app/src/funcoes/mapear.js:94-97 | a truthy `role` whose lower-cased value is one of the listed roles |
| Selectors.IsClickableCandidate | app/src/funcoes/mapear.js:105-117 | the six tests of `isClickableCandidate`, in source order, on a node of the tree |
| Selectors.PositiveTabOfNumeral | app/src/funcoes/mapear.js:90-93 | a `tabindex` written as a signed decimal is clickable iff it is non-negative (`-0` included) |
| Selectors.Closest | app/src/funcoes/mapear.js:121 | `closest`: the nearest ancestor-or-self matching the clickable list; none when no ancestor-or-self matches |
| Selectors.NearestCandidate | app/src/funcoes/mapear.js:122 | the climb stops at the nearest ancestor-or-self that is a clickable candidate, or finds none |
| Selectors.ClickableIsNearest | app/src/funcoes/mapear.js:119-124 | the clickable element is `closest`'s match when there is one; otherwise it is the nearest candidate above the target, or the target itself when there is none |
| Selectors.GetClickable | app/src/funcoes/mapear.js:119-124 | the climbing loop computes the clickable element |
| Selectors.VisibleCandidateAbove | app/src/funcoes/mapear.js:163-167 | the rebase loop's result: the nearest strict ancestor that is a visible clickable candidate, or none when no strict ancestor is |
| Selectors.ClickDecision | app/src/funcoes/mapear.js:160-176 | a click is skipped with `no-visible-clickable-ancestor` iff no visible element was chosen; it is accepted iff the chosen element's unique selector is unique, and then that is the selector; `not-visible` never happens |
| Selectors.BuildSelectorForClick | app/src/funcoes/mapear.js:160-176 | the method computes the click decision |
| Selectors.FieldDecision | app/src/funcoes/mapear.js:178-194 | a field is accepted iff its selector is unique and it is visible or a file input; `not-unique` iff the selector is not unique; visibility plays no part for a file input |
| Selectors.BuildSelectorForField | app/src/funcoes/mapear.js:178-194 | the method computes the field decision |
| PageScript.Truncate | app/src/funcoes/mapear.js:223 | `slice(0, n)`: the prefix of length `n`, or the whole string when it is no longer than `n` |
| PageScript.RawRecord | app/src/funcoes/mapear.js:197-228 | the record `pushInteractionRaw` reports, or none when the decision skips; `RecordedSelectorIsUnique` states what it carries |
| PageScript.UniqueSelNonEmpty | app/src/funcoes/mapear.js:148-158 | every synthesised selector is a non-empty string, so an accepted one is truthy |
| PageScript.AcceptedSelectorIsUnique | app/src/funcoes/mapear.js:200 | an accepted click or field decision carries a non-empty selector matching exactly one node |
| PageScript.RecordedSelectorIsUnique | app/src/funcoes/mapear.js:197-228 | a reported record has a truthy selector matching exactly one node, the action asked for and the element's lower-cased tag, and carries no network flag, request URL or meta |
| PageScript.PushInteractionRaw | app/src/funcoes/mapear.js:197-228 | the method reports the record the decision allows |
| PageScript.OnKeydown | app/src/funcoes/mapear.js:258-284 | a record is reported iff the key is Enter and the focused field is accepted; it is a `press` with the field's selector, `meta.key = 'Enter'` and the field's tag and attributes |
| PageScript.Schedule | app/src/funcoes/mapear.js:232-237 | `debounced`: a skipped field changes nothing, otherwise the selector's timeout is replaced by one due a quiet period later |
| PageScript.Flush | app/src/funcoes/mapear.js:238-241 | `flushInput`: a pending timeout for the selector is cancelled and its input reported |
| PageScript.Fire | app/src/funcoes/mapear.js:235 | a timeout firing: its element's input is reported and the timeout removed |
| PageScript.BurstReportsOnce | app/src/funcoes/mapear.js:231-237 | two keystrokes in one field leave one timeout, due a quiet period after the second; it reports exactly one input when it fires |
| PageScript.ChangeFlushesPendingInput | app/src/funcoes/mapear.js:238-248 | a change on a field with a pending timeout reports the input first and then the change, and cancels the timeout |
| PageScript.ChangeWithoutPendingInput | app/src/funcoes/mapear.js:238-248 | with no pending timeout a change reports only the change |
| PageScript.PendingInputReportedOnce | app/src/funcoes/mapear.js:238-241 | a blur reports a pending input once and cancels it, and a second blur changes nothing |
| PageScript.Listeners.OnClick | app/src/funcoes/mapear.js:243 | every click is handed to `pushInteractionRaw` |
| PageScript.Listeners.Debounced | app/src/funcoes/mapear.js:232-237 | the pending timeout of the field's selector is replaced by a fresh one; a skipped field changes nothing |
| PageScript.Listeners.FlushInput | app/src/funcoes/mapear.js:238-241 | a pending timeout is cancelled and its input reported at once |
| PageScript.Listeners.FireTimer | app/src/funcoes/mapear.js:235 | a due timeout reports its element and removes itself |
| PageScript.Listeners.OnInput | app/src/funcoes/mapear.js:250-253 | input and textarea events are debounced; others are ignored |
| PageScript.Listeners.OnChange | app/src/funcoes/mapear.js:244-249 | on input, textarea and select: flush, then report the change |
| PageScript.Listeners.OnBlur | app/src/funcoes/mapear.js:254-257 | on input and textarea: flush |
| Assembly.LoginScan | app/src/funcoes/mapear.js:363-375 | the login slots after the forward pass; `FirstFieldWins`, `SubmitAfterCredentials` and `LoginDescriptorIff` state its meaning |
| Assembly.LoginStep | app/src/funcoes/mapear.js:364-375 | one interaction fills at most one slot, a truthy slot is never overwritten, and the submit slot only changes on a submit click once username and password are set |
| Assembly.InferLogin | app/src/funcoes/mapear.js:363-375 | the login loop computes the login scan |
| Assembly.FirstFieldWins | app/src/funcoes/mapear.js:367-370 | the username (password) slot is set iff some interaction qualifies for it, and then it holds the first qualifying interaction's selector |
| Assembly.SubmitAfterCredentials | app/src/funcoes/mapear.js:371-374 | the submit slot is set iff some submit click comes after both credentials are set, and it holds the first such click's selector |
| Assembly.SubmitSlotStep | app/src/funcoes/mapear.js:371-374 | one iteration keeps a set submit slot, fills an empty one on a qualifying submit click, and otherwise leaves it falsy |
| Assembly.LoginDescriptorIff | app/src/funcoes/mapear.js:461 | the map's login is populated iff a username field, a password field and a later submit click all occur; otherwise it is `{}` |
| Assembly.Descriptor | app/src/funcoes/mapear.js:461 | the descriptor is populated iff all three slots are truthy, and then it holds exactly those selectors |
| Assembly.LoginSelectors | app/src/funcoes/mapear.js:377 | `filter(Boolean)`: exactly the non-empty slot values |
| Assembly.ActOf | app/src/funcoes/mapear.js:390-406 | the step action of an interaction: download, upload (file input), click, fill, select, press on Enter, else none |
| Assembly.FieldKey | app/src/funcoes/mapear.js:409 | the name, else the placeholder, else the id, normalised; `NormalizeKeyIdempotent` states the key's form |
| Assembly.MetaOf | app/src/funcoes/mapear.js:413-437 | a step's meta: the interaction's `key` and `reqUrl`, role, text, network flag, `uploadDir` on uploads, `key: 'Enter'` on presses and `expectedUrl` from `meta.reqUrl` |
| Assembly.MakeStep | app/src/funcoes/mapear.js:409-446 | a step has the action and selector; a download step has no key and no meta; a fill or upload step, and only those, has the normalised key |
| Assembly.SeenKeysNext | app/src/funcoes/mapear.js:410 | the `seen` set grows by the current key, and the key is new iff the interaction is the first with that key |
| Assembly.DeriveSteps | app/src/funcoes/mapear.js:378-447 | the steps loop computes the kept steps in log order |
| Assembly.KeptSteps | app/src/funcoes/mapear.js:387-447 | the steps of the kept interactions in log order; `KeptStepsOrigin`, `KeptStepsComplete` and `KeptStepsDistinct` state its meaning |
| Assembly.KeptStepsOrigin | app/src/funcoes/mapear.js:387-447 | each step comes from a kept interaction, and the steps are in increasing log order |
| Assembly.KeptStepsComplete | app/src/funcoes/mapear.js:387-447 | every kept interaction yields a step |
| Assembly.KeptStepsDistinct | app/src/funcoes/mapear.js:410 | no two steps share the pair (action, selector) |
| Assembly.AssembledMap | app/src/funcoes/mapear.js:449-464 | the saved map, or the error of popping an empty list; `LogoutIsLastStep`, `SavedStepsWellFormed` and `AssemblyFailsIffNothingKept` state its meaning |
| Assembly.Assemble | app/src/funcoes/mapear.js:363-464 | the whole of `stop`'s assembly computes the assembled map, or the error of popping an empty step list |
| Assembly.MarkResultShape | app/src/funcoes/mapear.js:453-456 | only the last step of a `consultar` map gets `resultSelector`; the other steps are unchanged |
| Assembly.AssemblyFailsIffNothingKept | app/src/funcoes/mapear.js:450 | assembly fails iff no interaction is kept |
| Assembly.LogoutIsLastStep | app/src/funcoes/mapear.js:449-464 | the logout is the selector of the last derived step; the saved steps are the others in order, marked only as the result anchor rule says |
| Assembly.SavedStepsWellFormed | app/src/funcoes/mapear.js:387-447 | every saved step comes from the first interaction with its key, in log order, with a non-empty selector outside the login selectors |
| Assembly.RepeatedDownloadsCollapse | app/src/funcoes/mapear.js:410-428 | a map never holds two download steps for one selector |
| Assembly.ExpectedUrlOnlyFromMeta | app/src/funcoes/mapear.js:437 | a step gets `expectedUrl` only from a `reqUrl` inside its interaction's `meta` |
| Capture.Reported | app/src/funcoes/mapear.js:343-349 | a reported interaction is network-triggered iff a request was counted since the last report, and only then carries the last request URL (or `null`); nothing else changes |
| Capture.NoExpectedUrlInSavedMap | app/src/funcoes/mapear.js:437 | when no interaction's `meta` carries a request URL, no saved step has an `expectedUrl` |
| Capture.PushDownload | app/src/funcoes/mapear.js:46-54 | `pushDownloadOnce`: a download is logged and its time remembered unless one with the same key was logged less than 2000 ms earlier |
| Capture.DownloadsWithinWindowCollapse | app/src/funcoes/mapear.js:46-54 | a second download signal for the same key within 2000 ms logs nothing |
| Capture.DownloadsApartBothLogged | app/src/funcoes/mapear.js:46-54 | two signals for the same key at least 2000 ms apart are both logged |
| Capture.DownloadKeysIndependent | app/src/funcoes/mapear.js:47 | signals under different keys do not suppress each other; a missing and an empty selector share the key `__null__` |
| Capture.IsPdfNavigation | app/src/funcoes/mapear.js:300-306 | a response counts as a download iff its lower-cased content type contains `application/pdf` and it answers a navigation |
| Capture.LastClickIndex | app/src/funcoes/mapear.js:292 | the most recent click in the log, or no click at all |
| Capture.Recorder.constructor | app/src/funcoes/mapear.js:6-15 | the initial module state: no session, an empty log and zero counters |
| Capture.Recorder.Start | app/src/funcoes/mapear.js:26-34 | refused while live; otherwise the log, the download memory and the counter are reset and a falsy operation or category is stored as `null` |
| Capture.Recorder.OnRequest | app/src/funcoes/mapear.js:57-63 | only XHR and fetch requests are counted, and they record their URL |
| Capture.Recorder.ReportInteraction | app/src/funcoes/mapear.js:343-349 | the reported interaction is appended and the counter is reset |
| Capture.Recorder.PushDownloadOnce | app/src/funcoes/mapear.js:46-54 | the log and the download memory change as the 2000 ms window rule says |
| Capture.Recorder.OnDownload | app/src/funcoes/mapear.js:291-295 | a download is attributed to the last click's selector, or to none |
| Capture.Recorder.OnResponse | app/src/funcoes/mapear.js:298-314 | only a navigation delivering `application/pdf` counts as a download, attributed like one |
| Capture.Recorder.Stop | app/src/funcoes/mapear.js:359-475 | refused when idle; when assembly fails nothing changes; otherwise it returns the assembled map and clears the session, leaving the counter, the last URL and the download memory as they were |
| Server.StripTrailingSlashes | app/src/server.js:65 | a prefix of the path that does not end in `/`, and only `/` characters were removed |
| Server.AfterLastSlash | app/src/server.js:65 | the suffix after the last `/` |
| Server.Basename | app/src/server.js:65 | `path.basename` (POSIX): the whole last segment of the path once trailing slashes are removed, i.e. the slash-free suffix preceded by `/` or the start |
| Server.SafeMapName | app/src/server.js:65-68 | the base name, accepted when it ends in `.json` in any case, else 400; `SafeMapNameStaysInDirectory` states its meaning |
| Server.MapFileName | app/src/server.js:28 | the file name `mapa_<nomeArquivo>.json` handed to `start` |
| Server.SafeMapNameStaysInDirectory | app/src/server.js:63-70 | a name is accepted iff its basename ends in `.json` regardless of case, otherwise 400; an accepted name is that basename, has no `/`, is not `.` or `..`, and so stays inside the map directory |
| Server.JsonNames | app/src/server.js:55 | the filter keeps exactly the names ending in `.json` regardless of case, and only names from the listing |
| Server.LexLeTotal | app/src/server.js:55 | the default sort order compares any two names |
| Server.LexLeTransitive | app/src/server.js:55 | the default sort order is transitive |
| Server.Insert | app/src/server.js:55 | insertion adds exactly one element |
| Server.InsertSorted | app/src/server.js:55 | insertion into a sorted list keeps it sorted |
| Server.Sort | app/src/server.js:55 | sorting is a permutation |
| Server.SortSorted | app/src/server.js:55 | the sorted list is in non-decreasing order |
| Server.Listing | app/src/server.js:54-56 | the `.json` names of the directory, sorted; `ListingExact` states its meaning |
| Server.ListingExact | app/src/server.js:52-56 | the listing is sorted, a permutation of the filtered names, and holds a name iff it is in the directory and ends in `.json` |
| Server.RemapStep | app/src/server.js:101-108 | one iteration of the remap loop; `RemapStepEffect` states its meaning |
| Server.RemapStepEffect | app/src/server.js:101-107 | a step changes only when it is an object with a string `key` that the mapping owns with a string value that is not all whitespace; then `key` becomes that value and every other field is kept |
| Server.RemapAll | app/src/server.js:99-111 | the remap keeps the number of steps |
| Server.RemapStepKeys | app/src/server.js:99-111 | the loop remaps each step in place |
| Server.RemappedMap | app/src/server.js:97-111 | the map after the remap loop: 500 for `null`, the steps remapped when `steps` is an array, otherwise unchanged |
| Server.RemappedMapShape | app/src/server.js:97-111 | remapping fails iff the map is `null`; when it changes the map, only the `steps` array changes and it keeps its length |
| Server.RemapDocument | app/src/server.js:97-111 | the method computes the remapped map |
| Server.App.constructor | app/src/server.js:10-15 | the server starts with no session |
| Server.App.PostMapear | app/src/server.js:19-35 | 409 while running; 400 unless `url`, `nomeArquivo` and `modo` are truthy; otherwise a fresh session is started on `mapa_<nome>.json` with `modo` as operation and no category, an empty log, an empty download memory and a zero request counter (the last request URL kept), and the flag is set |
| Server.App.PostStop | app/src/server.js:37-47 | 409 when not running; 500, still running, when stop throws; otherwise 200 with the flag cleared, the assembled map saved and the recorder's log, output, operation and category cleared (counter, last request URL and download memory kept) |
| Server.App.GetMapa | app/src/server.js:63-78 | 200 with the stored map iff the name is safe and the map exists; 400 for an unsafe name, 404 for a missing map |
| Server.App.PostKeys | app/src/server.js:82-118 | 400 for an unsafe name, 404 for a missing map, 400 without an object `mapping`, 500 for a `null` map; otherwise the remapped map is stored and returned, and no other map changes |

## Left out

- The browser itself is out of scope: Playwright launch, contexts, pages, `page.goto`, the injected script's installation and `browser.close`. Launch and navigation failures are not modelled, so `POST /mapear` has no 500 path.
- `isVisible` (client rectangles, computed style, opacity), `document.querySelectorAll` and `el.matches(CLICKABLE_CSS)` are `Dom.Oracle` parameters; CSS selector parsing and matching are not modelled.
- `Date.now()`, `window.location.href` and timers are parameters; `setTimeout` is a pending-timer map fired explicitly. `Capture.Recorder.Stop` does not touch the `PageScript.Listeners` state, but in the code `stop` closes the browser, which destroys the page and its pending timers: an input still debounced when `/stop` arrives is never reported, and the model's pending timers are not to be fired after a stop.
- Popups are covered by the same download and response handlers; the cross-surface interleaving of events is not modelled.
- `fs` (directory listing, reading, writing, `existsSync`), `JSON.parse`/`JSON.stringify` and Express are not modelled. The map directory is a `map` from file name to JSON value. A read or parse failure (500) is not modelled. The file `stop` writes is returned by `PostStop` instead.
- JSON numbers are integers, object member order is not kept, and duplicate member names cannot occur.
- A non-string truthy `url`, `nomeArquivo` or `modo` in the request body is not modelled; the three are optional strings.
- `Server.Sort`: the listing sort compares code points; `Array.prototype.sort` compares UTF-16 code units, which order differently only for characters outside the Basic Multilingual Plane.
- `Server.Basename`: POSIX `path.basename` only; Windows separators are not modelled.
- `Server.RemapStepKeys`: `step.key = newK` mutates an object inside the parsed array; the model replaces the array element, which is the same because `JSON.parse` yields no shared objects.
- `JsText.Lower`, `JsText.LowerChar`: ASCII case mapping only; non-ASCII upper-case letters are left as they are.
- `Selectors.CssEscape`, `Selectors.IdSelector`: the polyfill is modelled; a native `CSS.escape` and the `idSelector` catch branch (reachable only when `CSS.escape` throws) are not.
- The `visible` and `unique` fields of a reported interaction are not modelled; assembly never reads them, and under the strict policy both are always true.
- An interaction's `meta` is reduced to `key` and `reqUrl`, the only keys assembly reads; the `uploadDir: null` entry is a flag.
- The download step's `url` (never produced, since the step is pushed earlier) and `console` logging are not modelled.
- The default `outputFile = 'mapa.json'` of `start` is not modelled: the server always passes a name.
- `Capture.Recorder.Start`, `Capture.Recorder.Stop`, `Server.App.PostMapear`, `Server.App.PostStop`: each handler runs as one atomic step. In the source, `start` sets `browser` only after `await chromium.launch`, and the server sets `running` only after `await mapper.start` (which includes `page.goto`) or `await mapper.stop`. So requests overlapping across those awaits are not modelled: two concurrent `POST /mapear` requests both passing the 409 guard, and the windows in which `running` and the recorder's session disagree.
- `PageScript.Truncate`: `slice(0, 120)` counts UTF-16 code units while the model counts code points; text with characters outside the Basic Multilingual Plane is cut at a different place, and JavaScript may split a surrogate pair.
- `Server.MapFileName`: the source writes to `path.join(MAP_DIR, ...)`, which resolves `..` segments, so a `nomeArquivo` such as `x/../../y` writes outside the map directory. The model keeps the raw name and does not store the written map in the directory, so `Server.SafeMapNameStaysInDirectory` covers only the read and key-remap routes.
