# Portfolio site logic, modelled in Dafny

The portfolio site's `script.js` is mostly browser glue. Inside it is a small amount of
logic that can be stated and proved:

- **The project store** behind `window.portfolioAPI` and the "add project" form: a list of
  project records changed in place by `addProject`, `removeProject`, `updateProject` and
  `saveProject`, then re-rendered into the projects container.
- **Card rendering, in abstract form.** Each project becomes a card value: tags, links and
  an animation delay. Markup is not modelled.
- **The technology filter** on the rendered cards.
- **The parser for the comma-separated technology field.**
- **The form validators**, with the e-mail and phone regular expressions written out as
  predicates.
- **The viewport width classes and the breakpoint lookup.**
- **Section navigation**: next and previous section, the Ctrl/Meta + digit shortcut, and the
  horizontal-swipe decision.

Files, one module each:

| file | module | contents |
|---|---|---|
| `wrappers.dfy` | `Wrappers` | `Option` |
| `text.dfy` | `Text` | JavaScript `trim`, `split`, ASCII lower-casing, substring search, the technology parser |
| `uri.dfy` | `Uri` | `encodeURIComponent` over UTF-8 |
| `validation.dfy` | `Validation` | `validateInput`, `validateContactForm`, `validateProjectForm` |
| `viewport.dfy` | `Viewport` | `utils.isMobile/isTablet/isDesktop`, `getCurrentBreakpoint` |
| `navigation.dfy` | `Navigation` | section navigation, `parseInt` on key names, keyboard shortcuts, swipes |
| `projects.dfy` | `Projects` | project records, the shallow merge, and the store's list operations as functions |
| `rendering.dfy` | `Rendering` | cards, the projects container (a class), `filterProjects` |
| `store.dfy` | `Store` | the store as a class that mutates its list, re-renders and logs notifications |

The store and the container are classes whose methods change their fields. Each method is
specified by the list function in `Projects` or `Rendering` that it must agree with. The
properties of the store (identifier rule, removal, update, merge) are lemmas about those
functions.

**Identifiers.** `addProject` and `saveProject` give a new record the old list length plus
one as its identifier, not the largest identifier plus one. Identifiers therefore stay
`1..n` while records are only added (`Projects.AddsKeepSequentialIds`). A removal followed by
an add can produce a duplicate (`Projects.RemoveThenAddDuplicates`). After that,
`removeProject` and `updateProject` reach only the first record with the identifier. The
model follows the code here, not a description of identifiers as unique. Removing an
identifier twice equals removing it once exactly when at most one record carries it
(`Projects.RemoveTwice`); other identifiers may be duplicated. When two records carry it, the
second removal takes the other record (`Projects.RemoveTwiceWithDuplicates`).

**Inputs made into parameters.** The store's initial list is a constructor parameter,
because the page's own `projects` declaration is commented out. The window width is a field
of a `Window` object, or a parameter for pure functions. The current section, the touch
coordinates and times, and the pressed key are parameters. Notifications are recorded in a
`notices` list instead of being shown.

## Model

| member | source | states |
|---|---|---|
| Text.Trim | script.js:469 | the trimmed value is no longer than the input and has no white space at either end |
| Text.TrimStrips | script.js:469 | trimming removes only white space, and only from the two ends |
| Text.TrimUnique | script.js:469 | any strip of the input that removes only surrounding white space and leaves none is exactly the trimmed value |
| Text.TrimEmptyIffAllSpace | script.js:476 | the trimmed value is empty exactly when the input is all white space |
| Text.TrimAt | script.js:469 | trimming keeps exactly the part between the white space at the two ends |
| Text.TrimIdempotent | script.js:469 | trimming twice is trimming once |
| Text.Split | script.js:380 | splitting on ',' yields one more piece than there are commas; no piece holds a comma; joining the pieces with ',' gives the input back |
| Text.SplitJoin | script.js:380 | splitting the comma-join of comma-free pieces gives the pieces back |
| Text.TrimEach | script.js:381 | each entry is its token trimmed, in order |
| Text.DropEmpty | script.js:382 | only non-empty entries remain, each taken from the input; every non-empty string occurs exactly as often as in the input |
| Text.DropEmptyKeepsAll | script.js:382 | a list without empty strings passes the filter unchanged |
| Text.DropEmptyConcat | script.js:382 | filtering a concatenation concatenates the filtered parts, so order is kept |
| Text.ParseTechnologies | script.js:379-382 | every technology is non-empty and trimmed; there are at most one more than the number of commas |
| Text.ParseJoin | script.js:379-382 | parsing the comma-join of non-empty, trimmed, comma-free names gives back exactly those names, in order and with duplicates |
| Text.ParsePieces | script.js:379-382 | for any field cut at its commas into pieces, the result is exactly the non-empty trimmed pieces, in order and with duplicates |
| Text.ParseExample | script.js:379-382 | "A, B, A" parses to A, B, A: order and duplicates are kept |
| Text.ToLower | script.js:1181 | lower-casing keeps the length and lower-cases each character on its own |
| Text.ToLowerConcat | script.js:1181 | lower-casing distributes over concatenation |
| Text.Contains | script.js:1183 | text contains only needles no longer than itself, and always contains the empty string |
| Text.ContainsInMiddle | script.js:1183 | text containing the filter still contains it with more text on either side |
| Text.Utf16Length | script.js:490-493 | `length` counts UTF-16 code units: at least one and at most two per character, and exactly one per character iff no character lies beyond U+FFFF |
| Uri.Utf8 | script.js:378 | a character encodes to one byte below U+0080, two below U+0800, three below U+10000 and four above, each byte below 256; a single byte equals the code |
| Uri.Utf8RoundTrip | script.js:378 | decoding the bytes gives the character back; the leading byte announces the length and every other byte is a continuation byte |
| Uri.PercentByte | script.js:378 | a byte becomes '%' and two upper-case hex digits that read back as the byte |
| Uri.PercentRoundTrip | script.js:378 | percent-decoding the escapes gives the bytes back |
| Uri.EncodeURIComponent | script.js:378 | the output holds only unreserved characters, '%' and upper-case hex digits; an all-unreserved input comes out unchanged; the output is one to twelve times as long as the input |
| Uri.EncodeConcat | script.js:378 | encoding a concatenation concatenates the encodings |
| Uri.EncodeSingle | script.js:378 | a single unreserved character stays, any other becomes the percent escapes of its UTF-8 bytes |
| Uri.EncodeSpace | script.js:378 | a space becomes "%20" |
| Validation.MatchesEmail | script.js:482-483 | an address the pattern accepts has at least five characters and neither starts nor ends with white space or '@' |
| Validation.EmailPatternMeaning | script.js:482-483 | the e-mail pattern holds iff the value has no white space, exactly one '@', text before it, and a '.' after it with text on both sides |
| Validation.MatchesPhone | script.js:487-488 | the phone pattern holds iff, after an optional leading '+', at least ten characters follow, each a digit, white space, '-', '(' or ')' |
| Validation.PhoneShape | script.js:487-488 | an accepted phone number has at least ten characters, and a '+' only as its first |
| Validation.ValidateInput | script.js:468-507 | a non-empty accepted value is at least two UTF-16 code units long; an accepted e-mail address or phone number at least two characters |
| Validation.EmptyInputRule | script.js:476-478 | an empty or all-white-space value is rejected iff the field is required |
| Validation.EmailInputRule | script.js:481-484 | a non-empty e-mail field is accepted iff its trimmed value has the e-mail shape above |
| Validation.PhoneInputRule | script.js:486-489 | a non-empty telephone field is accepted iff its trimmed value has the phone shape above |
| Validation.OtherInputRule | script.js:490-493 | a non-empty field of any other type is accepted iff its trimmed value is at least two code units long: two characters always pass, one passes iff it lies beyond U+FFFF |
| Validation.EmojiAccepted | script.js:490-493 | a required field holding a single emoji is accepted, since its `length` is 2 |
| Validation.ValidateIgnoresSurroundingSpace | script.js:469 | white space around the value never changes the verdict |
| Validation.ValidateContactForm | script.js:454-466 | the form is valid iff every required control is accepted; every required control is evaluated, none skipped after a failure, and each verdict is recorded |
| Validation.ValidateProjectForm | script.js:328-345 | the form is valid iff both trimmed fields are non-empty; each field's message appears exactly when that field is empty |
| Viewport.IsMobile | script.js:15-17 | a mobile width is at breakpoint 'xs', 'sm' or the first width of 'md'; a wider one is at 'md' or above |
| Viewport.IsDesktop | script.js:23-25 | a desktop width is never a mobile width |
| Viewport.IsTablet | script.js:19-21 | the tablet widths are exactly those neither mobile nor desktop |
| Viewport.ExactlyOneClass | script.js:15-25 | every width is exactly one of mobile, tablet and desktop |
| Viewport.ScanFromLargest | script.js:1484-1490 | the scan from the largest entry finds the last entry whose minimum is at most the width, or none when no entry fits |
| Viewport.CurrentBreakpoint | script.js:1484-1492 | the name returned is an entry of the table that applies to the width (for a non-negative width), and no entry that applies has a larger minimum |
| Viewport.BreakpointRank | script.js:1484-1492 | the current breakpoint is an entry of the table |
| Viewport.ScanPicksLargestFit | script.js:1484-1490 | on an ascending table, the entry found has the largest minimum that fits |
| Viewport.BreakpointIsLargestFit | script.js:1475-1492 | for a non-negative width the breakpoint's minimum is at most the width, and no breakpoint that fits has a larger minimum |
| Viewport.BreakpointMonotone | script.js:1475-1492 | a wider window never gets a smaller breakpoint |
| Viewport.NarrowIsXs | script.js:1484-1492 | every width below 576, negative ones included, is 'xs' |
| Navigation.IndexOf | script.js:649 | `indexOf` gives the first position of the section, or -1 iff it is absent |
| Navigation.IndexOfSection | script.js:646-649 | the six section names are distinct, so each is found at its own position |
| Navigation.NextSection | script.js:646-658 | there is a next section iff the current one is not the last; it is the section one position further on, and an unknown section goes to 'home' |
| Navigation.PrevSection | script.js:660-672 | there is a previous section iff the current one is known and not the first; it is the section one position back |
| Navigation.NextPrevInverse | script.js:646-672 | from a known section, going to the next section and then the previous one, or the other way round, returns to that same section |
| Navigation.NavigationEnds | script.js:646-672 | nothing follows 'resume' and nothing precedes 'home'; an unknown section goes forward to 'home' and nowhere backward |
| Navigation.ParseInt | script.js:937 | a number is read iff at least one digit follows the white space, the sign and any "0x" prefix; then the key is not blank, and a negative number needs a leading '-' |
| Navigation.ParseDecimal | script.js:937 | when a decimal numeral follows the white space and sign, the whole numeral is read, negated after '-' |
| Navigation.DecimalKey | script.js:937 | a key of decimal digits parses to the number it denotes |
| Navigation.SignedDecimalKey | script.js:937 | a sign followed by decimal digits parses to the number or its negation |
| Navigation.DigitRun | script.js:937 | `parseInt` reads the longest run of digits |
| Navigation.ShortcutTarget | script.js:935-941 | with Ctrl or Meta held, a key selects a section iff `parseInt` reads a number k from 1 to 6 from it, and then it selects section k-1 |
| Navigation.ShortcutSection | script.js:935-941 | with Ctrl or Meta held, a key selects a section iff `parseInt` reads from it a number k from 1 to 6, and then the section at position k-1 |
| Navigation.InstalledShortcut | script.js:931-941 | on a page opened at a mobile width no key selects anything; otherwise the shortcut rule applies |
| Navigation.DigitShortcuts | script.js:935-941 | Ctrl+1 to Ctrl+6 select the six sections in page order; Ctrl+0 and Ctrl+7 to Ctrl+9 select nothing |
| Navigation.InstalledDigitShortcuts | script.js:931-941 | shortcuts work only when the page was opened wider than 768 pixels |
| Navigation.SwipeDirection | script.js:625-639 | a swipe counts only within 500 ms, with horizontal travel above 50 pixels and above the vertical travel; leftward travel goes forward and rightward goes back |
| Navigation.SwipeMirror | script.js:625-639 | mirroring a swipe flips its direction and changes nothing else |
| Navigation.TouchSwipe | script.js:618-639 | a touch that started at x = 0 or y = 0 is never a swipe; otherwise the swipe is decided on start minus end |
| Navigation.LeftEdgeSwipeIgnored | script.js:619 | a quick, long, horizontal swipe from the left edge of the screen is ignored, although its movement alone counts as a swipe |
| Navigation.SwipeTarget | script.js:625-672 | a forward swipe goes where the next-section rule leads, a backward one where the previous-section rule leads, anything else nowhere; a move always reaches another known section |
| Navigation.SwipeBackAndForth | script.js:625-672 | a swipe and then its mirror bring a known section back to itself |
| Projects.Merge | script.js:1583 | every field the payload carries wins; every other field keeps the record's value |
| Projects.MergeNoChange | script.js:1583 | merging an empty update changes nothing |
| Projects.MergeIdempotent | script.js:1583 | applying the same update twice is applying it once |
| Projects.MergeThen | script.js:1583 | two successive updates equal one combined update in which the later fields win |
| Projects.FindIndex | script.js:1568 | `findIndex` gives the first record with the identifier, or none iff no record has it |
| Projects.Added | script.js:1561-1562 | one record is appended with identifier old length + 1, overriding the payload's; earlier records are unchanged |
| Projects.Removed | script.js:1567-1574 | an unknown identifier leaves the list unchanged; otherwise only the first record with it goes, the length drops by one, and the others keep their order |
| Projects.Updated | script.js:1580-1587 | an unknown identifier leaves the list unchanged; otherwise only the first matching record becomes its merge with the update; the length and every other record stay |
| Projects.UpdateNoChange | script.js:1580-1587 | an empty update leaves the list identical |
| Projects.UpdateCanRenumber | script.js:1580-1587 | with unique identifiers, an update that overwrites the identifier leaves the old identifier no longer found |
| Projects.AddAll | script.js:1561-1562 | adding k records lengthens the list by k |
| Projects.AddsKeepSequentialIds | script.js:1561-1562 | starting from identifiers 1..n, adds alone keep identifiers exactly 1..n+k, hence unique |
| Projects.RemoveThenAddDuplicates | script.js:1562-1570 | with identifiers 1..n, removing any but the last and then adding creates a duplicate identifier |
| Projects.RemoveTwice | script.js:1567-1574 | removing an identifier twice is removing it once iff at most one record carries it, in particular whenever identifiers are unique |
| Projects.RemoveTwiceWithDuplicates | script.js:1567-1574 | with a duplicated identifier, a second removal takes another record |
| Projects.PlaceholderImage | script.js:377-378 | the placeholder address is the fixed prefix followed by the URI-encoded title, so after the prefix only URI-safe characters follow |
| Projects.FromForm | script.js:372-385 | the record has the given identifier; title, description and both links are the trimmed fields; the image is the trimmed image field, or the placeholder for the trimmed title when that field is blank; the technologies are the parsed field, each non-empty and trimmed |
| Projects.SaveIsAdd | script.js:372-387 | saving the form appends exactly what `addProject` would append for the same record |
| Projects.SaveExample | script.js:372-387 | a form with technologies "A, B, A" saved into a two-record store becomes record 3 with technologies A, B, A |
| Rendering.CreateCard | script.js:249-290 | the card shows the record's image, title and description and one tag per technology, in order; a GitHub or live link iff that field is non-empty; the delay is the position times the step for the width |
| Rendering.RenderCards | script.js:231-240 | one card per record, in store order, each built with its own position |
| Rendering.DelaysIncrease | script.js:254-256 | the first card starts at once and each later card strictly later |
| Rendering.DelayStepAt768 | script.js:254-256 | at exactly 768 pixels the window counts as mobile, yet cards use the 100 ms step |
| Rendering.Shows | script.js:1181-1183 | a filter other than 'all' that is longer than the card's technology text hides the card |
| Rendering.Visibility | script.js:1176-1190 | each card's visibility depends only on that card's own technology text |
| Rendering.FilterAllShowsEverything | script.js:1176-1190 | the 'all' filter and the empty filter show every card |
| Rendering.TagMatchShows | script.js:1176-1190 | a filter found in one tag, ignoring ASCII case, keeps the card visible |
| Rendering.MatchAcrossTags | script.js:1181-1183 | the filter is matched against the joined tag text, so "ondj" shows a card tagged Python and Django although neither tag contains it |
| Rendering.Container.Filter | script.js:1176-1190 | each card's display is set from the filter on its own text; the cards stay |
| Store.ProjectStore.constructor | script.js:1560-1599 | the store starts with the given records and no notifications |
| Store.ProjectStore.Render | script.js:231-246 | the container shows the current records as cards for the current width, all visible; with no container nothing happens |
| Store.ProjectStore.AddProject | script.js:1561-1565 | the list becomes the added list, one success notice is logged, and the container is re-rendered |
| Store.ProjectStore.RemoveProject | script.js:1567-1574 | the list becomes the removed list; an unknown identifier logs nothing and leaves the container alone |
| Store.ProjectStore.UpdateProject | script.js:1580-1587 | the list becomes the updated list; an unknown identifier logs nothing and leaves the container alone |
| Store.ProjectStore.GetProjects | script.js:1576-1578 | the caller gets the current records, in order |
| Store.ProjectStore.SaveProject | script.js:372-396 | the form's record is appended with identifier old length + 1, exactly as `addProject` would do; one success notice is logged and the container re-rendered |
| Store.ProjectStore.RefreshLayout | script.js:1593-1598 | the cards are rebuilt for the current width, which also clears any filter |

## Left out

- Timers, animation and scheduling: notification auto-dismiss, AOS refresh, fade-in styles,
  smooth scrolling.
- DOM side effects of validation: CSS classes, error elements and their listeners. The
  verdicts are modelled, and the messages of `validateProjectForm`; the error messages of
  `validateInput` are not, since `Validation.ValidateInput` yields only the verdict.
- Notification markup and styling. A notice records only its message and style.
- HTML interpretation of interpolated record fields. Card text is kept as plain values.
- `getCurrentSection`, which reads scroll positions. The current section is a parameter.
- The swipe listener's touch bookkeeping: recording the start of a touch and resetting the
  start coordinates to 0 afterwards. `Navigation.TouchSwipe` takes the start and end
  coordinates and times, including the guard that ignores a touch starting at x = 0 or y = 0.
- Navigation.ParseInt: models `parseInt` for what a key name can be (white space, sign,
  "0x", decimal and hexadecimal digits). The value read is stated for decimal numerals;
  hexadecimal values are computed but no lemma states them. The digit-count limits of
  floating point are not modelled, because a key name is at most a few characters, and
  `-0` is read as 0; the shortcut rule rejects both alike.
- Text.ToLower: lower-cases ASCII letters only. JavaScript's `toLowerCase` also folds
  non-ASCII letters, so for non-ASCII filters and tags the filter model is an approximation.
- Uri.EncodeURIComponent: characters are Unicode scalar values, so the error JavaScript
  raises on a lone surrogate has no counterpart.
- Projects.Merge: an update field is either absent or a value. A spread property explicitly
  set to `undefined` is not modelled.
- Store.ProjectStore.GetProjects: the records are values, so the model cannot express that
  the source's copy is shallow. Reordering or resizing the returned array leaves the store
  alone, but the records and their technology arrays are shared with it, and so are the
  technology arrays `addProject` copies from its payload.
- Store.ProjectStore.SaveProject: resetting the form and hiding the modal dialog are not
  modelled.
