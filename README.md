# Notes screen and route guard, modelled in Dafny

This project models the client-side core of a small note-taking web application
and the route guard in front of it.

The notes screen keeps a list of pages, each with an id, a title, a Markdown
content and a favorite flag. It shows them in a sidebar with favorites first.
It lets the user toggle a favorite, edit the selected page's title and content,
add a page and delete one. It also searches all pages for a term (a
case-insensitive count of occurrences). It renders the selected page's Markdown
with the term highlighted, every heading carrying an anchor id, next to a
table of contents whose entries scroll to those ids.

The route guard lets public paths through. It sends every other request to the
login page `/` unless the request carries a `token` cookie that verifies.

Modules, in dependency order:

- `Wrappers`: `Option`.
- `Strings`: the JavaScript string primitives used.
  - The white-space set of `\s` and `trim`.
  - `toLowerCase` and `startsWith`.
  - The decimal rendering of a number.
- `Matching`: a literal term used as `new RegExp(`(${term})`, 'gi')`.
  - The leftmost, non-overlapping scan of occurrences.
  - `match(...).length` over that scan.
  - `split` with a capturing group, keeping the occurrences at the odd positions.
- `Pages`: the page record, the sidebar sort and the `find`/`map`/`filter`
  rebuilds of the page list.
- `NotesScreen`: class `Notes`, which holds the screen's state (`pages`,
  `selectedPageId`, `editedContent`, `isEditing`). Its methods are the handlers
  that replace that state.
- `Search`: `handleSearch`.
  - A loop over the pages that fills a `Map`. The `Map` is held as its entries
    in insertion order.
  - A reference definition of the results.
  - The proof that the two agree when page ids are unique.
- `Markdown`: the part of a parsed Markdown tree the page looks at, and
  `extractHeadings`. The latter is a work-list walk proved equal to a preorder
  listing of the headings.
- `Highlight`: the `remarkHighlight` plugin.
  - It splices the marked parts of each text node into the parent's children.
  - It is proved equal to a tree rewrite, and the rewrite is proved lossless.
- `Anchors`: the heading id (`replace(/\s+/g, '-').toLowerCase()`), the ids of a
  rendered page, and the table of contents' lookup of an id.
- `Middleware`: the route guard and its path matcher.

Inputs the model takes as parameters:

- The HTTP status of a delete is a parameter of `Notes.DeletePage`, and the
  answer to its confirmation dialog is another.
- The id the server gives a new page is a parameter of `Notes.AddNewPage`.
- The page list a load returns is a parameter of `Notes.LoadPages`.
- JWT verification (`jwt.verify` with the server secret) is a predicate
  parameter of `Middleware.Decide`.
- The parsed Markdown tree is an input of `ExtractHeadings` and
  `RemarkHighlight`.

The ids the rendered page gives its headings (src/app/notes/page.js:763-770) and
the ids the table of contents looks for (src/app/notes/page.js:836-841, through
page.js:430-436) disagree in three ways. The model follows the code, and
"## Findings" records each case:

- A highlighted word is missing from a heading's id.
- A heading can take an id the screen already uses.
- The table of contents and the rendered page parse the Markdown differently.

A heading with no direct text, such as `# **Todo**`, also gets an empty id, and
its entry finds nothing; "## Left out" records that case.

The route guard lives at src/app/middleware.js. By the Next.js convention,
middleware is loaded from a `middleware.js` at the project root or directly
under `src/`. A file under `src/app/` may therefore never be run as middleware,
and then no route would be guarded. The model describes what the file decides
when it does run.

## Model

| member | source | states |
|---|---|---|
| Strings.Trim | src/app/notes/page.js:357 | `trim` leaves no white space at either end; the result is empty exactly when the input is all white space |
| Strings.TrimIsSlice | src/app/notes/page.js:357 | trimming removes only white space, and only from the two ends: the result is the middle of the input between an all-white-space prefix and suffix |
| Strings.LowerIdempotent | src/app/notes/page.js:432 | lowering a lowered text changes nothing |
| Strings.DecimalRoundTrip | src/app/notes/page.js:237 | the decimal text of a number reads back as that number |
| Strings.NatToStringInjective | src/app/notes/page.js:237 | distinct numbers have distinct decimal texts |
| Matching.StartsFrom | src/app/notes/page.js:363-367 | the positions the global scan reports are case-insensitive occurrences of the term, increasing and non-overlapping |
| Matching.CountIsLength | src/app/notes/page.js:367-369 | `match(...).length` is the number of positions the scan reports |
| Matching.StartsComplete | src/app/notes/page.js:363-367 | the scan misses nothing: every occurrence is reported or overlaps a reported one |
| Matching.CountPositiveIffOccurs | src/app/notes/page.js:367-368 | the match count is positive exactly when the term occurs somewhere in the text (both directions) |
| Matching.CountBound | src/app/notes/page.js:367 | non-overlapping occurrences fit in the text: count times term length is at most the text's length |
| Matching.SplitJoin | src/app/notes/page.js:389-391 | the parts of `split` concatenate back to the text |
| Matching.SplitOddParts | src/app/notes/page.js:391 | there are `2 * count + 1` parts; part `2k + 1` is the k-th occurrence in its own casing and equals the term up to case |
| Matching.SplitEvenParts | src/app/notes/page.js:391 | part `2k` is the stretch of text between occurrence k-1 and occurrence k |
| Matching.SplitPlainPartsHaveNoMatchStart | src/app/notes/page.js:391 | no occurrence starts inside a plain part |
| Matching.SplitPartsClassified | src/app/notes/page.js:395 | `regex.test(part)` succeeds on a part exactly when the part is at an odd position |
| Pages.CompareConsistent | src/app/notes/page.js:98-103 | the sort comparator is antisymmetric, total and transitive, and is zero only for equal ids and flags |
| Pages.SortPages | src/app/notes/page.js:97-104 | the sidebar list is a permutation of the pages and is sorted by the comparator |
| Pages.SortedPagesOrder | src/app/notes/page.js:97-104 | in the sidebar, every favorite is above every non-favorite, and ids ascend within each group |
| Pages.Find | src/app/notes/page.js:108 | `find` gives nothing exactly when no page has the id; otherwise a page of the list with that id |
| Pages.FindFirst | src/app/notes/page.js:108 | `find` gives the first page that carries the id, whatever pages with that id come after it |
| Pages.FindAppend | src/app/notes/page.js:241-242 | after a page is appended, `find` on its id gives the new page, unless a page already in the list carries that id |
| Pages.FindUnique | src/app/notes/page.js:221 | with unique ids, `find` gives the one page that carries the id |
| Pages.ReplaceById | src/app/notes/page.js:116 | the `map` rebuild replaces every page with the id and leaves every other page in place |
| Pages.ToggleFavorite | src/app/notes/page.js:107-116 | the length and ids are kept; an unknown id leaves the list unchanged |
| Pages.ToggleFavoriteEffect | src/app/notes/page.js:107-116 | with unique ids, the page's flag is negated, an undefined content becomes `""`, and no other page changes |
| Pages.ToggleFavoriteTwice | src/app/notes/page.js:107-116 | toggling twice gives the list back when every content is defined |
| Pages.UpdateTitle | src/app/notes/page.js:270-275 | the length and ids are kept; with no selected page, nothing changes |
| Pages.UpdateContent | src/app/notes/page.js:278-284 | the length and ids are kept; with no selected page, nothing changes; the content is stored as given, unset included |
| Pages.UpdateTitleEffect | src/app/notes/page.js:270-275 | with unique ids, only the selected page's title changes |
| Pages.UpdateContentEffect | src/app/notes/page.js:278-284 | with unique ids, only the selected page's content changes |
| Pages.UpdateTitleLastWins | src/app/notes/page.js:270-275 | of two successive title edits, only the last one is visible |
| Pages.UpdateContentLastWins | src/app/notes/page.js:278-284 | of two successive content edits, only the last one is visible |
| Pages.FindFirstAfterReplace | src/app/notes/page.js:273 | after the rebuild, `find` on the edited id yields the edited page |
| Pages.RemoveId | src/app/notes/page.js:299 | `filter` keeps exactly the pages whose id differs; an unknown id leaves the list unchanged |
| Pages.RemoveIdConcat | src/app/notes/page.js:299 | the filter keeps the order of the remaining pages |
| Pages.RemoveIdCount | src/app/notes/page.js:299 | the filter removes as many pages as carry the id |
| Pages.NewPageTitleInjective | src/app/notes/page.js:237 | lists of different lengths give different `Untitled n` titles |
| NotesScreen.Notes.SyncEditor | src/app/notes/page.js:224-230 | when a page is selected, the editor takes that page's content; otherwise it keeps its text; nothing else changes |
| NotesScreen.Notes.SelectedPage | src/app/notes/page.js:221 | the selected page is in the list and carries the selected id; there is none exactly when no page has that id |
| NotesScreen.Notes.constructor | src/app/notes/page.js:16-22 | the initial state: no pages, id 0, an empty editor, editing on |
| NotesScreen.Notes.LoadPages | src/app/notes/page.js:204-212 | the list is replaced; a non-empty list has its first page selected and copied into the editor; otherwise the selection and editor stay |
| NotesScreen.Notes.ToggleFavorite | src/app/notes/page.js:107-116 | the list becomes `Pages.ToggleFavorite` of the old list. Toggling the selected page, which rebuilds it, puts its content into the editor, with an undefined content as `""`. Otherwise the editor keeps its text. The selection stays, and a valid selection stays valid |
| NotesScreen.Notes.UpdateTitle | src/app/notes/page.js:270-275 | the list becomes `Pages.UpdateTitle` for the selected id. With a page selected, the rebuilt page resets the editor to that page's stored content. The selection stays, and a valid selection stays valid |
| NotesScreen.Notes.UpdateContent | src/app/notes/page.js:278-284 | the list becomes `Pages.UpdateContent`; the editor takes the new content, possibly unset, exactly when a page is selected; a valid selection stays valid |
| NotesScreen.Notes.EditText | src/app/notes/page.js:753 | typing replaces the draft and changes nothing else |
| NotesScreen.Notes.BlurEditor | src/app/notes/page.js:754 | leaving the textarea stores the draft into the selected page (`Pages.UpdateContent`) and the editor keeps the draft |
| NotesScreen.Notes.ToggleEditMode | src/app/notes/page.js:345-352 | the mode flips; leaving edit mode stores the draft into the selected page, entering it leaves the list alone; the draft and the selection stay |
| NotesScreen.Notes.Select | src/app/notes/page.js:378-383 | the selection and the mode take the clicked values; moving to another existing page puts its content into the editor, re-selecting the current page or an unknown id keeps the draft; an existing id is a valid selection. A search result click passes `editing` false; the sidebar click (page.js:520-524) passes true |
| NotesScreen.Notes.AddNewPage | src/app/notes/page.js:233-244 | the server's page (`Untitled n+1`, empty content) is appended and selected, and editing is on. With a fresh id the editor then shows the empty content. With an id already taken, it shows the older page's content, or keeps its text when that page was already selected. Unique ids stay unique when the new id is fresh |
| NotesScreen.Notes.DeletePage | src/app/notes/page.js:287-318 | only a confirmed delete answered 204 changes the state, and the page is filtered out. A deleted selection falls back to the first remaining page, whose content the editor then shows, or to 0 with an empty editor. A valid selection stays valid |
| Search.MapSet | src/app/notes/page.js:369 | `Map.set` on a new key appends the entry; on a present key it replaces that entry in place, at the key's position, and keeps the number of entries |
| Search.CountMatches | src/app/notes/page.js:364-373 | the loop throws on a page with undefined content; otherwise it yields the `Map`'s entries after visiting every page in order |
| Search.HandleSearch | src/app/notes/page.js:355-375 | a blank term gives no results; an undefined content throws; otherwise the results are those of the loop, and with unique ids they are exactly the reference results |
| Search.MatchesExactlyTheMatchingPages | src/app/notes/page.js:366-370 | there is a result for a page exactly when that page has a match (both directions); each result has a count of at least 1 and the trimmed term |
| Search.MatchesConcat | src/app/notes/page.js:366-373 | results come in page-list order |
| Search.MatchesIdsFromPages | src/app/notes/page.js:369 | every result id is the id of a page in the list |
| Search.CollectIsMatches | src/app/notes/page.js:364-373 | with unique ids, the `Map` is never overwritten, so the loop's results equal the reference results |
| Search.CatExample | src/app/notes/page.js:355-375 | pages "cat cat dog" and "no match here" searched for "cat" give one result, with count 2 |
| Markdown.HeadingTextConcat | src/app/notes/page.js:416-419 | a heading's text is the concatenation of its children's text pieces |
| Markdown.ExtractHeadings | src/app/notes/page.js:412-425 | the walk yields one item per heading, in document order, with its depth and the joined text of its `text` and `inlineCode` children |
| Markdown.HeadingsArePreorderHeadings | src/app/notes/page.js:416-422 | the headings of a node are the items of the heading nodes of its preorder listing, in that order |
| Markdown.ForestHeadingsArePreorderHeadings | src/app/notes/page.js:416-422 | the same for a list of nodes |
| Markdown.TwoHeadingsExample | src/app/notes/page.js:412-425 | `# A`, a paragraph and `## B` with inline code and emphasis give two items; the emphasized word is left out |
| Highlight.UnwrapWrap | src/app/notes/page.js:397 | the span markup keeps the match verbatim and can be read back |
| Highlight.MarkAllIsPositional | src/app/notes/page.js:392-401 | marking by testing each part is the same as marking the odd positions |
| Highlight.HighlightTextNoMatch | src/app/notes/page.js:391-392 | a text node without a match is left as it is |
| Highlight.HighlightTextIsSegments | src/app/notes/page.js:389-402 | a text node is replaced by `2 * count + 1` nodes, alternately plain text and a span |
| Highlight.HighlightTextMatch | src/app/notes/page.js:394-398 | node `2k + 1` is the k-th occurrence in its own casing inside the span, and equals the term up to case |
| Highlight.HighlightTextPlain | src/app/notes/page.js:399-401 | node `2k` is a `text` node holding the text between occurrence k-1 and occurrence k |
| Highlight.HighlightTextRestores | src/app/notes/page.js:389-402 | the replacement nodes spell out the original text: highlighting loses nothing |
| Highlight.HighlightNode | src/app/notes/page.js:388-406 | the visitor's replacement for one node is that node's image under the tree rewrite |
| Highlight.HighlightChildren | src/app/notes/page.js:388-406 | the splice loop over a children list, skipping the spliced nodes and descending into parents, yields the tree rewrite of that list |
| Highlight.RemarkHighlight | src/app/notes/page.js:386-409 | the plugin yields the tree rewrite, and an empty term leaves the tree as it is |
| Highlight.UnchangedWithoutMatches | src/app/notes/page.js:391-392 | a node whose text nodes contain no match comes out unchanged |
| Highlight.ForestUnchangedWithoutMatches | src/app/notes/page.js:391-392 | the same for a list of nodes |
| Highlight.HighlightKeepsHeadingLevels | src/app/notes/page.js:393-401 | highlighting adds and removes no heading: the heading depths, in order, are kept |
| Highlight.TreeKeepsHeadingLevels | src/app/notes/page.js:386-409 | the same for a whole tree, with any term |
| Anchors.SlugHasNoWhitespace | src/app/notes/page.js:770 | an id never contains white space |
| Anchors.SlugWithoutWhitespace | src/app/notes/page.js:770 | the id of a text without white space is that text lowered |
| Anchors.SlugIdempotent | src/app/notes/page.js:770 | the id of an id is the same id |
| Anchors.CollapseFromConcat | src/app/notes/page.js:770 | collapsing white space in a concatenation reads the second part in the context the first leaves |
| Anchors.CollapseRun | src/app/notes/page.js:770 | a maximal run of white space, of any length and kind, becomes exactly one `-` |
| Anchors.SlugOfTwoWords | src/app/notes/page.js:770 | two words around a white-space run give the lowered words joined by one `-` |
| Anchors.SlugExampleSpace | src/app/notes/page.js:431 | "My Heading" gives "my-heading" |
| Anchors.SlugExampleDashes | src/app/notes/page.js:431 | "To-Do" gives "to-do": existing dashes stay |
| Anchors.Slugs | src/app/notes/page.js:763-777 | one id per heading, in order, each derived from that heading's text |
| Anchors.GetElementById | src/app/notes/page.js:432 | the empty id finds nothing, and neither does an id no element carries; otherwise the first element, in document order, that carries the id is found |
| Anchors.SlugEmptyIff | src/app/notes/page.js:431 | the derived id is empty exactly when the heading text is |
| Anchors.ScrollTarget | src/app/notes/page.js:430-436 | an entry finds nothing exactly when its text is empty or no element carries its derived id; otherwise it finds the first element, in document order, that carries it |
| Anchors.DocumentIds | src/app/notes/page.js:460-735 | the screen's own ids (`name`, three `menu`, `private`, `content`, `present`) come before the ids of the rendered headings, in document order, and `surface1` comes after them |
| Anchors.RenderedIds | src/app/notes/page.js:760-777 | the corrected ids, derived from the headings before highlighting: one per heading of the highlighted page |
| Anchors.TocEntriesFoundAmongHeadings | src/app/notes/page.js:836-841 | with the corrected ids, a lookup confined to the rendered headings finds every table-of-contents entry with a non-empty text: the first heading with its id, never one after its own |
| Anchors.TocEntriesFound | src/app/notes/page.js:836-841 | with the corrected ids, in the whole document, an entry with a non-empty text whose id is not one of the screen's own ids scrolls to a heading: the first with its id, never one after its own |
| Anchors.FixedIdShadowsHeading | src/app/notes/page.js:430-436 | an entry whose id is one of the screen's own ids stops at that element and never reaches a heading |
| Anchors.ContentHeadingShadowed | src/app/notes/page.js:730-735 | for `# Content`, with any highlight term, the lookup returns the content section (position 5), not the heading |
| Anchors.StrikethroughHeadingMissed | src/app/notes/page.js:414 | `# ~~old~~ plan`: the table of contents, parsed without GFM, looks for `~~old~~-plan`, while the page, parsed with GFM, gives the heading the id `-plan`; the entry finds nothing |
| Anchors.EmptyHeadingIdMissed | src/app/notes/page.js:416-419 | `# **Todo**`: the only child is a `strong` node, so the entry's text and the heading's id are both empty; the heading carries `id=""`, yet the entry finds nothing |
| Anchors.AsWrittenAgreesWithoutMatches | src/app/notes/page.js:760-777 | when the term is empty or occurs in no text node, the plugin order makes no difference |
| Anchors.CatFactsHeadingIdLost | src/app/notes/page.js:760-777 | for `# Cat facts` and the term `cat`, the code as written gives the id `-facts`, and the entry "Cat facts" finds no element. The corrected ids find the heading right after the screen's own ids |
| Middleware.Decide | src/app/middleware.js:6-31 | a request passes exactly when its path is public or it carries a non-empty token that verifies; every redirect goes to `/` |
| Middleware.Guard | src/app/middleware.js:33-35 | paths outside the matcher pass untouched; matched paths get the middleware's answer |
| Middleware.MatchedIsNotPublic | src/app/middleware.js:10 | no path under `/notes` or `/api/pages` is public |
| Middleware.ProtectedNeedsValidToken | src/app/middleware.js:15-30 | on a protected path a request passes exactly when it has a token that verifies; otherwise it is redirected to `/` |
| Middleware.ProtectedWithoutTokenRedirects | src/app/middleware.js:17-20 | a missing or empty cookie on a protected path is redirected, whatever the verifier says |
| Middleware.ProtectedDependsOnlyOnVerification | src/app/middleware.js:22-30 | on a protected path the answer depends on the token only through whether it verifies |

## Left out

- Network requests are left out: `fetch` to the pages, settings, profile-image and logout endpoints, and the server routes behind them. The responses a handler reacts to are parameters instead.
- Failed title, content and favorite updates are left out. The local change is applied before the request is sent, and a failure does not undo it. A failed title or content update only shows an alert, and a failed favorite update only logs to the console.
- `NotesScreen.Notes.AddNewPage` is modelled only for a response that is the new page. The code never checks `res.ok` (page.js:239-243). An error body, for example one answered with 401 or 500, would be appended to the list as if it were a page, and `selectedPageId` would become undefined. The model does not capture that. The `Untitled n` request body is modelled as `Pages.NewPageTitle`.
- Browser effects are left out: `alert`, `console.error`, `router.push`, `scrollIntoView` and the DOM itself. `getElementById` is modelled as a lookup in the document's ids, in document order (`Anchors.DocumentIds`).
- The confirmation dialog is left out; its answer is a parameter of `DeletePage`.
- UI-only state is left out: theme, font and settings, the profile image and upload, the user name, and the modal, TOC-visibility, deleting and searched flags.
- `closeSearchModal` is left out; it only assigns the modal and search flags. The highlight term that `handleResultClick` sets (page.js:380) and the sidebar click clears (page.js:523) is not state of the model; the `Highlight` functions take it as a parameter.
- Each handler is modelled as one atomic step on the current state. `addNewPage` and `deletePage` apply `setPages` to the `pages` they captured when clicked, after an `await` (page.js:233-244, 287-318), so a change made while their request is pending, such as a second add or a favorite toggle, would be lost. The model does not capture that interleaving.
- JSX rendering, `ReactMarkdown`, `rehypeRaw` and `DOMPurify` are left out. So is the `className` that the inline plugin puts on headings, `strong` nodes and table cells, because it does not affect what is modelled.
- `NotesScreen.Notes.SyncEditor` models the editor copy of the effect at page.js:224-230. React re-runs the effect when `selectedPage` is a new object. The handlers call the method in exactly those cases: when they rebuilt the selected page, or moved the selection to another existing page (`NotesScreen.Notes.Select`, `AddNewPage`, `DeletePage`). The effect's `setTocItems(extractHeadings(selectedPage.content))` is not state of the model; `Markdown.ExtractHeadings` is that extraction, applied to the tree of the selected page's content.
- The Markdown parser (`remark-parse`, `remark-gfm`) is not part of this model. A parsed tree is an input.
- `Anchors.TocEntriesFound` takes the table of contents and the ids from one tree. The source parses them differently:
  - The table of contents parses `selectedPage.content` with `remark-parse` alone (page.js:414, 227).
  - The page renders `DOMPurify.sanitize(editedContent)` with `remark-gfm` first (page.js:761, 799).
  - Headings that use GFM syntax therefore get different ids on the two sides. `Anchors.StrikethroughHeadingMissed` shows one such heading.
- `Anchors.DocumentIds` describes the screen in view mode with a page selected. In edit mode (page.js:750-756) no Markdown is rendered, so an entry finds only one of the screen's own ids or nothing. Ids that raw HTML inside a page's content would add are not modelled, nor the footnote ids that GFM rendering adds (`footnote-label`, `user-content-fn-N`, `user-content-fnref-N`).
- `Anchors.ScrollTarget`, `Anchors.TocEntriesFound` and `Anchors.TocEntriesFoundAmongHeadings`: an entry whose text is empty is never found, so the two lemmas promise only entries with a text. A heading without a direct `text` or `inlineCode` child (`# **Todo**`, `# [Docs](url)`, an empty `#`) has the text "" in both `extractHeadings` (page.js:416-419) and the heading plugin (page.js:765-768). Its element is rendered with `id=""`, which gives it no ID, and `getElementById("")` returns null, so its entry scrolls nowhere (`Anchors.EmptyHeadingIdMissed`). No corrected id is modelled for such headings.
- Search and highlight terms are treated as literal text. A term holding regular-expression metacharacters, which the code passes to `new RegExp` unescaped, is not modelled.
- Case-insensitive matching and `toLowerCase` are modelled for ASCII letters only. Unicode case folding is not modelled.
- `regex.test(part)` with the `g` flag carries `lastIndex` from one call to the next. `Matching.SplitPartsClassified` shows that this is harmless. Each odd part matches at position 0. Each even part contains no match at all, so its test fails and resets `lastIndex` to 0 before the next odd part. The model therefore tests each part from position 0.
- A `null` content is not modelled; `None` stands for an undefined content only. The difference matters in `toggleFavorite`: page.js:112 tests `!== undefined`, so a `null` content would stay `null` and be sent as `null` (page.js:125), while an undefined one becomes `""`.
- Middleware: the `request.user = decoded` assignment is left out, because only the decision is modelled. `jwt.verify` is a boolean parameter, so token expiry and the secret are not modelled.

## Findings

| source | as written | input that shows it | evidently intended | confidence | as-written member | corrected member |
|---|---|---|---|---|---|---|
| src/app/notes/page.js:760-777 | the inline heading-id plugin runs after `remarkHighlight`. It derives the id from the heading's `text` and `inlineCode` children only, so the `html` span holding a highlighted match is dropped from the id | the heading `# Cat facts` viewed with the highlight term `cat`: the heading's id is `-facts`, but its table-of-contents entry (page.js:836-841, via page.js:430-436) looks for `cat-facts` and scrolls nowhere | ids derived from the heading text as written, as the entries of the table of contents are, so every entry with a text finds its heading | not executed | Anchors.CatFactsHeadingIdLost | Anchors.TocEntriesFound |
| src/app/notes/page.js:430-436 | `scrollToHeading` looks the id up with `document.getElementById` in the whole document. The screen's own elements carry the ids `name`, `menu`, `private`, `content` and `present` (page.js:460, 487, 497, 503, 507, 731, 735), ahead of the rendered Markdown | the heading `# Content`: its entry looks for `content` and gets the content section, so the view does not move to the heading | a lookup confined to the rendered headings, so every entry with a text finds its own heading | not executed | Anchors.ContentHeadingShadowed | Anchors.TocEntriesFoundAmongHeadings |
| src/app/notes/page.js:414 | the table of contents parses `selectedPage.content` with `remark-parse` alone, while the page is rendered with `remark-gfm` (page.js:761) | the heading `# ~~old~~ plan`: the entry looks for `~~old~~-plan`, while the rendered heading, whose struck word is a `delete` node, gets the id `-plan` | the table of contents and the page read the same parse of the content, so every entry with a text finds its heading | not executed | Anchors.StrikethroughHeadingMissed | Anchors.TocEntriesFound |
