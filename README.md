# A verified model of the deck and question logic of a flashcard app

The application is a desktop flashcard app. A Next.js frontend talks to a
Rust backend over Tauri commands. The rich-text editing itself is library
code. What the repository adds around it is a set of small decision rules
and string and list computations, and those are modelled here:

- **Error type** (`AppErrors`): the three `AppError` variants, their fixed
  display prefixes, `AppError::new`, and serialisation as the display
  text. Parsing the display text back is the partner that shows nothing is
  lost.
- **JavaScript string helpers** (`Strings`): `split` and `join`, the last
  dot-separated piece of a name, decimal rendering of integers (Rust
  `format!`), and `parseInt` with white space, sign and the `0x` prefix.
- **JSON** (`Json`): `JSON.stringify` over the values an editor document
  holds. A decoder for the compact text is its partner: decoding a
  stringified value gives it back.
- **Image storage** (`Image`): `save_image`. It checks a case-sensitive
  whitelist, gives the exact rejection message, and stores accepted images
  at `images/<uuid>.<type>` under the data directory. The file system is a
  map from path to bytes. The data directory, the uuid and the outcome of
  the write are parameters.
- **Decks backend** (`Decks`):
  - the cover-image precondition of `new_deck`;
  - the `get_decks` query and the rows it selects;
  - `get_deck_crumbs`, an imperative walk up the parent chain over a map
    from deck id to row. Its result is characterised completely: a root
    chain on success, and a missing row somewhere on the chain on failure.
- **Breadcrumb bar** (`DeckLayout`):
  - which query parameter names the deck on each page;
  - when crumbs are fetched or cleared;
  - the reversal that puts the root first;
  - the trailing "New Deck" / "New Question" label.

  Together with the backend walk, the bar shows the root first, each deck
  right after its parent, and the requested deck last.
- **New deck page** (`NewDeckPage`): how the form, the `parent_id`
  parameter and the chosen file become the `deck` argument, and end to end
  what `new_deck` then does with the cover image.
- **New question page** (`NewQuestionPage`):
  - the answer field array, as a class whose methods change the list in
    place;
  - the answer card menu;
  - the `onSubmit` chain of checks, in which the first failure is reported;
  - the payload sent when every check passes.
- **Sidebar** (`Sidebar`): the first-segment base URL, the active-link
  rule over the fixed link table, and when a button is wrapped in a link.

Two rules of the code are easy to misread:

- A sidebar button is wrapped in a link when its href is truthy. An empty
  href therefore leaves the button bare, just like a missing one
  (`Truthy`).
- `cover_image_type` is tested on the byte array. A `Uint8Array` is always
  truthy, so any picked file sends a type, even an empty file.

## Model

| member | source | states |
|---|---|---|
| AppErrors.New | src-tauri/src/error.rs:13-17 | `AppError::new(m)` is exactly `Err(Custom(m))`: a failure whose display is "Error: " followed by `m` unchanged, and which parses back to `Custom(m)` |
| AppErrors.Display | src-tauri/src/error.rs:1-11 | the display text of a variant is its fixed prefix followed by the wrapped text; `DisplayRoundTrip` shows that the prefixes keep the variants apart |
| AppErrors.DisplayRoundTrip | src-tauri/src/error.rs:1-11 | the display formats "IO Error: ", "SQLX Error: " and "Error: " identify the variant: parsing the display text gives back the same error |
| AppErrors.DisplayInjective | src-tauri/src/error.rs:1-11 | two different errors never display alike |
| AppErrors.Serialize | src-tauri/src/error.rs:19-26 | the serialised error is exactly its display string, from which the error is recovered |
| Strings.Join | src-tauri/src/utils/image.rs:13 | `join(sep)`: the pieces in order with the separator between neighbours; `SplitThenJoin` and `JoinThenSplit` relate it to `Split` |
| Strings.Split | src/components/layout/Sidebar.tsx:42 | `split(sep)` gives at least one piece, and no piece contains the separator |
| Strings.SplitThenJoin | src/components/layout/Sidebar.tsx:42 | joining the pieces of a split with the separator gives back the string |
| Strings.JoinThenSplit | src/components/layout/Sidebar.tsx:42 | splitting a join of separator-free pieces gives back the pieces |
| Strings.SplitFirstPiece | src/components/layout/Sidebar.tsx:42 | the first piece is the text before the first separator; there is a second piece when a separator follows, and a single piece when nothing follows |
| Strings.SplitPieceCount | src/app/decks/new/page.tsx:53 | a split has exactly one piece more than the string has separators, and a string without separator splits into itself alone |
| Strings.LastPiece | src/app/decks/new/page.tsx:53 | the last piece of a split is the separator-free suffix after the last separator, or the whole string when there is none |
| Strings.NatToString | src-tauri/src/decks.rs:88 | decimal rendering of a natural number uses only digits and has a leading zero only for zero |
| Strings.IntToString | src-tauri/src/decks.rs:88 | `format!("{}", id)` starts with '-' exactly for negative numbers |
| Strings.DigitsValueOfNatToString | src-tauri/src/decks.rs:88 | the rendered digits denote the number rendered |
| Strings.IntToStringInjective | src-tauri/src/decks.rs:88 | different integers render differently |
| Strings.ParseInt | src/app/decks/layout.tsx:48 | `parseInt` with no radix: leading white space skipped, an optional sign, then `0x`/`0X` and hex digits or the leading run of decimal digits; `None` (NaN) when no digit is read; `ParseIntOfIntToString` shows it inverts decimal rendering |
| Strings.ParseIntOfIntToString | src/app/decks/layout.tsx:48 | `parseInt` of a rendered integer gives the integer back |
| Json.StringifyRoundTrip | src/app/decks/questions/new/page.tsx:281 | decoding the text of a stringified value, followed by anything that can follow a value, gives back the value and the rest |
| Json.Stringify | src/app/decks/questions/new/page.tsx:281 | `JSON.stringify` as compact text: literals, decimal integers, quoted and escaped strings, arrays and objects with members in the order held; its decoder partner is `Json.Decode` (`DecodeStringify`) |
| Json.QuoteRoundTrip | src/app/decks/questions/new/page.tsx:281 | a quoted, escaped string decodes back to itself |
| Json.DecodeStringify | src/app/decks/questions/new/page.tsx:281 | `JSON.stringify` loses nothing: the decoder gives back the value |
| Json.StringifyInjective | src/app/decks/questions/new/page.tsx:281 | different documents stringify differently |
| Json.StringifyOptional | src/app/decks/new/page.tsx:48 | an undefined document stays undefined, and a defined one decodes back to itself |
| Image.InvalidTypeMessageText | src-tauri/src/utils/image.rs:13-17 | the rejection message `InvalidTypeMessage` builds by joining the whitelist with ", " is "Invalid image type, must be one of: png, jpg, jpeg, gif." |
| Image.IsValidImageType | src-tauri/src/utils/image.rs:8-12 | the whitelist test: exact, case-sensitive equality with one of "png", "jpg", "jpeg", "gif"; `SubmitUpperCaseExtensionRefused` shows ".PNG" is refused |
| Image.JoinPath | src-tauri/src/utils/image.rs:21 | the joined path starts with the directory and ends with the relative path; a '/' is inserted between them exactly when the directory is non-empty and does not already end with one |
| Image.ImagePath | src-tauri/src/utils/image.rs:20-21 | the storage path starts with the data directory and ends with `images/<uuid>.<type>` |
| Image.ImagePathInjective | src-tauri/src/utils/image.rs:20-21 | images saved under different uuids never share a path |
| Image.SaveImage | src-tauri/src/utils/image.rs:11-25 | a type off the whitelist fails with the exact message before any write; a failed write of a whitelisted type returns `Io` of the write's error; success exactly when the type is on the whitelist and the write succeeds; on success the bytes are stored at the returned path, which ends in "." and the type; on failure nothing is stored |
| Image.SavedImageReadable | src-tauri/src/utils/image.rs:21-25 | after a successful save the returned path holds the bytes, and every other file is unchanged |
| Decks.NewDeckInsert | src-tauri/src/decks.rs:41-57 | bytes without a type fail with "Image type not provided" and store nothing; no bytes means no cover whatever the type; bytes with a type succeed exactly when `save_image` does, with its file system, the saved path as the cover, and its error as the command's error; the other fields pass through unchanged |
| Decks.DecksQuery | src-tauri/src/decks.rs:87-96 | every listing query begins with the `archived = 0` base query, followed by the parent condition `IdFilter` builds (decks.rs:87-91) |
| Decks.DecksQueryInjective | src-tauri/src/decks.rs:87-96 | different parent filters give different queries |
| Decks.Selects | src-tauri/src/decks.rs:87-96 | the rows the WHERE clause keeps: unarchived, and `parent_id = i` for a requested parent (never a NULL parent) or `parent_id IS NULL` when none is requested |
| Decks.GetDecks | src-tauri/src/decks.rs:82-104 | a deck is listed exactly when it is not archived and its parent is the requested one (no parent when none is requested) |
| Decks.GetDeckCrumbs | src-tauri/src/decks.rs:150-189 | on success the crumbs are the root chain: the requested deck first, each next crumb the parent of the previous one, names as stored, and a root last; on failure the error is the missing-row error, which happens exactly when a deck on the chain is missing |
| Decks.RootChainUnique | src-tauri/src/decks.rs:166-184 | there is at most one root chain from a deck |
| Decks.RootChainSingle | src-tauri/src/decks.rs:179-183 | the chain stops at the first deck without a parent and continues to the parent otherwise |
| Decks.RootChainNotBroken | src-tauri/src/decks.rs:171-173 | a deck with a root chain has no broken chain, so success and failure exclude each other |
| Decks.RootChainSuffix | src-tauri/src/decks.rs:179-180 | each tail of a root chain is the root chain of its first deck |
| Decks.RootChainDistinct | src-tauri/src/decks.rs:166-184 | no deck appears twice in a root chain |
| Decks.RootChainEnds | src-tauri/src/decks.rs:166-184 | a root chain reaches a root within its length |
| Decks.SelfParentNeverEnds | src-tauri/src/decks.rs:178-183 | a deck that is its own parent never reaches a root, so the walk needs an acyclic chain |
| Decks.SelfParentNeverEndsWithin | src-tauri/src/decks.rs:178-183 | a deck that is its own parent reaches no root within any number of steps |
| DeckLayout.CrumbIdSelection | src/app/decks/layout.tsx:30-45 | "/decks/new" takes `parent_id`, "/decks/questions/new" takes `deck_id`, every other path takes `id`, and the parameters a page does not select have no influence |
| DeckLayout.CrumbId | src/app/decks/layout.tsx:30-45 | the `switch (pathname)` picking `parent_id`, `deck_id` or `id`; `CrumbIdSelection` states its cases |
| DeckLayout.CrumbEffect | src/app/decks/layout.tsx:47-53 | crumbs are cleared exactly when the selected id is falsy, in particular when it is null or empty; otherwise they are fetched for `parseInt` of it |
| DeckLayout.CrumbEffectOfRenderedId | src/app/decks/layout.tsx:47-48 | a page naming deck `n` by its decimal rendering, as the `/decks?id=${id}` links do, requests the crumbs of deck `n` itself |
| DeckLayout.Reversed | src/app/decks/layout.tsx:49 | the reversal keeps the length and puts element `i` at position `n - 1 - i` |
| DeckLayout.ReversedTwice | src/app/decks/layout.tsx:49 | reversing twice gives back the list |
| DeckLayout.SettleCrumbs | src/app/decks/layout.tsx:47-53 | the bar after one request settles: empty after a clear, the reply reversed after an accepted call, and the previous bar after a rejected one; `SettleCrumbsCases` states the cases |
| DeckLayout.SettleCrumbsCases | src/app/decks/layout.tsx:47-53 | after a navigation the bar is empty when no deck is named, shows the reply reversed when it succeeds, and is unchanged when the call fails |
| DeckLayout.ShownCrumbsRootFirst | src/app/decks/layout.tsx:48-49 | the bar shows a root first, the requested deck last, each deck right after its parent, and the stored names |
| DeckLayout.NavigateShowsChain | src/app/decks/layout.tsx:47-53 | navigating to a page that names deck `n`, with the backend answering its root chain, leaves the bar showing that chain reversed: a root first and deck `n` last, whatever was shown before |
| DeckLayout.TrailingLabelOnItsPage | src/app/decks/layout.tsx:84-100 | "New Deck" appears exactly on "/decks/new", "New Question" exactly on "/decks/questions/new", and neither label elsewhere |
| DeckLayout.TrailingLabel | src/app/decks/layout.tsx:84-100 | the label that ends the bar on the two creation pages; `TrailingLabelOnItsPage` states where it appears |
| Sidebar.BaseUrlIsFirstSegment | src/components/layout/Sidebar.tsx:42 | the base URL is "/" followed by the first path segment |
| Sidebar.BaseUrl | src/components/layout/Sidebar.tsx:42 | the base URL is "/" followed by a single path segment, with no further '/' |
| Sidebar.BaseUrlExamples | src/components/layout/Sidebar.tsx:42 | "/decks/new" and "/decks" give "/decks", and "/" gives "/" |
| Sidebar.LinksDistinct | src/components/layout/Sidebar.tsx:11-32 | the hrefs of the link table are pairwise distinct |
| Sidebar.IsActive | src/components/layout/Sidebar.tsx:46 | a button is highlighted when the base URL of the path equals its href; `AtMostOneActive` and `DecksPagesHighlightDecks` state what follows |
| Sidebar.AtMostOneActive | src/components/layout/Sidebar.tsx:46 | for any pathname at most one link of the table is active |
| Sidebar.DecksPagesHighlightDecks | src/components/layout/Sidebar.tsx:42-46 | on "/decks" and every page below it the Decks link, and only it, is active |
| Wrappers.Truthy | src/components/layout/Sidebar.tsx:52 | JavaScript truthiness of an optional string: `null`, `undefined` and "" are falsy; used for the link wrapping here and for the id tests of the layout and the question page |
| Sidebar.TableLinksAreWrapped | src/components/layout/Sidebar.tsx:52 | every button of the link table is wrapped in a link |
| NewDeckPage.CoverImageType | src/app/decks/new/page.tsx:53 | the type is the dot-free text after the last '.' of the file name, or the whole name when there is no dot |
| NewDeckPage.CoverImageTypeOfExtension | src/app/decks/new/page.tsx:53 | a name "<base>.<ext>" with a dot-free extension gives exactly that extension |
| NewDeckPage.DeckPayload | src/app/decks/new/page.tsx:43-56 | `parent_id` is the raw parameter; name and color pass through; the description decodes back to the document; the image bytes and their type are sent exactly when a file was picked, the type being the file's extension |
| NewDeckPage.Submit | src/app/decks/new/page.tsx:79-90 | with no file the deck is created without a cover and nothing is stored; with a file it succeeds exactly when the name's extension is whitelisted and the write succeeds, and then the bytes are stored at the image path of that extension, which the row records; a failure stores nothing |
| NewDeckPage.SubmitNeverMissesImageType | src/app/decks/new/page.tsx:79-90 | the page never triggers the backend's "Image type not provided" error |
| NewDeckPage.SubmitWithoutCover | src/app/decks/new/page.tsx:87-89 | without a file the deck is created without a cover and nothing is stored |
| NewDeckPage.SubmitPngCover | src/app/decks/new/page.tsx:51-54 | a written "<base>.png" file is stored at the `png` image path, which the deck row records |
| NewDeckPage.SubmitUpperCaseExtensionRefused | src/app/decks/new/page.tsx:51-54 | a "<base>.PNG" file is refused with the whitelist message and nothing is stored |
| NewQuestionPage.Removed | src/app/decks/questions/new/page.tsx:207-210 | `remove(index)` drops exactly that answer and keeps the others in order |
| NewQuestionPage.Duplicated | src/app/decks/questions/new/page.tsx:146-152 | the corrected "Duplicate" inserts a copy of the answer right after it and keeps the others in order |
| NewQuestionPage.DuplicateEntryRemovesAsWritten | src/app/decks/questions/new/page.tsx:146-152 | as written, "Duplicate" shortens the list by one and loses one copy of the answer |
| NewQuestionPage.MenuActionAsWritten | src/app/decks/questions/new/page.tsx:139-159 | as written, every menu entry, "Duplicate" included, removes the answer: the list is one shorter, the answers before the index stay in place, those after it move up by one, and exactly that answer is lost |
| NewQuestionPage.MenuAction | src/app/decks/questions/new/page.tsx:139-159 | "Duplicate" inserts one copy of the answer right after it (`Duplicated`); "Button" and "Remove" take exactly that answer out (`Removed`); as multisets, one copy gained or lost |
| NewQuestionPage.AnswerFields.constructor | src/app/decks/questions/new/page.tsx:207-210 | the field array starts empty |
| NewQuestionPage.AnswerFields.Append | src/app/decks/questions/new/page.tsx:207-210 | `append` adds the element at the end |
| NewQuestionPage.AnswerFields.AddAnswer | src/app/decks/questions/new/page.tsx:455-459 | "Add Answer" appends exactly one empty document marked incorrect, so the count of correct answers does not change |
| NewQuestionPage.AnswerFields.Remove | src/app/decks/questions/new/page.tsx:207-210 | `remove(index)` updates the list to the list without that answer |
| NewQuestionPage.AnswerFields.OnMenuEntry | src/app/decks/questions/new/page.tsx:139-159 | a menu click changes the list as the corrected menu action says |
| NewQuestionPage.CountCorrect | src/app/decks/questions/new/page.tsx:241 | the count of correct answers is at most the number of answers, and zero exactly when none is correct |
| NewQuestionPage.CountCorrectAppend | src/app/decks/questions/new/page.tsx:455-459 | appending an answer adds one to the count exactly when it is correct |
| NewQuestionPage.AnswerPayloads | src/app/decks/questions/new/page.tsx:286-289 | the payload answers keep the length, the order and each `correct` flag, and each content decodes back to the answer's document |
| NewQuestionPage.FirstFailure | src/app/decks/questions/new/page.tsx:220-274 | the first failing check is found, with every earlier check passing, or none fails |
| NewQuestionPage.Submit | src/app/decks/questions/new/page.tsx:220-291 | a refusal shows one of the five check toasts; a call happens only with a deck id, at least two answers and a correct one, and sends exactly the payload |
| NewQuestionPage.Payload | src/app/decks/questions/new/page.tsx:276-291 | the call carries `parseInt` of the deck id, the type, title and layout settings as given, a content that decodes back, and the answers in order with their flags and contents that decode back |
| NewQuestionPage.SubmitReportsFirstFailure | src/app/decks/questions/new/page.tsx:220-274 | the checks run in the order "No Deck ID", "Incomplete Question", "No Correct Answer", "Multiple Correct Answers", "Single Correct Answer"; the first failure's toast is the result, and the backend is called only when none fails |
| NewQuestionPage.SubmitAcceptedIff | src/app/decks/questions/new/page.tsx:220-276 | the backend is called exactly when a deck id is given, there are at least two answers, and exactly one is correct with single-answer on, or at least two with it off |
| NewQuestionPage.SubmitPayloadFaithful | src/app/decks/questions/new/page.tsx:276-291 | an accepted submission sends the `parseInt` of the deck id, the type, the title, the content and the layout settings as given, and the answers in order with their flags |
| NewQuestionPage.FreshAnswersHaveNoCorrect | src/app/decks/questions/new/page.tsx:241-249 | a deck with two or more untouched answers is refused with "No Correct Answer" |

## Left out

- The rich-text editor is not part of this model. This covers the schema, the commands, history, the character limit and the preview, which are all calls into the TipTap library. The only local rule, the `limit ?? 2000` default of `editorOptions`, has no consequence elsewhere in the model.
- SQL execution, connection pools, migrations and the command registry are left out. The deck table is a map from id to row, and the INSERT of `new_deck` is modelled as the values it binds. Timestamps, `last_insert_rowid` and SQL errors other than a missing row are not modelled.
- Integer widths: ids are unbounded integers. The `i32` and `i64` columns and arguments are not range-checked. The only exception is the layout's request, which is dropped when the parsed id is outside `i32`.
- The file system is a map from path to bytes. A failed `fs::write` leaves it unchanged, so partial writes are not modelled. The generated uuid and the data directory are parameters.
- Paths use the Unix separator. Windows path joining is not modelled.
- Strings.ParseInt: reads the whole digit run as an exact integer. It does not model the loss of precision above 2^53 in JavaScript numbers.
- Json.Stringify: writes object members in the order they are held. JavaScript writes integer-like keys first, in ascending order; editor documents have no such keys, so the model does not reorder them.
- Json.Stringify: numbers are integers. Fractions, exponents, `NaN` and `undefined` members, which editor documents do not hold, are left out.
- DeckLayout.SettleCrumbs: settles one request with its own reply. The layout starts a new request on every navigation, and a reply that arrives after a later navigation, or after a later clear, still overwrites the bar; the interleaving of overlapping requests is not modelled.
- Strings are sequences of Unicode scalar values, while JavaScript strings are UTF-16 code units. A lone surrogate, which `JSON.stringify` writes as a `\u` escape, cannot be represented, and lengths count characters rather than code units.
- Toasts, routing after a successful call, the `get_deck_name` lookups and the crumb click navigation are UI effects. They are left out.
- NewQuestionPage.Submit: uses the answers of the form for both the "at least two answers" test and the counts. The code tests `fields.length` for the first and `data.answers` for the rest, and these are the same list whenever the field array and the form agree.
- The form-field length limits belong to the form library, not to repository code.
- The question backend (`src-tauri/src/questions.rs`) is a stub and is not part of this model. The older `src/components/Sidebar.tsx` is not part of this model either: its bare `pathname == href` rule adds nothing to the sidebar modelled here.
- Decks.GetDeckCrumbs: requires that the parent chain from the deck reaches a root or a missing row. On a cycle the walk never stops, which `Decks.SelfParentNeverEnds` shows for the smallest cycle. The walk holds the lock on the shared application state (src-tauri/src/decks.rs:153, a `Mutex` by src-tauri/src/state.rs:13), so a cycle would also stall every later backend command that waits for that lock; locking is not modelled.
- The asynchronous file reader of the new deck page is folded into the payload: a picked file's bytes are what it returns.
- The literal text of the empty editor document that "Add Answer" inserts is not stated. Its stringified form decoding back to the document is covered by `NewQuestionPage.AnswerPayloads`.

## Findings

| source | as written | input that shows it | evidently intended | confidence | as-written member | corrected member |
|---|---|---|---|---|---|---|
| src/app/decks/questions/new/page.tsx:146-152 | the "Duplicate" menu entry calls `remove(index)` | any answer list and any index: clicking "Duplicate" leaves one answer fewer, missing the one to copy | insert a copy of the answer right after it | not executed | NewQuestionPage.DuplicateEntryRemovesAsWritten | NewQuestionPage.Duplicated |
