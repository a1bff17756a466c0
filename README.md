# Clinical supervisor directory: a Dafny model

This project models the logic of a small client-side directory of clinical
supervisors. It has two parts.

The **directory page** (`src/App.tsx`) holds a fixed list of supervisor
records and a search term. It renders a derived view: the records whose
lower-cased name, title, specialisation (when present and non-empty) or email
contains the lower-cased term, sorted by name. An empty term keeps every
record. When the view is empty, a "no results" message is shown.

The **supervisor card** (`src/components/SupervisorCard.tsx`) renders one
record. It is a drop target for badges: a drop forwards the dragged badge id
to `onBadgeDrop`. Clicking a badge shows a message and, after a delay, calls
`onBadgeRemove`. The card can also export itself as a PNG image. The export
collapses the page's sidebar and expands the card's bio for the capture. It
restores both only once the rasteriser has produced a canvas. It names the
file after the supervisor.

Modules:

- `Wrappers` (`wrappers.dfy`): `Option`.
- `JsString` (`jsstring.dfy`): two JavaScript string operations.
  - `String.prototype.includes`, with a lemma tying it to "occurs at some index".
  - `replace(/\s+/g, '-')`, with `\s` as ECMA-262 defines it. Its lemmas say
    the result contains no whitespace and leaves whitespace-free text alone.
    They also say that one whitespace run becomes one `-` and that the
    replacement splits at run boundaries.
- `Directory` (`directory.dfy`): the filter predicate, the filter, the stable
  sort by name, the derived view, and the page's search-term state.
  - `toLowerCase` is the parameter `lower`.
  - `localeCompare` is the parameter `le`, where `le(a, b)` means
    `a.localeCompare(b) <= 0`. The ordering lemmas require `le` to be a total
    preorder.
  - The sort is an insertion sort that keeps equal names in source order.
    `StableSortUnique` proves that any sorted, stable reordering of the same
    records is exactly this result. So the model agrees with whatever stable
    algorithm the engine uses, as ECMA-262 requires since ES2019.
- `Card` (`card.dfy`): the card as a class.
  - Its React state (`showBio`, `isDragOver`, `isDownloading`,
    `showRemoveBadgeMessage`) and a queue of pending removal timers are fields.
  - The callback props are logged as `calls`. Downloads and the capture error
    notice are logged as `effects`.
  - The document's `.main-layout` / `.sidebar` state is a separate `Layout`
    object, shared by reference between cards.
  - `handleDownloadProfile` is split at its `await`s. `HandleDownloadProfile`
    is the click. `ResumeAfterSidebar`, `ResumeAfterBio` and `CaptureSettled`
    are the continuations. Other events may run between them.
    `RunDownloadProfile` is one export with nothing in between.

The rasteriser `html2canvas` and the encoder `canvas.toDataURL` are foreign
calls. How the `try` block ends is the parameter `outcome` of `CaptureSettled`
and `RunDownloadProfile`. It has three values:
- `Rejected`: `html2canvas` rejects.
- `EncodeFailed`: `toDataURL` throws.
- `Encoded`: the image is encoded and the download starts.

`isDownloading` is cleared on every exit, by the `finally` block
(`src/components/SupervisorCard.tsx:163-165`). The collapsed sidebar and the
expanded bio are undone only inside `try`, after `html2canvas` has returned
a canvas (`src/components/SupervisorCard.tsx:121-130`). The encoding and the
download link come after that revert (lines 133-138). So a `toDataURL` that
throws still leaves the layout restored, but shows the error notice and
starts no download. After a rejection, the `catch` branch (lines 140-161)
leaves both changes in place. `CaptureSettled` and `RunDownloadProfile` state
this asymmetry.

The model follows these JavaScript truthiness rules:
- In `Directory.Matches`, an empty specialisation string is falsy, so it
  never matches (`src/App.tsx:37`).
- In `Card.BioRendered`, an empty bio string renders no bio block. An empty
  bio list still renders one. This decides whether the export finds a
  `bio-hide` element (`src/components/SupervisorCard.tsx:107, 235`).

## Model

| member | source | states |
|---|---|---|
| `JsString.IncludesIffOccurs` | src/App.tsx:35-39 | `hay.includes(needle)` holds exactly when `needle` occurs in `hay` at some index |
| `JsString.DashWhitespaceRuns` | src/components/SupervisorCard.tsx:135 | replacing whitespace runs by `-` never makes the name longer |
| `JsString.DashedHasNoWhitespace` | src/components/SupervisorCard.tsx:135 | no whitespace character survives the replacement |
| `JsString.DashedKeepsWhitespaceFree` | src/components/SupervisorCard.tsx:135 | a string without whitespace is left unchanged |
| `JsString.DashedRun` | src/components/SupervisorCard.tsx:135 | a non-empty whitespace run, however long, becomes exactly one `-` |
| `JsString.DashedSplit` | src/components/SupervisorCard.tsx:135 | splitting the input anywhere except inside a whitespace run splits the output the same way, so runs are replaced one by one |
| `Directory.MatchesIff` | src/App.tsx:30-41 | a record passes the filter iff the term is empty, or the lower-cased term occurs in the lower-cased name, title or email, or in the specialisation when that is present and non-empty |
| `Directory.AbsentSpecialisationIgnored` | src/App.tsx:37-38 | a record without a (non-empty) specialisation is judged on name, title and email alone |
| `Directory.Filter` | src/App.tsx:30-41 | the filtered list is never longer than the source |
| `Directory.FilterCounts` | src/App.tsx:29-41 | each record that passes is kept exactly as often as it occurs in the source; no other record is kept |
| `Directory.EmptyTermKeepsAll` | src/App.tsx:31 | with an empty term the filter returns the source unchanged and the view is the whole source sorted |
| `Directory.SortByName` | src/App.tsx:42 | the sorted list is a permutation of its input |
| `Directory.SortSorted` | src/App.tsx:42 | for a total preorder, the sorted list is non-decreasing by name |
| `Directory.SortStable` | src/App.tsx:42 | records whose names compare equal keep their relative input order |
| `Directory.StableSortUnique` | src/App.tsx:42 | two sorted lists that agree, for every name, on the records with that name and their order are equal |
| `Directory.SortByNameIsTheStableSort` | src/App.tsx:42 | any sorted, stable reordering of the input equals `SortByName`, so the engine's stable sort gives the modelled result |
| `Directory.FilterNamedLike` | src/App.tsx:29-42 | filtering commutes with selecting the records of one name |
| `Directory.FilteredAndSorted` | src/App.tsx:29-42 | the view is never longer than the source; it holds each passing record exactly as often as the source does and nothing else; every record in it comes from the source |
| `Directory.ViewOrdered` | src/App.tsx:29-42 | the view is sorted by name; for each name it lists the passing records of that name in source order |
| `Directory.NoResultsIff` | src/App.tsx:62-67 | the "no results" message is shown (empty view) iff no source record passes the filter |
| `Directory.DirectoryApp.NoResultsShownIff` | src/App.tsx:62-67 | the page renders the "no results" message exactly when none of its loaded records matches its current search term |
| `Directory.DirectoryApp.constructor` | src/App.tsx:22-23 | the page starts with the loaded records and an empty search term |
| `Directory.DirectoryApp.HandleSearchChange` | src/App.tsx:25-27 | the input's value replaces the search term wholesale |
| `Card.RenderBioFaithful` | src/components/SupervisorCard.tsx:38-46 | every bio paragraph is rendered once and in order (a string is one paragraph); list paragraphs carry pairwise distinct keys |
| `Card.ProfileFileNameShape` | src/components/SupervisorCard.tsx:135 | the file name ends with `-profile.png`; the part before it has no whitespace and is no longer than the name; a whitespace-free name is kept verbatim |
| `Card.Layout.constructor` | src/components/SupervisorCard.tsx:90-97 | the layout the export finds in the document: whether `.main-layout` and `.sidebar` both exist, and whether the sidebar is collapsed |
| `Card.SupervisorCard.constructor` | src/components/SupervisorCard.tsx:29-33 | every flag starts false, with no pending timer, no export in flight and empty logs |
| `Card.SupervisorCard.HandleDragOver` | src/components/SupervisorCard.tsx:49-52 | `isDragOver` becomes true; nothing else changes; like every card method it keeps the invariant that `isDownloading` holds exactly while an export is in flight, the removal message is shown only while a removal is pending, and every logged call names this card's email |
| `Card.SupervisorCard.HandleDragLeave` | src/components/SupervisorCard.tsx:54-56 | `isDragOver` becomes false; nothing else changes |
| `Card.SupervisorCard.HandleDrop` | src/components/SupervisorCard.tsx:58-67 | `isDragOver` becomes false; a non-empty payload id logs exactly one `onBadgeDrop(email, id)`; an empty one logs nothing |
| `Card.SupervisorCard.HandleBadgeClick` | src/components/SupervisorCard.tsx:70-73 | a click, only on one of the card's rendered badges, shows the removal message and queues one removal timer for that badge; the invariant then promises that every queued removal and every logged `onBadgeRemove` call names one of the card's badges |
| `Card.SupervisorCard.FireBadgeRemovalTimer` | src/components/SupervisorCard.tsx:73-76 | the oldest timer fires: exactly one `onBadgeRemove(email, id)` is logged for its badge and the message is hidden |
| `Card.SupervisorCard.ToggleBio` | src/components/SupervisorCard.tsx:240-242 | a click on the bio toggle flips `showBio` |
| `Card.SupervisorCard.ExpandBioForCapture` | src/components/SupervisorCard.tsx:105-112 | `showBio` is forced true only when the bio block is rendered and hidden, and the export then waits for a render; otherwise it goes straight to the capture |
| `Card.SupervisorCard.HandleDownloadProfile` | src/components/SupervisorCard.tsx:80-112 | a click while `isDownloading` (the disabled button, line 191) or without a card ref changes nothing; otherwise the card turns busy, and the sidebar is collapsed only if present and expanded (then the export waits), else the bio step runs |
| `Card.SupervisorCard.ResumeAfterSidebar` | src/components/SupervisorCard.tsx:101-112 | after the sidebar delay the bio step runs, remembering that the sidebar was collapsed by this export |
| `Card.SupervisorCard.ResumeAfterBio` | src/components/SupervisorCard.tsx:111-115 | after the render delay the capture starts, remembering that the bio was expanded by this export |
| `Card.SupervisorCard.CaptureSettled` | src/components/SupervisorCard.tsx:114-165 | unless `html2canvas` rejected, the bio and sidebar are reverted, each only if this export changed it; then an encoded image emits one download named by the profile file name, and an encoding failure emits one error notice instead; after a rejection one error notice is emitted and nothing is reverted; `isDownloading` ends false on every exit |
| `Card.SupervisorCard.RunDownloadProfile` | src/components/SupervisorCard.tsx:80-166 | an uninterrupted export that gets a canvas leaves `showBio` and the sidebar as they were, and emits exactly one download (encoded) or one error notice (encoding threw); one whose capture is rejected emits one error notice and leaves the bio shown (if rendered) and the sidebar collapsed (if present); busy ends false |

## Left out

- `html2canvas` and `canvas.toDataURL` are foreign library calls. The capture's outcome is a parameter. The image data and the capture options (`useCORS`, `scale`, transparent background) are not modelled.
- DOM plumbing is not modelled: `document.querySelector`, `classList`, creating, clicking and removing the download link and the error `div`, and `console.error`. Only the resulting flags and the two logs are kept.
- Timer durations (350 ms, 100 ms, 500 ms) are not modelled; each delay is an explicit step. The error notice's removal after 3000 ms is not modelled: the effects log records that a notice was shown.
- `e.preventDefault()` in the drag handlers, which makes the card accept a drop, is not modelled.
- React re-render timing is not modelled: a state update takes effect at once. In the browser, the button's `disabled` attribute takes effect at the next render.
- `cardRef.current` is read again after the awaits (lines 106 and 115). The model takes the ref as fixed for the card's lifetime, so an unmount during an export is not modelled.
- The locale behaviour of `toLowerCase` and `localeCompare` is not modelled. They are parameters, and the sort's properties assume that the comparator is a total preorder. JavaScript leaves the order unspecified for a comparator that is not consistent.
- Dafny's `char` is a Unicode scalar value, while JavaScript strings are UTF-16 code units. Strings with unpaired surrogates, and substring matches that start inside a surrogate pair, are not modelled.
- The source array stays unchanged (the sort runs on a copy, `src/App.tsx:29`). Records are immutable values here, so this holds by construction and is not stated as a separate contract.
- The badge store that `onBadgeDrop` and `onBadgeRemove` would update is not modelled. It is not part of this model: `src/App.tsx:64` passes no callbacks at all, and its `Badge` type has no `id`. The card model takes both callbacks as present and only logs their calls.
- A card whose record has no `badges` field is not modelled. `src/App.tsx` declares the field optional, but the card reads `supervisor.badges.length` unconditionally. The card's record type makes the field mandatory.
- JSX markup, styles, the `drag-over-target` class, and the keyboard and aria handling of the bio toggle are not modelled.
