# Note-Taking App: the App component's note list

This project models the state logic of the `App` component in
`Note-Taking/src/App.jsx`, a React single-page client for a REST notes
service. The component keeps a local copy of the server's notes
(`{_id, title, content}`). It updates that copy only when a request
succeeds. It derives the visible list by a case-insensitive search over
title and content. A sort button reorders the visible notes by title.

The model has four modules:

- `Text` (`text.dfy`) covers the JavaScript string built-ins the component
  uses. `trim` strips the ECMAScript white-space and line-terminator code
  points. `toLowerCase` is modelled on ASCII letters. `includes` is a
  recursive substring test, proved equal to "occurs at some index".
  `Collates` is a lexicographic code-point order that stands in for
  `localeCompare`. It is proved total and transitive.
- `Notes` (`notes.dfy`) has the `Note` datatype and the request and reply
  shapes. It has `Select`, the `Array.prototype.filter` behind both the
  search view and the delete. `RemoveById` and `ReplaceById` are the
  delete's `filter` and the edit's `map`. The module also has lemmas on
  order, multiplicity and id uniqueness.
- `View` (`view.dfy`) has the search filter `FilterNotes` and the title
  sort `SortByTitle`. The sort is a stable insertion sort, proved to be a
  permutation, ordered in the requested direction, and stable.
- `NoteApp` (`app.dfy`) has the class `App`, with the component's seven
  state variables as fields. Each handler is a method. A handler returns
  the request it sends (`Request`), or `None` when the add guard stops it.
  It takes the way the request resolved (`Reply`: `Success(data)` or
  `Failure`) as a parameter. "Nothing else changes" is stated by each
  method's field-level `modifies` frame (``this`notes`` and so on).

The model follows the code, including where its behaviour may surprise:

- A delete or edit of an absent id leaves the list unchanged, with no
  error. The lemmas prove that no-op.
- The sort writes the filtered, sorted list back into `notes`. Notes
  hidden by the search are dropped (`App.HandleSort`).
- The create request carries the untrimmed inputs. The trim is only the
  guard.
- The code never checks that ids are unique. The lemmas show which server
  replies keep them unique.
- Nothing in the component ever sets `showModal` to true or `selectedNote`
  to a note. The modal handlers are modelled under the condition the
  modal renders with (line 139).

## Model

| member | source | states |
|---|---|---|
| Text.TrimStart | Note-Taking/src/App.jsx:27 | the result is the suffix of the input after its leading white space: everything dropped is space, and the result is empty or starts with a non-space |
| Text.TrimEnd | Note-Taking/src/App.jsx:27 | the result is the prefix of the input before its trailing white space: everything dropped is space, and the result is empty or ends with a non-space |
| Text.Trim | Note-Taking/src/App.jsx:27 | `trim` never lengthens a string, and its result is empty or starts and ends with a non-space code point |
| Text.TrimEmptyIffBlank | Note-Taking/src/App.jsx:27 | `s.trim()` is empty (falsy) exactly when every code point of `s` is white space |
| Text.Lower | Note-Taking/src/App.jsx:63-64 | lower-casing keeps the length, leaves no ASCII capital, shifts each capital by 32 and keeps every other code point |
| Text.Contains | Note-Taking/src/App.jsx:63-64 | `includes` holds exactly when the term occurs at some index of the string |
| Text.ContainsEmpty | Note-Taking/src/App.jsx:63-64 | every string includes the empty term |
| Text.Collates | Note-Taking/src/App.jsx:70 | a prefix of a title sorts no later than the title, and a non-empty title sorts no later than another only if its first code point is no greater |
| Text.CollatesTotal | Note-Taking/src/App.jsx:70 | any two titles are comparable |
| Text.CollatesTransitive | Note-Taking/src/App.jsx:70 | the title order is transitive |
| Notes.Select | Note-Taking/src/App.jsx:62-65 | `filter` never lengthens the list and keeps only notes that pass the test |
| Notes.SelectCount | Note-Taking/src/App.jsx:42 | each note survives `filter` as often as it occurs when it passes the test, and not at all otherwise |
| Notes.SelectSubseq | Note-Taking/src/App.jsx:42 | the survivors of `filter` keep their relative order |
| Notes.SelectAll | Note-Taking/src/App.jsx:62-65 | a `filter` whose test every note passes returns the list unchanged |
| Notes.SelectKeepsUnique | Note-Taking/src/App.jsx:42 | `filter` keeps the ids unique |
| Notes.PermutationKeepsUnique | Note-Taking/src/App.jsx:68 | a reordering of a list with unique ids, each note as often as before, has unique ids |
| Notes.RemoveById | Note-Taking/src/App.jsx:42 | the delete's `filter` never lengthens the list, and no note left carries the deleted id |
| Notes.RemoveByIdSpec | Note-Taking/src/App.jsx:42 | after removing `id` no note carries it, every other note keeps its multiplicity and order, an absent id changes nothing, and unique ids stay unique |
| Notes.ReplaceById | Note-Taking/src/App.jsx:51 | the edit's `map` keeps the length of the list |
| Notes.ReplaceByIdAt | Note-Taking/src/App.jsx:51 | each position whose note carries `id` holds the server's note, and every other position is untouched |
| Notes.ReplaceByIdSpec | Note-Taking/src/App.jsx:51 | an edit of an absent id changes nothing, and a reply that keeps the edited id keeps ids unique |
| Notes.AppendUnique | Note-Taking/src/App.jsx:30 | appending the server's note keeps ids unique exactly when its id is new to the list |
| View.Flip | Note-Taking/src/App.jsx:76 | the sort direction always changes |
| View.Matches | Note-Taking/src/App.jsx:63-64 | a note matches only if its title or content is non-empty (truthy), and only if one of them is at least as long as the term |
| View.FilterNotes | Note-Taking/src/App.jsx:62-65 | the shown list is never longer than the notes, and every shown note matches the term |
| View.FilterSpec | Note-Taking/src/App.jsx:62-65 | a note is shown iff it is in the list and its non-empty lower-cased title or content includes the lower-cased term; it is shown as often as it occurs, the shown list is an order-preserving subsequence, and ids stay unique |
| View.FilterEmptyTerm | Note-Taking/src/App.jsx:62-65 | with an empty term every note is shown except those whose title and content are both empty |
| View.SearchIgnoresCase | Note-Taking/src/App.jsx:62-65 | the term "grocery" finds the title "Grocery List" |
| View.FilterOfMatching | Note-Taking/src/App.jsx:62-65 | filtering a list whose notes all match returns it unchanged |
| View.AheadTotal | Note-Taking/src/App.jsx:68-74 | the sort comparator relates any two notes in at least one direction |
| View.AheadTransitive | Note-Taking/src/App.jsx:68-74 | the sort comparator is transitive in both directions |
| View.Insert | Note-Taking/src/App.jsx:68-74 | inserting a note adds exactly that note to the multiset of notes |
| View.SortByTitle | Note-Taking/src/App.jsx:68 | the sorted list is a permutation of its input |
| View.SortedCons | Note-Taking/src/App.jsx:68-74 | a note that may precede every note of a sorted list may head it |
| View.InsertSorted | Note-Taking/src/App.jsx:68-74 | inserting into a list sorted by title keeps it sorted |
| View.SortByTitleSorted | Note-Taking/src/App.jsx:68-74 | the sorted list is non-decreasing by title for `'asc'` and non-increasing for `'desc'` |
| View.SortByTitleOfSorted | Note-Taking/src/App.jsx:68-74 | a list already in order comes out of the sort unchanged |
| View.InsertKeepsGroups | Note-Taking/src/App.jsx:68-74 | insertion puts the new note in front of every note with the same title and leaves those notes in their order |
| View.SortByTitleStable | Note-Taking/src/App.jsx:68-74 | the sort is stable: notes with equal titles keep their input order |
| View.SortShown | Note-Taking/src/App.jsx:67-75 | the list the sort writes back holds exactly the notes the search showed, is ordered by title, and is shown in full by the same search |
| View.SortTwoNotes | Note-Taking/src/App.jsx:68-74 | the notes titled "B", "A" sort ascending to "A", "B" |
| View.SortTwoNotesShown | Note-Taking/src/App.jsx:62-75 | with an empty search term, the sort button turns the notes titled "B", "A" into "A", "B" |
| NoteApp.App.constructor | Note-Taking/src/App.jsx:5-11 | the initial state is no notes, empty inputs and search term, closed modal, no selected note, direction `'asc'` |
| NoteApp.App.FilteredNotes | Note-Taking/src/App.jsx:62-65 | the rendered list holds exactly the notes the current search term matches, each as often as the state holds it |
| NoteApp.App.FetchNotes | Note-Taking/src/App.jsx:17-24 | a successful list replaces the notes wholesale; a failure leaves them unchanged; nothing else changes |
| NoteApp.App.HandleAddNote | Note-Taking/src/App.jsx:26-37 | the create is sent, with the untrimmed inputs, iff neither input trims to the empty string; if it is sent and succeeds, the server's note is appended and both inputs are cleared; otherwise the notes and inputs are unchanged; a new id keeps ids unique |
| NoteApp.App.HandleDeleteNote | Note-Taking/src/App.jsx:39-46 | a confirmed delete removes every note with `id` and keeps the rest in order; a failure or an absent id changes nothing; unique ids stay unique |
| NoteApp.App.HandleEditNote | Note-Taking/src/App.jsx:48-56 | a confirmed update keeps the length, puts the server's note at every position holding `id`, leaves every other position untouched and closes the modal; a failure changes neither notes nor modal |
| NoteApp.App.SearchNotes | Note-Taking/src/App.jsx:58-60 | only the search term changes, to the input's value |
| NoteApp.App.HandleSort | Note-Taking/src/App.jsx:67-77 | the notes become a stable permutation of the shown notes, ordered by title in the old direction; hidden notes are dropped; the shown list is the whole new list; unique ids stay unique; the direction flips |
| NoteApp.App.EditSelectedTitle | Note-Taking/src/App.jsx:146 | only the title of the selected note changes |
| NoteApp.App.EditSelectedContent | Note-Taking/src/App.jsx:151 | only the content of the selected note changes |
| NoteApp.App.SaveSelected | Note-Taking/src/App.jsx:154 | Save sends an update with the selected note's id, title and content and applies it as an edit |
| NoteApp.App.CloseModal | Note-Taking/src/App.jsx:155 | Close hides the modal and changes nothing else |
| NoteApp.BlankTitleScenario | Note-Taking/src/App.jsx:26-27 | a title of a single space sends no create, adds no note and leaves the title input as typed |
| NoteApp.SortTwice | Note-Taking/src/App.jsx:76 | two sorts in a row restore the direction and leave the shown notes ordered in the opposite direction |

## Left out

- The axios calls and their hard-coded URLs (lines 19, 29, 41, 50) are network I/O. Each handler returns the request it would send. The way the request resolves is a `Reply` parameter. `console.error` logging on failure is not modelled.
- React's `useState` setter batching, the `useEffect` that fetches on mount (lines 13-15) and the JSX rendering (lines 79-161) are framework plumbing. The initial fetch is the constructor followed by `FetchNotes`.
- The Rename button (line 113) takes its title and content from `prompt()`. Here they are the `title` and `content` parameters of `HandleEditNote`. A cancelled prompt (`null`) is not modelled.
- Overlapping requests and stale closures are not modelled. Each handler runs to completion against the current state.
- Text.Lower: lower-cases ASCII letters only; the full Unicode case mapping of `toLowerCase` is not modelled.
- Text.CollatesTotal: `Collates` is code-point lexicographic order, not the locale collation of `localeCompare`. The two orders differ on case (`Collates("B", "a")` holds, while a locale puts "a" first), on accents (a code-point order puts "é" after "f"), and on ties (a locale ranks canonically equivalent strings such as "\u00E9" and "e\u0301" equal; here they are ordered). The sort lemmas use only the totality, transitivity and reflexivity of `Collates`, so they hold for any order with those three properties.
- Notes may carry a missing (`undefined`) title or content in JavaScript. Here both are always strings, with the empty string as the only falsy value.
- The inline `styles` object (lines 166-306) is presentation only.
