# TodoMVC entry state, modelled in Dafny

This project models the entry state engine of a TodoMVC-style web
application written in Rust with Yew. The application keeps an ordered list
of entries. Each entry is a description and a status: `New`, `Completed` or
`Editing`. Two components each hold their own copy of the list:

- **The application component** (`src/app.rs`) holds the list, a backup of
  it that the search uses, the current filter (`All`, `Active`, `Completed`
  or `Search(text)`) and three text buffers. It answers the queries total,
  total completed and "is everything in view completed", which drives the
  toggle-all box. It applies the bulk operations toggle-all, clear-completed
  and search. After every message it writes the whole list to one storage
  slot.
- **The list component** (`src/entries.rs`) holds its own copy of the list
  and an edit buffer. It toggles, edit-toggles, finishes editing and removes
  entries by their position in the whole list. After every message it
  writes its list to the same storage slot. When the application passes
  down a different list, it starts over from that list.

Files:

- `text.dfy`, module `TodoText`: Rust's `str::trim`, and the
  case-insensitive matcher that `Filter::Search` uses.
- `app.dfy`, module `TodoApp`: the datatypes and `Fit`, which is
  `Filter::fit`. `Select` is the stable filter behind every
  `iter().filter(..)`. The queries are functions of the fields they read.
  The bulk operations are functions of the old list. Class `State` holds
  the loop and the field updates. Class `App` covers `create` and `update`.
- `entries.dfy`, module `TodoEntries`: the per-position operations as
  functions of the old list. Class `State` holds the in-place updates.
  Class `Entries` covers `create`, `update` and `change`.

The storage slot is a ghost field `stored` on each component class. `None`
means the slot holds nothing that reads back as a list. Both components
write under the same key, "yew.webassembly.self".

Where the code does something other than a reader of a TodoMVC
application might expect, the model follows the code:

- The list component gets the whole list, not the filtered view. Its
  indices are absolute positions, so there is no translation from filtered
  to absolute positions. The `enumerate().get(idx)` lookup in `remove`
  returns `idx` itself (`TodoEntries.EnumerateFromAt`).
- Every non-blank search overwrites the backup, not only the first one of
  a search session. Repeated searches narrow the list further. A blank
  search then restores only the list from before the last search
  (`TodoApp.RepeatedSearchRestoresOnlyLast`).
- Nothing clears the backup when the filter changes. A `SetFilter` message
  leaves it as it is (`TodoApp.App.Update`). So the backup can be non-empty
  while the filter is not a search.
- The slot is written after every message, including `Update`, `Nope` and
  searches. During a search the slot holds the narrowed list.
- `toggle_all(true)` ticks the box under `All`, `Completed` and `Search`
  when something fits and no fitting entry is `Editing`
  (`TodoApp.ToggleAllCompletesView`). Under `Active` it moves every
  non-editing entry out of the view, so on a list with no `Editing` entry
  the box stays unticked (`TodoApp.ToggleAllUnderActiveEmptiesView`).
  `Editing` entries are never touched by toggle-all, so they stay in the
  `Active` view and keep the box unticked under every filter they fit.

## Model

| member | source | states |
|---|---|---|
| `TodoText.Trim` | src/app.rs:354 | the trimmed search text is one contiguous slice of the input; only whitespace (Unicode White_Space, as `char::is_whitespace`) lies outside it; it neither starts nor ends with whitespace |
| `TodoText.SkipForward` | src/app.rs:354 | the leading-whitespace scan of `trim`: the position found is at or after the start, everything skipped is whitespace, and the character there (if any) is not |
| `TodoText.SkipBackward` | src/app.rs:354 | the trailing-whitespace scan of `trim`: the end found lies in the range, everything dropped is whitespace, and the last kept character (if any) is not |
| `TodoText.TrimEmptyIff` | src/app.rs:354-363 | the trimmed text is empty exactly when the whole text is whitespace, which is the test that decides between restoring and searching |
| `TodoText.Contains` | src/app.rs:295-302 | the matcher finds the needle exactly when it occurs as a contiguous block of the text at some position |
| `TodoText.LowerChar` | src/app.rs:295 | no contract: folds an ASCII upper-case letter to lower case and keeps every other character (the `(?i)` flag, restricted to ASCII) |
| `TodoText.Lower` | src/app.rs:295 | no contract: folds every character of a text with `LowerChar` |
| `TodoText.AsciiLettersFold` | src/app.rs:295 | a lower-case ASCII letter and its upper-case variant both fold to the lower-case letter, and no other character folds to it |
| `TodoText.LowerIdempotent` | src/app.rs:295 | folding twice is folding once, and a text is the same as its folded form up to case |
| `TodoText.Matches` | src/app.rs:295-302 | no contract: the search text matches a description when its folded form is contained in the folded description; it stands in for the `(?i)` regex |
| `TodoText.MatchesIgnoresCase` | src/app.rs:295-302 | changing the ASCII letter case of the search text or of the description never changes whether they match |
| `TodoText.MatchesLowered` | src/app.rs:295-302 | folding the search text, or the description, before matching gives the same answer |
| `TodoText.EmptyNeedleMatches` | src/app.rs:295-302 | an empty search text matches every description, as the pattern "(?i)" does |
| `TodoApp.Fit` | src/app.rs:287-304 | no contract: `Filter::fit`, branch by branch; its meaning is stated by `FitCharacterised` |
| `TodoApp.FitCharacterised` | src/app.rs:287-293 | `All` fits every entry; `Active` fits exactly the entries that are not `Completed`; `Completed` fits exactly the `Completed` ones, so the two views are complements |
| `TodoApp.Select` | src/app.rs:345-349 | filtering never adds entries, and every entry it keeps fits the filter |
| `TodoApp.SelectCounts` | src/app.rs:345-349 | filtering keeps each fitting entry as many times as it occurs and drops every other entry |
| `TodoApp.SelectMembership` | src/app.rs:320-324 | an entry is in the filtered view exactly when it is in the list and fits the filter |
| `TodoApp.SelectAppend` | src/app.rs:367-371 | filtering a concatenation is concatenating the filtered parts, so relative order is kept (a stable filter) |
| `TodoApp.SelectKeepsAllIff` | src/app.rs:345-349 | filtering returns the whole list exactly when every entry fits |
| `TodoApp.SelectEmptyIff` | src/app.rs:320-327 | the filtered view is empty exactly when no entry fits, which is the `peek().is_none()` test |
| `TodoApp.SelectIdempotent` | src/app.rs:344-351 | filtering twice by one filter is the same as filtering once |
| `TodoApp.ActiveCompletedPartition` | src/app.rs:312-317 | the number of `Active` entries plus the number of `Completed` entries is the total |
| `TodoApp.Total` | src/app.rs:308-310 | the total is the length of the whole list, whatever the filter, and equals the size of the `All` view |
| `TodoApp.TotalCompleted` | src/app.rs:312-317 | the completed count is at most the total, and it plus the `Active` count is the total; it is 0 exactly when no entry is `Completed`, and it equals the total exactly when every entry is `Completed` |
| `TodoApp.IsAllCompleted` | src/app.rs:319-330 | true exactly when some entry fits the filter and every fitting entry is `Completed`; false when nothing fits |
| `TodoApp.ToggleAllEntry` | src/app.rs:334-340 | no contract: what `toggle_all(v)` does to one entry; its effect on the list is stated by `ToggledAll` |
| `TodoApp.ToggledAll` | src/app.rs:332-342 | toggle-all keeps the length and every description; entries that do not fit, or are `Editing`, are unchanged; every other entry becomes `Completed` for true and `New` for false |
| `TodoApp.ToggleAllKeepsFit` | src/app.rs:332-342 | under `All`, `Completed` or `Search`, a fitting non-editing entry still fits once it is marked `Completed` |
| `TodoApp.ToggleAllCompletesView` | src/app.rs:319-342 | under any filter but `Active`, when something fits and no fitting entry is `Editing`, `toggle_all(true)` makes `is_all_completed` true |
| `TodoApp.ToggleAllUnderAll` | src/app.rs:319-342 | under `All`, on a non-empty list with no `Editing` entry, `toggle_all(true)` makes `is_all_completed` true and the completed count equal to the total |
| `TodoApp.ToggleAllUnderActiveEmptiesView` | src/app.rs:332-342 | under `Active` with no `Editing` entry, `toggle_all(true)` leaves the `Active` view empty, so `is_all_completed` is false afterwards |
| `TodoApp.ClearCompletedProperties` | src/app.rs:344-351 | after clear-completed no entry is `Completed`, and a second clear-completed changes nothing |
| `TodoApp.Searched` | src/app.rs:353-373 | a blank text with a backup restores the backup and empties it; a blank text without a backup changes nothing; any other text makes the old list the backup and keeps the entries matching the trimmed text, never more than before |
| `TodoApp.SearchThenClearRestores` | src/app.rs:353-373 | a non-blank search followed by a blank one gives back the list from before the search, with an empty backup |
| `TodoApp.RepeatedSearchRestoresOnlyLast` | src/app.rs:365-373 | after two non-blank searches, a blank search restores the result of the first search, not the original list |
| `TodoApp.TrimCat` | src/app.rs:354 | the search text " cat" is not blank and trims to "cat" |
| `TodoApp.MatchesCat` | src/app.rs:295-302 | "cat" matches "Cat" and "Caterpillar" and does not match "Dog" |
| `TodoApp.SelectCat` | src/app.rs:367-371 | filtering Cat, Dog, Caterpillar by the search "cat" keeps Cat and Caterpillar, in that order |
| `TodoApp.SearchExample` | src/app.rs:353-373 | with the substring matcher, searching " cat" in Cat, Dog, Caterpillar keeps Cat and Caterpillar and backs up all three; a blank search then restores all three in order |
| `TodoApp.State.constructor` | src/app.rs:69-76 | a new state holds the given entries, an empty backup, the `All` filter and empty buffers |
| `TodoApp.State.ToggleAll` | src/app.rs:332-342 | the loop leaves the list equal to `ToggledAll` of the old filter, list and flag, and changes no other field |
| `TodoApp.State.ClearCompleted` | src/app.rs:344-351 | the list becomes the `Active` entries of the old list, in order; no other field changes |
| `TodoApp.State.SearchTodos` | src/app.rs:353-374 | the list and backup become what `Searched` gives for the old list, old backup and text; the filter and buffers are unchanged |
| `TodoApp.App.constructor` | src/app.rs:58-83 | the list is the stored one when the slot reads back, and the placeholder list otherwise, whose entries are all `New` as `generate_random_todos` (src/app.rs:201-212) makes them, so a fresh start has no completed entry; backup empty, filter `All`, buffers empty |
| `TodoApp.App.Update` | src/app.rs:85-123 | `Add` appends `{old draft, New}` and clears the draft; `Update`, `SetFilter` and `UpdateSearch` set their field; `ToggleAll` applies toggle-all with the negation of `is_all_completed`; `ClearCompleted` and `Search` apply their operation; each message leaves the other fields alone; afterwards the slot holds the list |
| `TodoApp.AddAppendsOne` | src/app.rs:87-94 | adding raises the total by one, keeps the old list as a prefix and leaves the completed count as it was |
| `TodoEntries.ToggleAt` | src/entries.rs:166-179 | toggle changes only the entry at the position and only its status: `Completed` becomes `New`, `New` becomes `Completed`, `Editing` stays |
| `TodoEntries.ToggleTwice` | src/entries.rs:170-178 | toggling the same position twice gives back the original list |
| `TodoEntries.Toggled` | src/entries.rs:170-178 | no contract: what `toggle` does to one entry; its effect on the list is stated by `ToggleAt` |
| `TodoEntries.ToggleEditAt` | src/entries.rs:181-194 | edit-toggle changes only the entry at the position and only its status: `New` becomes `Editing`, `Editing` becomes `New`, `Completed` stays |
| `TodoEntries.ToggleEditTwice` | src/entries.rs:185-193 | edit-toggling the same position twice gives back the original list |
| `TodoEntries.EditToggled` | src/entries.rs:185-193 | no contract: what `toggle_edit` does to one entry; its effect on the list is stated by `ToggleEditAt` |
| `TodoEntries.CompleteEditAt` | src/entries.rs:196-201 | finishing an edit makes the entry exactly `{new text, New}`, whatever its old status, so it leaves edit mode; every other entry is untouched |
| `TodoEntries.EnumerateFromAt` | src/entries.rs:204-208 | the enumerated list is as long as the list, and its element at position k pairs k (plus the start) with entry k, so the lookup in `remove` returns the index it was given |
| `TodoEntries.EnumerateLength` | src/entries.rs:205 | enumerating keeps the length |
| `TodoEntries.EnumerateFrom` | src/entries.rs:205 | no contract: `iter().enumerate()` from a given start; its meaning is stated by `EnumerateFromAt` and `EnumerateLength` |
| `TodoEntries.RemoveAt` | src/entries.rs:203-211 | removal shortens the list by one; entries before the position keep their place and the later ones move down by one |
| `TodoEntries.RemoveAtContents` | src/entries.rs:210 | removal drops exactly one copy of the removed entry and keeps every other entry |
| `TodoEntries.RemoveTwiceExample` | src/entries.rs:203-211 | removing position 1 from A, B, C gives A, C, and removing position 1 again gives A |
| `TodoEntries.State.constructor` | src/entries.rs:42-45 | a new list state holds the given entries and edit buffer |
| `TodoEntries.State.Toggle` | src/entries.rs:166-179 | for a position inside the list, the list becomes `ToggleAt` of the old one and the edit buffer is unchanged |
| `TodoEntries.State.ToggleEdit` | src/entries.rs:181-194 | for a position inside the list, the list becomes `ToggleEditAt` of the old one and the edit buffer is unchanged |
| `TodoEntries.State.CompleteEdit` | src/entries.rs:196-201 | for a position inside the list, the list becomes `CompleteEditAt` of the old one with the given text |
| `TodoEntries.State.Remove` | src/entries.rs:203-211 | for a position inside the list, it looks the position up in the enumerated list and the list becomes `RemoveAt` of the old one |
| `TodoEntries.Entries.constructor` | src/entries.rs:40-53 | the component starts with a copy of the given list and an empty edit buffer, and does not read the slot |
| `TodoEntries.Entries.Update` | src/entries.rs:55-81 | `ToggleEdit` copies the entry's description into the edit buffer, then edit-toggles; `Toggle` and `Remove` apply their operation; `Edit` finishes the edit with the buffer's text, then empties the buffer; `UpdateEdit` sets the buffer; afterwards the slot holds the list |
| `TodoEntries.Entries.Change` | src/entries.rs:83-94 | re-renders exactly when the new properties differ from the old ones; then it starts a fresh state from their list with an empty buffer; otherwise the state, including local edits, is kept |

## Left out

- Rendering: all `view*` functions and the `html!` markup. They are UI and
  have no state effects.
- Yew plumbing: `ComponentLink`, callbacks and the `Component` trait.
  Only the state effects of `create`, `update` and `change` are modelled.
  `ShouldRender` is modelled as the boolean they return.
- Storage and serialisation: JSON encoding, serde and the
  `StorageService` calls are foreign libraries. The slot is a ghost value
  that each component overwrites. The load/save round trip is not modelled.
  `create` receives the outcome of the restore as an optional list.
- How the two components' copies and their writes to the shared slot
  interact: each component is modelled on its own.
- Which positions the list component's messages carry. The view numbers
  the entries of the properties (src/entries.rs:100-102), while the
  operations index the component's own copy. After a local `Remove`,
  `change` sees equal properties and keeps the shorter copy, so the two
  lists stop lining up: a displayed position then names a different entry,
  and the last one panics. The model takes the position as given and
  requires it to lie inside the copy.
- `TodoText.Matches`: the `regex` crate's pattern semantics are a
  foreign library. So are Unicode case folding and the panic on a text that
  is not a valid pattern. The model matches by ASCII case-insensitive
  substring containment instead. No property of the search, filter or
  toggle operations depends on that choice; only `SearchExample` and the
  lemmas about the matcher itself do.
- `generate_random_todos` and `random_animal`: the placeholder list is
  random and comes from a module that is not part of this model. The App
  constructor takes the placeholder list as a parameter and requires only
  what `generate_random_todos` guarantees: every entry is `New`. Its
  length and descriptions stay open.
- Logging (`println!`, `info!`).
- The filter-to-`Href` mapping and the order in which `Filter::iter` lists
  the filters: they feed only the UI.
- The per-position operations and `ToggleEdit`'s read of the description
  panic on a position past the end of the list. The model instead requires
  the position to be inside the list.
- The `iter_mut().collect()` step in `toggle`, `toggle_edit` and
  `complete_edit` is modelled as direct indexing. The collected references
  keep the list's positions.
- Integer widths: positions and counts are `usize` in the source and
  unbounded naturals here, because lists never reach `usize` limits.
