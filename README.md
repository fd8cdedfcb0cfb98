# Todoey item manager, in Dafny

Todoey is an iOS to-do list. Users keep items in sections. Each item has a
name, a description, a priority, a completion flag and a creation date. The
logic lives in `ItemManager`. It builds the Core Data fetch for a section:
a conjunctive predicate and a sort order. It also performs the four writes
(create, complete, delete, edit). Each write changes the managed object
context, saves, and on success re-fetches the section with completed items
hidden. The result goes to a single optional delegate. The `Priority` enum
(high = 1, medium = 2, low = 3) gives the ascending priority sort its meaning.

The project has seven modules:

- `SwiftTypes` (`swift_types.dfy`): Swift's `Int16`, in which an item's
  priority is stored, and `Optional`.
- `Priorities` (`priorities.dfy`): the `Priority` enum, its raw values,
  `allCases`, and the priority picker's row-to-raw-value mapping.
- `FoundationText` (`foundation_text.dfy`): the Foundation string semantics
  the fetch uses. `CONTAINS[c]` is ASCII case folding plus a substring
  test. The name sort is lexicographic comparison by code point. Both are
  proved against independent definitions: a character-by-character match
  ignoring the case of ASCII letters at some index, and first-difference
  lexicographic order.
- `TodoeyItems` (`todoey_item.dfy`): the `TodoeyItem` record. The model adds
  an explicit object identity, `id`.
- `ItemQuery` (`item_query.dfy`): `setPredicate` returns the list of
  sub-predicates it appends. `setSortDesc` returns the list of sort
  descriptors. Executing a fetch filters the store by the AND of the
  sub-predicates, then sorts by the descriptors (an insertion sort). This
  module proves that the result is exactly the wanted items of the store,
  each as often as the store holds it, and that it is ordered by priority
  and then by name.
- `ItemStore` (`item_store.dfy`): the context as a sequence of live items,
  and each write as a function of the store before it. Its lemmas say what
  a later fetch sees: a created item is listed, a completed item is hidden,
  a deleted item is gone, and other sections' lists are unchanged.
- `ItemManagers` (`item_manager.dfy`): the `ItemManager` class. It has
  fields for the context's items, the next object identity, whether a
  delegate is set, and the delegate's last callback. Its methods
  `FetchItems`, `CreateItem`, `CompleteItem`, `DeleteItem` and `EditItem`
  follow the source step by step. Each method states the new store and the
  exact event the delegate receives.

Inputs the model cannot compute are parameters:
- `Date()` is the `now: Timestamp` argument of `CreateItem`.
- A throwing `context.save()` is `saveOk == false`.
- A throwing `context.fetch(_:)` is `fetchOk == false`.

Points where the code's behaviour is easy to misread:

- A failed save is not rolled back. `completeItem` and `editItem` assign
  the fields before `try context.save()` (ItemManager.swift:53-54, 73-76),
  and nothing reverts them. `createItem` inserts the new object before
  saving (ItemManager.swift:36-42), and `deleteItem` deletes before saving
  (ItemManager.swift:63). So in the model every write changes `items`
  whatever `saveOk` is. A failed save only reports `Failed(SaveFailed)` and
  skips the re-fetch.
- The code does not fix the order of items with equal priority and equal
  name. The model's sort keeps store order for such ties, and no stated
  property depends on it.
- The completed filter compares `isCompleted` with the string `"False"`
  (ItemManager.swift:99). The model uses what that comparison is meant to
  test: `!isCompleted`.

## Model

| member | source | states |
|---|---|---|
| `Priorities.RawValue` | Todoey/Extensions.swift:40-41 | every case's raw value is 1, 2 or 3 |
| `Priorities.FromRawValue` | Todoey/Extensions.swift:40-41 | `Priority(rawValue:)` succeeds exactly for raw values 1 to 3 |
| `Priorities.AllCases` | Todoey/Extensions.swift:40-41 | `allCases` has three entries, the cases in ascending raw-value order: entry i has raw value i + 1 |
| `Priorities.RawValueRoundTrip` | Todoey/Extensions.swift:40-41 | constructing from a case's raw value gives that case back |
| `Priorities.FromRawValueRoundTrip` | Todoey/Extensions.swift:40-41 | a raw value that constructs a case is that case's raw value |
| `Priorities.RawValueInjective` | Todoey/Extensions.swift:40-41 | no two cases share a raw value |
| `Priorities.AllCasesEnumerates` | Todoey/Extensions.swift:40-41 | `allCases` has three entries, contains every case, and has no duplicates |
| `Priorities.PickerSelection` | Todoey/Controllers/CUViewController.swift:129 | picker row i stores raw value i + 1, which is always a valid priority |
| `Priorities.AscendingRawValueRanksByUrgency` | Todoey/Extensions.swift:40-41 | ascending raw value puts high before medium before low, and nothing else |
| `FoundationText.Lower` | ItemManager.swift:94 | case folding maps each ASCII capital to its small letter and leaves every other character alone |
| `FoundationText.LowerMatches` | ItemManager.swift:94 | two characters fold alike exactly when they are equal or the two cases of one ASCII letter |
| `FoundationText.Fold` | ItemManager.swift:94 | the folded string has the same length, no ASCII capital, and at each position a character that matches the original ignoring case |
| `FoundationText.IsSubstring` | ItemManager.swift:94 | the left-to-right scan succeeds exactly when the text occurs at some index of the name |
| `FoundationText.ContainsIgnoringCase` | ItemManager.swift:94 | `name CONTAINS[c] text` holds exactly when, at some index of the name, every character of the text matches the name's character ignoring ASCII case |
| `FoundationText.ContainsIgnoringCaseExample` | ItemManager.swift:94 | "Alpha" CONTAINS[c] "ALP" holds, and "Alpha" CONTAINS[c] "ALB" does not |
| `FoundationText.ExactContainsIgnoringCase` | ItemManager.swift:94 | a name that contains the text exactly also matches `CONTAINS[c]` |
| `FoundationText.ContainsIgnoringCaseIgnoresCase` | ItemManager.swift:94 | `CONTAINS[c]` gives the same answer when either side is case-folded first |
| `FoundationText.CompareStrings` | ItemManager.swift:109 | two names compare as the same exactly when they are the same string |
| `FoundationText.CompareStringsFlip` | ItemManager.swift:109 | swapping two names flips their comparison |
| `FoundationText.CompareStringsLessTransitive` | ItemManager.swift:109 | the strict name order is transitive |
| `FoundationText.CompareStringsIsLexLeq` | ItemManager.swift:109 | name comparison is not "greater" exactly when the names are in lexicographic order (prefix, or smaller at the first difference) |
| `ItemQuery.SetPredicate` | ItemManager.swift:86-102 | the list always starts with the section condition, holds the name condition exactly when the text is not empty, the completion condition exactly when completed items are hidden, and nothing else |
| `ItemQuery.SetPredicateMeaning` | ItemManager.swift:86-105 | the AND of the built sub-predicates holds exactly when the item is in the section, its name contains the text ignoring case (no name test when the text is empty), and it is not completed (no completion test when completed items are shown) |
| `ItemQuery.Filter` | ItemManager.swift:103 | the compound predicate selects no more items than the store holds, and only items in the store that satisfy every sub-predicate |
| `ItemQuery.FilterContents` | ItemManager.swift:103 | applying the compound predicate keeps each satisfying item as often as the store holds it and drops every other |
| `ItemQuery.SetSortDesc` | ItemManager.swift:107-111 | under the two descriptors, items of different priority compare by priority, lower first, and items of equal priority compare by name |
| `ItemQuery.CompareByFlip` | ItemManager.swift:107-111 | under any sort-descriptor list, swapping two items flips their comparison |
| `ItemQuery.CompareByTransitive` | ItemManager.swift:107-111 | under any sort-descriptor list, "may come before" is transitive |
| `ItemQuery.SetSortDescOrder` | ItemManager.swift:107-111 | the two descriptors put a before b exactly when a has the lower priority, or the same priority and a name no greater in lexicographic order |
| `ItemQuery.Insert` | ItemManager.swift:27-28 | inserting into the sorted list adds exactly the one item |
| `ItemQuery.Sort` | ItemManager.swift:27-28 | sorting is a permutation of its input |
| `ItemQuery.InsertSorted` | ItemManager.swift:27-28 | inserting into a sorted list keeps it sorted |
| `ItemQuery.SortSorted` | ItemManager.swift:27-28 | sorting yields a list ordered by the descriptors |
| `ItemQuery.ExecuteFetch` | ItemManager.swift:25-28 | the fetch result is ordered by the request's descriptors and is a permutation of the items that satisfy its predicate |
| `ItemQuery.FetchRequestMeaning` | ItemManager.swift:25-28 | running the request built from `setPredicate` and `setSortDesc` returns exactly the wanted store items, ordered by priority, then name |
| `ItemQuery.Query` | ItemManager.swift:23-28 | the fetched list holds exactly the store items of the section whose name contains the text ignoring case (when the text is not empty) and that are not completed (when completed items are hidden), ordered by priority ascending, then by name ascending |
| `ItemQuery.QueryContents` | ItemManager.swift:23-33 | an item appears in the fetched list, as often as in the store, exactly when it is in the store and wanted (section, search text, completion flag) |
| `ItemQuery.QueryOnlySection` | ItemManager.swift:90-91 | whatever the text and flag, every fetched item belongs to the requested section |
| `ItemQuery.QueryHidesCompleted` | ItemManager.swift:98-101 | with completed items hidden, no fetched item is completed |
| `ItemQuery.QueryOrderExample` | ItemManager.swift:107-111 | Zeta (high), Alpha (high) and Beta (low) come back as Alpha, Zeta, Beta |
| `ItemStore.NewItem` | ItemManager.swift:36-42 | the new record carries the given identity, name, desc, priority, date and section and is not completed, and the section's list with completed items hidden shows it exactly when the search text is empty or matches its name |
| `ItemStore.AppendFresh` | ItemManager.swift:36-42 | adding an object with an identity above every existing one keeps identities unique |
| `ItemStore.WithCompleted` | ItemManager.swift:53 | completing keeps every position, identity and section; an item is completed afterwards exactly when it was before or is the target; other items are unchanged |
| `ItemStore.WithEdited` | ItemManager.swift:73-75 | editing keeps every position, identity, section, completion flag and date; the target gets the new name, desc and priority; other items are unchanged |
| `ItemStore.Without` | ItemManager.swift:63 | deleting never makes the store longer |
| `ItemStore.WithoutContents` | ItemManager.swift:63 | after a delete, exactly the other items remain, identities stay unique, and the identity is gone |
| `ItemStore.WithoutAt` | ItemManager.swift:63 | with unique identities, deleting an item removes exactly its one position |
| `ItemStore.CompletedItem` | ItemManager.swift:53 | completing sets `isCompleted` on that item only, and changes no other field and no other item |
| `ItemStore.CompleteAt` | ItemManager.swift:53 | with unique identities, setting the flag on the object in place is completing by identity, and identities stay unique |
| `ItemStore.CompleteIdempotent` | ItemManager.swift:53 | completing an item twice leaves the store as completing it once |
| `ItemStore.EditedItem` | ItemManager.swift:73-75 | editing overwrites name, desc and priority of that item and keeps its `isCompleted`, `createdAt` and section, and no other item changes |
| `ItemStore.CreatedItemListed` | ItemManager.swift:35-45 | after a create, the refreshed list of the item's section (completed hidden) is the earlier list plus the new item |
| `ItemStore.CreatedItemUnique` | ItemManager.swift:36-42 | with unique identities, any listed item with the new item's identity is the new item |
| `ItemStore.CompletedItemHidden` | ItemManager.swift:51-55 | after a complete, no list that hides completed items shows the item |
| `ItemStore.DeletedItemGone` | ItemManager.swift:61-65 | after a delete, no list shows the item |
| `ItemStore.CompleteKeepsOtherSections` | ItemManager.swift:53-55 | completing an item leaves every other section's list exactly as it was |
| `ItemStore.EditKeepsOtherSections` | ItemManager.swift:73-77 | editing an item leaves every other section's list exactly as it was |
| `ItemStore.DeleteKeepsOtherSections` | ItemManager.swift:63-65 | deleting an item leaves every other section's list exactly as it was |
| `ItemManagers.FetchOutcome` | ItemManager.swift:23-33 | the delegate receives a list exactly when the fetch succeeds, the list holds exactly the wanted items of the store, and a failed fetch reports the fetch error |
| `ItemManagers.WriteOutcome` | ItemManager.swift:43-48 | after a write, a failed save reports the save error without fetching; otherwise the delegate gets the section's uncompleted items, or the fetch error |
| `ItemManagers.ItemManager.constructor` | ItemManager.swift:16-21 | a manager starts over an empty context with no delegate |
| `ItemManagers.ItemManager.SetDelegate` | ItemManager.swift:20 | assigning `delegate` replaces any earlier delegate |
| `ItemManagers.ItemManager.Notify` | ItemManager.swift:29-31 | a callback reaches the delegate only when one is set |
| `ItemManagers.ItemManager.FetchItems` | ItemManager.swift:23-33 | the delegate receives the query result for the text, section and flag, or the fetch error; the store is unchanged |
| `ItemManagers.ItemManager.CreateItem` | ItemManager.swift:35-49 | one new item is appended (fresh identity, the given name, desc and priority, not completed, stamped `now`, in `section`); on success the delegate's list is the section's earlier uncompleted list plus the new item |
| `ItemManagers.ItemManager.CompleteItem` | ItemManager.swift:51-59 | the item's flag is set, even when the save fails; on success the refreshed list of its section omits it; on failure the delegate gets the save error and nothing is fetched |
| `ItemManagers.ItemManager.DeleteItem` | ItemManager.swift:61-69 | the item, if present, is removed and every other item is kept; on success the refreshed list of the given section omits it |
| `ItemManagers.ItemManager.EditItem` | ItemManager.swift:71-81 | only name, desc and priority of the item change, even when the save fails; the delegate gets its section's refreshed list or the error |

## Left out

- ItemStore.Without: its own contract only bounds the length. Which items
  remain is stated by `ItemStore.WithoutContents` and `ItemStore.WithoutAt`,
  because a quantified contract on the recursive function makes the slice
  proofs about it too costly for the verifier.
- Core Data itself is not part of this model. The managed object context is
  a sequence of item values. Faults, the persistent store on disk, merge
  policies and the section delete rule are not modelled.
- Aliasing is not captured. The source hands the delegate references to
  managed objects, and a later in-place write changes those objects inside
  a list the delegate already holds. The model hands out value snapshots.
- `CONTAINS[c]` folds ASCII letters only. Foundation folds all of Unicode
  and can also ignore diacritics. The model's `ContainsIgnoringCase(s, "")`
  holds, while Foundation's `CONTAINS[c]` with an empty text is false; the
  difference never shows, because `setPredicate` adds the name condition
  only for a non-empty search text (ItemManager.swift:93).
- Names compare by Unicode code point, character by character.
  `NSString.compare(_:)` without options is a non-literal comparison:
  canonically equivalent strings compare as the same (U+00E9, and "e"
  followed by U+0301), and it works on UTF-16 code units. The model gives
  `Same` only for identical strings, so it differs from Foundation on
  canonically equivalent names and on characters outside the Basic
  Multilingual Plane.
- The Core Data attributes `name`, `desc`, `createdAt` and `section` are
  optional. The model makes them non-optional. `createItem` always sets
  them, and the source force-unwraps `section`.
- `ItemManagers.ItemManager.CompleteItem` and `ItemManagers.ItemManager.EditItem`
  require the item to be in the context. Both read the owning section
  through `item.section!` (ItemManager.swift:55, 77), which needs a
  managed object of the context; their callers pass items from the list
  the delegate last received. `DeleteItem` has no such requirement: deleting
  an identity the context does not hold leaves the context unchanged.
- The default `didFail(with:)` of `ItemManagerDelegate` only prints the
  error, which is I/O. The model records the failure in `lastEvent` either
  way.
- The `static var shared` singleton is not modelled. The model uses one
  explicit `ItemManager` instance.
- `SectionManager` is not part of this model. Its source is not available.
- The view controllers and cells are not modelled: layout, navigation,
  alerts, swipe actions, and the priority colour switch. The form's check
  for a non-empty name and desc (Todoey/Controllers/CUViewController.swift:89)
  is not a precondition here, because the manager accepts any strings.
- `ViewTextField` and `Date.toString` are not modelled: they are UI code and
  a locale-dependent date formatter.
- `DispatchQueue.main.async` in the delegates is threading, not logic.
- The store does not restrict the raw `Int16` priority to 1, 2 or 3. The
  model keeps any `int16`, as the source does.
