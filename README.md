# Split-Bill: assignment table and custom split editor

A Dafny model of the two pieces of state logic in the Split-Bill web
front end:

- **The bill page** (`walmart-bill-frontend/src/App.js`, module `App`). After
  a receipt upload, the page keeps the extracted items and the people sharing
  the bill. It also keeps an *assignment table*: for every item name, the list
  of people who share that item. Clicking a person's button for an item
  toggles that person in the item's list. The class `App.AppState` holds the
  page's state fields. Each handler is a method that updates those fields.
  The list operations behind a click (`RemoveAll` for the `filter`, `Toggle`
  for the whole click) are functions with their own lemmas.
- **The custom split editor**
  (`walmart-bill-frontend/src/components/CustomSplitDialogue.js`, module
  `CustomSplitDialogue`). For one item it keeps a percentage per selected
  person, the total of those percentages and an error message. It allows a
  save only when the total is exactly 100. The class
  `CustomSplitDialogue.Dialogue` holds the three state fields. The total is
  the ghost function `Total`, a sum over a map. The method `SumPercentages`
  computes it with a loop.

Modelling choices:

- React's `useState`/`useEffect` are modelled as sequential method calls on
  the class. Each `setX` becomes an assignment to field `x`.
- Item names and people are strings.
- A split entry is an `Option<real>`: `Some(x)` is a value that `parseFloat`
  reads as `x`, and `None` is one it reads as `NaN`. `parseFloat(v) || 0` is
  then `Contribution`: `None` gives 0.
- In `currentSplits[person] || 0`, a missing entry, the number 0 and the
  empty string are falsy and become 0. A zero string such as `"0"` is
  truthy and is kept. Either way the entry reads as `Some(0.0)`. An entry
  that is not a number comes from the number input as the empty string, so
  `None` is falsy and also becomes `Some(0.0)`.
- The upload request, the prompt and the file input are parameters: the
  returned items (`None` when the request fails), the prompt's answer
  (`None` when cancelled), and whether a file was picked.
- The callbacks `onSave` and `onClose` become the `SaveOutcome` returned by
  `HandleSave`. `Saved(splits)` means both were called, in that order.
  `Rejected` means neither was.

`addPerson` accepts duplicates, and its empty-name check is JavaScript
truthiness. The table is keyed by item name, so items with the same name
share one list.

Twice-toggling: when the person was absent, two clicks always restore the
list. When the person was present, the first click removes every occurrence
and the second appends them at the end. On a duplicate-free list this
restores the original exactly when they were the last entry. `App.ToggleTwiceAbsent`, `App.ToggleTwicePresent` and
`App.ToggleTwiceRestores` prove these three statements.

## Model

| member | source | states |
|---|---|---|
| `App.InitialAssignments` | walmart-bill-frontend/src/App.js:32-35 | the table built after an upload has exactly the item names as keys, each mapped to the empty list |
| `App.DuplicateNamesCollapse` | walmart-bill-frontend/src/App.js:32-35 | items with equal names collapse to one key: at most one key per item, and one key per item exactly when the names are distinct |
| `App.RemoveAll` | walmart-bill-frontend/src/App.js:54 | the filtered list holds no occurrence of the person and every other person as often as before |
| `App.RemoveAllAppend` | walmart-bill-frontend/src/App.js:54 | filtering distributes over concatenation, so the kept entries stay in their original order |
| `App.RemoveAllAbsent` | walmart-bill-frontend/src/App.js:54 | filtering out a person who is not in the list returns the list unchanged |
| `App.RemoveAllKeepsNoDuplicates` | walmart-bill-frontend/src/App.js:53-54 | filtering a duplicate-free list leaves it duplicate-free |
| `App.Toggle` | walmart-bill-frontend/src/App.js:53-57 | after a click the person is in the list exactly when they were not before; everyone else's count is unchanged |
| `App.ToggleKeepsNoDuplicates` | walmart-bill-frontend/src/App.js:53-57 | a click keeps a duplicate-free list duplicate-free |
| `App.ToggleTwiceAbsent` | walmart-bill-frontend/src/App.js:53-57 | two clicks for a person not in the list restore the list |
| `App.ToggleTwicePresent` | walmart-bill-frontend/src/App.js:53-57 | two clicks for a person in the list remove every occurrence and append the person once at the end |
| `App.ToggleTwiceRestores` | walmart-bill-frontend/src/App.js:53-57 | on a duplicate-free list containing the person, two clicks restore the list exactly when the person was its last entry |
| `App.AppState.constructor` | walmart-bill-frontend/src/App.js:5-8 | the page starts with no file, no items, no people and an empty table |
| `App.AppState.ChooseFile` | walmart-bill-frontend/src/App.js:11-13 | the chosen file replaces the previous one |
| `App.AppState.Upload` | walmart-bill-frontend/src/App.js:16-41 | with no file, or when the request fails, nothing changes and the user is told why; otherwise the items are replaced and the table is reset to one empty list per item name |
| `App.AppState.AddPerson` | walmart-bill-frontend/src/App.js:44-47 | a non-empty name is appended at the end, duplicates included; a cancelled or empty prompt leaves the people unchanged |
| `App.AppState.IsAssigned` | walmart-bill-frontend/src/App.js:99 | an item name that is not a key reads as unassigned; in a consistent page an assigned button belongs to a receipt item and to one of the people |
| `App.AppState.AssignItem` | walmart-bill-frontend/src/App.js:50-60 | the item's list is toggled for the person, every other item's list is unchanged, the keys, duplicate-freedom and "only people are assigned" are preserved; the item must be a key |
| `CustomSplitDialogue.Contribution` | walmart-bill-frontend/src/components/CustomSplitDialogue.js:23 | a parsed entry contributes its number, an unparseable one contributes 0 |
| `CustomSplitDialogue.Total` | walmart-bill-frontend/src/components/CustomSplitDialogue.js:23 | the sum of all contributions, 0 for no entries; its other properties are the lemmas below |
| `CustomSplitDialogue.TotalBounds` | walmart-bill-frontend/src/components/CustomSplitDialogue.js:23 | with no negative entry, the total is non-negative and at least every single entry, so a total of 100 keeps each share between 0 and 100 |
| `CustomSplitDialogue.TotalRemove` | walmart-bill-frontend/src/components/CustomSplitDialogue.js:23 | the sum does not depend on the order of the entries: any entry can be added last |
| `CustomSplitDialogue.TotalUpdate` | walmart-bill-frontend/src/components/CustomSplitDialogue.js:28-31 | overwriting one entry changes the total by the new contribution minus the old one |
| `CustomSplitDialogue.TotalCongruent` | walmart-bill-frontend/src/components/CustomSplitDialogue.js:23 | two maps with the same people and equal contributions have the same total |
| `CustomSplitDialogue.SumPercentages` | walmart-bill-frontend/src/components/CustomSplitDialogue.js:23 | the reduce returns the sum of all entries, with unparseable ones counted as 0 |
| `CustomSplitDialogue.ErrorFor` | walmart-bill-frontend/src/components/CustomSplitDialogue.js:25 | the message is non-empty exactly when the total is not 100, and is then the fixed error text |
| `CustomSplitDialogue.Seeded` | walmart-bill-frontend/src/components/CustomSplitDialogue.js:15 | a seeded entry is always a number; it keeps a non-zero existing entry, and contributes what the existing entry contributed, or 0 when there is none |
| `CustomSplitDialogue.InitialSplits` | walmart-bill-frontend/src/components/CustomSplitDialogue.js:12-16 | the initial map has exactly the selected people as keys, each with its seeded entry |
| `CustomSplitDialogue.ReopenKeepsTotal` | walmart-bill-frontend/src/components/CustomSplitDialogue.js:11-18 | reopening on an existing split for the same people shows that split's total again |
| `CustomSplitDialogue.GuardChecksOnlySum` | walmart-bill-frontend/src/components/CustomSplitDialogue.js:34-39 | the 60/39 split totals 99, while 60/40 and 150/-50 both total 100; with `HandleSave`, the first is refused and the other two are accepted, since the guard looks only at the total |
| `CustomSplitDialogue.Dialogue.constructor` | walmart-bill-frontend/src/components/CustomSplitDialogue.js:5-7 | the editor starts with no entries, a total of 0 and no message |
| `CustomSplitDialogue.Dialogue.CalculateTotal` | walmart-bill-frontend/src/components/CustomSplitDialogue.js:22-26 | the stored total is the sum of the given map, and the message is set exactly when that total is not 100 |
| `CustomSplitDialogue.Dialogue.Initialise` | walmart-bill-frontend/src/components/CustomSplitDialogue.js:10-20 | with both props present the splits become the initial map of the selected people, with total and message recomputed; otherwise nothing changes |
| `CustomSplitDialogue.Dialogue.HandleSplitChange` | walmart-bill-frontend/src/components/CustomSplitDialogue.js:28-32 | only the named person's entry changes; the total is recomputed from the new map, equals the old total adjusted by that one entry, and the message follows it |
| `CustomSplitDialogue.Dialogue.SaveDisabled` | walmart-bill-frontend/src/components/CustomSplitDialogue.js:104 | the button is disabled exactly while the error message shows, and in a consistent editor exactly while the entries do not total 100 |
| `CustomSplitDialogue.Dialogue.HandleSave` | walmart-bill-frontend/src/components/CustomSplitDialogue.js:34-39 | the current splits are forwarded, and the editor closes, exactly when the total is 100, which is exactly when the button of line 104 is enabled |

## Left out

- Rendering, styling and the button colours are not modelled. The colour
  test appears only as `AppState.IsAssigned`.
- The HTTP request, `FormData`, `alert`, `prompt` and the file input are
  inputs to the methods. They are not modelled as I/O.
- A response without an `items` array is not modelled. There, `setItems`
  stores `undefined` before the reduce throws, and the page shows the
  failure alert. The next render then reads `items.length` (App.js line 78)
  on `undefined` and throws, so the page crashes.
- The assignment table is modelled as a true map, without JavaScript's
  special property names. An item named `__proto__` would set the table
  object's prototype in the reduce instead of adding a key, and the spread
  copy would then drop it, so a click on that item would throw. The model
  treats that name like any other.
- `AppState.AssignItem` models the resulting value only, not aliasing. The
  spread copy is shallow, so `push` also mutates the previous state's array.
- `AppState.AssignItem` requires the item name to be a key of the table. For
  any other name the source's `.includes` call throws, and that fault is not
  modelled.
- `parseFloat` string parsing and IEEE floating point are not modelled.
  Entries are reals, so sums such as 33.33 + 33.33 + 33.34 are exactly 100
  here.
- `Dialogue.Initialise` does not model JavaScript truthiness of arbitrary
  prop values. Both props are reduced to present or absent.
- The constructor of `Dialogue` does not establish the link between message
  and total: a fresh editor shows a total of 0 without a message until the
  opening effect runs. This is the source's behaviour.
- The rest of the repository is not part of this model. That covers the
  server (upload routes, PDF and image handling, the language-model request),
  the whiteboard, the landing page, the navigation bar and the UI
  primitives. They are I/O, canvas and rendering.
- Per-person amounts, tax sharing, item editing, bill history and
  persistence appear in no modelled file, so they are not modelled.
