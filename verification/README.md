# Task list — a Dafny model

The page keeps a list of tasks, each with an id, a text and an optional
date. Three handlers change it:

- **Add** trims the typed text. Blank text only brings up a prompt. Otherwise
  the page appends a task whose id is the clock reading and saves the list to
  browser storage. It then re-renders the list in date order and confirms the
  addition.
- **Delete** filters out the tasks carrying an id, saves, re-renders and
  confirms.
- **Page load** reads storage, falling back to an empty list when nothing is
  stored or the stored value is corrupt, and renders.

Rendering sorts the list in place:

- The sort key is the task's date, or `9999-12-31` when it has none, then its
  id.
- Each date shows as `DD/MM/YYYY`, or as `Sin fecha` when there is none.

The model is written as pure functions over immutable values. Its modules
follow that structure:

| module | contents |
|---|---|
| `Wrappers` | `Option` and `Result` |
| `Calendar` | proleptic Gregorian dates; the epoch-millisecond time value `new Date("YYYY-MM-DD")` gives (UTC midnight) |
| `DateText` | the `YYYY-MM-DD` text of a date input, its parse, and JavaScript string order on it |
| `Text` | `String.prototype.trim` over the ECMAScript whitespace and line-terminator characters |
| `Tasks` | the task record; the collection facts (well-formed dates, unique ids) |
| `Store` | the add and delete commands on the collection |
| `SortKeys` | the (date, id) key order; an insertion sort by key with its permutation, sortedness and uniqueness proofs |
| `Ordering` | the comparator as written; the proof that its sign is the key order; the consequences for the rendered order |
| `Persistence` | storage as an abstract slot; load with its fallbacks; save with its failure path; the notices |
| `Session` | the three handlers composed in the page's order, and the invariants they keep |
| `Formatting` | `split('-')`, `formatDate`, and the date cell of a row |

Saving happens before re-rendering. So after an add or a delete, storage
holds the list in its pre-sort order, while memory holds it sorted.
A reload sorts the very list that was stored, and the handler sorted that same
list into memory, so a reload shows exactly the order memory had
(`Session.ReloadAfterSubmit`, `Session.ReloadAfterRemove`); this needs no
assumption about ids.

A save failure raises two notices in a row: the failure, then the
confirmation. `Session.Submit` and `Session.Remove` record both, in that order.

## Model

| member | source | states |
|---|---|---|
| Text.Trim | script.js:134 | the result has no whitespace at either end, is never longer than the input, and is empty exactly when the input is all whitespace |
| Text.TrimOfPadded | script.js:134 | trim removes exactly the surrounding whitespace: any whitespace padding around a tight core yields that core |
| Text.TrimIdempotent | script.js:134 | trimming an already trimmed text changes nothing |
| Store.AddTask | script.js:133-149 | blank input (all whitespace) is refused; otherwise exactly one task `{id, trimmed text, date}` is appended, the old tasks stay in front unchanged, and the new text is non-empty with no surrounding whitespace |
| Store.AddPreserves | script.js:143-149 | an add keeps every date well formed, and keeps ids unique when the clock reading is not already an id |
| Store.DeleteTask | script.js:165 | the result has no task with the id; its length drops by the number of tasks that had the id; it holds only tasks from the input; an absent id leaves the list unchanged |
| Store.DeleteDistributes | script.js:165 | the filter works piecewise on any split of the list, so the survivors keep their relative order |
| Store.DeleteMembers | script.js:165 | a task survives exactly when it was present and has a different id |
| Store.DeleteCounts | script.js:165 | every copy of a task with the id is removed, and every other task keeps its number of occurrences |
| Store.DeleteRespectsPermutation | script.js:165 | filtering two arrangements of the same tasks leaves the same tasks |
| Store.DeleteIdempotent | script.js:165 | deleting an id twice is the same as deleting it once |
| Store.DeleteRemovesOne | script.js:165 | with unique ids, a present id removes exactly one task and an absent id removes none |
| Store.DeletePreserves | script.js:165 | a delete keeps dates well formed and ids unique |
| Store.AddThenDelete | script.js:143-165 | deleting the task just added under a fresh id gives back the previous list |
| Calendar.TimeValue | script.js:80-81 | the time value of a date input is a whole number of days from the epoch, and is 0 at 1970-01-01 |
| Calendar.DayNumberOrder | script.js:80-86 | day numbers order dates as the calendar does, and equal day numbers mean the same date |
| Calendar.TimeValueOrder | script.js:83-86 | the difference of two time values is negative exactly when the first date is earlier, and zero exactly when the dates are equal |
| Calendar.SentinelIsLast | script.js:80-81 | `9999-12-31` is a valid date that no valid date follows, and every other valid date precedes it |
| DateText.ToDate | script.js:80-81 | the date parsed from a `YYYY-MM-DD` text has a year that fits four digits and a month and day that fit two; that the parse reads the text's digit groups exactly is stated by `DateText.ToDateThenIsoText`, which recovers the text from the parsed date |
| DateText.SentinelText | script.js:80-81 | the text `9999-12-31` parses to the sentinel date, and it is the only date text that does |
| DateText.ToDateInjective | script.js:80-81 | two date texts denote the same day exactly when they are the same text |
| DateText.ToDateThenIsoText | script.js:80-81 | a date text is recovered from the date it parses to |
| DateText.IsoLexOrder | script.js:80-86 | comparing date texts as strings agrees with comparing the dates they denote |
| Ordering.EffectiveDate | script.js:80-81 | the date the comparator uses for a task is always a valid calendar date, so the comparison never sees `NaN` |
| Ordering.Compare | script.js:79-87 | the comparator (difference of time values, else of ids) is negative, zero or positive exactly when the (effective date, id) key of the first task is smaller than, equal to, or larger than the second's |
| Ordering.CompareConsistent | script.js:79-87 | the comparator is zero on equal arguments, sign-antisymmetric and transitive, as a sort comparator must be |
| Ordering.Sort | script.js:79 | the sorted list is a permutation of the input, ordered by the comparator's key, with dates still well formed |
| Ordering.SortedAgreesWithCompare | script.js:79-87 | in the sorted list the comparator never puts a later task strictly ahead of an earlier one |
| Ordering.DatedBeforeDateless | script.js:77-81 | every task dated before `9999-12-31` comes before every task without a date |
| Ordering.DatedInDateOrder | script.js:77-86 | dated tasks appear in non-decreasing date order, whether compared as calendar dates or as strings |
| Ordering.TiesByAscendingId | script.js:83-85 | tasks with the same effective date appear in ascending id order, strictly so when ids are unique |
| Ordering.SentinelCollision | script.js:80-85 | a task dated `9999-12-31` ties with a dateless task on date, so their order is decided by id |
| Ordering.AfterDatelessOnlySentinelDates | script.js:78-87 | after a dateless task come only dateless tasks and tasks dated `9999-12-31`, all with larger or equal ids |
| Ordering.SortDependsOnlyOnContents | script.js:79-87 | with unique ids, any two arrangements of the same tasks sort to the same list |
| Ordering.SortOfSorted | script.js:79-87 | with unique ids, sorting an already sorted list leaves it unchanged |
| SortKeys.InsertBy | script.js:79-87 | inserting into a sorted list keeps it sorted and adds exactly the inserted element |
| SortKeys.SortBy | script.js:79-87 | the result is a sorted permutation of the input |
| SortKeys.SortedArrangementUnique | script.js:79-87 | when keys are distinct, a multiset of elements has exactly one sorted arrangement |
| SortKeys.KeyAtMostTransitive | script.js:79-87 | the key order is transitive |
| SortKeys.KeyAtMostTotal | script.js:79-87 | the key order is total, and keys that may precede each other are equal |
| Persistence.Load | script.js:51-68 | a missing or empty value gives an empty list and no notice; an unreadable value gives an empty list and exactly the load-failure notice; a readable value gives exactly the stored list and no notice |
| Persistence.Save | script.js:39-46 | a successful write stores the list so that loading returns it with no notice; a failed write leaves the previous value in place and raises the save-failure notice |
| Persistence.Message | script.js:44-168 | exactly the save-failure and load-failure texts start with `Error ` |
| Persistence.MessagesDistinct | script.js:44-168 | the five notices show five different texts |
| Session.Open | script.js:51-68 | page load leaves storage untouched, shows a sorted permutation of the stored list (or an empty list when none is readable), and raises the load-failure notice exactly when the stored value is unreadable |
| Session.Submit | script.js:133-158 | blank input changes nothing, saves nothing and only prompts; otherwise memory gains exactly the new task and is in display order, storage receives the appended list in pre-sort order, and the notices are the confirmation, preceded by the save failure when storage refuses |
| Session.Remove | script.js:164-169 | memory is a rearrangement of what the id filter leaves, so every task with another id keeps its number of copies (`Store.DeleteCounts`) and no task with the id remains; memory is in display order; storage receives the filtered list in pre-sort order; the deletion is confirmed, after the save failure when storage refuses |
| Session.OpenEstablishes | script.js:51-87 | a page loaded from a list with unique ids has well-formed dates, unique ids and display order |
| Session.SubmitPreserves | script.js:133-158 | an add with a fresh clock reading keeps dates well formed, ids unique and the list in display order |
| Session.RemovePreserves | script.js:164-169 | a delete keeps dates well formed, ids unique and the list in display order |
| Session.ReloadAfterSubmit | script.js:149-151 | after a successful add, reloading the page shows exactly the list memory holds |
| Session.ReloadAfterRemove | script.js:165-167 | after a successful delete, reloading the page shows exactly the list memory holds |
| Session.RemoveTwice | script.js:164-169 | pressing delete for the same id again leaves the list as the first press did |
| Session.SubmitThenRemove | script.js:133-169 | deleting the task just added restores the list shown before the add |
| Formatting.Split | script.js:126 | the pieces contain no separator, there is at least one, and joining them with the separator gives back the text |
| Formatting.SplitJoin | script.js:126 | splitting parts that contain no separator after joining them gives back the parts |
| Formatting.Field | script.js:126-127 | a destructured piece present in the split array is printed as is, and a missing one as the text `undefined` |
| Formatting.FormatDate | script.js:124-128 | the empty date formats to the empty text, and only the empty date does |
| Formatting.FormatIsoShape | script.js:124-128 | a `YYYY-MM-DD` text formats to its day, month and year pieces, joined by `/` in that order |
| Formatting.FormatWithoutHyphen | script.js:125-127 | a non-empty date text without a hyphen is a single piece, so it shows as `undefined/undefined/` followed by the text |
| Formatting.FormatOfDate | script.js:124-128 | a calendar date formats as two-digit day, two-digit month and four-digit year |
| Formatting.FormatRoundTrip | script.js:124-128 | the stored `YYYY-MM-DD` text can be read back from its `DD/MM/YYYY` form |
| Formatting.DateLabel | script.js:104 | a row's date cell reads `Sin fecha` exactly when the task has no date, and otherwise shows the formatted date |

## Left out

- The DOM is not modelled: list items, buttons, `data-id`, and clearing the inputs. The only part of rendering in the model is the text of the date cell.
- `showMessage` is recorded as a sequence of notices. Its CSS class and its two-second timer are not modelled.
- `toggleForm` and the form's open/closed state are not modelled; they do not affect the list.
- Setting the date input's minimum to today (script.js:197-201) is left out. It reads the clock and only constrains the input widget.
- `Date.now()` becomes the parameter `now`. The source never checks that it is fresh, so freshness is a precondition of the invariant lemmas only. Two adds in the same millisecond would share an id.
- Browser storage and JSON are abstracted into a slot holding `Option<Result<seq<Task>>>`:
  - The model assumes that `JSON.stringify` followed by `JSON.parse` gives back a list of tasks.
  - Stored values that parse to something other than an array make the render throw. The catch block then gives the same empty list and notice as a parse failure, so the model folds them into the failure case.
- Stored arrays whose entries are not task-shaped are not modelled.
- Ids are unbounded integers, and `a.id - b.id` is exact subtraction. JavaScript numbers are exact for clock readings far beyond any reachable date.
- Date texts other than a valid `YYYY-MM-DD` (years 0000-9999) are excluded by preconditions. Two kinds are excluded:
  - Texts `new Date` cannot parse give `NaN`. The comparator then returns `NaN`, which the sort treats as 0, so it is no longer consistent.
  - Other shapes `new Date` does parse, such as `2025`, `2025-06` or `2025-06-01T09:00` (the last as local time), give real time values. Those tasks would sort by a value the model does not define.
- Ordering.Sort: the source's `Array.prototype.sort` is stable (required since ES2019), so tasks comparing 0 keep their input order. The contract does not state this stability; it matters only for tasks sharing both date and id, since otherwise the sorted order is unique (`Ordering.SortDependsOnlyOnContents`).
- Persistence.Load: does not distinguish a missing key from an empty stored string; both are `None`, as the source treats both as "nothing stored".
- `console.error` logging is left out.
- Formatting.DisplayToIso is not in the source. It is the inverse of `formatDate` and exists only to state that formatting loses nothing.
- Persistence.Message: the contract does not repeat the five exact texts, which are in its body. That they all differ is stated by `Persistence.MessagesDistinct`.
