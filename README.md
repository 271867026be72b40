# To-do list core, modelled in Dafny

A browser to-do list keeps an in-memory list of task records (`id`, `text`,
`priority`, `deadline`, `completed`) and a current status filter. Event
handlers add, toggle, edit and delete tasks. The page derives views from the
list: the status filter (all/active/completed), a case-insensitive search,
the done/total counter, and a scrolling "urgency ribbon" that lists the open
tasks whose deadline is near, or high-priority ones whose deadline is still
ahead, each with the time left, formatted by `getTimeLeft`.

This project models that logic and proves what it promises:

- `wrappers.dfy` — `Option`, standing for `null`: an empty deadline field, a
  cancelled prompt, a failed `find`.
- `seqs.dfy` — `Array.prototype.filter` as `Filter`, with its proof that the
  result is an order-preserving subsequence holding exactly the matching
  elements. Also a partition lemma for a predicate and its negation, and
  `Array(n).fill(x)`.
- `js_string.dfy` — the string operations used: `trim` (the full ECMAScript
  white-space and line-terminator set), `toLowerCase` (ASCII letters),
  `includes`, the decimal printing of integers in template literals (with a
  decoder and a round-trip proof), and `join`.
- `tasks.dfy` — the task record and the pure list operations: add, toggle,
  edit (through `find`), delete, the status view, the search view and the
  counter. A `WellFormed` invariant (every text non-empty and trimmed) is
  shown to be kept by every operation.
- `urgency.dfy` — `getTimeLeft`, with a decoder proving that the string
  carries the whole hours and the whole leftover minutes, and nothing
  rounded up. Also the urgency rule, `getUrgentTasks`, and `updateRibbon` as
  a value `Hidden | Shown(highScroll, text)`.
- `store.dfy` — the global `tasks` and `currentFilter` as the fields of a
  `TaskStore` class. Its methods are the add button, the checkbox, the edit
  and delete buttons, the filter buttons, the counter and the list that
  `renderTasks` draws.

`Date.now()` is a parameter. `getUrgentTasks` and the ribbon's formatting
read the clock separately, so `Ribbon` takes two readings, `now` and
`clock`. `NoOverdueAtOneInstant` shows that when the two readings agree, no
entry says "Overdue!". The prompt's answer is an `Option<string>`
parameter. The checked priority radio is an `Option<Priority>` parameter,
and so is the already parsed deadline field. The search box contents and the
clicked filter button's value are string parameters.

Three facts about the code shape the model:

- Ids come from `Date.now()` and are never checked, so nothing here assumes
  they are unique. `Toggled` and `Deleted` act on every task carrying the
  id, and `Edited` acts on the first one, as `find` does.
- Deleting removes exactly one task only when one task carries the id
  (`DeletedUnique`). In general every task carrying it goes
  (`DeletedRemovesExactly`).
- Non-empty, trimmed text is guaranteed only for texts the code writes
  itself, because lists loaded from storage are not checked. `WellFormed`
  is therefore preserved by every method, not assumed.

## Model

| member | source | states |
|---|---|---|
| JsString.Trim | script.js:80 | `trim` leaves nothing exactly when the input is all white space, and what it leaves is no longer than the input and neither starts nor ends with white space |
| JsString.TrimIsSlice | script.js:80 | what `trim` returns is the slice of the input that follows its leading white space and precedes its trailing white space |
| JsString.TrimFixedIff | script.js:242-243 | `trim` leaves a string unchanged exactly when neither of its ends is white space |
| JsString.TrimIdempotent | script.js:242-243 | trimming the trimmed prompt answer again changes nothing |
| JsString.Lower | script.js:196-198 | lower-casing keeps the length, maps every character on its own, and leaves no upper-case ASCII letter |
| JsString.Includes | script.js:198 | the empty query is found in every text, and a query longer than the text is found in none |
| JsString.IncludesIff | script.js:198 | `includes` is true exactly when the query occurs at some position of the text |
| JsString.NatToStringRoundTrip | script.js:29-31 | the decimal digits interpolated into the time string read back as the number |
| JsString.NatToString | script.js:29-31 | a number interpolated into a template literal prints as a non-empty run of decimal digits that starts with "0" only for zero |
| JsString.Join | script.js:75-76 | joining no parts gives ""; otherwise the result starts with the first part and is as long as all parts plus one separator between each two neighbours |
| JsString.JoinRepeatedLine | script.js:71-76 | joining ten copies of a " • "-joined line with " • " equals joining ten back-to-back rounds of the entries |
| Seqs.Filter | script.js:213-216 | `filter` returns an order-preserving subsequence whose elements are exactly the input's elements satisfying the predicate |
| Seqs.FilterPartition | script.js:212-217 | filtering by a predicate and by its negation splits the list: the two multisets add up to the list's, and so do the lengths |
| Seqs.Repeat | script.js:76 | `Array(n).fill(x)` holds `n` entries, every one of them `x` |
| Tasks.AddTask | script.js:79-101 | an input that trims to nothing leaves the list unchanged; otherwise exactly one task is appended after the unchanged old tasks, with id `now`, the trimmed text, the checked priority or low, the given deadline and `completed` false |
| Tasks.AddKeepsWellFormed | script.js:80-101 | adding keeps every text non-empty and trimmed |
| Tasks.Toggled | script.js:222-228 | toggling keeps the length and flips `completed` on exactly the tasks carrying the id, leaving the others as they were |
| Tasks.ToggledChangesOnlyFlag | script.js:223-228 | a toggled task differs from the old one in its completion flag only, and that flag changes iff the task carries the id |
| Tasks.ToggledTwice | script.js:222-228 | toggling the same id twice restores the original list |
| Tasks.ToggledAbsent | script.js:223-228 | toggling an id no task carries changes nothing |
| Tasks.ToggledKeepsWellFormed | script.js:223-228 | toggling keeps every text non-empty and trimmed |
| Tasks.FirstIndexOf | script.js:238-239 | `find` locates the first task carrying the id, or reports that none does |
| Tasks.Edited | script.js:237-247 | with no task carrying the id, or a cancelled or blank answer, the list is unchanged; otherwise only the first task carrying the id changes, and its text becomes the trimmed answer |
| Tasks.EditedIdempotent | script.js:237-247 | editing never changes ids, so repeating the same edit changes nothing more |
| Tasks.EditedKeepsWellFormed | script.js:242-243 | editing keeps every text non-empty and trimmed |
| Tasks.Deleted | script.js:251-252 | deleting leaves an order-preserving subsequence holding exactly the old tasks that do not carry the id |
| Tasks.DeletedRemovesExactly | script.js:252 | what deleting keeps and the tasks carrying the id together make up the old list, duplicates included, so the length drops by the number of tasks carrying the id |
| Tasks.DeletedAbsent | script.js:252 | deleting an id no task carries leaves the list unchanged |
| Tasks.DeletedUnique | script.js:252 | when exactly one task carries the id, deleting removes that task and shortens the list by one |
| Tasks.DeletedKeepsWellFormed | script.js:252 | deleting keeps every text non-empty and trimmed |
| Tasks.FilterByStatus | script.js:211-219 | the status view is an order-preserving subsequence holding exactly the tasks matching the filter: open ones for "active", done ones for "completed", all for any other value |
| Tasks.FilterByStatusOther | script.js:218 | a filter value other than "active" and "completed" returns the list itself |
| Tasks.StatusPartition | script.js:212-217 | the "active" and "completed" views partition the list: their multisets and their lengths add up to the list's |
| Tasks.FilterBySearch | script.js:195-199 | the search view is an order-preserving subsequence, and the list itself when the lower-cased query is empty |
| Tasks.FilterBySearchMembers | script.js:196-198 | a task is in the search view iff it is in the list and the lower-cased query is empty or occurs in its lower-cased text |
| Tasks.FilterBySearchCaseInsensitive | script.js:196 | searching for a query and for its lower-cased form give the same view |
| Tasks.TaskCount | script.js:266-268 | the counter shows `done / total` where total is the list's length and done plus the number of open tasks is total, so done never exceeds total |
| Tasks.BuyMilkScenario | script.js:266-268 | adding "Buy milk" to an empty list gives 0 / 1; toggling it gives 1 / 1 |
| Urgency.MinutesSplit | script.js:24-26 | taking whole minutes and then splitting them into hours and minutes equals whole hours of the duration and whole minutes of the remainder |
| Urgency.HoursAndMinutes | script.js:28-31 | both template literals end in "m", and the hours part (marked by "h") appears exactly when there is at least one hour |
| Urgency.TimeLeft | script.js:23-32 | the time left is "Hh Mm" with H the whole hours and M the whole leftover minutes when the duration is at least an hour, and "Mm" otherwise, digits without leading zeros; it always ends in "m" |
| Urgency.TimeLeftRoundTrip | script.js:23-32 | the printed time left reads back as the whole hours and the whole leftover minutes of the duration, truncated, so nothing but the seconds is lost |
| Urgency.HoursAndMinutesRoundTrip | script.js:28-31 | the two template literals of `getTimeLeft` read back as the hours and minutes printed into them |
| Urgency.TimeLeftNinetyMinutes | script.js:23-32 | 90 minutes print as "1h 30m" |
| Urgency.TimeLeftFortyFiveMinutes | script.js:23-32 | 45 minutes print as "45m" |
| Urgency.TimeLeftUnderAMinute | script.js:23-32 | anything under a minute prints as "0m" |
| Urgency.IsUrgent | script.js:39-52 | an urgent task has a truthy deadline, is open, and its deadline is strictly ahead of the clock reading |
| Urgency.IsUrgentIff | script.js:39-52 | a task is urgent iff its deadline is truthy, it is open, the deadline is strictly ahead, and it is high priority or at most two hours away |
| Urgency.HighPriorityOverdueNotUrgent | script.js:44-51 | an open high-priority task due ten minutes ahead is urgent; ten minutes overdue it is not |
| Urgency.UrgentTasks | script.js:35-53 | the urgent list is an order-preserving subsequence holding exactly the urgent tasks, each with a truthy deadline strictly ahead |
| Urgency.Left | script.js:72-73 | an entry says "Overdue!" exactly when the deadline is not ahead, and otherwise the time left |
| Urgency.RibbonItem | script.js:71-74 | an entry is the flame, the task text, the dash, and then the time left when the deadline is still ahead of the clock reading or "Overdue!" when it is not |
| Urgency.RibbonItems | script.js:71-74 | `map` gives one entry per urgent task, in the urgent list's order |
| Urgency.SomeHigh | script.js:63 | `some` holds exactly when the urgent list holds a high-priority task |
| Urgency.RibbonText | script.js:71-76 | the banner text of a non-empty urgent list starts with the flame of its first entry |
| Urgency.Ribbon | script.js:54-77 | the ribbon is hidden exactly when the urgent list is empty, and a shown ribbon's text starts with a flame |
| Urgency.RibbonHiddenIff | script.js:55-62 | the ribbon is hidden exactly when no task is urgent |
| Urgency.SomeHighIff | script.js:63 | some entry of the urgent list is high priority exactly when some task of the list is urgent and high priority |
| Urgency.RibbonHighScrollIff | script.js:63-68 | a shown ribbon gets `high-scroll` exactly when some urgent task is high priority |
| Urgency.RibbonTextIsTenRounds | script.js:71-76 | the ribbon text is ten rounds of the urgent tasks' entries, all separated by " • " |
| Urgency.EntriesBeforeDeadline | script.js:71-74 | an entry built before its task's deadline is "🔥 text — " followed by the time left |
| Urgency.EntryBeforeDeadline | script.js:71-74 | one entry built before its task's deadline is "🔥 text — " followed by the time left |
| Urgency.NoOverdueAtOneInstant | script.js:71-74 | when both clock readings agree, each entry is "🔥 text — " followed by the time left, never "Overdue!" |
| Store.TaskStore.constructor | script.js:15-16 | the store starts from the saved list and the "all" filter |
| Store.TaskStore.Add | script.js:79-101 | the add button raises the alert exactly when the input trims to nothing, leaves the list as `AddTask` says, and keeps `WellFormed` |
| Store.TaskStore.ToggleComplete | script.js:222-228 | the checkbox replaces the list by `Toggled` of it and keeps `WellFormed` |
| Store.TaskStore.EditTask | script.js:237-247 | the prompt is shown exactly when some task carries the id; the list becomes `Edited` of it, and `WellFormed` is kept |
| Store.TaskStore.DeleteTask | script.js:251-252 | the delete button replaces the list by `Deleted` of it and keeps `WellFormed` |
| Store.TaskStore.SelectFilter | script.js:202-206 | a filter button sets the current filter to its value and leaves the list alone |
| Store.TaskStore.Count | script.js:266-268 | the counter's total is the list's length, and its done count plus the active view's length is the total |
| Store.TaskStore.VisibleTasks | script.js:116-117 | the drawn list is the search view of the status view, duplicates included: an order-preserving subsequence of the tasks, holding exactly those matching both the current filter and the search |

## Left out

- DOM construction and event wiring in `renderTasks` and the listeners (script.js:113-187, 190-209): user-interface plumbing. This includes the priority label and the "Due in"/"⚠ Overdue"/"No deadline" text of each row.
- Persistence through `localStorage` and JSON (script.js:15, 261-263): calls into browser code not shown. The constructor takes the loaded list as given.
- `Date.now()` and `setInterval` (script.js:36, 72, 94, 277): each clock reading is a parameter; the timer only triggers `updateRibbon` again.
- `alert` and `prompt` (script.js:89, 241): the alert becomes the `alerted` result of `Add`, and the prompt's answer becomes a parameter of `EditTask`.
- The progress bar (script.js:271-276): floating-point division and a CSS string.
- `new Date(...)` parsing of the deadline field (script.js:85): the parsed timestamp is a parameter, and an unparsable date (NaN) is not modelled.
- `innerHTML` escaping of the ribbon text (script.js:76).
- Urgency.Ribbon: the formatting inside `updateRibbon` reads the clock once per entry; the model uses one reading, `clock`, for all entries.
- JsString.Lower: models `toLowerCase` on ASCII letters only; other scripts' case mappings are not modelled.
- Tasks.Priority: the priority is one of the three radio values; a different string arriving from storage is not modelled.
- Tasks.TaskCount: yields the two numbers of the counter, not the "done / total tasks" text.
- Urgency.TimeLeft: defined for non-negative durations only. Both callers pass a positive difference, so the negative case never occurs.
- JavaScript numbers are doubles; ids, deadlines and durations are unbounded integers here. The two agree on every value the page creates itself (whole milliseconds below 2^53). They differ only for records loaded from storage: a fractional deadline, or a duration so large (10^21 hours or more) that `${hours}` switches to exponent notation.
