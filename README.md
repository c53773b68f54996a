# FEChallenge2025 in Dafny

A model of the logic in a small full-stack demo: a paginated user table (a React front end over an Express mock API) and a separate cancellable number processor.

- **Pagination** (`Pagination.dfy`) is the pagination bar of the table.
  - `GetPages` lists every page when there are at most five pages. Otherwise it lists one of three windows, with `"..."` markers, chosen by the current page.
  - The `<` and `>` arrows and the list buttons have enable, highlight and click rules.
- **Backend** (`Backend.dfy`) is the mock user API.
  - It holds a fixed list of 100 generated users.
  - The `/api/users` handler parses `page` and `limit` with fallbacks, slices the list with JavaScript `slice` semantics and computes `totalPages` as `Math.ceil`.
  - Negative slice indices count from the end. With the default limit, pages -1 to -9 therefore select users counted from the end (page -1 sends ids 81-90). Lower pages and negative limits can give an empty list.
- **Selection** (`Selection.dfy`) is the table's client state.
  - Pure functions compute the next checked-id list and the next theme.
  - The class `AppState` holds `checkedUsers` and `isDarkMode`, which the event handlers overwrite, and `users`, which the fetch sets.
- **Processor** (`Processor.dfy`) is `processWithDelay`.
  - It validates its input in the source's order: empty, not an array, not only numbers.
  - It then loops over the numbers. Each step checks the abort signal, logs the number and awaits a cancellable `delay`.
  - Wall-clock time is replaced by an abort oracle, `AbortPoint`. It says whether the signal fires, and if so whether before the check of step k or during the delay of step k.
  - The loop is a method that records a trace of events. Its contract ties that trace to the function `Steps`, and the lemmas derive the console output and the ordering from `Steps`.
  - `delay` is a class holding the timer flag and the promise state. A promise settles only once.
- **Wrappers** (`Wrappers.dfy`) holds `Option` and `Result`.

The model keeps these edge cases of the source as written:

- The three input checks are in an `async` function, so a failed check rejects the returned promise. It does not throw at the call site. In the model it is the `Threw` completion with an empty trace.
- `null` or `undefined` input fails while reading `.length`, before any of the three checks. The model treats that as its own failure, `LengthOfNullish`.
- `delayMs` is never validated. It is passed on unchanged.
- Every abort path completes normally with `Returned`, both the `signal.aborted` check and an abort during a delay.
- The backend sends the date field as `RegisteredAt`, while the front end's `TUser` has `registeredAt`. The model keeps both names as written.
- With six pages and a current page of at most 3, the list reads `1 2 3 4 ... 5 6`. There, the marker hides no page. `MarkersHidePagesExceptSixPages` states exactly when a marker hides a page.

## Model

| member | source | states |
|---|---|---|
| Pagination.GetPages | AppDevelopmentTest/my-app/src/components/Pagination.tsx:8-22 | the page list never has more than seven entries |
| Pagination.ShortListIsEveryPage | AppDevelopmentTest/my-app/src/components/Pagination.tsx:10-11 | with at most five pages the list is exactly 1..totalPages in order, with no marker; with zero or a negative page count it is empty |
| Pagination.LongListWindows | AppDevelopmentTest/my-app/src/components/Pagination.tsx:13-18 | with more than five pages the list is the leading, trailing or middle window, chosen by the current page exactly as the three branches choose |
| Pagination.PageListWellFormed | AppDevelopmentTest/my-app/src/components/Pagination.tsx:8-22 | for every input the list has at most 7 entries, strictly increasing page numbers within 1..totalPages, markers only between two page numbers, adjacent page numbers consecutive, first entry 1 and last entry totalPages when totalPages >= 1, and no entries when totalPages <= 0 |
| Pagination.LeadingWindowWellFormed | AppDevelopmentTest/my-app/src/components/Pagination.tsx:13-14 | the leading window has that shape |
| Pagination.TrailingWindowWellFormed | AppDevelopmentTest/my-app/src/components/Pagination.tsx:15-16 | the trailing window has that shape |
| Pagination.MiddleWindowWellFormed | AppDevelopmentTest/my-app/src/components/Pagination.tsx:17-18 | the middle window has that shape |
| Pagination.EveryPageReachable | AppDevelopmentTest/my-app/src/components/Pagination.tsx:10-19 | every page 1..totalPages is either listed or lies strictly between the page numbers on either side of a marker |
| Pagination.MarkersHidePagesExceptSixPages | AppDevelopmentTest/my-app/src/components/Pagination.tsx:13-14 | every marker stands for at least one unlisted page if and only if the input is not six pages with current page <= 3 |
| Pagination.CurrentPageListedOnce | AppDevelopmentTest/my-app/src/components/Pagination.tsx:10-19 | a current page in 1..totalPages appears in the list at exactly one position |
| Pagination.PrevDisabled | AppDevelopmentTest/my-app/src/components/Pagination.tsx:28 | on a page >= 1, "<" is disabled iff the page it requests is below 1 |
| Pagination.NextDisabled | AppDevelopmentTest/my-app/src/components/Pagination.tsx:47 | on a page <= totalPages, ">" is disabled iff the page it requests is past totalPages |
| Pagination.PrevTarget | AppDevelopmentTest/my-app/src/components/Pagination.tsx:27 | "<" requests an earlier page, from which ">" leads back to the current page |
| Pagination.NextTarget | AppDevelopmentTest/my-app/src/components/Pagination.tsx:46 | ">" requests the page one after the current page |
| Pagination.ItemTarget | AppDevelopmentTest/my-app/src/components/Pagination.tsx:37 | a list button requests a page iff it shows a page number, and then requests that number |
| Pagination.ItemDisabled | AppDevelopmentTest/my-app/src/components/Pagination.tsx:39 | a list button is disabled iff clicking it requests nothing |
| Pagination.ItemActive | AppDevelopmentTest/my-app/src/components/Pagination.tsx:38 | a list button is highlighted iff it requests the current page |
| Pagination.ArrowsStayInRange | AppDevelopmentTest/my-app/src/components/Pagination.tsx:26-47 | on a page in 1..totalPages, "<" is disabled iff currentPage == 1, which is iff currentPage-1 is outside 1..totalPages; ">" is disabled iff currentPage == totalPages, which is iff currentPage+1 is outside; they request currentPage-1 and currentPage+1 |
| Pagination.NoPagesNextEnabled | AppDevelopmentTest/my-app/src/components/Pagination.tsx:26-47 | with no pages yet (page 1 of 0) the list is empty, "<" is disabled, and ">" is enabled and requests page 2 |
| Pagination.ListButtonsRequestRealPages | AppDevelopmentTest/my-app/src/components/Pagination.tsx:34-43 | a list button is disabled iff it is a marker, which is iff clicking it requests nothing; a requested page lies in 1..totalPages; a button is highlighted iff it requests the current page |
| Backend.NatToString | AppDevelopmentTest/backend/index.js:11 | String(n) of a non-negative integer: nonempty decimal digits, one digit exactly when n < 10, and no leading zero |
| Backend.NatToStringValue | AppDevelopmentTest/backend/index.js:11 | the digits written denote n: DecimalValue(NatToString(n)) == n |
| Backend.NatToStringInjective | AppDevelopmentTest/backend/index.js:11 | different numbers give different strings |
| Backend.GenerateUser | AppDevelopmentTest/backend/index.js:10-16 | the user at position i has id String(i+1), name "User " + id and email "user" + id + "@example.com", and takes balance, status and creation time from its draw |
| Backend.AllUsers | AppDevelopmentTest/backend/index.js:10-17 | the generated list has exactly 100 users |
| Backend.GeneratedUsersDistinct | AppDevelopmentTest/backend/index.js:10-14 | the user at position i has id String(i+1), name "User " + id and email "user" + id + "@example.com"; no two users share an id |
| Backend.QueryInt | AppDevelopmentTest/backend/index.js:22-23 | a parsed nonzero value is used as is; a missing, unparsable or zero value gives the fallback |
| Backend.SliceIndex | AppDevelopmentTest/backend/index.js:27 | a slice index lands in 0..len: an index within the list is kept, an index at or past the end becomes len, and one at or before -len becomes 0 |
| Backend.SliceIndexFromEnd | AppDevelopmentTest/backend/index.js:27 | a negative index within -len..-1 lands where len + i, counted from the start, does |
| Backend.Slice | AppDevelopmentTest/backend/index.js:27 | a slice is never longer than the list |
| Backend.CeilDiv | AppDevelopmentTest/backend/index.js:29 | Math.ceil of the quotient is non-negative for a positive divisor and non-positive for a negative one; TotalPagesIsCeiling and TotalPagesNegativeLimit give its exact bounds |
| Backend.StartIndex | AppDevelopmentTest/backend/index.js:24 | the window start is never negative for page >= 1 and limit >= 0 |
| Backend.EndIndex | AppDevelopmentTest/backend/index.js:25 | the window end lies exactly limit entries after its start |
| Backend.FormatUser | AppDevelopmentTest/backend/index.js:31-34 | a sent user keeps id, name, balance, email and active, and RegisteredAt becomes its ISO text |
| Backend.ListUsers | AppDevelopmentTest/backend/index.js:21-42 | the response echoes the page in effect, counts every stored user and never sends more users than are stored; PageIsContiguousSlice, PageNonEmptyIff and ResponseEchoesQuery give its contents |
| Backend.ResponseEchoesQuery | AppDevelopmentTest/backend/index.js:37-42 | the page and limit in effect are never 0; the response echoes the page, counts every stored user and sets totalPages to ceil(totalUsers / limit) |
| Backend.WindowWidth | AppDevelopmentTest/backend/index.js:24-25 | each page's window starts where the previous page's ends (EndIndex gives its width, limit) |
| Backend.TotalPagesIsCeiling | AppDevelopmentTest/backend/index.js:28-29 | for limit >= 1, (totalPages-1)*limit < totalUsers <= totalPages*limit, and totalPages >= 0 |
| Backend.TotalPagesNegativeLimit | AppDevelopmentTest/backend/index.js:28-29 | for limit <= -1, Math.ceil rounds the negative quotient toward zero, so totalPages <= 0 |
| Backend.PageIsContiguousSlice | AppDevelopmentTest/backend/index.js:24-34 | for page >= 1 and limit >= 1 the users sent are the stored users from startIndex up to min(endIndex, 100), in stored order and formatted, so at most limit of them, with the count given exactly |
| Backend.PageNonEmptyIff | AppDevelopmentTest/backend/index.js:24-29 | for page >= 1 and limit >= 1, a page has users iff page <= totalPages |
| Backend.PageIdsConsecutive | AppDevelopmentTest/backend/index.js:10-27 | on the generated list, the users of a page have the consecutive ids startIndex+1, startIndex+2, ... |
| Backend.DefaultQueryFirstTen | AppDevelopmentTest/backend/index.js:21-42 | with no query the response holds users 1 to 10, 100 users in total, 10 pages, current page 1 |
| Backend.NegativeQueriesCanBeEmpty | AppDevelopmentTest/backend/index.js:22-27 | page -10 with the default limit, and page -1 with limit -10, both send no user |
| Backend.NegativePageCountsFromEnd | AppDevelopmentTest/backend/index.js:22-27 | page -1 is accepted and, through negative slice indices, sends the users with ids 81 to 90 |
| Selection.RemoveAll | AppDevelopmentTest/my-app/src/App.tsx:64 | filtering keeps exactly the ids other than userId and never lengthens the list |
| Selection.ToggleChecked | AppDevelopmentTest/my-app/src/App.tsx:61-67 | toggling makes userId checked iff it was not, and leaves every other id's membership unchanged |
| Selection.RowChecked | AppDevelopmentTest/my-app/src/App.tsx:128-130 | a row's checkbox is checked iff its id occurs among the checked ids |
| Selection.RemoveAllDistributes | AppDevelopmentTest/my-app/src/App.tsx:64 | filtering distributes over concatenation, so the kept ids stay in order |
| Selection.RemoveAllSingleton | AppDevelopmentTest/my-app/src/App.tsx:64 | filtering a one-element list drops it exactly when it is userId |
| Selection.RemoveAllAbsent | AppDevelopmentTest/my-app/src/App.tsx:64 | filtering out an absent id returns the list unchanged |
| Selection.RemoveAllCounts | AppDevelopmentTest/my-app/src/App.tsx:64 | every other id keeps its multiplicity and every copy of userId goes |
| Selection.RemoveAllNoDuplicates | AppDevelopmentTest/my-app/src/App.tsx:64 | filtering introduces no duplicate |
| Selection.ToggleFlipsOnlyThatRow | AppDevelopmentTest/my-app/src/App.tsx:61-67 | after a toggle, userId's checkbox is flipped and every other id's checkbox is unchanged |
| Selection.ToggleContents | AppDevelopmentTest/my-app/src/App.tsx:62-65 | unchecking removes every copy of userId and keeps every other id with its multiplicity; checking appends userId at the end |
| Selection.ToggleKeepsNoDuplicates | AppDevelopmentTest/my-app/src/App.tsx:61-67 | a duplicate-free selection stays duplicate-free |
| Selection.ToggleTwiceRestores | AppDevelopmentTest/my-app/src/App.tsx:61-67 | checking an unchecked row and then unchecking it restores the list exactly |
| Selection.ToggleTwiceSameRows | AppDevelopmentTest/my-app/src/App.tsx:61-67 | unchecking a row and then checking it again gives back the same checked rows |
| Selection.CheckAll | AppDevelopmentTest/my-app/src/App.tsx:53-59 | check-all gives the ids of the current users, in order; clearing gives the empty list |
| Selection.CheckAllRows | AppDevelopmentTest/my-app/src/App.tsx:53-59 | after check-all a row's checkbox is checked iff some user of the page has that id; after clearing no checkbox is checked |
| Selection.NextTheme | AppDevelopmentTest/my-app/src/App.tsx:49-51 | the theme flag always changes |
| Selection.ThemeToggleTwice | AppDevelopmentTest/my-app/src/App.tsx:49-51 | two theme toggles restore the original theme |
| Selection.AppState.constructor | AppDevelopmentTest/my-app/src/App.tsx:11-13 | initially nothing is checked, light mode is on and there are no users |
| Selection.AppState.LoadUsers | AppDevelopmentTest/my-app/src/App.tsx:36 | a loaded page replaces the users, and the selection and theme are unchanged |
| Selection.AppState.ToggleTheme | AppDevelopmentTest/my-app/src/App.tsx:49-51 | the dark-mode flag flips, and the selection and users are unchanged |
| Selection.AppState.HandleCheckAll | AppDevelopmentTest/my-app/src/App.tsx:53-59 | the selection becomes CheckAll of the current users, and the theme and users are unchanged |
| Selection.AppState.HandleCheckUser | AppDevelopmentTest/my-app/src/App.tsx:61-67 | the selection becomes ToggleChecked of the old one, the row's checkbox flips, and the theme and users are unchanged |
| Processor.Validate | LogicTest/index.ts:17-30 | iff characterisations of each outcome in check order: success exactly for a nonempty array of numbers, whose values it returns; otherwise the nullish TypeError, then "Array cannot be empty" for anything of length 0, then "Input must be an array", then "Array must contain only numbers" |
| Processor.ValidationOrder | LogicTest/index.ts:17-30 | an empty string and an empty array are reported as empty; a nonempty string is reported as not an array; [1, "a", 3] is reported as not only numbers; [1, 2] passes |
| Processor.AbortIsMonotonic | LogicTest/index.ts:36 | once the signal reads aborted at a check it reads aborted at every later check |
| Processor.PendingDelay.constructor | LogicTest/index.ts:2-3 | a new delay has its timer armed and its promise pending |
| Processor.PendingDelay.TimerElapsed | LogicTest/index.ts:3 | when the timer fires it disarms, and resolves the promise only if it was armed and the promise still pending |
| Processor.PendingDelay.AbortFired | LogicTest/index.ts:6-9 | the abort listener clears the timer, and rejects with "The operation was aborted" only a still-pending promise |
| Processor.Delay | LogicTest/index.ts:1-13 | the wait rejects with "The operation was aborted" iff the signal fires while it is pending, otherwise resolves; a later abort changes nothing; no timer is armed when the wait settles, so on an abort the listener has cleared it |
| Processor.Steps | LogicTest/index.ts:33-52 | the events of the loop from step i: none exactly when no step is left; LogsMatchExpected and RunIsOrdered give its output and order |
| Processor.StepsBeginWithCheck | LogicTest/index.ts:35-36 | while a step is left, the events begin with that step's abort check, which reads the signal as AbortedAtCheck says |
| Processor.ProcessWithDelay | LogicTest/index.ts:15-53 | invalid input rejects with its failure before any event; valid input always returns normally, after exactly the events Steps gives |
| Processor.RunSteps | LogicTest/index.ts:33-52 | the loop's trace is exactly Steps of the numbers and the abort point |
| Processor.StepEventsLogs | LogicTest/index.ts:42 | a step that passes its check logs exactly its own number |
| Processor.StepLogs | LogicTest/index.ts:33-52 | a completed step logs its own number, followed by the output of the remaining steps |
| Processor.ProcessingLinesValues | LogicTest/index.ts:42 | one processing line per value reports exactly those values, in order |
| Processor.LogsWithoutAbort | LogicTest/index.ts:33-52 | a signal that does not fire before the loop ends lets every number be logged once, in order |
| Processor.LogsAbortBeforeCheck | LogicTest/index.ts:35-39 | a signal firing before the check of step k logs numbers 0..k-1 and then the abort notice, and nothing after |
| Processor.LogsAbortDuringDelay | LogicTest/index.ts:46-51 | a signal firing during step k's delay logs numbers 0..k and then the delay's error, and nothing after |
| Processor.LogsMatchExpected | LogicTest/index.ts:33-52 | for every abort point the console output equals the independently stated ExpectedLogs |
| Processor.LoggedValuesArePrefix | LogicTest/index.ts:33-52 | the logged numbers are always a prefix of the input, each once and in order, and all of it when the signal never fires |
| Processor.RunIsOrdered | LogicTest/index.ts:36-47 | in every run each processing line comes right after its own step's passed check and right before that step's delay starts, and each delay ends before anything else happens |
| Processor.StepOrdered | LogicTest/index.ts:36-47 | the events of one awaited step are in that order |
| Processor.AbortedBeforeCall | LogicTest/index.ts:35-39 | a signal already aborted at the call logs only the abort notice, and no delay starts |
| Processor.DemoAbortDuringThirdDelay | LogicTest/index.ts:55-68 | the demo scenario (five numbers, abort during the third delay) logs 1, 2 and 3, then the delay's error |

## Left out

- React rendering is not modelled: JSX, CSS, icons, class names, list keys and the dark-mode class of the page. Only the button rules are kept: disabled, highlighted and value requested.
- The `useEffect` fetch and the loading and error flags are not modelled, because they are network I/O. So are `setTotalPages` and `setTotalUsers`. `Selection.AppState.LoadUsers` stands for the one `setUsers` call.
- The sort controls (`sortBy`, `orderBy`) are not modelled. The backend ignores those query parameters.
- Express, CORS and `app.listen` are left out as server wiring.
- `parseInt` string parsing is abstracted as an `Option<int>` input. `None` stands for a missing or unparsable parameter.
- `Math.random()` supplies balance and status, and `new Date()` supplies the creation time. These come from an unconstrained `draws` parameter.
- `toISOString` is a parameter and its text is treated as opaque.
- JavaScript numbers are modelled as unbounded integers or reals. Float rounding is not modelled: above 2^53, in `page * limit`, and NaN and Infinity as elements (which `typeof` accepts).
- `Processor.Validate`: array-like objects are not modelled. Every non-array, non-string value reads `.length` as undefined, so an object such as `{ length: 0 }`, which the source reports as empty, is reported as not an array.
- `Processor.Validate`: the message of the TypeError for `null` or `undefined` input is not modelled, only that the call rejects.
- `Processor.Delay`: does not state that the wait lasts at least `delayMs` milliseconds, because timers and wall-clock time are replaced by the abort oracle.
- `Processor.ProcessWithDelay`: assumes a signal object is supplied. The `if (signal)` guard in `delay` is therefore always taken, and a missing signal is not modelled.
- The event-listener registry is abstracted. Listeners of earlier delays stay registered and fire harmlessly on their settled promises, which the model represents by `Delay`'s `abortAfterWait` input. Concurrency between the timer and the main flow is abstracted into the abort oracle.
- The demo driver, with its controller and three-second timer, is not modelled itself. Its scenario is stated as `Processor.DemoAbortDuringThirdDelay`.
- `console.error` prints the whole `Error` object. The model records only its message.
