# Focus tracker — a verified Dafny model of its core

The tracker is a Next.js web app for keeping a streak. It holds the streak
start and the history of resets, habits with a completion list per day, a
gratitude list, a meditation timer and a feed of community posts. This project
models the server handlers and the client-side logic of that core in Dafny,
and proves what they promise. The handlers modelled are `/api/habits`,
`/api/streak`, `/api/gratitude` and `/api/reddit`. The client-side logic
modelled is the dashboard page, the habit tracker, the gratitude list and the
meditation timer.

Modules, one per source file, plus shared ones:

- `Wrappers`, `Http`, `Clock`, `Seqs` and `Text` are shared:
  - `Http` holds the optional session and the JSON response envelope.
  - `Clock` holds millisecond timestamps and the local-midnight buckets of
    `setHours(0, 0, 0, 0)`. It also has the calendar parts
    `getDate`/`getMonth`/`getFullYear`, under one fixed local offset whose
    value is left open.
  - `Seqs` holds JavaScript's `filter`, `find`, `slice` and `reverse`, the
    position search of the store's id lookups, and the store's sort.
  - `Text` holds `String.prototype.trim`.
- `HabitsRoute` (app/api/habits/route.ts). The store is a class over an
  in-memory table. The per-day toggle of `PUT` is a loop-based `findIndex`,
  followed by a splice or a push.
- `HabitTracker` (components/habbit-tracker.tsx). It covers "done today", the
  monthly statistics, the list update after a toggle and the add-form guard.
- `StreakRoute` (app/api/streak/route.ts). A class over the users table: the
  GET repair and the day/hour figures, and the POST reset.
- `Dashboard` (app/page.tsx). It covers:
  - the next milestone;
  - the progress bar;
  - the live clock's breakdown of the elapsed time;
  - a `StreakClock` class for the ref, the local-storage cache, the mount
    effect and the interval tick;
  - the history table.
- `MeditationTimer` (components/meditation-timer.tsx). It has:
  - the timer as a state machine, with transition functions and a class
    whose methods follow them;
  - the `m:ss` display, with a parser proving it round-trips.
- `GratitudeRoute` (app/api/gratitude/route.ts). A class over the gratitude
  table, with GET in today and history modes, POST, PUT and DELETE.
- `GratitudeList` (components/gratitude-list.tsx). It covers the tab's
  fetch mode, the optimistic toggle and delete, the guarded add, and the
  history view's grouping by date label. The grouping is a loop-based method
  proved against a flattening specification.
- `RedditRoute` (app/api/reddit/route.ts). The post extraction (filter out
  stickied, take 5, map), proved equal to an independent single-pass
  reading. Any upstream failure maps to the fixed 500.

Two behaviours of the code worth noting:

- A streak reset appends the current time to `history`, not the old start
  (app/api/streak/route.ts:78).
- The monthly target of the habit tracker is never 0. `getDate()` is at least
  1, so no zero-target guard is needed (lemma `HabitTracker.Target`).

Behaviour of the code that the proofs bring out:

- The `next === prev` branch of `getProgress` (app/page.tsx:96) is never
  taken (`Dashboard.NextBeyondPrev`).
- The NaN guards of the streak figures (app/api/streak/route.ts:55-56) cannot
  fire, because the start is always repaired before the figures are computed.
- Starting a meditation session that has already completed, without a reset,
  logs the full duration once more on the next tick
  (`MeditationTimer.RestartAfterFinishLogsAgain`).
- The gratitude and habit handlers look up and delete by id alone, whoever
  owns the document.
- After a reset the dashboard's clock ref keeps the old start until new streak
  data arrives. Only the displayed reading is set to zero
  (`Dashboard.StreakClock.ResetSucceeded`).

## Model

| member | source | states |
|---|---|---|
| Http.Unauthorized | app/api/habits/route.ts:10-12 | a missing session or user answers status 401 |
| Http.UncaughtError | app/api/gratitude/route.ts:54-59 | a schema validation error thrown by the store (uncaught) answers status 500 |
| Clock.Midnight | app/api/habits/route.ts:59-60 | `setHours(0,0,0,0)` gives the local midnight at or before t, less than a day before it |
| Clock.EndOfDay | app/api/gratitude/route.ts:31-32 | `setHours(23,59,59,999)` is the last millisecond of t's local day |
| Clock.MidnightIdempotent | app/api/habits/route.ts:62-65 | normalising an already normalised date changes nothing |
| Clock.SameBucketIff | app/api/gratitude/route.ts:29-36 | two instants share a local day exactly when the second lies within 24 h from the first one's midnight |
| Clock.GetDate | components/habbit-tracker.tsx:122 | the day of the month is between 1 and 31 |
| Clock.GetMonth | components/habbit-tracker.tsx:120 | no contract of its own: `SameBucketSameCalendar` (one local day, one month) and `EpochIsJanuaryFirst1970` (month 0 at day 0) are what is proved about it |
| Clock.GetFullYear | components/habbit-tracker.tsx:121 | no contract of its own: `SameBucketSameCalendar` and `EpochIsJanuaryFirst1970` (1970 at day 0) are what is proved about it |
| Clock.SameBucketSameCalendar | components/habbit-tracker.tsx:119-126 | instants of one local day have the same date, month and year |
| Clock.EpochIsJanuaryFirst1970 | components/habbit-tracker.tsx:119-122 | the calendar maps day 0 to 1 January 1970 (month 0) |
| Text.Trim | components/habbit-tracker.tsx:41 | no contract of its own: `TrimEmptyIffBlank` gives its meaning for the guard (empty exactly for all-whitespace input) |
| Text.TrimEmptyIffBlank | components/habbit-tracker.tsx:41 | `!s.trim()` holds exactly when every character of s is JavaScript whitespace |
| Seqs.Filter | components/gratitude-list.tsx:77 | every element of the result satisfies the predicate and comes from the input; every satisfying input element is kept; the result's multiset is within the input's (exact counts: `FilterMultiset`; order: `FilterAppend`) |
| Seqs.FilterMultiset | components/gratitude-list.tsx:77 | each satisfying value occurs in the result exactly as often as in the input, any other value not at all |
| Seqs.FilterAppend | app/api/reddit/route.ts:24 | filtering distributes over concatenation |
| Seqs.FilterDropsOne | components/gratitude-list.tsx:77 | when only position k fails the predicate, filtering removes exactly position k |
| Seqs.FilterKeepsPairwise | app/api/gratitude/route.ts:94 | a relation between all earlier and later elements (distinct ids) survives filtering |
| Seqs.FindIndex | app/api/habits/route.ts:52-53 | the position search behind both `findById` lookups: the first position satisfying the predicate, or -1 exactly when none does |
| Seqs.Find | app/page.tsx:89 | `find` returns the first matching element, and None exactly when nothing matches |
| Seqs.Take | app/api/reddit/route.ts:25 | `slice(0, n)` keeps the first min(n, length) elements unchanged |
| Seqs.TakeOfSorted | app/api/gratitude/route.ts:26 | whatever a sorted prefix leaves out has a key no smaller than any kept one |
| Seqs.Reverse | app/page.tsx:387 | keeps the length; its meaning element by element is `ReverseAt` |
| Seqs.ReverseAt | app/page.tsx:387 | element k of the reversal is element length-1-k of the original |
| Seqs.ReverseInvolution | app/page.tsx:95 | reversing twice restores the sequence |
| Seqs.SortBy | app/api/habits/route.ts:16 | the store's sort returns a permutation of its input, ordered by the key |
| HabitsRoute.FirstSameDay | app/api/habits/route.ts:62-66 | the index of the first entry of the day, or -1 exactly when no entry has that day |
| HabitsRoute.FindSameDay | app/api/habits/route.ts:62-66 | the `findIndex` loop returns exactly the first index of the day (or -1) |
| HabitsRoute.Toggled | app/api/habits/route.ts:62-74 | no contract of its own: `ToggleOnAppends` and `ToggleOffRemovesFirst` state what the splice-or-push does, and the lemmas below what it preserves |
| HabitsRoute.ToggleOnAppends | app/api/habits/route.ts:71-74 | toggling an absent day appends exactly its midnight and keeps all earlier entries |
| HabitsRoute.ToggleOffRemovesFirst | app/api/habits/route.ts:68-70 | toggling a present day removes exactly its first entry, the others keep their order |
| HabitsRoute.ToggleLength | app/api/habits/route.ts:68-74 | every toggle changes the list length by exactly one, down iff the day was present |
| HabitsRoute.ToggleKeepsUniqueDays | app/api/habits/route.ts:58-74 | toggling keeps at most one entry per day |
| HabitsRoute.ToggleDaySet | app/api/habits/route.ts:58-74 | on a one-per-day list the set of covered days gains or loses exactly the toggled day |
| HabitsRoute.ToggleFlipsDay | app/api/habits/route.ts:58-74 | after a toggle the day is covered iff it was not before |
| HabitsRoute.HasDayInDaySet | app/api/habits/route.ts:62-66 | "some entry has this day" is membership in the covered-day set |
| HabitsRoute.ToggleTwiceRestores | app/api/habits/route.ts:58-74 | toggling an absent day on and off again (any time of that day) restores the list exactly |
| HabitsRoute.ToggleTwiceSameDays | app/api/habits/route.ts:58-74 | two toggles of one day leave the covered days as they were |
| HabitsRoute.IndexOfId | app/api/habits/route.ts:52-55 | `findById` yields a position holding that id, or -1 exactly when no document has it |
| HabitsRoute.OwnedBy | app/api/habits/route.ts:16 | `find({ userId })` keeps exactly the caller's habits |
| HabitsRoute.ParseFrequency | models/Habbit.ts:13-17 | a missing frequency defaults to daily, 'weekly' is weekly, and any other value is rejected |
| HabitsRoute.HabitStore.List | app/api/habits/route.ts:8-19 | 401 without a session; otherwise exactly the caller's habits, newest created first |
| HabitsRoute.HabitStore.Create | app/api/habits/route.ts:22-40 | 401 without a session; 500 and no change for a missing or empty name or unknown frequency; otherwise one new habit with an empty completion list is appended |
| HabitsRoute.HabitStore.Toggle | app/api/habits/route.ts:43-79 | 401; 404 'Habbit not found'; 500 for an unparsable date; otherwise only that habit changes, its day toggled, and one-entry-per-day is kept |
| HabitTracker.IsCompletedToday | components/habbit-tracker.tsx:76-79 | done today iff some entry shares now's local midnight |
| HabitTracker.ToggleFlipsCompletedToday | components/habbit-tracker.tsx:57-79 | a toggle sent with the current time flips "done today", with browser and server on one local offset |
| HabitTracker.CompletedThisMonth | components/habbit-tracker.tsx:124-127 | the count is the number of entries in now's month and year |
| HabitTracker.Target | components/habbit-tracker.tsx:136-139 | the target is the day of the month for daily habits, the started weeks (1..5) for weekly ones, never 0 |
| HabitTracker.Round | components/habbit-tracker.tsx:142 | `Math.round` is the integer within half a unit, halves rounding up |
| HabitTracker.Percentage | components/habbit-tracker.tsx:142 | exactly min(100, round(100·completed/target)), halves rounding up: 100 once the target is met, else the rounded share; always 0..100, 0 with nothing done |
| HabitTracker.Stats | components/habbit-tracker.tsx:116-142 | a habit's block is this month's completion count, the month's target and their percentage; hence a count no larger than its list, a target of at least 1, and a percentage in 0..100 |
| HabitTracker.ReplaceById | components/habbit-tracker.tsx:69 | the habit with that id is replaced, every other one kept in place |
| HabitTracker.ReplaceMatchesStore | components/habbit-tracker.tsx:66-69 | on any list with distinct ids, replacing by id (the view's `map`) is the positional update `hs[k := updated]` at the id's position, the form the store's PUT uses |
| HabitTracker.AddRequest | components/habbit-tracker.tsx:40-47 | nothing is sent for a blank name; otherwise the untrimmed name with the chosen frequency |
| HabitTracker.AfterAddSucceeded | components/habbit-tracker.tsx:48-50 | a successful add clears the name and keeps the frequency |
| StreakRoute.AbsDiff | app/api/streak/route.ts:47 | `Math.abs` of the difference |
| StreakRoute.StreakFigures | app/api/streak/route.ts:46-49 | whole days and whole hours of distance: d days ≤ distance < d+1 days, likewise for hours |
| StreakRoute.HoursWithinDays | app/api/streak/route.ts:48-49 | the hour count lies within the day count's 24 hours |
| StreakRoute.FiguresSymmetric | app/api/streak/route.ts:47 | a start in the future counts like one equally far in the past |
| StreakRoute.RepairedStart | app/api/streak/route.ts:29-46 | a stored valid start is kept; a missing or unparsable one becomes now |
| StreakRoute.StatusOf | app/api/streak/route.ts:46-58 | no contract of its own: the figures' meaning is `StreakFigures`, and `RepairGivesZero`/`ResetThenStatus` state the answer after a repair or a reset |
| StreakRoute.RepairGivesZero | app/api/streak/route.ts:29-49 | after a repair the streak is 0 days 0 hours and starts now |
| StreakRoute.AfterReset | app/api/streak/route.ts:77-80 | a reset appends now to the history and restarts the streak now |
| StreakRoute.ResetThenStatus | app/api/streak/route.ts:77-80 | GET right after a reset reports 0 days 0 hours from the reset moment |
| StreakRoute.ResetsAt | app/api/streak/route.ts:78 | n resets append exactly those n moments; the start is the last one |
| StreakRoute.UserStore.Get | app/api/streak/route.ts:7-60 | 401; 404 'User not found'; otherwise the repaired start is saved and the figures come from it |
| StreakRoute.UserStore.Reset | app/api/streak/route.ts:62-85 | 401; 404; otherwise only that user changes, by `AfterReset`, and the answer is 'Streak reset successfully' |
| Dashboard.NextMilestone | app/page.tsx:87-90 | beyond the day count: the smallest milestone past it below 365, else one more day |
| Dashboard.NextMilestoneFound | app/page.tsx:88-89 | the milestone search finds the smallest milestone past a count below 365 and nothing from 365 on |
| Dashboard.NextMilestoneOf | app/page.tsx:87-90 | NaN stays NaN; a count yields a larger milestone |
| Dashboard.MarksDescending | app/page.tsx:95 | `.reverse()` of the marks is the newest-first list searched |
| Dashboard.FirstMatchIsLargest | app/page.tsx:95 | in a descending list the first element not past d is the largest such |
| Dashboard.PrevMarkFound | app/page.tsx:95 | the newest-first search finds the largest mark not past a non-negative count, nothing for a negative one |
| Dashboard.PrevMark | app/page.tsx:95 | the largest mark not past the count; 0 for a negative count (`|| 0`) |
| Dashboard.NextBeyondPrev | app/page.tsx:94-96 | the next milestone always lies beyond the previous mark, so the 100 early return is dead |
| Dashboard.Progress | app/page.tsx:92-98 | no contract of its own: `ProgressBounds`, `ProgressWithinSegment` and `ProgressRestartsAtMarks` state its range and value |
| Dashboard.ClampedPercent | app/page.tsx:97 | clamped to 0..100: empty for a non-positive part, full once the span is covered, else exactly 100·part/span |
| Dashboard.ProgressWithinSegment | app/page.tsx:92-98 | for a count ≥ 0 the bar shows the share of the current segment covered, never full |
| Dashboard.ProgressBounds | app/page.tsx:92-98 | the bar is within 0..100, and empty for NaN and negative counts |
| Dashboard.ProgressRestartsAtMarks | app/page.tsx:92-98 | on reaching a mark the bar starts again from empty |
| Dashboard.PrevMarkAtMark | app/page.tsx:95 | on a mark, the previous mark is the mark itself |
| Dashboard.Breakdown | app/page.tsx:151-156 | the clock fields are bounded (hours < 24, minutes and seconds < 60) and stand for the difference rounded down to the second |
| Dashboard.BreakdownOfParts | app/page.tsx:151-156 | the breakdown is unique: fields plus spare milliseconds break down into exactly those fields |
| Dashboard.ClockAgreesWithServer | app/page.tsx:151-156 | for a past start the clock's days equal the server's, and the server's hours are 24·days + the clock's hours |
| Dashboard.CalculateTime | app/page.tsx:139-157 | NaN fields exactly for an unparsable start; otherwise bounded fields standing for max(0, elapsed) to the second |
| Dashboard.DaysOf | app/page.tsx:240 | the day count passed on is NaN exactly when the reading is NaN |
| Dashboard.HistoryRows | app/page.tsx:387 | row k of the table is the k-th reset counted back from the latest |
| Dashboard.StreakClock.constructor | app/page.tsx:101-103 | first render: no ref, zeros, not mounted, the cache as stored earlier |
| Dashboard.StreakClock.Mount | app/page.tsx:106-125 | marks mounted; a cached start becomes the ref and, unless in the future or unparsable, sets the reading at once |
| Dashboard.StreakClock.ReceiveStartDate | app/page.tsx:128-133 | a server start date becomes the ref and is cached; without one nothing changes |
| Dashboard.StreakClock.Tick | app/page.tsx:136-161 | once mounted and with a ref, the reading is `CalculateTime` of the ref; otherwise unchanged |
| Dashboard.StreakClock.ResetSucceeded | app/page.tsx:73-85 | after a confirmed reset the cache is cleared and the reading is zero; the ref is kept |
| Dashboard.StreakClock.SignOut | app/page.tsx:188-191 | signing out clears the cache only |
| MeditationTimer.Start | components/meditation-timer.tsx:26-29 | no effect while running; otherwise running and not finished, time and duration kept |
| MeditationTimer.Pause | components/meditation-timer.tsx:41-44 | stops the countdown and changes nothing else |
| MeditationTimer.Reset | components/meditation-timer.tsx:46-50 | stopped, not finished, time left refilled to the duration |
| MeditationTimer.SetPreset | components/meditation-timer.tsx:69-74 | stopped, not finished, the preset is both duration and time left |
| MeditationTimer.StatusLabel | components/meditation-timer.tsx:112 | 'Focus' iff running, 'Completed' iff stopped and finished, 'Ready' iff neither |
| MeditationTimer.InitialConsistent | components/meditation-timer.tsx:8-11 | the first state is consistent and shows no reset button |
| MeditationTimer.StepsKeepConsistent | components/meditation-timer.tsx:26-74 | every button and tick keeps: preset duration, 0 ≤ time left ≤ duration, finished ⇒ 0, never running and finished, only presets logged |
| MeditationTimer.StartIdempotent | components/meditation-timer.tsx:26-27 | pressing start twice is pressing it once |
| MeditationTimer.ResetButtonVisibility | components/meditation-timer.tsx:132 | the reset button is hidden after reset or preset and shown once a running timer ticks |
| MeditationTimer.Tick | components/meditation-timer.tsx:30-38 | no contract of its own: `CountsDown`, `SessionCompletes` and `StepsKeepConsistent` state what a tick does |
| MeditationTimer.CountsDown | components/meditation-timer.tsx:30-38 | before the end each tick takes exactly one second off and keeps running |
| MeditationTimer.SessionCompletes | components/meditation-timer.tsx:30-67 | a session of n seconds finishes after exactly n ticks, stopped at 0, its duration logged once |
| MeditationTimer.RestartAfterFinishLogsAgain | components/meditation-timer.tsx:26-38 | starting a completed session without reset logs the duration again on the next tick |
| MeditationTimer.Decimal | components/meditation-timer.tsx:77-79 | a number's decimal digits: non-empty, no leading zero |
| MeditationTimer.DecimalRoundTrip | components/meditation-timer.tsx:77-79 | reading the digits back gives the number |
| MeditationTimer.PadStart2 | components/meditation-timer.tsx:79 | a string of two or more characters is unchanged; a shorter one becomes two characters, zeros in front of the original |
| MeditationTimer.SecondsRoundTrip | components/meditation-timer.tsx:78-79 | `padStart(2, '0')` of seconds below 60 is two digits that read back as them |
| MeditationTimer.FormatTime | components/meditation-timer.tsx:76-80 | the display contains the ':' separator |
| MeditationTimer.FormatTimeRoundTrip | components/meditation-timer.tsx:76-80 | parsing `m:ss` back gives the seconds formatted |
| MeditationTimer.FormatTimeInjective | components/meditation-timer.tsx:76-80 | different times never display alike |
| MeditationTimer.MeditationTimerState.constructor | components/meditation-timer.tsx:8-11 | the state starts as the initial timer |
| MeditationTimer.MeditationTimerState.StartTimer | components/meditation-timer.tsx:26-39 | the new state is `Start` of the old |
| MeditationTimer.MeditationTimerState.OnTick | components/meditation-timer.tsx:30-38 | the new state is one `Tick` of the old |
| MeditationTimer.MeditationTimerState.PauseTimer | components/meditation-timer.tsx:41-44 | the new state is `Pause` of the old |
| MeditationTimer.MeditationTimerState.ResetTimer | components/meditation-timer.tsx:46-50 | the new state is `Reset` of the old |
| MeditationTimer.MeditationTimerState.ChoosePreset | components/meditation-timer.tsx:69-74 | the new state is `SetPreset` of the old |
| GratitudeRoute.OwnedBy | app/api/gratitude/route.ts:26 | `find({ userId })` keeps exactly the caller's entries |
| GratitudeRoute.TodayIsLocalDay | app/api/gratitude/route.ts:29-36 | the query window holds an entry iff it was created on now's local day |
| GratitudeRoute.PostedNowIsToday | app/api/gratitude/route.ts:29-37 | an entry created now is in today's window |
| GratitudeRoute.TodayOf | app/api/gratitude/route.ts:34-37 | exactly the caller's entries created within today's window |
| GratitudeRoute.IndexOfId | app/api/gratitude/route.ts:73-74 | a position holding that id, or -1 exactly when none has it |
| GratitudeRoute.Flipped | app/api/gratitude/route.ts:77 | only the check mark changes, and it changes |
| GratitudeRoute.FlipTwice | app/api/gratitude/route.ts:77 | two PUTs for one entry restore it |
| GratitudeRoute.Without | app/api/gratitude/route.ts:94 | a missing id deletes nothing; otherwise exactly the entries with other ids remain |
| GratitudeRoute.NewestPage | app/api/gratitude/route.ts:26 | at most 50 of the caller's entries, newest first, and none left out is newer than one kept |
| GratitudeRoute.LeftOutNotNewer | app/api/gratitude/route.ts:26 | an entry cut off by `limit(50)` is no newer than any returned |
| GratitudeRoute.WithoutKeepsIds | app/api/gratitude/route.ts:94 | deleting keeps the ids distinct and below the next id |
| GratitudeRoute.GratitudeStore.Get | app/api/gratitude/route.ts:8-41 | 401; history mode: the newest 50 by the caller, newest first; other modes: exactly the caller's entries of today, oldest first |
| GratitudeRoute.GratitudeStore.Post | app/api/gratitude/route.ts:44-62 | 401; 500 and no change for missing or empty content; otherwise one new unchecked entry of the caller created now is appended |
| GratitudeRoute.GratitudeStore.Put | app/api/gratitude/route.ts:65-81 | 401; 404 'Not found'; otherwise only that entry's check mark flips |
| GratitudeRoute.GratitudeStore.Delete | app/api/gratitude/route.ts:84-97 | 401; otherwise the entry with that id, if any, is removed and the answer is 'Deleted' |
| GratitudeList.ModeFor | components/gratitude-list.tsx:26 | the mode sent is 'history' or 'today' |
| GratitudeList.ModeMatchesRoute | components/gratitude-list.tsx:26-28 | the route answers in history mode exactly for the history tab |
| GratitudeList.ToggleChecked | components/gratitude-list.tsx:62 | entries with that id are flipped; every other entry and the order are unchanged |
| GratitudeList.ToggleCheckedTwice | components/gratitude-list.tsx:62 | toggling twice restores the list |
| GratitudeList.ToggleMatchesServer | components/gratitude-list.tsx:60-69 | with distinct ids the optimistic toggle is the PUT handler's update |
| GratitudeList.Removed | components/gratitude-list.tsx:77 | the optimistic delete is the DELETE handler's filter, and leaves no entry with that id |
| GratitudeList.RemovedAt | components/gratitude-list.tsx:77 | with distinct ids exactly the entry's position is removed, the rest keep their order |
| GratitudeList.RemovedAbsent | components/gratitude-list.tsx:77 | deleting an id not in the list changes nothing |
| GratitudeList.AddRequest | components/gratitude-list.tsx:42-49 | nothing is sent for blank input; otherwise the input as typed |
| GratitudeList.AddRequestNotEmpty | components/gratitude-list.tsx:43-48 | every request sent passes the route's required-content check |
| GratitudeList.GroupByDate | components/gratitude-list.tsx:163-172 | the groups flatten back to the history in order; each is non-empty, all its entries share its label, and neighbouring labels differ |
| GratitudeList.JoinLast | components/gratitude-list.tsx:165-167 | joining the last group keeps the grouping and appends the entry to the flattening |
| GratitudeList.StartGroup | components/gratitude-list.tsx:168-170 | opening a group for a new label keeps the grouping |
| GratitudeList.FlattenSnoc | components/gratitude-list.tsx:169 | a new group's entries go at the end of the flattening |
| GratitudeList.GratitudeListView.constructor | components/gratitude-list.tsx:16-19 | empty lists, empty input, the today tab |
| GratitudeList.GratitudeListView.SelectTab | components/gratitude-list.tsx:95-101 | the tab is set and the fetch goes out in its mode |
| GratitudeList.GratitudeListView.Fetched | components/gratitude-list.tsx:25-36 | a fetch for a tab fills that tab's list only |
| GratitudeList.GratitudeListView.AddSucceeded | components/gratitude-list.tsx:50-53 | the saved entry is appended at the end and the input cleared |
| GratitudeList.GratitudeListView.ToggleCheck | components/gratitude-list.tsx:60-62 | the list becomes `ToggleChecked` of the old |
| GratitudeList.GratitudeListView.HandleDelete | components/gratitude-list.tsx:76-77 | the list becomes `Removed` of the old |
| RedditRoute.ToPost | app/api/reddit/route.ts:26-33 | the url is the site address followed by the permalink; every other field is copied |
| RedditRoute.PermalinkOf | app/api/reddit/route.ts:29 | a recovered permalink rebuilds the url |
| RedditRoute.LinkRoundTrip | app/api/reddit/route.ts:29 | a post's url gives back its permalink |
| RedditRoute.MapToPosts | app/api/reddit/route.ts:26-33 | one post per child, in order |
| RedditRoute.ExtractPosts | app/api/reddit/route.ts:23-33 | min(5, non-stickied count) posts, post i built from the i-th non-stickied child |
| RedditRoute.NoStickiedPost | app/api/reddit/route.ts:24 | every post comes from a non-stickied child of the listing |
| RedditRoute.StickiedIgnored | app/api/reddit/route.ts:24 | a stickied child anywhere changes nothing |
| RedditRoute.ScanAgrees | app/api/reddit/route.ts:23-33 | filter, slice and map equal one pass that skips stickied children until the budget is spent |
| RedditRoute.ExtractIsScan | app/api/reddit/route.ts:23-33 | the extraction is the single pass with a budget of 5 |
| RedditRoute.Get | app/api/reddit/route.ts:5-40 | posts exactly when the site answers 2xx with a listing; otherwise 500 'Failed to load community insights' |

## Left out

- Persistence and sessions: MongoDB, mongoose and next-auth are replaced by in-memory tables and an optional user id. Malformed ObjectId strings are not modelled (ids are naturals), and a thrown cast error is not modelled either.
- Time: every handler and effect reads the clock once (`now` is a parameter), while the source calls `new Date()` several times per request. Local time is a fixed but unspecified offset from UTC. Daylight saving and real time zones are not modelled.
- HabitTracker.ToggleFlipsCompletedToday: the browser (components/habbit-tracker.tsx:77-78) and the server (app/api/habits/route.ts:59-65) each use their own local time zone; the model gives both the one offset `Clock.LocalOffsetMs`, and the lemma depends on it. When the two zones differ, a toggle may change a different day than the one the view checks.
- `toLocaleDateString(undefined, { month: 'short', day: 'numeric' })` is an arbitrary function parameter of `GratitudeList.GroupByDate`.
- Calendar parts: `Clock.GetDate`, `GetMonth` and `GetFullYear` use the proleptic Gregorian calendar of the local day number. Only the day-of-month bounds and the epoch anchor are proved about them.
- Dashboard.Progress: the percentage is the exact fraction 100·part/span, not an IEEE double. The `Math.round` of the label (app/page.tsx:277) and the `Progress` component's rendering are not modelled.
- HabitsRoute.HabitStore.List and GratitudeRoute.GratitudeStore.Get: the order among documents with equal `createdAt` is left open, because the store does not fix it. The contracts state sortedness and the multiset of results, not one particular order.
- MeditationTimer: the one-second interval is a `Tick` call, and clearing it is the `isActive` flag. The session-log POST (components/meditation-timer.tsx:59-63) is an entry appended to `logged`; a failed POST is not modelled. The SVG ring offset (line 104) is floating-point display arithmetic and is left out.
- Network and React: fetch failures on the client, `confirm`, `router.push`, loading flags and rendering are not modelled. Also not modelled are the stale-closure effects of React state updates when requests overlap, and concurrent requests in general.
- The gratitude list's re-fetch after a failed PUT (components/gratitude-list.tsx:72) is not modelled, because it needs a network failure.
- RedditRoute.Get: children whose `data` lacks a field are not modelled; they are assumed well formed. `created_utc` is an integer here.
- The outgoing request of the feed handler (its listing URL and User-Agent header, app/api/reddit/route.ts:7-11) is not modelled. `RedditRoute.Get` takes the outcome of that request as its parameter.
- The journal and meditation handlers, the login page, the reddit feed component and models/User.ts are not part of this model.
