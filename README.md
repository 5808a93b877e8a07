# Knowledge-base refresh cycle (Microsoft Teams List Search app)

This project models `RefreshController.RefreshAllKBs`, the refresh cycle of the List Search
app, and proves what the cycle guarantees. A cycle reads a snapshot of the configured
knowledge bases (KBs) from the catalog and walks it in list order. For each record it does one
of three things:

- it skips the record silently when the record has never been refreshed (`LastRefreshDateTime`
  is `DateTime.MinValue`) or its refresh frequency is 0;
- it logs a skip message when `LastRefreshDateTime + RefreshFrequencyInHours` is not strictly
  before the current UTC time;
- otherwise it calls the refresher. It then logs a `KnowledgeBaseRefreshSuccess` event, or a
  `KnowledgeBaseRefreshFailure` event followed by a warning. A refresh failure never stops the
  loop.

Files:

- `wrappers.dfy`: `Option` and `Result`.
- `date_time.dfy`: .NET `DateTime` as a tick count. It has the `MinValue` sentinel and
  `AddHours`, which fails (`ArgumentOutOfRangeException`) when the result leaves the range of
  `DateTime`.
- `models.dfy`: the `KBInfo` record, refresh outcomes, log messages, event names and property
  keys, log entries, and the cycle's environment and trace.
- `refresh_policy.dfy`: the specification. `Classify` is the due test. `RecordLog` is what one
  record contributes to the log. `Cycle` describes a whole cycle: the two header logs, then each
  record's entries in list order, the positions of the records handed to the refresher, and how
  the cycle ends.
- `refresh_controller.dfy`: the imperative model. `LogProvider` is a class whose log grows with
  every `LogInfo`, `LogEvent` and `LogWarning` call. `RefreshController.RefreshAllKBs` runs the
  cycle as the controller does: fetch result first, then the `foreach` loop (`RefreshEach`),
  with the loop body in `ProcessRecord`. It is proved to append exactly `Cycle(...).log`.
- `refresh_lemmas.dfy`: the properties, proved about `Cycle`.

Modelling choices:

- Timestamps are .NET ticks (100 ns since 0001-01-01), from 0 (`MinValue`) to
  3155378975999999999 (`MaxValue`). One hour is 36000000000 ticks. For an `int` number of hours,
  .NET's `AddHours` converts exactly and throws exactly when the result leaves that range;
  `AddHours` returns `None` in that case.
- `RefreshFrequencyInHours` is a C# `int` (`Int32`). A negative frequency is not exempt and moves
  the next refresh time back.
- The clock and the refresher are an `Env`. `utcNow(i)` is what `DateTime.UtcNow` returns while
  record `i` is examined. `refreshOutcome(i)` is how `RefreshKnowledgeBaseAsync` ends for record
  `i`: `Succeeded`, or `Failed(message)` for an exception with that message. Each record is
  examined at most once and causes at most one clock read and one refresh call, so one answer per
  position covers every possible run of one cycle.
- The catalog query's result is an input: the snapshot, or the message of the exception it
  threw. That exception is outside any `try`. The cycle then ends with
  `Threw(FetchFailed(message))` after the first info log.
- The `AddHours` call at line 82 is evaluated before the `try` at lines 84-106, which does not
  catch its exception. A record whose next refresh time overflows `DateTime` therefore ends the
  cycle with `Threw(ArgumentOutOfRange)`. Later records are not examined. An example is a
  frequency of 2147483647 hours.
- Records are immutable values (`datatype KBInfo`), so the loop cannot change the snapshot.
- Message texts and the `"u"` formatting of the timestamp are opaque. `Message` holds each
  message's interpolated values, and `Timestamp(t)` stands for the formatted `t`. Event names
  and property keys are enumerations. Their `Text()` gives the strings the code uses.

## Model

| member | source | states |
|---|---|---|
| `Controllers.RefreshController.RefreshAllKBs` | Source/Microsoft.Teams.Apps.ListSearch/Controllers/RefreshController.cs:57-113 | The log provider receives exactly the cycle's log after what it held before. The status (returns normally or throws, and which exception) and the records handed to the refresher are those of `Cycle`. A catalog error propagates after "Refreshing all knowledge bases". |
| `Controllers.RefreshController.RefreshEach` | Source/Microsoft.Teams.Apps.ListSearch/Controllers/RefreshController.cs:73-112 | The loop appends each record's entries in list order, up to the first record whose `AddHours` throws. It hands exactly the due records to the refresher, in order. It returns normally exactly when no record throws. |
| `Controllers.RefreshController.ProcessRecord` | Source/Microsoft.Teams.Apps.ListSearch/Controllers/RefreshController.cs:75-111 | One loop pass appends exactly `RecordLog` for the record. It throws exactly when the record is not exempt and `AddHours` overflows; it then logs nothing. It calls the refresher exactly when the record is due. |
| `RefreshPolicy.Classify` | Source/Microsoft.Teams.Apps.ListSearch/Controllers/RefreshController.cs:77-82 | The due test: exempt, `AddHours` throws, not due, or due. It has no contract of its own. It is the reference definition, and `RefreshLemmas.DueIffNextRefreshStrictlyPassed`, `RefreshLemmas.BoundaryIsNotDue` and `RefreshLemmas.DailyRecordExamples` state its properties. |
| `RefreshPolicy.RecordLog` | Source/Microsoft.Teams.Apps.ListSearch/Controllers/RefreshController.cs:75-111 | The entries one loop pass logs, per verdict and outcome. It has no contract of its own. It is the reference definition for `Controllers.RefreshController.ProcessRecord`, and `RefreshLemmas.RecordLogCases` and `RefreshLemmas.CountsOfRecord` state its properties. |
| `RefreshPolicy.Walk` | Source/Microsoft.Teams.Apps.ListSearch/Controllers/RefreshController.cs:73-112 | The `foreach` loop: the records' entries up to the first record whose `AddHours` throws, the due positions, and how the loop ends. It has no contract of its own. It is the reference definition for `Controllers.RefreshController.RefreshEach`, and `RefreshLemmas.FirstOverflowIsFirst`, `RefreshLemmas.DuePositionsAreTheDueRecords` and `RefreshLemmas.CompletesUnlessDateOverflows` state its properties. |
| `RefreshPolicy.Cycle` | Source/Microsoft.Teams.Apps.ListSearch/Controllers/RefreshController.cs:57-113 | The whole cycle, including a catalog error. It has no contract of its own. It is the reference definition for `Controllers.RefreshController.RefreshAllKBs`, and `RefreshLemmas.CycleLogLayout`, `RefreshLemmas.RecordEntriesInListOrder`, `RefreshLemmas.RefreshCallsMatchEvents` and `RefreshLemmas.ThreeRecordCycle` state its properties. |
| `Controllers.LogProvider.LogInfo` | Source/Microsoft.Teams.Apps.ListSearch/Controllers/RefreshController.cs:59-110 | Each `LogInfo` call (lines 59, 71 and 110) appends exactly one info entry with its message, and nothing else changes. |
| `Controllers.LogProvider.LogEvent` | Source/Microsoft.Teams.Apps.ListSearch/Controllers/RefreshController.cs:92-102 | Each `LogEvent` call (lines 92 and 102) appends exactly one event entry with its name and properties, and nothing else changes. |
| `Controllers.LogProvider.LogWarning` | Source/Microsoft.Teams.Apps.ListSearch/Controllers/RefreshController.cs:104 | The `LogWarning` call appends exactly one warning entry with its message and the exception's message, and nothing else changes. |
| `DateTimes.AddHours` | Source/Microsoft.Teams.Apps.ListSearch/Controllers/RefreshController.cs:82 | It throws exactly when `t` plus `hours` hours lies outside [`MinValue`, `MaxValue`]. Adding a positive or negative number of hours moves the time later or earlier; adding 0 hours never throws. |
| `RefreshPolicy.FirstOverflow` | Source/Microsoft.Teams.Apps.ListSearch/Controllers/RefreshController.cs:82 | The position where the walk stops lies within the snapshot or at its end. |
| `RefreshPolicy.DuePositions` | Source/Microsoft.Teams.Apps.ListSearch/Controllers/RefreshController.cs:82-86 | Every refreshed position lies before the point the walk reached. |
| `RefreshLemmas.DueIffNextRefreshStrictlyPassed` | Source/Microsoft.Teams.Apps.ListSearch/Controllers/RefreshController.cs:75-82 | A record is exempt, for any clock reading, exactly when it has the `MinValue` sentinel or frequency 0. It is due exactly when it is not exempt, `last + frequency` hours is a valid `DateTime`, and that time is strictly before now. It is not due exactly when that time is at or after now. Its `AddHours` throws exactly when it is not exempt and that time is out of range. |
| `RefreshLemmas.BoundaryIsNotDue` | Source/Microsoft.Teams.Apps.ListSearch/Controllers/RefreshController.cs:82-111 | At the boundary `last + frequency == now` the record is not due, and its only entry is the skip info message with its id and frequency. |
| `RefreshLemmas.DailyRecordExamples` | Source/Microsoft.Teams.Apps.ListSearch/Controllers/RefreshController.cs:82 | Take a 24-hour record. Refreshed 25 hours ago it is due. Refreshed exactly 24 hours ago it is not due. Refreshed 23 hours ago it is not due, unless the next refresh time passes `MaxValue`; then `AddHours` throws. |
| `RefreshLemmas.RecordLogCases` | Source/Microsoft.Teams.Apps.ListSearch/Controllers/RefreshController.cs:77-111 | An exempt or overflowing record logs nothing. A record that is not due logs exactly the skip message. A due record that succeeds logs exactly one success event, whose only property is `KnowledgeBaseId = KBId`. A due record that fails logs exactly one failure event, with `KnowledgeBaseId`, its prior `LastRefreshDateTime` and the error message, then exactly one warning naming the KB and the message. |
| `RefreshLemmas.CountsOfRecord` | Source/Microsoft.Teams.Apps.ListSearch/Controllers/RefreshController.cs:86-104 | A record yields one success event exactly when it is due and succeeds, and one failure event exactly when it is due and fails. It yields as many warnings as failure events. |
| `RefreshLemmas.ExemptRecordLeavesNoTrace` | Source/Microsoft.Teams.Apps.ListSearch/Controllers/RefreshController.cs:75-80 | An exempt record contributes no log entry and is never handed to the refresher. |
| `RefreshLemmas.FirstOverflowIsFirst` | Source/Microsoft.Teams.Apps.ListSearch/Controllers/RefreshController.cs:82 | Every record before the stopping point has a computable next refresh time. When the walk stops early, the record it stops at overflows. |
| `RefreshLemmas.DuePositionsAreTheDueRecords` | Source/Microsoft.Teams.Apps.ListSearch/Controllers/RefreshController.cs:73-86 | The refreshed positions increase strictly, so no record is refreshed twice and calls follow list order. A position is refreshed exactly when its record is due. |
| `RefreshLemmas.CompletesUnlessDateOverflows` | Source/Microsoft.Teams.Apps.ListSearch/Controllers/RefreshController.cs:82-107 | A cycle over a snapshot returns normally exactly when no record's next refresh time overflows, whatever the refresher answers. Otherwise it throws `ArgumentOutOfRangeException`. |
| `RefreshLemmas.DuePositionsIgnoreOutcomes` | Source/Microsoft.Teams.Apps.ListSearch/Controllers/RefreshController.cs:84-106 | Which records are due depends on the clock readings only, never on how earlier refreshes ended. |
| `RefreshLemmas.OutcomesDoNotChangeWhatIsRefreshed` | Source/Microsoft.Teams.Apps.ListSearch/Controllers/RefreshController.cs:84-106 | Take two cycles over the same snapshot that read the same clock. They refresh the same records in the same order and end the same way, however each refresh ends. A failure never keeps a later record from being examined. |
| `RefreshLemmas.RecordEntriesInListOrder` | Source/Microsoft.Teams.Apps.ListSearch/Controllers/RefreshController.cs:73-112 | Each examined record's entries form one block of the cycle's log. The block comes after the blocks of earlier records and before those of later ones. |
| `RefreshLemmas.CycleLogLayout` | Source/Microsoft.Teams.Apps.ListSearch/Controllers/RefreshController.cs:59-71 | The log opens with "Refreshing all knowledge bases" and "Found N configured KBs", where N is the snapshot's length. The records' blocks fill the rest. After a catalog error only the first of the two is logged. |
| `RefreshLemmas.PrefixCounts` | Source/Microsoft.Teams.Apps.ListSearch/Controllers/RefreshController.cs:73-107 | After any number of records, the success and failure events together number the due records seen so far. Warnings number the failure events. |
| `RefreshLemmas.RefreshCallsMatchEvents` | Source/Microsoft.Teams.Apps.ListSearch/Controllers/RefreshController.cs:73-107 | Over a cycle, refresh calls equal success events plus failure events. Every failure event has its warning. |
| `RefreshLemmas.ThreeRecordCycle` | Source/Microsoft.Teams.Apps.ListSearch/Controllers/RefreshController.cs:57-113 | The snapshot has K1 (due, succeeds), K2 (refreshed 23 hours ago) and K3 (due, fails with "timeout"). The log is: the two header logs, K1's success event, K2's skip message, K3's failure event and K3's warning. K1 and K3 are refreshed, and the cycle returns normally. |

## Left out

- The constructor (lines 33-49) reads configuration and builds the blob, token, Graph and catalog
  helpers. This is dependency wiring and I/O. The model's constructor only takes the log provider.
- `KnowledgeBaseRefreshHelper.RefreshKnowledgeBaseAsync` is a network-bound call whose code is
  not part of this model. It appears only through its outcome, `Env.refreshOutcome`.
  Its side effects, including any update of `LastRefreshDateTime`, are not modelled.
- `KBInfoHelper.GetAllKBs` is a storage query. Its result is an input, and the list of projected
  fields is not modelled.
- `[HttpPost]`, `[RefreshAuthFilter]`, the `ApiController` base and `async`/`await` are request
  plumbing and suspension points. The model runs to completion and reports the task's result as
  a `Status`.
- The texts of the log messages and the `"u"` formatting are not modelled. Messages carry only
  their interpolated values, and the logged exception only its message.
- The clock and the refresher are answers for one cycle. State that carries over between cycles
  is not modelled.
- `DateTime.Kind` plays no part: `DateTime` comparison looks only at ticks, as here.
- The log provider is assumed never to throw. In the code a throwing success `LogEvent`
  (line 92) sits inside the `try` (lines 84-93). The `catch` (lines 94-106) would then log a
  failure event and a warning for a refresh that succeeded, which breaks "exactly one event per
  due record". A throwing `LogInfo` (lines 59, 71, 110), failure `LogEvent` (line 102) or
  `LogWarning` (line 104) would end the cycle. None of these paths is modelled.
- `Controllers.RefreshController.RefreshAllKBs`: the refresh calls are reported
  as a ghost out-parameter (their positions), not as calls on an object.
