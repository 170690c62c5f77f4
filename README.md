# AquaCrew hydration tracker: streaks, quotas and milestones in Dafny

AquaCrew is a mobile app. A user logs the water they drink each day against
a daily hydration goal. This project models the parts of the app that carry
rules:

- **Streak engine** (`calculateStreak`, server side). It reacts to a write of a
  user's daily progress record and runs a chain of guards:
  - no data;
  - no profile;
  - intake below the goal;
  - date already processed.

  It then computes the new streak from the last date the goal was met and
  the calendar day before the new date. It keeps the longest streak, and
  appends the milestone identifiers just reached (`weekly_1` … `weekly_4`,
  `monthly_1` … `monthly_3`) to the profile's unviewed queue. The calendar
  arithmetic on `YYYY-MM-DD` keys (parse, step back one day, print) is its
  own module.
- **One-time migration**. It gives every onboarded profile that lacks them
  the streak fields at their initial values, counts the profiles it updates,
  and commits only when there is at least one.
- **Usage-quota guard** (client). It keeps daily counters of reads, writes
  and function invocations, with limits 30000 / 11250 / 750. The counters
  reset on a new day. An increment is admitted only within the limit, and
  only an admitted one is persisted. A three-tier alert level and a usage
  report are derived from the counters.
- **Milestone notifier** (client). It shows the head of the profile's
  unviewed queue. On close it removes that identifier from the stored
  profile and then from the local one, and hides the modal. It also covers
  the message helper that turns an identifier into a title, message and
  emoji, and the session store it writes the profile through.
- **Intake logging** (client). It covers:
  - the default glass size;
  - the goal default;
  - the rule that nothing is written once the displayed intake meets the goal;
  - the increment of the stored record;
  - the displayed progress ratio.

The user documents are values (`Documents.UserDoc`). A field the document may
lack is an `Option`. A number that the code only reads through `x || d`
keeps 0 for "absent". The backend collections are classes holding maps.

Operations that update state in place are classes and methods with
`modifies` clauses. Each one is specified by pure functions, and the
properties are proved as lemmas about those functions:

- the trigger (`StreakEngine.CalculateStreak`);
- the milestone loop (`StreakEngine.CheckMilestones`);
- the migration loop;
- the quota hook;
- the auth store;
- the notifier;
- the intake tracker.

The clock ("today") and the outcome of each backend write are parameters.

## Model

| member | source | states |
|---|---|---|
| Documents.EffectiveGoal | functions/src/index.ts:48 | the goal is never 0: a stored goal of 0 (falsy or absent) reads as 2000, any other is kept |
| Calendar.DaysInMonth | functions/src/index.ts:85-88 | 28..31 days; 29 exactly for February of a leap year, 30 exactly for April, June, September, November |
| Calendar.Predecessor | functions/src/index.ts:86-87 | the day before a valid date is a valid date and comes strictly before it |
| Calendar.PredecessorIsImmediate | functions/src/index.ts:86-87 | no valid date lies strictly between a date and its predecessor |
| Calendar.SuccessorOfPredecessor | functions/src/index.ts:86-87 | stepping back a day and forward again returns the date, so no day is skipped across month, year and leap-day boundaries |
| Calendar.FormatYear | functions/src/index.ts:88 | years 0..9999 print as their four digits; a negative year as `-` and the six digits of its magnitude; a later year as `+` and its six digits, as the ISO string does |
| Calendar.FormatDate | functions/src/index.ts:88 | a date with a four-digit year prints as `DDDD-DD-DD` whose three fields read back as its year, month and day |
| Calendar.Normalize | functions/src/index.ts:85 | the date a day 1..31 stands for is that many days, less one, after the first of the month: the written date when that day exists, else a day of the next month |
| Calendar.DaysAfterFirst | functions/src/index.ts:85 | counting up to 30 days from the first of a month stays in the month while it lasts and then continues into the next month (or January of the next year) |
| Calendar.Parse | functions/src/index.ts:85 | a parsed key is a valid date with a four-digit year; anything else is the Invalid Date |
| Calendar.Yesterday | functions/src/index.ts:85-88 | `yesterdayStr` exists exactly when the key parses; otherwise the code throws |
| Calendar.ParseFormat | functions/src/index.ts:85-88 | a printed date (years 0..9999) is well formed and parses back to itself |
| Calendar.FormatParse | functions/src/index.ts:85-88 | a well-formed key naming an existing day prints back unchanged |
| Calendar.YesterdayIsPredecessor | functions/src/index.ts:85-88 | `yesterdayStr` parses to the calendar predecessor of the key (except for 0000-01-01) |
| Calendar.YesterdayOfFormatted | functions/src/index.ts:85-88 | on a printed date, `yesterdayStr` is the printed predecessor |
| Calendar.YesterdayLeapDay | functions/src/index.ts:85-88 | 2024-03-01 gives 2024-02-29 |
| Calendar.YesterdayCommonYear | functions/src/index.ts:85-88 | 2023-03-01 gives 2023-02-28 |
| Calendar.YesterdayNewYear | functions/src/index.ts:85-88 | 2024-01-01 gives 2023-12-31 |
| Calendar.YesterdayShortMonth | functions/src/index.ts:85-88 | 2024-05-01 gives 2024-04-30 |
| Calendar.YesterdayRolledOver | functions/src/index.ts:85-88 | 2023-02-30 is read as 2023-03-02, so its predecessor is 2023-03-01 |
| Calendar.YesterdayBadMonth | functions/src/index.ts:85-88 | month 13 is an Invalid Date: no predecessor (the code throws) |
| StreakEngine.NatToString | functions/src/index.ts:135-139 | a whole number prints as decimal digits that denote it, with no leading zero |
| StreakEngine.Crossed | functions/src/index.ts:131-133 | the selected thresholds are drawn from the list, and there are no more of them than thresholds |
| StreakEngine.CrossedWithin | functions/src/index.ts:131-133 | every selected threshold lies in `(oldStreak, newStreak]` and every such threshold of the list is selected |
| StreakEngine.CrossedIncreasing | functions/src/index.ts:129-133 | the selection keeps the ascending order of the threshold list |
| StreakEngine.MilestoneId | functions/src/index.ts:136-139 | a weekly threshold gives `weekly_` followed by digits denoting `t / 7`; a monthly one gives `monthly_` followed by digits denoting `t / 30` |
| StreakEngine.MilestoneIdValues | functions/src/index.ts:134-140 | 7, 14, 21, 28 name `weekly_1`..`weekly_4`; 30, 60, 90 name `monthly_1`..`monthly_3` |
| StreakEngine.NewMilestones | functions/src/index.ts:110 | the milestones of an update are at most seven, each one of `weekly_1`..`weekly_4`, `monthly_1`..`monthly_3` |
| StreakEngine.MilestonesCrossedSpec | functions/src/index.ts:121-145 | exactly the thresholds t with `oldStreak < t <= newStreak`, ascending, each named by its identifier |
| StreakEngine.NewMilestonesDistinct | functions/src/index.ts:131-142 | one evaluation never yields the same identifier twice |
| StreakEngine.MilestoneIdInjective | functions/src/index.ts:134-140 | different thresholds have different identifiers |
| StreakEngine.NoMilestoneWithoutGrowth | functions/src/index.ts:133 | nothing is reached when `newStreak <= oldStreak` |
| StreakEngine.NoMilestoneOnRestart | functions/src/index.ts:101-110 | a streak restarted at 1 reaches nothing |
| StreakEngine.CrossedOneStepHit | functions/src/index.ts:131-133 | a +1 step onto a threshold reaches exactly that threshold |
| StreakEngine.CrossedOneStepMiss | functions/src/index.ts:131-133 | a +1 step onto a non-threshold reaches nothing |
| StreakEngine.OneStepAtMostOneMilestone | functions/src/index.ts:131-142 | a +1 step yields at most one identifier: the new streak's, when it is a threshold |
| StreakEngine.FirstWeekExample | functions/src/index.ts:121-145 | 6 to 7 gives `[weekly_1]` |
| StreakEngine.WeekAndMonthExample | functions/src/index.ts:121-145 | 27 to 30 gives `[weekly_4, monthly_1]` |
| StreakEngine.CheckMilestones | functions/src/index.ts:121-145 | the loop returns exactly the identifiers described by `MilestonesCrossedSpec` |
| StreakEngine.NextStreak | functions/src/index.ts:92-104 | the new streak is 1, the old one, or the old one plus 1; it grows past 1 only when the recorded date is `yesterdayStr`, and always does then |
| StreakEngine.CalculateNewStreak | functions/src/index.ts:74-119 | an update is produced exactly when the date key parses |
| StreakEngine.Evaluate | functions/src/index.ts:32-65 | the guard chain reaches an update exactly when every guard passes (data present, a profile, intake not below the defaulted goal, date not already recorded) and the key parses, and that update is `calculateNewStreak`'s |
| StreakEngine.IsBelowGoal | functions/src/index.ts:51 | an absent intake is never below the goal; a present one is below exactly when it is less than the goal |
| StreakEngine.ApplyUpdate | functions/src/index.ts:68 | the update writes the four streak fields and keeps uid, email, username, goal and onboarding flag |
| StreakEngine.AfterTrigger | functions/src/index.ts:68 | an invocation touches no user document but its own and creates or deletes none |
| StreakEngine.CalculateStreak | functions/src/index.ts:25-72 | the trigger's outcome is that of the guard chain, or a failed update; the new collection is that of the single update when it succeeds and the old one otherwise |
| StreakEngine.GuardsWriteNothing | functions/src/index.ts:32-62 | no data, no profile, intake below the goal (2000 when unset), or the date already recorded: nothing is written |
| StreakEngine.TriggerIdempotent | functions/src/index.ts:59-62 | a second delivery of the same write changes nothing, since every update records the date (line 116) |
| StreakEngine.UpdateRules | functions/src/index.ts:79-118 | streak 1 with no previous date or after a gap, +1 after the previous calendar day; longest is the max, never lower, at least the streak; the streak is at least 1 when the old one is non-negative; date recorded; old queue kept as prefix, new identifiers appended |
| StreakEngine.GrowthMeansConsecutiveDays | functions/src/index.ts:85-104 | a streak that does not restart at 1 grew by exactly one, and the recorded date parses to the calendar day before the new date |
| StreakEngine.ConsecutiveDaysGrow | functions/src/index.ts:85-97 | a recorded date equal to `yesterdayStr` makes the streak grow by one, and that date is the calendar day before the new one |
| StreakEngine.ConsecutiveDayExample | functions/src/index.ts:92-97 | streak 3 recorded on 2024-01-01 grows to 4 on 2024-01-02 |
| StreakEngine.GapExample | functions/src/index.ts:101-104 | streak 3 recorded on 2024-01-01 restarts at 1 on 2024-01-05 |
| StreakEngine.RebuiltStreakRepeatsMilestone | functions/src/index.ts:110-111 | a streak rebuilt to 7 appends `weekly_1` again behind an unviewed `weekly_1`: no deduplication |
| StreakEngine.RunTriggers | functions/src/index.ts:68 | a run of invocations creates or deletes no user document |
| StreakEngine.OneTriggerKeepsLongestAndCoherence | functions/src/index.ts:107-115 | one invocation never lowers any user's longest streak and keeps `0 <= current <= longest` |
| StreakEngine.LongestNeverDecreases | functions/src/index.ts:107-115 | over any sequence of invocations the longest streak never decreases and `0 <= current <= longest` is kept |
| Migration.MigrateExistingUsers | functions/src/migration.ts:8-51 | nothing to migrate, migrated N (N = number of onboarded profiles lacking a streak), or commit failure; the collection changes only on a successful commit, to every such profile migrated |
| Migration.NeedsMigration | functions/src/migration.ts:14-24 | exactly the onboarded profiles whose streak field is absent need migrating; a stored streak, even 0, or an unfinished onboarding excludes a profile |
| Migration.MigrateDoc | functions/src/migration.ts:27-32 | a migrated profile keeps its other fields, no longer needs migrating, is coherent with streak 0 and reads as having no previous date and an empty queue |
| Migration.MigrateAll | functions/src/migration.ts:13-32 | a committed migration keeps the set of documents, leaves none pending, and leaves every document that was not pending untouched |
| Migration.MigrateAllEffect | functions/src/migration.ts:13-32 | an onboarded profile lacking a streak gets streak 0, longest 0, date '' and an empty queue, other fields kept; every other profile is untouched |
| Migration.MigrationIdempotent | functions/src/migration.ts:24-32 | after a migration nothing is pending, and migrating again changes nothing |
| Migration.MigratedDocsCoherent | functions/src/migration.ts:27-32 | a migrated profile satisfies the streak engine's `0 <= current <= longest` and reads as having no previous date |
| UsageMonitor.Monitor.constructor | src/hooks/useUsageMonitor.ts:65-72 | zero counters dated today, loading |
| UsageMonitor.Monitor.LoadUsageData | src/hooks/useUsageMonitor.ts:77-89 | a stored entry replaces the state; loading ends either way |
| UsageMonitor.Monitor.ResetEffect | src/hooks/useUsageMonitor.ts:237-243 | the state becomes the reset state; it is persisted exactly when the day changed |
| UsageMonitor.Monitor.IncrementUsage | src/hooks/useUsageMonitor.ts:178-211 | admitted iff `wouldExceedLimit` is false from the same state and day; admitted: the reset state with one counter raised by `count`, persisted; denied: state and stored entry unchanged |
| UsageMonitor.CheckAndResetDaily | src/hooks/useUsageMonitor.ts:105-120 | the result is dated today; a new day zeroes all three counters; data of the same day is returned unchanged |
| UsageMonitor.Incremented | src/hooks/useUsageMonitor.ts:183-200 | the new data is dated today; the chosen counter is its value of today (0 on a new day) plus `count`; the other two are their values of today |
| UsageMonitor.WouldExceedLimit | src/hooks/useUsageMonitor.ts:216-229 | exceeds iff the counter `incrementUsage` would build passes the limit; on a new day iff `count` alone passes it |
| UsageMonitor.GetAlertLevel | src/hooks/useUsageMonitor.ts:125-139 | danger iff some counter's ratio reaches 0.9; warning iff none does but one reaches 0.7; safe iff none reaches 0.7 |
| UsageMonitor.Percentage | src/hooks/useUsageMonitor.ts:149-159 | the integer nearest to `100 * current / limit`, halves up; 0 at zero, 100 at the limit, within 0..100 in between |
| UsageMonitor.GetUsageReport | src/hooks/useUsageMonitor.ts:144-163 | the entry of each kind is that kind's own counter, limit and percentage; the level is `getAlertLevel()` |
| UsageMonitor.ResetIdempotent | src/hooks/useUsageMonitor.ts:105-120 | resetting twice on a day equals once; the result is dated today; same-day data is returned unchanged |
| UsageMonitor.AdmittedIncrement | src/hooks/useUsageMonitor.ts:183-208 | an admitted increment raises only its counter, by exactly `count`, stays within the limit, and is dated today |
| UsageMonitor.StepWithinLimits | src/hooks/useUsageMonitor.ts:186-203 | one call with a non-negative count keeps every counter within 0..limit |
| UsageMonitor.RunWithinLimits | src/hooks/useUsageMonitor.ts:186-203 | any sequence of calls with non-negative counts keeps every counter within its limit |
| UsageMonitor.RatioThreshold | src/hooks/useUsageMonitor.ts:125-135 | `current/limit >= 0.9` iff `10*current >= 9*limit`, and likewise for 0.7 |
| UsageMonitor.AlertLevelExact | src/hooks/useUsageMonitor.ts:125-139 | danger iff some counter reaches 90% of its limit; warning iff none does but one reaches 70%; safe otherwise |
| UsageMonitor.AlertLevelMonotone | src/hooks/useUsageMonitor.ts:125-139 | more usage in every counter never gives a lower tier |
| UsageMonitor.ReportSpec | src/hooks/useUsageMonitor.ts:144-163 | the `reads`, `writes` and `functions` entries each copy their own counter and limit; 0% at zero, 100% at the limit, within 0..100 in between; the report's level is `getAlertLevel()` |
| UsageMonitor.NewDayExample | src/hooks/useUsageMonitor.ts:178-211 | yesterday's 10000 writes do not block today's first write, which restarts the count at 1 |
| UsageMonitor.DenialExample | src/hooks/useUsageMonitor.ts:192-197 | at 11250 writes a further write is refused |
| AuthStore.Store.constructor | src/stores/useAuthStore.ts:25-27 | no profile, signed out, loading; the store invariant holds |
| AuthStore.Store.SetProfile | src/stores/useAuthStore.ts:30 | profile replaced, signed in iff a profile is given, loading over; the invariant (signed in iff profile, never loading again after a set) holds |
| MilestoneHelpers.Split | src/utils/milestoneHelpers.ts:10 | at least one piece, none containing `_` |
| MilestoneHelpers.SplitJoin | src/utils/milestoneHelpers.ts:10 | joining the pieces with `_` gives back the identifier |
| MilestoneHelpers.SplitHead | src/utils/milestoneHelpers.ts:10 | the first piece is the text before the first `_` |
| MilestoneHelpers.SplitAfterPrefix | src/utils/milestoneHelpers.ts:10 | an underscore-free prefix and `_` make the first piece; the rest splits on its own |
| MilestoneHelpers.SecondFieldAfterPrefix | src/utils/milestoneHelpers.ts:10-17 | `split('_')[1]` of a prefixed identifier is the text after the prefix up to the next `_` |
| MilestoneHelpers.GetMilestoneMessage | src/utils/milestoneHelpers.ts:8-28 | the generic fallback is returned exactly when the identifier starts with neither `weekly_` nor `monthly_` |
| MilestoneHelpers.WeeklyMessage | src/utils/milestoneHelpers.ts:9-15 | week title with 🎉, "week" for exactly "1" and "weeks" otherwise, trophy emoji |
| MilestoneHelpers.MonthlyMessage | src/utils/milestoneHelpers.ts:16-22 | month title with 🏆, "month" for exactly "1" and "months" otherwise, crown emoji |
| MilestoneHelpers.EngineIdentifiersHaveMessages | src/utils/milestoneHelpers.ts:9-22 | every identifier the engine can produce gets a non-fallback message whose title names `t/7` weeks or `t/30` months |
| MilestoneHelpers.NewMilestonesHaveMessages | src/utils/milestoneHelpers.ts:9-22 | every identifier of an update's new milestones gets a non-fallback message |
| MilestoneHelpers.OneWeekExample | src/utils/milestoneHelpers.ts:13 | `weekly_1` reads "for 1 week in a row!" |
| MilestoneHelpers.TwoWeeksExample | src/utils/milestoneHelpers.ts:12-13 | `weekly_2` reads "for 2 weeks in a row!" and has title "2 Week Streak! 🎉" |
| MilestoneHelpers.ThreeMonthsExample | src/utils/milestoneHelpers.ts:19 | `monthly_3` has title "3 Month Streak! 🏆" |
| MilestoneHelpers.ExtraPieceExample | src/utils/milestoneHelpers.ts:10 | in `weekly_2_x` only "2" is shown |
| MilestoneHelpers.CapitalisedExample | src/utils/milestoneHelpers.ts:9-28 | `Weekly_1` gets the fallback: the prefixes are case-sensitive |
| Milestones.RemoveAll | src/hooks/useMilestones.ts:35 | the filtered queue is no longer and holds exactly the old identifiers other than the removed one |
| Milestones.ArrayRemove | src/hooks/useMilestones.ts:28-30 | the stored queue loses every occurrence of the identifier and keeps all others with their counts (a missing queue becomes empty); no other field changes |
| Milestones.QueueHead | src/hooks/useMilestones.ts:15-16 | there is an identifier to show exactly when the queue is non-empty, and it is the queue's first entry |
| Milestones.MilestoneNotifier.constructor | src/hooks/useMilestones.ts:10-11 | modal hidden, no current milestone |
| Milestones.MilestoneNotifier.OnProfileChanged | src/hooks/useMilestones.ts:14-20 | a non-empty queue shows its head; an empty or absent queue leaves the modal state untouched |
| Milestones.MilestoneNotifier.HandleMilestoneClose | src/hooks/useMilestones.ts:22-45 | no profile or nothing shown: nothing changes; otherwise the stored queue loses every occurrence if the write succeeds; the local profile is filtered only after a successful write, through `setProfile`, so loading stays over; modal hidden and milestone cleared in every case |
| Milestones.RemoveAllCounts | src/hooks/useMilestones.ts:35 | the removed identifier's count drops to 0, all other counts are kept |
| Milestones.RemoveAllAppend | src/hooks/useMilestones.ts:35 | filtering distributes over concatenation, so survivors keep their order |
| Milestones.RemoveAllAbsent | src/hooks/useMilestones.ts:35 | a queue without the identifier is unchanged |
| Milestones.RemoveAllIdempotent | src/hooks/useMilestones.ts:35 | closing the same identifier twice equals once |
| Milestones.CloseHeadAdvances | src/hooks/useMilestones.ts:35 | closing a head that occurs once leaves the rest of the queue, whose head is shown next |
| Milestones.StoredAndLocalStayAligned | src/hooks/useMilestones.ts:28-35 | identifiers appended by the engine meanwhile survive the stored removal behind the filtered local part |
| Milestones.RepeatedIdentifierExample | src/hooks/useMilestones.ts:29-35 | every occurrence of a repeated identifier is removed |
| WaterTracking.WaterAmount | src/hooks/useWaterTracking.ts:36 | never 0: 250 when omitted or 0, else the given amount |
| WaterTracking.DailyGoal | src/hooks/useWaterTracking.ts:65 | 2000 without a profile, else the profile's goal with the 2000 default |
| WaterTracking.SnapshotIntake | src/hooks/useWaterTracking.ts:24-30 | a missing record reads 0, a present one its intake or 0 |
| WaterTracking.Incremented | src/hooks/useWaterTracking.ts:53-55 | the merge-increment starts a missing record or field from 0 and raises a present value by the amount |
| WaterTracking.DisplayedStreak | src/hooks/useWaterTracking.ts:68 | 0 without a profile or streak, else the profile's streak |
| WaterTracking.PlannedIncrement | src/hooks/useWaterTracking.ts:35-45 | a write is planned iff there is a profile and the displayed intake is under the goal; it is the (defaulted) amount and leaves the intake below goal + amount |
| WaterTracking.Progress | src/hooks/useWaterTracking.ts:67 | 0 without a positive goal; otherwise the ratio times the goal is the intake capped at the goal |
| WaterTracking.WaterTracker.constructor | src/hooks/useWaterTracking.ts:14-15 | intake 0, not submitting |
| WaterTracking.WaterTracker.OnSnapshot | src/hooks/useWaterTracking.ts:18-33 | with a profile, the displayed intake becomes today's record as mapped by `SnapshotIntake`; without one nothing changes |
| WaterTracking.WaterTracker.AddWater | src/hooks/useWaterTracking.ts:35-62 | no profile, goal reached, logged or failed as the guards and the write decide; only a logged call changes the store, by incrementing today's record by the amount; submitting ends after a write attempt |
| WaterTracking.LoggedIncrease | src/hooks/useWaterTracking.ts:53-55 | a logged write raises the stored intake by exactly the amount, and never lowers it for a non-negative amount |
| WaterTracking.ProgressBounds | src/hooks/useWaterTracking.ts:67 | 0 for a goal <= 0; within [0, 1] for a non-negative intake; 1 exactly when the goal is met |
| WaterTracking.SyncedRunBound | src/hooks/useWaterTracking.ts:42-55 | with each write seen before the next call and amounts in 1..m, the stored intake never decreases and stays under goal + m |
| WaterTracking.SyncedStepIsPlanned | src/hooks/useWaterTracking.ts:42-55 | the synced step writes exactly the planned increment |

## Left out

- Firestore and the SDK are not modelled. The collections are maps, and
  reads, `update`, `setDoc` with `increment`, `arrayRemove`, listeners and
  batch commits are their effect on those maps. Whether a write succeeds is
  a parameter. The trigger payload's shape and the HTTP responses of the
  migration endpoint (functions/src/migration.ts:54-62) are left out.
- The migration also exists inline in functions/src/index.ts:148-189. It is
  the same per-document rule and the same commit rule, and is covered by
  `Migration.MigrateExistingUsers`. Only its logging and HTTP responses
  differ.
- The clock is a parameter. "Today" in the quota hook and the intake
  tracker is the UTC date of the device clock. The streak engine's
  day-step is modelled as UTC calendar arithmetic, which is what the code
  computes when the function runtime runs in UTC. A runtime in another zone
  can give a different `yesterdayStr`.
- `Calendar.Parse` models only the ISO `YYYY-MM-DD` form of date parsing.
  Other strings that JavaScript's fallback parser might accept are treated
  as an Invalid Date.
- UsageMonitor.Monitor.LoadUsageData: AsyncStorage is the `stored` field.
  A failed read, malformed JSON and a failed save are only logged in the
  code, so they are not modelled.
- UsageMonitor.Monitor.IncrementUsage: the count is always passed in. The
  code's default of 1 for an omitted count is not modelled.
- UsageMonitor.WouldExceedLimit: likewise takes the count explicitly; the
  code's default of 1 for an omitted count is not modelled.
- Percentages are computed on exact rationals, and `Math.round` is modelled
  as floor(x + 0.5), so the model rounds exact halves up, as `Math.round`
  does. Exact halves occur only for reads at odd multiples of 150; there the
  floating-point quotient may land just off the half, so the code can give
  one less than the model. Writes and functions never reach a half. The
  alert thresholds compare `current / limit` with 0.9 and 0.7 exactly. For integer counters and
  these limits the gap between the ratio and a threshold is far larger than
  the floating-point error.
- `WaterTracking.Progress` is a real number, not a float.
- React behaviour is not modelled: render scheduling, stale `useCallback`
  closures across several calls within one render, overlapping `addWater`
  or close calls, and effect ordering. Every call is modelled as sequential
  and seeing the latest state.
- Trigger invocations for different dates of one user can be delivered out
  of order or run concurrently. The code uses a plain read-then-update with
  no transaction, so such interleavings (lost updates) are not modelled.
  `StreakEngine.RunTriggers` applies invocations one after another.
- Milestone duplicates: the code does not deduplicate, and the model
  follows it. `StreakEngine.RebuiltStreakRepeatsMilestone` exhibits a
  repeated identifier.
- Closing a milestone: the local profile is filtered only after the backend
  removal succeeds. If the removal throws, the local profile keeps the
  identifier. `HandleMilestoneClose` follows the code here.
- JavaScript values outside the typed fields are not modelled: `NaN`,
  non-numeric intakes and non-array queues.
- Milestones.MilestoneNotifier.HandleMilestoneClose: the `filter` on an
  absent local queue throws and is caught. This is the `LocalFailed`
  outcome, with the stored removal already done.
- UI components, styles, navigation and configuration are not part of this
  model.
