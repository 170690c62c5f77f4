/**
 * Intake logging on the client: the day's intake as last delivered by the
 * progress-record listener, the "add water" action that increments the
 * stored record unless the goal is already met, and the derived goal,
 * progress ratio and streak shown on screen.  "Today" is a parameter.
 */
module WaterTracking {
  import opened Documents
  import AuthStore

  /** The glass size used when no amount (or 0) is given. */
  const DEFAULT_AMOUNT: int := 250

  /** `amount || 250`. */
  function WaterAmount(amount: Option<int>): (w: int)
    ensures w != 0
    ensures amount.Some? && amount.value != 0 ==> w == amount.value
    ensures amount.None? || amount.value == 0 ==> w == DEFAULT_AMOUNT
  {
    if amount.None? || amount.value == 0 then DEFAULT_AMOUNT else amount.value
  }

  /** `profile?.hydrationGoal || 2000`. */
  function DailyGoal(profile: Option<UserDoc>): (g: int)
    ensures profile.None? ==> g == DEFAULT_GOAL
    ensures profile.Some? ==> g == EffectiveGoal(profile.value.hydrationGoal)
  {
    if profile.None? then DEFAULT_GOAL else EffectiveGoal(profile.value.hydrationGoal)
  }

  /** The listener's mapping: a missing record is 0, a present one `currentIntake || 0`. */
  function SnapshotIntake(record: Option<ProgressRecord>): (intake: int)
    ensures record.None? ==> intake == 0
    ensures record.Some? && record.value.currentIntake.Some? ==> intake == record.value.currentIntake.value
    ensures record.Some? && record.value.currentIntake.None? ==> intake == 0
  {
    if record.None? then 0 else record.value.currentIntake.GetOr(0)
  }

  function RecordAt(records: map<(string, string), ProgressRecord>, key: (string, string)): Option<ProgressRecord> {
    if key in records then Some(records[key]) else None
  }

  /**
   * What `increment(w)` with `merge: true` leaves: a missing record or a
   * missing field starts from 0, a present value is raised by `w`.
   */
  function Incremented(record: Option<ProgressRecord>, w: int): (r: ProgressRecord)
    ensures record.None? || record.value.currentIntake.None? ==> r.currentIntake == Some(w)
    ensures record.Some? && record.value.currentIntake.Some? ==> r.currentIntake == Some(record.value.currentIntake.value + w)
  {
    ProgressRecord(Some(SnapshotIntake(record) + w))
  }

  /**
   * The guard of `addWater`: the amount it would write, or `None` when there
   * is no profile or the displayed intake already meets the goal.
   */
  function PlannedIncrement(profile: Option<UserDoc>, dailyIntake: int, amount: Option<int>): (inc: Option<int>)
    ensures inc.Some? <==> profile.Some? && dailyIntake < EffectiveGoal(profile.value.hydrationGoal)
    ensures inc.Some? ==> inc.value == WaterAmount(amount)
    ensures inc.Some? ==> dailyIntake + inc.value < DailyGoal(profile) + WaterAmount(amount)
  {
    if profile.None? then None
    else if dailyIntake >= EffectiveGoal(profile.value.hydrationGoal) then None
    else Some(WaterAmount(amount))
  }

  /**
   * `dailyGoal > 0 ? Math.min(currentIntake / dailyGoal, 1) : 0`, on exact
   * reals: with a positive goal, the ratio times the goal is the intake
   * capped at the goal.
   */
  function Progress(intake: int, goal: int): (p: real)
    ensures goal > 0 ==> p * goal as real == (if intake <= goal then intake else goal) as real
    ensures goal <= 0 ==> p == 0.0
  {
    if goal > 0 then RealMin(intake as real / goal as real, 1.0) else 0.0
  }

  function RealMin(a: real, b: real): real {
    if a <= b then a else b
  }

  /** `profile?.currentStreak || 0`. */
  function DisplayedStreak(profile: Option<UserDoc>): (s: int)
    ensures profile.None? || profile.value.currentStreak.None? ==> s == 0
    ensures profile.Some? && profile.value.currentStreak.Some? ==> s == profile.value.currentStreak.value
  {
    if profile.None? then 0 else profile.value.currentStreak.GetOr(0)
  }

  datatype AddOutcome =
    | NoProfile      // nobody signed in: nothing happens
    | GoalReached    // "Daily Goal Reached!" alert: nothing is written
    | Logged         // the increment was written
    | WriteFailed    // `setDoc` threw: the "Failed to log water" alert

  /** The hook's `dailyProgress.currentIntake` and `isSubmitting` state. */
  class WaterTracker {
    const auth: AuthStore.Store
    var dailyIntake: int
    var isSubmitting: bool

    constructor (auth: AuthStore.Store)
      ensures this.auth == auth && dailyIntake == 0 && !isSubmitting
    {
      this.auth := auth;
      dailyIntake := 0;
      isSubmitting := false;
    }

    /** A delivery of today's progress record to the listener (only installed while signed in). */
    method OnSnapshot(progress: ProgressStore, today: string)
      modifies this
      ensures auth.profile.Some? ==>
        dailyIntake == SnapshotIntake(RecordAt(progress.records, (auth.profile.value.uid, today)))
      ensures auth.profile.None? ==> dailyIntake == old(dailyIntake)
      ensures isSubmitting == old(isSubmitting)
    {
      var profile := auth.profile;
      if profile.None? {
        return;
      }
      var key := (profile.value.uid, today);
      if key in progress.records {
        dailyIntake := progress.records[key].currentIntake.GetOr(0);
      } else {
        dailyIntake := 0;
      }
    }

    /**
     * `addWater(amount)`; `writeSucceeds` is whether `setDoc` resolves.  The
     * displayed intake is not changed here: the listener delivers the new
     * value.
     */
    method AddWater(amount: Option<int>, progress: ProgressStore, today: string, writeSucceeds: bool)
      returns (outcome: AddOutcome)
      modifies this, progress
      ensures var inc := PlannedIncrement(old(auth.profile), old(dailyIntake), amount);
        outcome == (if old(auth.profile).None? then NoProfile
                    else if inc.None? then GoalReached
                    else if writeSucceeds then Logged
                    else WriteFailed)
      ensures outcome == Logged ==>
        var key := (old(auth.profile).value.uid, today);
        progress.records == old(progress.records)[key := Incremented(RecordAt(old(progress.records), key), WaterAmount(amount))]
      ensures outcome != Logged ==> progress.records == old(progress.records)
      ensures dailyIntake == old(dailyIntake)
      ensures outcome == Logged || outcome == WriteFailed ==> !isSubmitting
      ensures outcome == NoProfile || outcome == GoalReached ==> isSubmitting == old(isSubmitting)
    {
      var waterAmount := WaterAmount(amount);
      var profile := auth.profile;
      if profile.None? {
        return NoProfile;
      }
      var dailyGoal := EffectiveGoal(profile.value.hydrationGoal);
      var currentIntake := dailyIntake;
      if currentIntake >= dailyGoal {
        return GoalReached;
      }
      isSubmitting := true;
      var key := (profile.value.uid, today);
      if writeSucceeds {
        progress.records := progress.records[key := Incremented(RecordAt(progress.records, key), waterAmount)];
        outcome := Logged;
      } else {
        outcome := WriteFailed;
      }
      isSubmitting := false;
    }
  }

  // ---- properties ----

  /** A logged write raises the stored intake by exactly the amount; a non-negative amount never lowers it. */
  lemma LoggedIncrease(record: Option<ProgressRecord>, amount: Option<int>)
    ensures Incremented(record, WaterAmount(amount)).currentIntake.Some?
    ensures SnapshotIntake(Some(Incremented(record, WaterAmount(amount))))
         == SnapshotIntake(record) + WaterAmount(amount)
    ensures (amount.None? || amount.value >= 0) ==>
      SnapshotIntake(Some(Incremented(record, WaterAmount(amount)))) > SnapshotIntake(record)
  {
  }

  /** The progress ratio is 0 without a positive goal, lies in [0, 1] for a non-negative intake, and is 1 exactly when the goal is met. */
  lemma ProgressBounds(intake: int, goal: int)
    ensures goal <= 0 ==> Progress(intake, goal) == 0.0
    ensures goal > 0 && intake >= 0 ==> 0.0 <= Progress(intake, goal) <= 1.0
    ensures goal > 0 ==> (Progress(intake, goal) == 1.0 <==> intake >= goal)
  {
    if goal > 0 {
      var q := intake as real / goal as real;
      assert q * goal as real == intake as real;
      if intake >= 0 {
        assert q >= 0.0;
      }
      if intake >= goal {
        assert q >= 1.0;
      } else {
        assert q < 1.0;
      }
    }
  }

  /**
   * Calls of `addWater` when the listener has delivered each write before
   * the next call: the stored intake after a call.
   */
  function SyncedStep(stored: int, goal: int, amount: Option<int>): int {
    if stored >= goal then stored else stored + WaterAmount(amount)
  }

  function SyncedRun(stored: int, goal: int, amounts: seq<Option<int>>): int
    decreases |amounts|
  {
    if amounts == [] then stored else SyncedRun(SyncedStep(stored, goal, amounts[0]), goal, amounts[1..])
  }

  /**
   * When every call sees the stored intake, amounts between 1 and `most` can
   * overshoot the goal by less than `most`: once the goal is met nothing
   * more is written.
   */
  lemma {:induction false} SyncedRunBound(stored: int, goal: int, amounts: seq<Option<int>>, most: int)
    requires stored < goal + most
    requires forall i :: 0 <= i < |amounts| ==> 0 < WaterAmount(amounts[i]) <= most
    ensures stored <= SyncedRun(stored, goal, amounts) < goal + most
    decreases |amounts|
  {
    if amounts != [] {
      SyncedRunBound(SyncedStep(stored, goal, amounts[0]), goal, amounts[1..], most);
    }
  }

  /** The synced step is the planned increment for a signed-in profile with that goal. */
  lemma SyncedStepIsPlanned(profile: UserDoc, stored: int, amount: Option<int>)
    ensures var inc := PlannedIncrement(Some(profile), stored, amount);
      SyncedStep(stored, EffectiveGoal(profile.hydrationGoal), amount)
        == if inc.Some? then stored + inc.value else stored
  {
  }
}
