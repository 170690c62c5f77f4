/**
 * The streak engine: the server-side reaction to a write of a daily progress
 * record.  It decides whether the day's goal was met, advances or restarts
 * the user's streak, keeps the longest streak, and appends the milestones the
 * new streak has just reached to the user's queue of unviewed milestones.
 */
module StreakEngine {
  import opened Documents
  import Calendar

  // ---- milestones ----

  const WEEKLY_MILESTONES: seq<int> := [7, 14, 21, 28]
  const MONTHLY_MILESTONES: seq<int> := [30, 60, 90]
  /** `[...weeklyMilestones, ...monthlyMilestones]`. */
  const ALL_MILESTONES: seq<int> := [7, 14, 21, 28, 30, 60, 90]

  /** The number a string of decimal digits denotes. */
  function DecimalValue(s: string): nat
    requires forall i :: 0 <= i < |s| ==> Calendar.IsDigit(s[i])
  {
    if s == [] then 0 else 10 * DecimalValue(s[..|s| - 1]) + Calendar.DigitValue(s[|s| - 1])
  }

  /**
   * A whole number as a template literal prints it: decimal digits that
   * denote `n`, with no leading zero.
   */
  function NatToString(n: nat): (s: string)
    ensures |s| >= 1 && forall i :: 0 <= i < |s| ==> Calendar.IsDigit(s[i])
    ensures DecimalValue(s) == n
    ensures |s| == 1 || s[0] != '0'
  {
    if n < 10 then [Calendar.DigitChar(n)]
    else
      var prefix := NatToString(n / 10);
      assert (prefix + [Calendar.DigitChar(n % 10)])[..|prefix|] == prefix;
      prefix + [Calendar.DigitChar(n % 10)]
  }

  /** `weekly_{t/7}` for a weekly threshold, `monthly_{t/30}` for a monthly one. */
  function MilestoneId(t: int): (id: string)
    requires t in ALL_MILESTONES
    ensures t in WEEKLY_MILESTONES ==>
      |id| > 7 && id[..7] == "weekly_" && (forall i :: 7 <= i < |id| ==> Calendar.IsDigit(id[i]))
      && DecimalValue(id[7..]) == t / 7
    ensures t !in WEEKLY_MILESTONES ==>
      |id| > 8 && id[..8] == "monthly_" && (forall i :: 8 <= i < |id| ==> Calendar.IsDigit(id[i]))
      && DecimalValue(id[8..]) == t / 30
  {
    if t in WEEKLY_MILESTONES then
      var n := NatToString(t / 7);
      assert ("weekly_" + n)[7..] == n;
      "weekly_" + n
    else
      var n := NatToString(t / 30);
      assert ("monthly_" + n)[8..] == n;
      "monthly_" + n
  }

  /** The thresholds of `ts`, in their order, with `newStreak >= t && oldStreak < t`. */
  function Crossed(ts: seq<int>, newStreak: int, oldStreak: int): (r: seq<int>)
    ensures |r| <= |ts| && forall t :: t in r ==> t in ts
  {
    if ts == [] then []
    else
      var t := ts[|ts| - 1];
      Crossed(ts[..|ts| - 1], newStreak, oldStreak) + (if newStreak >= t && oldStreak < t then [t] else [])
  }

  function Ids(ts: seq<int>): seq<string>
    requires forall t :: t in ts ==> t in ALL_MILESTONES
  {
    if ts == [] then [] else Ids(ts[..|ts| - 1]) + [MilestoneId(ts[|ts| - 1])]
  }

  /** The seven identifiers the engine can produce. */
  const MILESTONE_IDS: set<string> :=
    {"weekly_1", "weekly_2", "weekly_3", "weekly_4", "monthly_1", "monthly_2", "monthly_3"}

  /**
   * What `checkMilestones(newStreak, oldStreak)` returns: at most one
   * identifier per threshold, each one of the seven known identifiers.
   */
  function NewMilestones(newStreak: int, oldStreak: int): (r: seq<string>)
    ensures |r| <= |ALL_MILESTONES|
    ensures forall m :: m in r ==> m in MILESTONE_IDS
  {
    CrossedWithin(ALL_MILESTONES, newStreak, oldStreak);
    var c := Crossed(ALL_MILESTONES, newStreak, oldStreak);
    IdsLength(c);
    IdsKnown(c);
    Ids(c)
  }

  predicate Increasing(s: seq<int>) {
    forall i, j :: 0 <= i < j < |s| ==> s[i] < s[j]
  }

  predicate NoDuplicates(s: seq<string>) {
    forall i, j :: 0 <= i < j < |s| ==> s[i] != s[j]
  }

  lemma {:induction false} CrossedWithin(ts: seq<int>, newStreak: int, oldStreak: int)
    ensures forall t :: t in Crossed(ts, newStreak, oldStreak) <==> t in ts && oldStreak < t <= newStreak
  {
    if ts != [] {
      var init := ts[..|ts| - 1];
      CrossedWithin(init, newStreak, oldStreak);
      assert ts == init + [ts[|ts| - 1]];
    }
  }

  /** The crossed thresholds keep the ascending order of the list they come from. */
  lemma {:induction false} CrossedIncreasing(ts: seq<int>, newStreak: int, oldStreak: int)
    requires Increasing(ts)
    ensures Increasing(Crossed(ts, newStreak, oldStreak))
  {
    if ts != [] {
      var init := ts[..|ts| - 1];
      var t := ts[|ts| - 1];
      CrossedIncreasing(init, newStreak, oldStreak);
      var c := Crossed(init, newStreak, oldStreak);
      forall x | x in c ensures x < t {
        var k :| 0 <= k < |init| && init[k] == x;
        assert ts[k] == x;
      }
      var r := Crossed(ts, newStreak, oldStreak);
      if newStreak >= t && oldStreak < t {
        assert r == c + [t];
        forall i, j | 0 <= i < j < |r| ensures r[i] < r[j] {
          if j < |c| {
          } else {
            assert r[i] == c[i] && c[i] in c;
          }
        }
      }
    }
  }

  lemma {:induction false} IdsAt(ts: seq<int>, i: int)
    requires forall t :: t in ts ==> t in ALL_MILESTONES
    requires 0 <= i < |ts|
    ensures |Ids(ts)| == |ts| && Ids(ts)[i] == MilestoneId(ts[i])
  {
    var init := ts[..|ts| - 1];
    if i < |ts| - 1 {
      IdsAt(init, i);
    } else {
      IdsLength(init);
    }
  }

  lemma {:induction false} IdsLength(ts: seq<int>)
    requires forall t :: t in ts ==> t in ALL_MILESTONES
    ensures |Ids(ts)| == |ts|
  {
    if ts != [] {
      IdsLength(ts[..|ts| - 1]);
    }
  }

  lemma {:induction false} IdsKnown(ts: seq<int>)
    requires forall t :: t in ts ==> t in ALL_MILESTONES
    ensures forall m :: m in Ids(ts) ==> m in MILESTONE_IDS
  {
    if ts != [] {
      var init := ts[..|ts| - 1];
      assert forall t :: t in init ==> t in ts;
      IdsKnown(init);
      MilestoneIdValues();
      assert ts[|ts| - 1] in ts;
    }
  }

  /** The seven identifiers. */
  lemma MilestoneIdValues()
    ensures MilestoneId(7) == "weekly_1" && MilestoneId(14) == "weekly_2"
    ensures MilestoneId(21) == "weekly_3" && MilestoneId(28) == "weekly_4"
    ensures MilestoneId(30) == "monthly_1" && MilestoneId(60) == "monthly_2"
    ensures MilestoneId(90) == "monthly_3"
  {
    WeeklyIdValue(7);
    WeeklyIdValue(14);
    WeeklyIdValue(21);
    WeeklyIdValue(28);
    MonthlyIdValue(30);
    MonthlyIdValue(60);
    MonthlyIdValue(90);
    assert Calendar.DigitChar(1) == '1' && Calendar.DigitChar(2) == '2';
    assert Calendar.DigitChar(3) == '3' && Calendar.DigitChar(4) == '4';
  }

  /** A weekly threshold's count has one digit. */
  lemma WeeklyIdValue(t: int)
    requires t in WEEKLY_MILESTONES
    ensures MilestoneId(t) == "weekly_" + [Calendar.DigitChar(t / 7)]
  {
  }

  /** A monthly threshold's count has one digit. */
  lemma MonthlyIdValue(t: int)
    requires t in MONTHLY_MILESTONES
    ensures t in ALL_MILESTONES && MilestoneId(t) == "monthly_" + [Calendar.DigitChar(t / 30)]
  {
  }

  /**
   * `checkMilestones(newStreak, oldStreak)` names exactly the thresholds in
   * 7, 14, 21, 28, 30, 60, 90 with `oldStreak < t <= newStreak`, in ascending
   * order, each once.
   */
  lemma MilestonesCrossedSpec(newStreak: int, oldStreak: int)
    ensures var c := Crossed(ALL_MILESTONES, newStreak, oldStreak);
      && (forall t :: t in c <==> t in ALL_MILESTONES && oldStreak < t <= newStreak)
      && Increasing(c)
      && |NewMilestones(newStreak, oldStreak)| == |c|
      && (forall i :: 0 <= i < |c| ==> NewMilestones(newStreak, oldStreak)[i] == MilestoneId(c[i]))
  {
    var c := Crossed(ALL_MILESTONES, newStreak, oldStreak);
    CrossedWithin(ALL_MILESTONES, newStreak, oldStreak);
    CrossedIncreasing(ALL_MILESTONES, newStreak, oldStreak);
    IdsLength(c);
    forall i | 0 <= i < |c| ensures NewMilestones(newStreak, oldStreak)[i] == MilestoneId(c[i]) {
      IdsAt(c, i);
    }
  }

  /** The engine never appends the same identifier twice in one update. */
  lemma NewMilestonesDistinct(newStreak: int, oldStreak: int)
    ensures NoDuplicates(NewMilestones(newStreak, oldStreak))
  {
    var c := Crossed(ALL_MILESTONES, newStreak, oldStreak);
    var ms := NewMilestones(newStreak, oldStreak);
    MilestonesCrossedSpec(newStreak, oldStreak);
    forall i, j | 0 <= i < j < |ms| ensures ms[i] != ms[j] {
      assert c[i] in c && c[j] in c;
      MilestoneIdInjective(c[i], c[j]);
    }
  }

  lemma MilestoneIdInjective(s: int, t: int)
    requires s in ALL_MILESTONES && t in ALL_MILESTONES && s != t
    ensures MilestoneId(s) != MilestoneId(t)
  {
    MilestoneIdValues();
  }

  /** Two ascending sequences with the same elements are equal. */
  lemma {:induction false} IncreasingSameElements(a: seq<int>, b: seq<int>)
    requires Increasing(a) && Increasing(b)
    requires forall x :: x in a <==> x in b
    ensures a == b
  {
    if a == [] {
      assert forall i :: 0 <= i < |b| ==> b[i] in b;
    } else {
      assert a[0] in a && a[0] in b;
      assert b[0] in b && b[0] in a;
      var i :| 0 <= i < |a| && a[i] == b[0];
      var j :| 0 <= j < |b| && b[j] == a[0];
      assert a[0] <= a[i] && b[0] <= b[j];
      forall x ensures x in a[1..] <==> x in b[1..] {
        if x in a[1..] { assert x in a && x != a[0]; }
        if x in b[1..] { assert x in b && x != b[0]; }
      }
      IncreasingSameElements(a[1..], b[1..]);
      assert a == [a[0]] + a[1..] && b == [b[0]] + b[1..];
    }
  }

  /** A streak that does not grow reaches no milestone. */
  lemma NoMilestoneWithoutGrowth(newStreak: int, oldStreak: int)
    requires newStreak <= oldStreak
    ensures NewMilestones(newStreak, oldStreak) == []
  {
    MilestonesCrossedSpec(newStreak, oldStreak);
    var c := Crossed(ALL_MILESTONES, newStreak, oldStreak);
    assert forall i :: 0 <= i < |c| ==> c[i] in c;
  }

  /** A streak restarted at 1 reaches no milestone. */
  lemma NoMilestoneOnRestart(oldStreak: int)
    ensures NewMilestones(1, oldStreak) == []
  {
    MilestonesCrossedSpec(1, oldStreak);
    var c := Crossed(ALL_MILESTONES, 1, oldStreak);
    assert forall t :: t in ALL_MILESTONES ==> t >= 7;
    assert forall i :: 0 <= i < |c| ==> c[i] in c;
  }

  lemma CrossedOneStepHit(oldStreak: int)
    requires oldStreak + 1 in ALL_MILESTONES
    ensures Crossed(ALL_MILESTONES, oldStreak + 1, oldStreak) == [oldStreak + 1]
  {
    CrossedWithin(ALL_MILESTONES, oldStreak + 1, oldStreak);
    CrossedIncreasing(ALL_MILESTONES, oldStreak + 1, oldStreak);
    IncreasingSameElements(Crossed(ALL_MILESTONES, oldStreak + 1, oldStreak), [oldStreak + 1]);
  }

  lemma CrossedOneStepMiss(oldStreak: int)
    requires oldStreak + 1 !in ALL_MILESTONES
    ensures Crossed(ALL_MILESTONES, oldStreak + 1, oldStreak) == []
  {
    CrossedWithin(ALL_MILESTONES, oldStreak + 1, oldStreak);
    CrossedIncreasing(ALL_MILESTONES, oldStreak + 1, oldStreak);
    IncreasingSameElements(Crossed(ALL_MILESTONES, oldStreak + 1, oldStreak), []);
  }

  /** A one-day step reaches at most one milestone: the new streak itself, when it is a threshold. */
  lemma OneStepAtMostOneMilestone(oldStreak: int)
    ensures NewMilestones(oldStreak + 1, oldStreak)
         == if oldStreak + 1 in ALL_MILESTONES then [MilestoneId(oldStreak + 1)] else []
    ensures |NewMilestones(oldStreak + 1, oldStreak)| <= 1
  {
    MilestonesCrossedSpec(oldStreak + 1, oldStreak);
    if oldStreak + 1 in ALL_MILESTONES {
      CrossedOneStepHit(oldStreak);
    } else {
      CrossedOneStepMiss(oldStreak);
    }
  }

  /** Crossing from 6 to 7 reaches the first week. */
  lemma FirstWeekExample()
    ensures NewMilestones(7, 6) == ["weekly_1"]
  {
    MilestonesCrossedSpec(7, 6);
    IncreasingSameElements(Crossed(ALL_MILESTONES, 7, 6), [7]);
    MilestoneIdValues();
  }

  /** Jumping from 27 to 30 reaches the fourth week and then the first month. */
  lemma WeekAndMonthExample()
    ensures NewMilestones(30, 27) == ["weekly_4", "monthly_1"]
  {
    MilestonesCrossedSpec(30, 27);
    IncreasingSameElements(Crossed(ALL_MILESTONES, 30, 27), [28, 30]);
    MilestoneIdValues();
  }

  lemma {:induction false} CrossedSnoc(ts: seq<int>, i: int, newStreak: int, oldStreak: int)
    requires 0 <= i < |ts|
    ensures Crossed(ts[..i + 1], newStreak, oldStreak)
         == Crossed(ts[..i], newStreak, oldStreak)
            + (if newStreak >= ts[i] && oldStreak < ts[i] then [ts[i]] else [])
  {
    assert ts[..i + 1][..i] == ts[..i];
  }

  lemma {:induction false} IdsSnoc(ts: seq<int>, t: int)
    requires forall x :: x in ts ==> x in ALL_MILESTONES
    requires t in ALL_MILESTONES
    ensures Ids(ts + [t]) == Ids(ts) + [MilestoneId(t)]
  {
    assert (ts + [t])[..|ts|] == ts;
  }

  /** `checkMilestones`: the loop over the thresholds, pushing each one reached. */
  method CheckMilestones(newStreak: int, oldStreak: int) returns (milestones: seq<string>)
    ensures milestones == NewMilestones(newStreak, oldStreak)
  {
    milestones := [];
    for i := 0 to |ALL_MILESTONES|
      invariant forall t :: t in Crossed(ALL_MILESTONES[..i], newStreak, oldStreak) ==> t in ALL_MILESTONES
      invariant milestones == Ids(Crossed(ALL_MILESTONES[..i], newStreak, oldStreak))
    {
      var milestone := ALL_MILESTONES[i];
      CrossedSnoc(ALL_MILESTONES, i, newStreak, oldStreak);
      if newStreak >= milestone && oldStreak < milestone {
        IdsSnoc(Crossed(ALL_MILESTONES[..i], newStreak, oldStreak), milestone);
        if milestone in WEEKLY_MILESTONES {
          milestones := milestones + ["weekly_" + NatToString(milestone / 7)];
        } else {
          milestones := milestones + ["monthly_" + NatToString(milestone / 30)];
        }
      } else {
        assert Crossed(ALL_MILESTONES[..i + 1], newStreak, oldStreak) == Crossed(ALL_MILESTONES[..i], newStreak, oldStreak);
      }
    }
    assert ALL_MILESTONES[..|ALL_MILESTONES|] == ALL_MILESTONES;
  }

  // ---- the new streak ----

  /** `!lastAchievedDate`: no date recorded, or the empty string. */
  predicate NoPreviousDate(last: Option<string>) {
    last.None? || last.value == ""
  }

  /**
   * The branch of `calculateNewStreak` on the previously recorded date: the
   * streak restarts at 1, stays, or grows by one, and it grows past 1 only
   * when the recorded date is `yesterdayStr`.
   */
  function NextStreak(last: Option<string>, yesterday: string, date: string, currentStreak: int): (r: int)
    ensures r == 1 || r == currentStreak || r == currentStreak + 1
    ensures r != 1 && r == currentStreak + 1 ==> last == Some(yesterday)
    ensures last == Some(yesterday) && yesterday != "" ==> r == currentStreak + 1
  {
    if NoPreviousDate(last) then 1
    else if last.value == yesterday then currentStreak + 1
    else if last.value == date then currentStreak
    else 1
  }

  function Max(a: int, b: int): int {
    if a >= b then a else b
  }

  /** The four fields that one invocation writes to the profile. */
  datatype StreakUpdate = StreakUpdate(
    currentStreak: int,
    longestStreak: int,
    lastGoalAchievedDate: string,
    unviewedMilestones: seq<string>)

  /**
   * `calculateNewStreak`: absent counters read as 0 and an absent queue as
   * empty.  `None` where the date key is not a date: the code throws there.
   */
  function CalculateNewStreak(doc: UserDoc, date: string): (r: Option<StreakUpdate>)
    ensures r.Some? <==> Calendar.Parse(date).Some?
  {
    var currentStreak := doc.currentStreak.GetOr(0);
    var longestStreak := doc.longestStreak.GetOr(0);
    var unviewed := doc.unviewedMilestones.GetOr([]);
    match Calendar.Yesterday(date)
    case None => None
    case Some(yesterday) =>
      var newStreak := NextStreak(doc.lastGoalAchievedDate, yesterday, date, currentStreak);
      Some(StreakUpdate(newStreak, Max(longestStreak, newStreak), date,
                        unviewed + NewMilestones(newStreak, currentStreak)))
  }

  // ---- the trigger ----

  /** How one invocation of `calculateStreak` ends. */
  datatype TriggerOutcome =
    | NoData              // the record was deleted
    | ProfileMissing      // no user document: logged, nothing written
    | BelowGoal           // the day's intake is under the goal
    | AlreadyProcessed    // this date is already the last achieved one
    | DateUnreadable      // the date key is not a date: the code throws
    | Updated(update: StreakUpdate)
    | UpdateFailed        // `userRef.update` threw: the function fails, nothing is written

  /** `progressData.currentIntake < hydrationGoal`; an absent intake compares as false. */
  predicate IsBelowGoal(intake: Option<int>, goal: int)
    ensures intake.None? ==> !IsBelowGoal(intake, goal)
    ensures intake.Some? ==> (IsBelowGoal(intake, goal) <==> intake.value < goal)
  {
    intake.Some? && intake.value < goal
  }

  function Lookup(users: map<string, UserDoc>, uid: string): Option<UserDoc> {
    if uid in users then Some(users[uid]) else None
  }

  /** The guard chain of `calculateStreak`, on the profile as read (`None`: no document). */
  function Evaluate(doc: Option<UserDoc>, date: string, data: Option<ProgressRecord>): (r: TriggerOutcome)
    ensures r.Updated? <==>
      data.Some? && doc.Some?
      && !IsBelowGoal(data.value.currentIntake, EffectiveGoal(doc.value.hydrationGoal))
      && doc.value.lastGoalAchievedDate != Some(date)
      && Calendar.Parse(date).Some?
    ensures r.Updated? ==> r.update == CalculateNewStreak(doc.value, date).value
  {
    if data.None? then NoData
    else if doc.None? then ProfileMissing
    else if IsBelowGoal(data.value.currentIntake, EffectiveGoal(doc.value.hydrationGoal)) then BelowGoal
    else if doc.value.lastGoalAchievedDate == Some(date) then AlreadyProcessed
    else
      match CalculateNewStreak(doc.value, date)
      case None => DateUnreadable
      case Some(u) => Updated(u)
  }

  /** `userRef.update(newStreakData)`: the four fields replaced, the others kept. */
  function ApplyUpdate(doc: UserDoc, u: StreakUpdate): (r: UserDoc)
    ensures r.uid == doc.uid && r.email == doc.email && r.username == doc.username
    ensures r.hydrationGoal == doc.hydrationGoal && r.onboardingComplete == doc.onboardingComplete
    ensures r.currentStreak == Some(u.currentStreak) && r.longestStreak == Some(u.longestStreak)
    ensures r.lastGoalAchievedDate == Some(u.lastGoalAchievedDate)
    ensures r.unviewedMilestones == Some(u.unviewedMilestones)
  {
    doc.(currentStreak := Some(u.currentStreak),
         longestStreak := Some(u.longestStreak),
         lastGoalAchievedDate := Some(u.lastGoalAchievedDate),
         unviewedMilestones := Some(u.unviewedMilestones))
  }

  /** The `users` collection after one invocation. */
  function AfterTrigger(users: map<string, UserDoc>, userId: string, date: string, data: Option<ProgressRecord>)
    : (r: map<string, UserDoc>)
    ensures r.Keys == users.Keys
    ensures forall uid :: uid in users && uid != userId ==> r[uid] == users[uid]
  {
    match Evaluate(Lookup(users, userId), date, data)
    case Updated(u) => users[userId := ApplyUpdate(users[userId], u)]
    case _ => users
  }

  /**
   * `calculateStreak`: the guards in the code's order, then one update of the
   * profile; `writeSucceeds` is whether `userRef.update` resolves.
   */
  method CalculateStreak(store: UserStore, userId: string, date: string, data: Option<ProgressRecord>,
                         writeSucceeds: bool)
    returns (outcome: TriggerOutcome)
    modifies store
    ensures var planned := Evaluate(Lookup(old(store.users), userId), date, data);
      outcome == if planned.Updated? && !writeSucceeds then UpdateFailed else planned
    ensures store.users == if writeSucceeds then AfterTrigger(old(store.users), userId, date, data)
                           else old(store.users)
  {
    if data.None? {
      return NoData;
    }
    if userId !in store.users {
      return ProfileMissing;
    }
    var userData := store.users[userId];
    var hydrationGoal := EffectiveGoal(userData.hydrationGoal);
    if IsBelowGoal(data.value.currentIntake, hydrationGoal) {
      return BelowGoal;
    }
    if userData.lastGoalAchievedDate == Some(date) {
      return AlreadyProcessed;
    }
    var newStreakData := CalculateNewStreak(userData, date);
    if newStreakData.None? {
      return DateUnreadable;
    }
    if !writeSucceeds {
      return UpdateFailed;
    }
    store.users := store.users[userId := ApplyUpdate(userData, newStreakData.value)];
    outcome := Updated(newStreakData.value);
  }

  // ---- properties of the trigger ----

  /**
   * No data, no profile, an intake under the goal (2000 when unset), or a
   * date already recorded as the last achieved one: nothing is written.
   */
  lemma GuardsWriteNothing(users: map<string, UserDoc>, userId: string, date: string, data: Option<ProgressRecord>)
    requires data.None? || userId !in users
          || IsBelowGoal(data.value.currentIntake, EffectiveGoal(users[userId].hydrationGoal))
          || users[userId].lastGoalAchievedDate == Some(date)
    ensures AfterTrigger(users, userId, date, data) == users
    ensures Evaluate(Lookup(users, userId), date, data) in {NoData, ProfileMissing, BelowGoal, AlreadyProcessed}
  {
  }

  /** A second delivery of the same write is a no-op: the first one recorded the date. */
  lemma TriggerIdempotent(users: map<string, UserDoc>, userId: string, date: string, data: Option<ProgressRecord>)
    ensures var once := AfterTrigger(users, userId, date, data);
      AfterTrigger(once, userId, date, data) == once
  {
    var once := AfterTrigger(users, userId, date, data);
    match Evaluate(Lookup(users, userId), date, data)
    case Updated(u) =>
      assert once[userId] == ApplyUpdate(users[userId], u);
      assert Evaluate(Lookup(once, userId), date, data) == AlreadyProcessed;
    case _ =>
  }

  /**
   * What an invocation that writes does: the streak restarts at 1 without a
   * previous date or after a gap and grows by one after the calendar day
   * before; the longest streak is the maximum of the old one and the new
   * streak; the queue keeps its old entries in front and gains the milestones
   * just reached.
   */
  lemma UpdateRules(doc: UserDoc, date: string, data: Option<ProgressRecord>)
    requires Evaluate(Some(doc), date, data).Updated?
    ensures Calendar.Yesterday(date).Some?
    ensures var u := Evaluate(Some(doc), date, data).update;
      var previous := doc.currentStreak.GetOr(0);
      && u.currentStreak == (if NoPreviousDate(doc.lastGoalAchievedDate) then 1
                             else if doc.lastGoalAchievedDate.value == Calendar.Yesterday(date).value then previous + 1
                             else 1)
      && u.longestStreak == Max(doc.longestStreak.GetOr(0), u.currentStreak)
      && u.longestStreak >= doc.longestStreak.GetOr(0)
      && u.longestStreak >= u.currentStreak
      && (previous >= 0 ==> u.currentStreak >= 1)
      && u.lastGoalAchievedDate == date
      && u.unviewedMilestones == doc.unviewedMilestones.GetOr([]) + NewMilestones(u.currentStreak, previous)
  {
    var y := Calendar.Yesterday(date).value;
    assert doc.lastGoalAchievedDate != Some(date);
  }

  /**
   * A streak that does not restart grew by one, and the recorded date is the
   * calendar day before the new one.
   */
  lemma GrowthMeansConsecutiveDays(doc: UserDoc, date: string, data: Option<ProgressRecord>)
    requires Evaluate(Some(doc), date, data).Updated?
    requires Evaluate(Some(doc), date, data).update.currentStreak != 1
    requires Calendar.Parse(date).Some? && Calendar.Parse(date).value != Calendar.Date(0, 1, 1)
    ensures doc.lastGoalAchievedDate.Some?
    ensures Evaluate(Some(doc), date, data).update.currentStreak == doc.currentStreak.GetOr(0) + 1
    ensures Calendar.Parse(doc.lastGoalAchievedDate.value)
         == Some(Calendar.Predecessor(Calendar.Parse(date).value))
  {
    UpdateRules(doc, date, data);
    Calendar.YesterdayIsPredecessor(date);
  }

  /** A recorded date that is the calendar day before the new one makes the streak grow by one. */
  lemma ConsecutiveDaysGrow(doc: UserDoc, date: string, data: Option<ProgressRecord>)
    requires Evaluate(Some(doc), date, data).Updated?
    requires !NoPreviousDate(doc.lastGoalAchievedDate)
    requires doc.lastGoalAchievedDate.value == Calendar.Yesterday(date).value
    requires Calendar.Parse(date).value != Calendar.Date(0, 1, 1)
    ensures Evaluate(Some(doc), date, data).update.currentStreak == doc.currentStreak.GetOr(0) + 1
    ensures Calendar.Parse(doc.lastGoalAchievedDate.value)
         == Some(Calendar.Predecessor(Calendar.Parse(date).value))
  {
    UpdateRules(doc, date, data);
    Calendar.YesterdayIsPredecessor(date);
  }

  /** A streak of 3 recorded on 2024-01-01 grows to 4 on 2024-01-02. */
  lemma ConsecutiveDayExample(doc: UserDoc, data: Option<ProgressRecord>)
    requires doc.lastGoalAchievedDate == Some("2024-01-01") && doc.currentStreak == Some(3)
    requires data.Some? && !IsBelowGoal(data.value.currentIntake, EffectiveGoal(doc.hydrationGoal))
    ensures Evaluate(Some(doc), "2024-01-02", data).Updated?
    ensures Evaluate(Some(doc), "2024-01-02", data).update.currentStreak == 4
  {
    Calendar.YesterdayAfterNewYear();
    UpdateRules(doc, "2024-01-02", data);
  }

  /** The same streak restarts at 1 on 2024-01-05, after a gap. */
  lemma GapExample(doc: UserDoc, data: Option<ProgressRecord>)
    requires doc.lastGoalAchievedDate == Some("2024-01-01") && doc.currentStreak == Some(3)
    requires data.Some? && !IsBelowGoal(data.value.currentIntake, EffectiveGoal(doc.hydrationGoal))
    ensures Evaluate(Some(doc), "2024-01-05", data).Updated?
    ensures Evaluate(Some(doc), "2024-01-05", data).update.currentStreak == 1
  {
    Calendar.YesterdayMidMonth();
    assert "2024-01-04" != "2024-01-01" by { assert "2024-01-04"[9] != "2024-01-01"[9]; }
    UpdateRules(doc, "2024-01-05", data);
  }

  /**
   * The code does not deduplicate: a streak rebuilt to 7 after a reset appends
   * `weekly_1` again while the first one is still unviewed.
   */
  lemma RebuiltStreakRepeatsMilestone(doc: UserDoc, data: Option<ProgressRecord>)
    requires doc.lastGoalAchievedDate == Some("2024-01-01") && doc.currentStreak == Some(6)
    requires doc.unviewedMilestones == Some(["weekly_1"])
    requires data.Some? && !IsBelowGoal(data.value.currentIntake, EffectiveGoal(doc.hydrationGoal))
    ensures Evaluate(Some(doc), "2024-01-02", data).Updated?
    ensures Evaluate(Some(doc), "2024-01-02", data).update.unviewedMilestones == ["weekly_1", "weekly_1"]
  {
    Calendar.YesterdayAfterNewYear();
    UpdateRules(doc, "2024-01-02", data);
    var u := Evaluate(Some(doc), "2024-01-02", data).update;
    assert u.currentStreak == 7;
    FirstWeekExample();
    assert u.unviewedMilestones == ["weekly_1"] + NewMilestones(7, 6);
  }

  // ---- many invocations ----

  datatype TriggerEvent = TriggerEvent(userId: string, date: string, data: Option<ProgressRecord>)

  /** The `users` collection after the invocations in `events`, in order. */
  function RunTriggers(users: map<string, UserDoc>, events: seq<TriggerEvent>): (r: map<string, UserDoc>)
    ensures r.Keys == users.Keys
  {
    if events == [] then users
    else RunTriggers(AfterTrigger(users, events[0].userId, events[0].date, events[0].data), events[1..])
  }

  /** The longest streak as the code reads it (`longestStreak || 0`). */
  function LongestOf(doc: UserDoc): int {
    doc.longestStreak.GetOr(0)
  }

  /** A profile whose counters are coherent: a non-negative streak no longer than the longest. */
  predicate Coherent(doc: UserDoc) {
    0 <= doc.currentStreak.GetOr(0) <= LongestOf(doc)
  }

  lemma OneTriggerKeepsLongestAndCoherence(users: map<string, UserDoc>, e: TriggerEvent, uid: string)
    requires uid in users
    ensures var after := AfterTrigger(users, e.userId, e.date, e.data);
      && LongestOf(after[uid]) >= LongestOf(users[uid])
      && (Coherent(users[uid]) ==> Coherent(after[uid]))
  {
    if uid == e.userId && Evaluate(Lookup(users, uid), e.date, e.data).Updated? {
      UpdateRules(users[uid], e.date, e.data);
    }
  }

  /** Over any sequence of invocations the longest streak never decreases and coherence is kept. */
  lemma {:induction false} LongestNeverDecreases(users: map<string, UserDoc>, events: seq<TriggerEvent>, uid: string)
    requires uid in users
    ensures var after := RunTriggers(users, events);
      && LongestOf(after[uid]) >= LongestOf(users[uid])
      && (Coherent(users[uid]) ==> Coherent(after[uid]))
  {
    if events != [] {
      var e := events[0];
      var next := AfterTrigger(users, e.userId, e.date, e.data);
      OneTriggerKeepsLongestAndCoherence(users, e, uid);
      LongestNeverDecreases(next, events[1..], uid);
    }
  }
}
