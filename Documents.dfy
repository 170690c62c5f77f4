/**
 * The documents of the backend store: user profiles, shared by the
 * server-side streak engine, the one-time migration and the client-side
 * stores, and the per-user, per-date progress records.  A field that the document may lack
 * is an `Option`; a number that the code only ever reads through `x || d`
 * keeps 0 for "absent", since `||` treats an absent field and 0 alike.
 */
module Documents {

  datatype Option<+T> = None | Some(value: T) {
    /** The value, or `default` when absent (the `x || default` of the code for non-falsy values). */
    function GetOr(default: T): T {
      match this
      case Some(v) => v
      case None => default
    }
  }

  /** A document of the `users` collection, as the code reads and writes it. */
  datatype UserDoc = UserDoc(
    uid: string,
    email: string,
    username: string,
    hydrationGoal: int,                      // 0 stands for absent (read as `hydrationGoal || 2000`)
    onboardingComplete: bool,
    currentStreak: Option<int>,
    longestStreak: Option<int>,
    lastGoalAchievedDate: Option<string>,
    unviewedMilestones: Option<seq<string>>)

  /** The goal the code uses when the stored one is falsy. */
  const DEFAULT_GOAL: int := 2000

  /** `hydrationGoal || 2000`: never the falsy value 0. */
  function EffectiveGoal(stored: int): (g: int)
    ensures g != 0
    ensures stored != 0 ==> g == stored
    ensures stored == 0 ==> g == DEFAULT_GOAL
  {
    if stored == 0 then DEFAULT_GOAL else stored
  }

  /** A `users/{uid}/daily_progress/{date}` record; the field may be missing. */
  datatype ProgressRecord = ProgressRecord(currentIntake: Option<int>)

  /** The `users` collection, keyed by uid. */
  class UserStore {
    var users: map<string, UserDoc>

    constructor (initial: map<string, UserDoc>)
      ensures users == initial
    {
      users := initial;
    }
  }

  /** The `daily_progress` sub-collections, keyed by (uid, date). */
  class ProgressStore {
    var records: map<(string, string), ProgressRecord>

    constructor (initial: map<(string, string), ProgressRecord>)
      ensures records == initial
    {
      records := initial;
    }
  }
}
