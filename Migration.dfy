/**
 * The one-time migration that gives every onboarded user the streak fields:
 * a scan over the onboarded profiles that batches an update for each one
 * still lacking `currentStreak`, counts them, and commits the batch only when
 * there is something in it.
 */
module Migration {
  import opened Documents
  import StreakEngine

  /** The query (`onboardingComplete == true`) and the per-document test (`currentStreak === undefined`). */
  predicate NeedsMigration(doc: UserDoc)
    ensures doc.currentStreak.Some? ==> !NeedsMigration(doc)
    ensures !doc.onboardingComplete ==> !NeedsMigration(doc)
    ensures doc.onboardingComplete && doc.currentStreak.None? ==> NeedsMigration(doc)
  {
    doc.onboardingComplete && doc.currentStreak.None?
  }

  /**
   * The batched update: the four streak fields at their initial values,
   * everything else kept; the result no longer needs migrating and reads as
   * a coherent streak with no previous date.
   */
  function MigrateDoc(doc: UserDoc): (r: UserDoc)
    ensures r.uid == doc.uid && r.email == doc.email && r.username == doc.username
    ensures r.hydrationGoal == doc.hydrationGoal && r.onboardingComplete == doc.onboardingComplete
    ensures !NeedsMigration(r)
    ensures StreakEngine.Coherent(r) && r.currentStreak.GetOr(0) == 0
    ensures StreakEngine.NoPreviousDate(r.lastGoalAchievedDate) && r.unviewedMilestones == Some([])
  {
    doc.(currentStreak := Some(0), longestStreak := Some(0),
         lastGoalAchievedDate := Some(""), unviewedMilestones := Some([]))
  }

  /**
   * The collection once a committed batch has been applied: the same
   * documents, none of them pending, and every document that was not
   * pending untouched.
   */
  function MigrateAll(users: map<string, UserDoc>): (r: map<string, UserDoc>)
    ensures r.Keys == users.Keys
    ensures forall id :: id in r ==> !NeedsMigration(r[id])
    ensures forall id :: id in users && !NeedsMigration(users[id]) ==> r[id] == users[id]
  {
    map id | id in users :: if NeedsMigration(users[id]) then MigrateDoc(users[id]) else users[id]
  }

  /** The documents the scan batches an update for. */
  function Pending(users: map<string, UserDoc>): set<string> {
    set id | id in users && NeedsMigration(users[id])
  }

  datatype MigrationResult =
    | Migrated(updateCount: nat)   // "Successfully migrated N users"
    | NothingToMigrate             // "No users needed migration"
    | CommitFailed                 // the batch commit threw

  /**
   * `migrateExistingUsers`: the snapshot is walked in an order the store
   * chooses; `commitSucceeds` is whether `batch.commit()` resolves.
   */
  method MigrateExistingUsers(store: UserStore, commitSucceeds: bool) returns (result: MigrationResult)
    modifies store
    ensures result == if |Pending(old(store.users))| == 0 then NothingToMigrate
                      else if commitSucceeds then Migrated(|Pending(old(store.users))|)
                      else CommitFailed
    ensures store.users == if result.Migrated? then MigrateAll(old(store.users)) else old(store.users)
  {
    var users := store.users;
    var snapshot := set id | id in users && users[id].onboardingComplete;
    var batch: map<string, UserDoc> := map[];
    var updateCount := 0;
    var remaining := snapshot;
    while remaining != {}
      invariant remaining <= snapshot
      invariant batch.Keys == set id | id in snapshot - remaining && users[id].currentStreak.None?
      invariant forall id :: id in batch ==> batch[id] == MigrateDoc(users[id])
      invariant updateCount == |batch|
      decreases remaining
    {
      var id :| id in remaining;
      var userData := users[id];
      if userData.currentStreak == None {
        batch := batch[id := MigrateDoc(userData)];
        updateCount := updateCount + 1;
      }
      remaining := remaining - {id};
    }
    assert batch.Keys == Pending(users);
    if updateCount > 0 {
      if commitSucceeds {
        store.users := users + batch;
        BatchApplied(users, batch);
        result := Migrated(updateCount);
      } else {
        result := CommitFailed;
      }
    } else {
      result := NothingToMigrate;
    }
  }

  /** Overlaying the batch of migrated pending documents is migrating them all. */
  lemma BatchApplied(users: map<string, UserDoc>, batch: map<string, UserDoc>)
    requires batch.Keys == Pending(users)
    requires forall id :: id in batch ==> batch[id] == MigrateDoc(users[id])
    ensures users + batch == MigrateAll(users)
  {
  }

  /**
   * Each document that needs it gets the initial streak fields and keeps the
   * rest; a document not onboarded, or with `currentStreak` set, is untouched.
   */
  lemma MigrateAllEffect(users: map<string, UserDoc>, id: string)
    requires id in users
    ensures id in MigrateAll(users)
    ensures var before, after := users[id], MigrateAll(users)[id];
      if before.onboardingComplete && before.currentStreak.None? then
        && after.currentStreak == Some(0) && after.longestStreak == Some(0)
        && after.lastGoalAchievedDate == Some("") && after.unviewedMilestones == Some([])
        && after.uid == before.uid && after.email == before.email && after.username == before.username
        && after.hydrationGoal == before.hydrationGoal && after.onboardingComplete
      else after == before
  {
  }

  /** A second run finds nothing to do and changes nothing. */
  lemma MigrationIdempotent(users: map<string, UserDoc>)
    ensures Pending(MigrateAll(users)) == {}
    ensures MigrateAll(MigrateAll(users)) == MigrateAll(users)
  {
    var once := MigrateAll(users);
    forall id | id in once ensures !NeedsMigration(once[id]) {
      assert id in users;
    }
  }

  /** Migrated profiles satisfy the streak engine's coherence condition. */
  lemma MigratedDocsCoherent(users: map<string, UserDoc>, id: string)
    requires id in users && NeedsMigration(users[id])
    ensures StreakEngine.Coherent(MigrateAll(users)[id])
    ensures StreakEngine.NoPreviousDate(MigrateAll(users)[id].lastGoalAchievedDate)
  {
  }
}
