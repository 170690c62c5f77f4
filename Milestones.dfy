/**
 * The milestone notifier: when the signed-in profile's unviewed queue is
 * non-empty it shows the head; closing the modal removes that identifier
 * from the stored profile (every occurrence), then from the local profile,
 * and hides the modal.
 */
module Milestones {
  import opened Documents
  import AuthStore

  /** `queue.filter(m => m !== milestone)`: every occurrence removed, the rest in order. */
  function RemoveAll(queue: seq<string>, milestone: string): (r: seq<string>)
    ensures |r| <= |queue|
    ensures forall m :: m in r <==> m in queue && m != milestone
    decreases |queue|
  {
    if queue == [] then []
    else (if queue[0] == milestone then [] else [queue[0]]) + RemoveAll(queue[1..], milestone)
  }

  /**
   * `updateDoc(userRef, { unviewedMilestones: arrayRemove(milestone) })` on
   * an existing document: every occurrence is removed, and a missing field
   * becomes the empty list.
   */
  function ArrayRemove(doc: UserDoc, milestone: string): (r: UserDoc)
    ensures r.unviewedMilestones.Some?
    ensures multiset(r.unviewedMilestones.value) == multiset(doc.unviewedMilestones.GetOr([]))[milestone := 0]
    ensures r == doc.(unviewedMilestones := r.unviewedMilestones)
  {
    RemoveAllCounts(doc.unviewedMilestones.GetOr([]), milestone);
    doc.(unviewedMilestones := Some(RemoveAll(doc.unviewedMilestones.GetOr([]), milestone)))
  }

  /**
   * The identifier the modal should show for a profile: there is one exactly
   * when the profile's queue is non-empty, and it is the queue's first entry.
   */
  function QueueHead(profile: Option<UserDoc>): (h: Option<string>)
    ensures h.Some? <==> profile.Some? && profile.value.unviewedMilestones.Some? && profile.value.unviewedMilestones.value != []
    ensures h.Some? ==> h.value in profile.value.unviewedMilestones.value
    ensures h.Some? ==> h.value == profile.value.unviewedMilestones.value[0]
  {
    if profile.Some? && profile.value.unviewedMilestones.Some? && |profile.value.unviewedMilestones.value| > 0
    then Some(profile.value.unviewedMilestones.value[0])
    else None
  }

  datatype CloseOutcome =
    | Ignored        // no profile, or nothing shown
    | Viewed         // removed from the stored and the local profile
    | RemoveFailed   // `updateDoc` threw (write refused, or no such document)
    | LocalFailed    // stored removal done, but the local profile has no queue to filter

  class MilestoneNotifier {
    const auth: AuthStore.Store
    var showMilestoneModal: bool
    var currentMilestone: string

    constructor (auth: AuthStore.Store)
      ensures this.auth == auth && !showMilestoneModal && currentMilestone == ""
    {
      this.auth := auth;
      showMilestoneModal := false;
      currentMilestone := "";
    }

    /** The effect on `profile?.unviewedMilestones`: show the head of a non-empty queue, else leave things be. */
    method OnProfileChanged()
      modifies this
      ensures QueueHead(auth.profile).Some? ==>
        currentMilestone == QueueHead(auth.profile).value && showMilestoneModal
      ensures QueueHead(auth.profile).None? ==>
        currentMilestone == old(currentMilestone) && showMilestoneModal == old(showMilestoneModal)
    {
      var profile := auth.profile;
      if profile.Some? && profile.value.unviewedMilestones.Some? && |profile.value.unviewedMilestones.value| > 0 {
        var milestone := profile.value.unviewedMilestones.value[0];
        currentMilestone := milestone;
        showMilestoneModal := true;
      }
    }

    /**
     * `handleMilestoneClose`; `writeSucceeds` is whether the backend accepts
     * the update (it also fails when the user document does not exist).
     */
    method HandleMilestoneClose(backend: UserStore, writeSucceeds: bool) returns (outcome: CloseOutcome)
      requires auth.Valid()
      modifies this, auth, backend
      ensures auth.Valid()
      ensures old(auth.profile).None? || old(currentMilestone) == "" ==>
        && outcome == Ignored && backend.users == old(backend.users)
        && auth.profile == old(auth.profile) && auth.isLoading == old(auth.isLoading)
        && currentMilestone == old(currentMilestone) && showMilestoneModal == old(showMilestoneModal)
      ensures old(auth.profile).Some? && old(currentMilestone) != "" ==>
        var p, id := old(auth.profile).value, old(currentMilestone);
        && outcome == (if !writeSucceeds || p.uid !in old(backend.users) then RemoveFailed
                       else if p.unviewedMilestones.None? then LocalFailed
                       else Viewed)
        && backend.users == (if outcome == RemoveFailed then old(backend.users)
                             else old(backend.users)[p.uid := ArrayRemove(old(backend.users)[p.uid], id)])
        && auth.profile == (if outcome == Viewed
                            then Some(p.(unviewedMilestones := Some(RemoveAll(p.unviewedMilestones.value, id))))
                            else old(auth.profile))
        && (outcome != Viewed ==> auth.isLoading == old(auth.isLoading))
        && !showMilestoneModal && currentMilestone == ""
      ensures outcome == Viewed ==> !auth.isLoading && auth.profileSet
      ensures outcome != Viewed ==> auth.profileSet == old(auth.profileSet)
      ensures old(auth.profileSet) ==> auth.profileSet
    {
      var profile := auth.profile;
      if profile.None? || currentMilestone == "" {
        return Ignored;
      }
      var p := profile.value;
      if !writeSucceeds || p.uid !in backend.users {
        outcome := RemoveFailed;
      } else {
        backend.users := backend.users[p.uid := ArrayRemove(backend.users[p.uid], currentMilestone)];
        if p.unviewedMilestones.None? {
          outcome := LocalFailed;
        } else {
          var updatedProfile := p.(unviewedMilestones := Some(RemoveAll(p.unviewedMilestones.value, currentMilestone)));
          auth.SetProfile(Some(updatedProfile));
          outcome := Viewed;
        }
      }
      showMilestoneModal := false;
      currentMilestone := "";
    }
  }

  // ---- properties of the removal ----

  /** Each occurrence of the identifier goes; every other identifier keeps its multiplicity. */
  lemma {:induction false} RemoveAllCounts(queue: seq<string>, milestone: string)
    ensures multiset(RemoveAll(queue, milestone)) == multiset(queue)[milestone := 0]
    decreases |queue|
  {
    if queue != [] {
      RemoveAllCounts(queue[1..], milestone);
      assert queue == [queue[0]] + queue[1..];
    }
  }

  /** Filtering a concatenation filters each part: the survivors keep their order. */
  lemma {:induction false} RemoveAllAppend(a: seq<string>, b: seq<string>, milestone: string)
    ensures RemoveAll(a + b, milestone) == RemoveAll(a, milestone) + RemoveAll(b, milestone)
    decreases |a|
  {
    if a != [] {
      assert (a + b)[1..] == a[1..] + b;
      RemoveAllAppend(a[1..], b, milestone);
    } else {
      assert a + b == b;
    }
  }

  /** A queue without the identifier is left as it is. */
  lemma {:induction false} RemoveAllAbsent(queue: seq<string>, milestone: string)
    requires milestone !in queue
    ensures RemoveAll(queue, milestone) == queue
    decreases |queue|
  {
    if queue != [] {
      assert queue[0] in queue;
      assert forall m :: m in queue[1..] ==> m in queue;
      RemoveAllAbsent(queue[1..], milestone);
    }
  }

  /** Closing twice on the same identifier is closing once. */
  lemma RemoveAllIdempotent(queue: seq<string>, milestone: string)
    ensures RemoveAll(RemoveAll(queue, milestone), milestone) == RemoveAll(queue, milestone)
  {
    RemoveAllAbsent(RemoveAll(queue, milestone), milestone);
  }

  /**
   * Closing the head of a queue in which it occurs once leaves the rest of
   * the queue, so the next identifier is shown next.
   */
  lemma CloseHeadAdvances(queue: seq<string>)
    requires |queue| > 0 && queue[0] !in queue[1..]
    ensures RemoveAll(queue, queue[0]) == queue[1..]
  {
    RemoveAllAbsent(queue[1..], queue[0]);
  }

  /**
   * When the stored queue is the local one followed by identifiers appended
   * meanwhile by the streak engine, closing keeps that relation: the stored
   * queue is still the local one followed by the (filtered) appended ones.
   */
  lemma StoredAndLocalStayAligned(doc: UserDoc, local: seq<string>, appended: seq<string>, milestone: string)
    requires doc.unviewedMilestones == Some(local + appended)
    ensures ArrayRemove(doc, milestone).unviewedMilestones
         == Some(RemoveAll(local, milestone) + RemoveAll(appended, milestone))
  {
    RemoveAllAppend(local, appended, milestone);
  }

  /** Removing the shown identifier from a queue where it repeats removes all its occurrences. */
  lemma RepeatedIdentifierExample()
    ensures RemoveAll(["weekly_1", "weekly_2", "weekly_1"], "weekly_1") == ["weekly_2"]
  {
    var q := ["weekly_1", "weekly_2", "weekly_1"];
    assert q[1..] == ["weekly_2", "weekly_1"];
    assert q[1..][1..] == ["weekly_1"];
  }
}
