/**
 * The client's session store: the signed-in user's profile, whether someone
 * is signed in, and whether the persisted session is still being checked.
 * `setProfile` is its only action and writes all three fields at once.
 */
module AuthStore {
  import opened Documents

  class Store {
    var profile: Option<UserDoc>
    var isLoggedIn: bool
    var isLoading: bool
    /** Whether `setProfile` has been called on this store. */
    ghost var profileSet: bool

    /** What holds in every state the store can reach. */
    ghost predicate Valid()
      reads this
    {
      && (isLoggedIn <==> profile.Some?)
      && (profileSet ==> !isLoading)
    }

    /** No profile, signed out, loading. */
    constructor ()
      ensures Valid()
      ensures profile == None && !isLoggedIn && isLoading && !profileSet
    {
      profile := None;
      isLoggedIn := false;
      isLoading := true;
      profileSet := false;
    }

    /** `setProfile(profile)`: signed in exactly when there is a profile; loading is over for good. */
    method SetProfile(p: Option<UserDoc>)
      modifies this
      ensures Valid()
      ensures profile == p && isLoggedIn == p.Some? && !isLoading && profileSet
    {
      profile := p;
      isLoggedIn := p.Some?;
      isLoading := false;
      profileSet := true;
    }
  }
}
