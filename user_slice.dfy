/** The signed-in user store of src/store/slices/userSlice.js: a class whose
    methods are the reducers. Its invariant ties the authentication flag to the
    stored user. */
module UserSlice {
  import opened Common

  /** The user record the authentication service hands over; the store never
      looks inside it. */
  datatype User = User(uid: string, email: string, displayName: string)

  /** `{...current, ...payload}` on a flat record: the payload's keys
      overwrite, every other key keeps its value, and no key is lost. */
  function Merge<V>(current: map<string, V>, payload: map<string, V>): (r: map<string, V>)
    ensures r.Keys == current.Keys + payload.Keys
    ensures forall k :: k in payload ==> r[k] == payload[k]
    ensures forall k :: k in current && k !in payload ==> r[k] == current[k]
  {
    current + payload
  }

  /** A payload that carries every key of the record replaces it wholesale;
      one that carries none leaves it alone. */
  lemma MergeExtremes<V>(current: map<string, V>, payload: map<string, V>)
    ensures current.Keys <= payload.Keys ==> Merge(current, payload) == payload
    ensures payload == map[] ==> Merge(current, payload) == current
  {
    if current.Keys <= payload.Keys {
      assert Merge(current, payload).Keys == payload.Keys;
    }
  }

  class UserState {
    var user: Option<User>
    var isAuthenticated: bool
    var loading: bool
    var error: Option<string>
    var preferences: map<string, bool>
    var stats: map<string, int>

    /** Not authenticated means no user is stored. */
    ghost predicate Valid()
      reads this
    {
      !isAuthenticated ==> user.None?
    }

    /** initialState. */
    constructor ()
      ensures Valid()
      ensures user.None? && !isAuthenticated && !loading && error.None?
      ensures preferences == map["notifications" := true, "focusMode" := true,
                                 "aiPersonalization" := true, "darkMode" := false]
      ensures stats == map["completionRate" := 0, "streakDays" := 0, "tasksCompleted" := 0]
    {
      user := None;
      isAuthenticated := false;
      loading := false;
      error := None;
      preferences := map["notifications" := true, "focusMode" := true,
                         "aiPersonalization" := true, "darkMode" := false];
      stats := map["completionRate" := 0, "streakDays" := 0, "tasksCompleted" := 0];
    }

    /** setUser: stores the payload; authenticated exactly when it is not null. */
    method SetUser(payload: Option<User>)
      requires Valid()
      modifies this
      ensures Valid()
      ensures user == payload && isAuthenticated == payload.Some?
      ensures loading == old(loading) && error == old(error)
      ensures preferences == old(preferences) && stats == old(stats)
    {
      user := payload;
      isAuthenticated := payload.Some?;
    }

    /** setAuthenticated: false also forgets the user; true keeps it as it is. */
    method SetAuthenticated(value: bool)
      requires Valid()
      modifies this
      ensures Valid()
      ensures isAuthenticated == value
      ensures user == (if value then old(user) else None)
      ensures loading == old(loading) && error == old(error)
      ensures preferences == old(preferences) && stats == old(stats)
    {
      isAuthenticated := value;
      if !value {
        user := None;
      }
    }

    method SetLoading(value: bool)
      requires Valid()
      modifies this
      ensures Valid()
      ensures loading == value
      ensures user == old(user) && isAuthenticated == old(isAuthenticated) && error == old(error)
      ensures preferences == old(preferences) && stats == old(stats)
    {
      loading := value;
    }

    method SetError(value: Option<string>)
      requires Valid()
      modifies this
      ensures Valid()
      ensures error == value
      ensures user == old(user) && isAuthenticated == old(isAuthenticated) && loading == old(loading)
      ensures preferences == old(preferences) && stats == old(stats)
    {
      error := value;
    }

    method UpdatePreferences(payload: map<string, bool>)
      requires Valid()
      modifies this
      ensures Valid()
      ensures preferences == Merge(old(preferences), payload)
      ensures user == old(user) && isAuthenticated == old(isAuthenticated)
      ensures loading == old(loading) && error == old(error) && stats == old(stats)
    {
      preferences := Merge(preferences, payload);
    }

    method UpdateStats(payload: map<string, int>)
      requires Valid()
      modifies this
      ensures Valid()
      ensures stats == Merge(old(stats), payload)
      ensures user == old(user) && isAuthenticated == old(isAuthenticated)
      ensures loading == old(loading) && error == old(error) && preferences == old(preferences)
    {
      stats := Merge(stats, payload);
    }

    /** clearUser (logout): no user, not authenticated, no error; loading,
        preferences and stats survive. */
    method ClearUser()
      requires Valid()
      modifies this
      ensures Valid()
      ensures user.None? && !isAuthenticated && error.None?
      ensures loading == old(loading) && preferences == old(preferences) && stats == old(stats)
    {
      user := None;
      isAuthenticated := false;
      error := None;
    }
  }

  /** setAuthenticated(true) without a user is accepted: the flag may be set
      while no user is stored, so the invariant holds in one direction only. */
  method AuthenticatedWithoutUserScenario()
    returns (authenticated: bool, hasUser: bool, darkMode: bool, notifications: bool,
             authenticatedAfterClear: bool, darkModeAfterClear: bool)
    ensures authenticated && !hasUser
    ensures darkMode && notifications
    ensures !authenticatedAfterClear && darkModeAfterClear
  {
    var u := new UserState();
    u.SetAuthenticated(true);
    authenticated, hasUser := u.isAuthenticated, u.user.Some?;
    u.UpdatePreferences(map["darkMode" := true]);
    darkMode, notifications := u.preferences["darkMode"], u.preferences["notifications"];
    u.ClearUser();
    authenticatedAfterClear, darkModeAfterClear := u.isAuthenticated, u.preferences["darkMode"];
  }
}
