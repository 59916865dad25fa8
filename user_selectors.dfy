/**
 * Pure selectors deriving user views from a state snapshot: the user shown on
 * the account-details screen, users filtered by activity or by presence
 * status, users keyed by email or by id, and every user other than me.
 */
module UserSelectors {
  import opened Wrappers
  import opened Collections
  import opened UserState

  /** Some user in `users` whose email is `email`, if there is one (the first such). */
  function FindUserByEmail(users: seq<User>, email: string): (r: Option<User>)
    ensures r.Some? <==> exists i :: 0 <= i < |users| && users[i].email == email
    ensures r.Some? ==> r.value in users && r.value.email == email
  {
    if users == [] then None
    else if users[0].email == email then Some(users[0])
    else FindUserByEmail(users[1..], email)
  }

  /** The stand-in record for an email that no known user carries. */
  function UnknownUser(email: string): User
  {
    User(email, -1, email, "", false, false, false)
  }

  /** The email parameter of the current route. */
  function CurrentRouteEmail(nav: Nav): string
    requires 0 <= nav.index < |nav.routes|
    requires nav.routes[nav.index].params.Some?
  {
    nav.routes[nav.index].params.value.email
  }

  /**
   * The user whose email is the current route's email parameter, or, when no
   * user carries it, a placeholder with that email and no details.
   */
  function GetAccountDetailsUser(state: State): (r: User)
    requires 0 <= state.nav.index < |state.nav.routes|
    requires state.nav.routes[state.nav.index].params.Some?
    ensures r.email == CurrentRouteEmail(state.nav)
    ensures (exists i :: 0 <= i < |state.users| && state.users[i].email == r.email) ==> r in state.users
    ensures (forall i :: 0 <= i < |state.users| ==> state.users[i].email != r.email) ==>
      r.fullName == r.email && r.avatarUrl == "" && r.id == -1 && !r.isActive && !r.isAdmin && !r.isBot
  {
    var email := CurrentRouteEmail(state.nav);
    match FindUserByEmail(state.users, email)
    case Some(user) => user
    case None => UnknownUser(email)
  }

  /** The filter condition of the active-users selector. */
  predicate IsActiveUser(u: User)
  {
    u.isActive
  }

  /** The users marked active, every occurrence kept, in their original order. */
  function GetActiveUsers(state: State): (r: seq<User>)
    ensures forall u :: u in r <==> u in state.users && u.isActive
    ensures forall u :: multiset(r)[u] == if u.isActive then multiset(state.users)[u] else 0
    ensures IsSubsequence(r, state.users)
  {
    FilterExact(state.users, IsActiveUser);
    Filter(state.users, IsActiveUser)
  }

  /** The user has a presence entry and its aggregated status is `status`. */
  predicate HasStatus(presence: map<string, Status>, u: User, status: Status)
  {
    u.email in presence && presence[u.email] == status
  }

  /** The filter condition of the presence-status selectors. */
  function StatusIs(presence: map<string, Status>, status: Status): User -> bool
  {
    u => HasStatus(presence, u, status)
  }

  /** The users whose presence status is `status`, in their original order. */
  function UsersWithStatus(state: State, status: Status): (r: seq<User>)
    ensures forall u :: u in r <==> u in state.users && HasStatus(state.presence, u, status)
    ensures forall u :: multiset(r)[u] == if HasStatus(state.presence, u, status) then multiset(state.users)[u] else 0
    ensures IsSubsequence(r, state.users)
  {
    FilterExact(state.users, StatusIs(state.presence, status));
    Filter(state.users, StatusIs(state.presence, status))
  }

  /** The users whose presence status is active; users without an entry are left out. */
  function GetUsersStatusActive(state: State): (r: seq<User>)
    ensures forall u :: u in r <==> u in state.users && HasStatus(state.presence, u, Active)
    ensures forall u :: multiset(r)[u] == if HasStatus(state.presence, u, Active) then multiset(state.users)[u] else 0
    ensures IsSubsequence(r, state.users)
  {
    UsersWithStatus(state, Active)
  }

  /** The users whose presence status is idle; users without an entry are left out. */
  function GetUsersStatusIdle(state: State): (r: seq<User>)
    ensures forall u :: u in r <==> u in state.users && HasStatus(state.presence, u, Idle)
    ensures forall u :: multiset(r)[u] == if HasStatus(state.presence, u, Idle) then multiset(state.users)[u] else 0
    ensures IsSubsequence(r, state.users)
  {
    UsersWithStatus(state, Idle)
  }

  /** The users whose presence status is offline; users without an entry are left out. */
  function GetUsersStatusOffline(state: State): (r: seq<User>)
    ensures forall u :: u in r <==> u in state.users && HasStatus(state.presence, u, Offline)
    ensures forall u :: multiset(r)[u] == if HasStatus(state.presence, u, Offline) then multiset(state.users)[u] else 0
    ensures IsSubsequence(r, state.users)
  {
    UsersWithStatus(state, Offline)
  }

  /** When every user has an entry with status `status`, the status filter returns all users unchanged. */
  lemma UsersWithStatusAll(state: State, status: Status)
    requires forall i :: 0 <= i < |state.users| ==> HasStatus(state.presence, state.users[i], status)
    ensures UsersWithStatus(state, status) == state.users
  {
    FilterKeepsAll(state.users, StatusIs(state.presence, status));
  }

  /** When every user is offline, the offline selector returns the whole list in order. */
  lemma AllOfflineSelectsAll(state: State)
    requires forall i :: 0 <= i < |state.users| ==>
      state.users[i].email in state.presence && state.presence[state.users[i].email] == Offline
    ensures GetUsersStatusOffline(state) == state.users
  {
    UsersWithStatusAll(state, Offline);
  }

  /** The users keyed by email. */
  function GetUsersByEmail(state: State): (m: map<string, User>)
    ensures m.Keys == set u | u in state.users :: u.email
    ensures forall e :: e in m ==> m[e] in state.users && m[e].email == e
  {
    KeyBy(state.users, (u: User) => u.email)
  }

  /** The users keyed by id. */
  function GetUsersById(state: State): (m: map<int, User>)
    ensures m.Keys == set u | u in state.users :: u.id
    ensures forall k :: k in m ==> m[k] in state.users && m[k].id == k
  {
    KeyBy(state.users, (u: User) => u.id)
  }

  /** With duplicate emails the later user wins: a user no later user shares an email with is the one stored. */
  lemma UsersByEmailLastWins(state: State, i: nat)
    requires i < |state.users|
    requires forall j :: i < j < |state.users| ==> state.users[j].email != state.users[i].email
    ensures GetUsersByEmail(state)[state.users[i].email] == state.users[i]
  {
    KeyByLastWins(state.users, (u: User) => u.email, i);
  }

  /** With duplicate ids the later user wins. */
  lemma UsersByIdLastWins(state: State, i: nat)
    requires i < |state.users|
    requires forall j :: i < j < |state.users| ==> state.users[j].id != state.users[i].id
    ensures GetUsersById(state)[state.users[i].id] == state.users[i]
  {
    KeyByLastWins(state.users, (u: User) => u.id, i);
  }

  /** With distinct emails the email map holds exactly one entry per user, each under its own email. */
  lemma UsersByEmailOnePerUser(state: State)
    requires forall i, j :: 0 <= i < j < |state.users| ==> state.users[i].email != state.users[j].email
    ensures |GetUsersByEmail(state)| == |state.users|
    ensures forall i :: 0 <= i < |state.users| ==> GetUsersByEmail(state)[state.users[i].email] == state.users[i]
  {
    KeyByCardinality(state.users, (u: User) => u.email);
    forall i | 0 <= i < |state.users|
      ensures GetUsersByEmail(state)[state.users[i].email] == state.users[i]
    {
      UsersByEmailLastWins(state, i);
    }
  }

  /** With distinct ids the id map holds exactly one entry per user, each under its own id. */
  lemma UsersByIdOnePerUser(state: State)
    requires forall i, j :: 0 <= i < j < |state.users| ==> state.users[i].id != state.users[j].id
    ensures |GetUsersById(state)| == |state.users|
    ensures forall i :: 0 <= i < |state.users| ==> GetUsersById(state)[state.users[i].id] == state.users[i]
  {
    KeyByCardinality(state.users, (u: User) => u.id);
    forall i | 0 <= i < |state.users|
      ensures GetUsersById(state)[state.users[i].id] == state.users[i]
    {
      UsersByIdLastWins(state, i);
    }
  }

  /** Every user whose email differs from the first account's, in their original order. */
  function GetUsersSansMe(state: State): (r: seq<User>)
    requires |state.accounts| > 0
    ensures forall u :: u in r <==> u in state.users && u.email != state.accounts[0].email
    ensures forall u :: multiset(r)[u] == if u.email != state.accounts[0].email then multiset(state.users)[u] else 0
    ensures IsSubsequence(r, state.users)
  {
    var me := state.accounts[0].email;
    FilterExact(state.users, (u: User) => u.email != me);
    Filter(state.users, (u: User) => u.email != me)
  }

  /** When exactly one user is me, that one user is dropped and nothing else. */
  lemma SansMeDropsOnlyMe(state: State, i: nat)
    requires |state.accounts| > 0
    requires i < |state.users| && state.users[i].email == state.accounts[0].email
    requires forall j :: 0 <= j < |state.users| && j != i ==> state.users[j].email != state.accounts[0].email
    ensures GetUsersSansMe(state) == state.users[..i] + state.users[i + 1..]
  {
    var me := state.accounts[0].email;
    assert RejectsOnly(state.users, i, (u: User) => u.email != me);
    FilterDropsOne(state.users, i, (u: User) => u.email != me);
  }

  /** When no user is me, every user is kept in order. */
  lemma SansMeKeepsAllOthers(state: State)
    requires |state.accounts| > 0
    requires forall j :: 0 <= j < |state.users| ==> state.users[j].email != state.accounts[0].email
    ensures GetUsersSansMe(state) == state.users
  {
    var me := state.accounts[0].email;
    FilterKeepsAll(state.users, (u: User) => u.email != me);
  }

  /** The account-details user depends only on the users and the current route, not on any other route. */
  lemma AccountDetailsUsesCurrentRouteOnly(s1: State, s2: State)
    requires 0 <= s1.nav.index < |s1.nav.routes| && s1.nav.routes[s1.nav.index].params.Some?
    requires 0 <= s2.nav.index < |s2.nav.routes|
    requires s1.users == s2.users
    requires s1.nav.routes[s1.nav.index] == s2.nav.routes[s2.nav.index]
    ensures GetAccountDetailsUser(s1) == GetAccountDetailsUser(s2)
  {
  }

  /** With distinct emails, the account-details user is exactly the user carrying the route's email. */
  lemma AccountDetailsFindsUser(state: State, i: nat)
    requires 0 <= state.nav.index < |state.nav.routes| && state.nav.routes[state.nav.index].params.Some?
    requires i < |state.users| && state.users[i].email == CurrentRouteEmail(state.nav)
    requires forall j :: 0 <= j < |state.users| && j != i ==> state.users[j].email != state.users[i].email
    ensures GetAccountDetailsUser(state) == state.users[i]
  {
  }
}
