/**
 * The example states of the selector test suite, each with the result it
 * expects. Fields a test leaves out of a user are given fixed default values.
 */
module UserSelectorsExamples {
  import opened Wrappers
  import opened Collections
  import opened UserState
  import opened UserSelectors

  /** A user known only by email, name and activity flag. */
  function Person(email: string, fullName: string, isActive: bool): User
  {
    User(email, 0, fullName, "", isActive, false, false)
  }

  /** A state holding only users and presence. */
  function UsersOnly(users: seq<User>, presence: map<string, Status>): State
  {
    State(users, presence, Nav(0, [Route("main", None)]), [])
  }

  lemma AccountDetailsExampleFound()
    ensures
      var a := Person("a@a.com", "a", false);
      var b := Person("b@a.com", "b", false);
      var nav := Nav(1, [Route("first", None), Route("second", Some(Params("b@a.com")))]);
      GetAccountDetailsUser(State([a, b], map[], nav, [])) == b
  {
    var a := Person("a@a.com", "a", false);
    var b := Person("b@a.com", "b", false);
    var nav := Nav(1, [Route("first", None), Route("second", Some(Params("b@a.com")))]);
    var state := State([a, b], map[], nav, []);
    assert a.email != b.email;
    AccountDetailsFindsUser(state, 1);
  }

  lemma AccountDetailsExamplePlaceholder()
    ensures
      var nav := Nav(1, [Route("first", Some(Params("a@a.com"))), Route("second", Some(Params("b@a.com")))]);
      GetAccountDetailsUser(State([], map[], nav, [])) == User("b@a.com", -1, "b@a.com", "", false, false, false)
  {
  }

  lemma ActiveUsersExample()
    ensures
      var abc := Person("", "Abc", true);
      var def := Person("", "Def", false);
      var xyz := Person("", "Xyz", true);
      GetActiveUsers(UsersOnly([abc, def, xyz], map[])) == [abc, xyz]
  {
    var abc := Person("", "Abc", true);
    var def := Person("", "Def", false);
    var xyz := Person("", "Xyz", true);
    var users := [abc, def, xyz];
    assert Filter(users, IsActiveUser) == [abc, xyz] by {
      assert users[1..] == [def, xyz] && users[2..] == [xyz] && [xyz][1..] == [];
      assert Filter([xyz], IsActiveUser) == [xyz];
      assert Filter([def, xyz], IsActiveUser) == [xyz];
    }
    assert GetActiveUsers(UsersOnly(users, map[])) == Filter(users, IsActiveUser);
  }

  lemma StatusActiveExample()
    ensures
      var abc := Person("abc@example.com", "", true);
      var def := Person("def@example.com", "", true);
      var xyz := Person("xyz@example.com", "", true);
      GetUsersStatusActive(UsersOnly([abc, def, xyz], map["abc@example.com" := Active])) == [abc]
  {
    var abc := Person("abc@example.com", "", true);
    var def := Person("def@example.com", "", true);
    var xyz := Person("xyz@example.com", "", true);
    var users := [abc, def, xyz];
    var presence := map["abc@example.com" := Active];
    var active := StatusIs(presence, Active);
    assert Filter(users, active) == [abc] by {
      assert users[1..] == [def, xyz] && users[2..] == [xyz] && [xyz][1..] == [];
      assert active(abc) && !active(def) && !active(xyz);
      assert Filter([xyz], active) == [];
      assert Filter([def, xyz], active) == [];
    }
    assert GetUsersStatusActive(UsersOnly(users, presence)) == Filter(users, active);
  }

  lemma StatusIdleExample()
    ensures
      var abc := Person("abc@example.com", "", true);
      var def := Person("def@example.com", "", true);
      var xyz := Person("xyz@example.com", "", true);
      var presence := map["abc@example.com" := Idle, "def@example.com" := Idle];
      GetUsersStatusIdle(UsersOnly([abc, def, xyz], presence)) == [abc, def]
  {
    var abc := Person("abc@example.com", "", true);
    var def := Person("def@example.com", "", true);
    var xyz := Person("xyz@example.com", "", true);
    var users := [abc, def, xyz];
    var presence := map["abc@example.com" := Idle, "def@example.com" := Idle];
    var idle := StatusIs(presence, Idle);
    assert Filter(users, idle) == [abc, def] by {
      assert users[1..] == [def, xyz] && users[2..] == [xyz] && [xyz][1..] == [];
      assert idle(abc) && idle(def) && !idle(xyz);
      assert Filter([xyz], idle) == [];
      assert Filter([def, xyz], idle) == [def];
    }
    assert GetUsersStatusIdle(UsersOnly(users, presence)) == Filter(users, idle);
  }

  lemma StatusOfflineExample()
    ensures
      var abc := Person("abc@example.com", "", true);
      var def := Person("def@example.com", "", true);
      var xyz := Person("xyz@example.com", "", true);
      var presence := map["abc@example.com" := Offline, "def@example.com" := Offline, "xyz@example.com" := Offline];
      GetUsersStatusOffline(UsersOnly([abc, def, xyz], presence)) == [abc, def, xyz]
  {
    var abc := Person("abc@example.com", "", true);
    var def := Person("def@example.com", "", true);
    var xyz := Person("xyz@example.com", "", true);
    var presence := map["abc@example.com" := Offline, "def@example.com" := Offline, "xyz@example.com" := Offline];
    AllOfflineSelectsAll(UsersOnly([abc, def, xyz], presence));
  }

  lemma UsersByEmailExample()
    ensures
      var abc := Person("abc@example.com", "", false);
      var def := Person("def@example.com", "", false);
      var xyz := Person("xyz@example.com", "", false);
      GetUsersByEmail(UsersOnly([abc, def, xyz], map[])) ==
        map["abc@example.com" := abc, "def@example.com" := def, "xyz@example.com" := xyz]
  {
    var abc := Person("abc@example.com", "", false);
    var def := Person("def@example.com", "", false);
    var xyz := Person("xyz@example.com", "", false);
    var users := [abc, def, xyz];
    assert users[..2] == [abc, def] && users[..2][..1] == [abc] && users[..2][..1][..0] == [];
    assert KeyBy([abc], (u: User) => u.email) == map["abc@example.com" := abc];
    assert KeyBy([abc, def], (u: User) => u.email) == map["abc@example.com" := abc, "def@example.com" := def];
  }

  lemma UsersByIdExample()
    ensures
      var abc := User("abc@example.com", 1, "", "", false, false, false);
      var def := User("def@example.com", 2, "", "", false, false, false);
      var xyz := User("xyz@example.com", 3, "", "", false, false, false);
      GetUsersById(UsersOnly([abc, def, xyz], map[])) == map[1 := abc, 2 := def, 3 := xyz]
  {
    var abc := User("abc@example.com", 1, "", "", false, false, false);
    var def := User("def@example.com", 2, "", "", false, false, false);
    var xyz := User("xyz@example.com", 3, "", "", false, false, false);
    var users := [abc, def, xyz];
    assert users[..2] == [abc, def] && users[..2][..1] == [abc] && users[..2][..1][..0] == [];
    assert KeyBy([abc], (u: User) => u.id) == map[1 := abc];
    assert KeyBy([abc, def], (u: User) => u.id) == map[1 := abc, 2 := def];
  }

  lemma UsersSansMeExample()
    ensures
      var me := Person("me@example.com", "", false);
      var john := Person("john@example.com", "", false);
      var doe := Person("doe@example.com", "", false);
      var state := State([me, john, doe], map[], Nav(0, []), [Account("me@example.com")]);
      GetUsersSansMe(state) == [john, doe]
  {
    var me := Person("me@example.com", "", false);
    var john := Person("john@example.com", "", false);
    var doe := Person("doe@example.com", "", false);
    var state := State([me, john, doe], map[], Nav(0, []), [Account("me@example.com")]);
    assert john.email != me.email && doe.email != me.email;
    SansMeDropsOnlyMe(state, 0);
    assert state.users[1..] == [john, doe];
  }
}
