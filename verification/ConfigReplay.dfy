/**
 * Replay of a configuration block. Its updates are the difference between the committed configuration and the new
 * one, so replaying it after the configuration database was written finds no difference left.
 */
module ConfigReplay {
  import opened Basics

  /** Administrators by identifier, with their certificates. */
  type Admins = map<string, Bytes>

  datatype User = User(certificate: Bytes, admin: bool)

  type Users = map<string, User>

  /** The administrators in the configuration database, and the users in the users database. */
  datatype State = State(config: Admins, users: Users)

  datatype Changes = Changes(writes: Admins, deletes: set<string>)

  ghost function Difference(oldAdmins: Admins, newAdmins: Admins): Changes {
    Changes(map id | id in newAdmins && !(id in oldAdmins && oldAdmins[id] == newAdmins[id]) :: newAdmins[id],
            oldAdmins.Keys - newAdmins.Keys)
  }

  ghost function Changed(users: Users, c: Changes): Users {
    (users + map id | id in c.writes :: User(c.writes[id], true)) - c.deletes
  }

  method ConstructDBEntriesForClusterAdmins(oldAdmins: Admins, newAdmins: Admins) returns (r: Changes)
    ensures r == Difference(oldAdmins, newAdmins)
  {
    var newAdms, deletes := newAdmins, {};
    var todo := oldAdmins.Keys;
    while todo != {}
      invariant todo <= oldAdmins.Keys
      invariant forall id :: id in newAdms <==>
        id in newAdmins && !(id in oldAdmins && id !in todo && oldAdmins[id] == newAdmins[id])
      invariant forall id :: id in newAdms ==> newAdms[id] == newAdmins[id]
      invariant forall id :: id in deletes <==> id in oldAdmins && id !in todo && id !in newAdmins
      decreases |todo|
    {
      var id :| id in todo;
      todo := todo - {id};
      if id in newAdms {
        if oldAdmins[id] == newAdms[id] {
          newAdms := newAdms - {id};
        }
      } else {
        deletes := deletes + {id};
      }
    }
    r := Changes(newAdms, deletes);
    assert newAdms == Difference(oldAdmins, newAdmins).writes;
  }

  /** A commit that stops after some of the two databases; the changes are computed before any is written. */
  ghost function Commit(s: State, newAdmins: Admins, configWritten: bool, usersWritten: bool): State {
    State(if configWritten then newAdmins else s.config,
          if usersWritten then Changed(s.users, Difference(s.config, newAdmins)) else s.users)
  }

  /** The users marked as administrators are those of the configuration. */
  ghost predicate InStep(s: State) {
    && (forall id :: id in s.config ==> id in s.users && s.users[id] == User(s.config[id], true))
    && (forall id :: id in s.users && s.users[id].admin ==> id in s.config)
  }

  lemma CommitKeepsInStep(s: State, newAdmins: Admins)
    requires InStep(s)
    ensures InStep(Commit(s, newAdmins, true, true))
  {
  }

  lemma SameUsersSameAdmins(s: State, newAdmins: Admins)
    requires InStep(s) && Commit(s, newAdmins, true, true).users == s.users
    ensures s.config == newAdmins
  {
    var done := Commit(s, newAdmins, true, true);
    forall id ensures id in newAdmins ==> id in s.config && s.config[id] == newAdmins[id] {
      assert id in newAdmins ==> id in done.users && done.users[id] == User(newAdmins[id], true);
    }
    forall id ensures id in s.config ==> id in newAdmins {
      assert id in s.config && id !in newAdmins ==> id !in done.users;
    }
  }

  /**
   * Replaying a configuration block after a crash gives what an uninterrupted commit gives exactly when the crash did
   * not fall between the two databases, or the administrators do not change.
   */
  lemma ReplayExact(s: State, newAdmins: Admins, configWritten: bool, usersWritten: bool)
    requires InStep(s)
    ensures
      var crashed := Commit(s, newAdmins, configWritten, usersWritten);
      Commit(crashed, newAdmins, true, true) == Commit(s, newAdmins, true, true) <==>
      !configWritten || usersWritten || s.config == newAdmins
  {
    NoDifference(newAdmins, s.users);
    NoDifference(newAdmins, Commit(s, newAdmins, true, true).users);
    TwiceIsOnce(s.users, Difference(s.config, newAdmins));
    if Commit(s, newAdmins, true, true).users == s.users {
      SameUsersSameAdmins(s, newAdmins);
    }
    if s.config == newAdmins {
      NoDifference(newAdmins, s.users);
    }
  }

  lemma NoDifference(admins: Admins, users: Users)
    ensures Changed(users, Difference(admins, admins)) == users
  {
    assert Difference(admins, admins).writes == map[];
  }

  lemma TwiceIsOnce(users: Users, c: Changes)
    ensures Changed(Changed(users, c), c) == Changed(users, c)
  {
  }

  /** An administrator added by a block that was interrupted between the two databases never becomes a user. */
  lemma AdminLost()
    ensures
      var s := State(map["a" := [0]], map["a" := User([0], true)]);
      var newAdmins := map["a" := [0], "b" := [1]];
      var recovered := Commit(Commit(s, newAdmins, true, false), newAdmins, true, true);
      InStep(s) && "b" in recovered.config && "b" !in recovered.users
  {
  }
}
