/** The in-memory user gateway that refuses duplicates: `create` looks for a
    stored user with the same name and fails with `DuplicateUser` if there
    is one; otherwise it appends the user. `list` returns the stored users.

    The gateway's mutable array is modelled as the value `seq<User>`; an
    operation returns the new contents instead of changing them in place.
 */
module DuplicateCheck {
  import opened Wrappers

  /** A user, identified by its name (its only field). */
  datatype User = User(name: string)

  /** The typed failure of `create`, carrying the offending name. */
  datatype DuplicateUser = DuplicateUser(name: string)

  /** Some stored user carries `name`. */
  predicate HasName(users: seq<User>, name: string)
  {
    exists i :: 0 <= i < |users| && users[i].name == name
  }

  /** The gateway's invariant: no two stored users share a name. */
  predicate NamesDistinct(users: seq<User>)
  {
    forall i, j :: 0 <= i < j < |users| ==> users[i].name != users[j].name
  }

  /** A freshly built gateway stores nobody. */
  function Empty(): (users: seq<User>)
    ensures |users| == 0
    ensures NamesDistinct(users)
  {
    []
  }

  /** The `list` operation: the stored users, in insertion order. */
  function List(users: seq<User>): (r: seq<User>)
    ensures |r| == |users|
    ensures forall i :: 0 <= i < |r| ==> r[i] == users[i]
  {
    users
  }

  /** The search `create` performs: the first stored user whose name equals
      `name`, if any. */
  function FindByName(users: seq<User>, name: string): (r: Option<User>)
    ensures r.Some? <==> HasName(users, name)
    ensures r.Some? ==> exists i :: 0 <= i < |users| && users[i] == r.value
                                    && (forall j :: 0 <= j < i ==> users[j].name != name)
    ensures r.Some? ==> r.value.name == name
    decreases |users|
  {
    if users == [] then None
    else if users[0].name == name then Some(users[0])
    else
      var rest := FindByName(users[1..], name);
      assert HasName(users, name) ==> HasName(users[1..], name) by {
        if HasName(users, name) {
          var i :| 0 <= i < |users| && users[i].name == name;
          assert i != 0;
          assert users[1..][i - 1] == users[i];
        }
      }
      assert rest.Some? ==> HasName(users, name) by {
        if rest.Some? {
          var i :| 0 <= i < |users[1..]| && users[1..][i].name == name;
          assert users[i + 1] == users[1..][i];
        }
      }
      assert rest.Some? ==> exists i :: 0 <= i < |users| && users[i] == rest.value
                                       && (forall j :: 0 <= j < i ==> users[j].name != name) by {
        if rest.Some? {
          var i :| 0 <= i < |users[1..]| && users[1..][i] == rest.value
                   && (forall j :: 0 <= j < i ==> users[1..][j].name != name);
          assert users[i + 1] == rest.value;
          forall j | 0 <= j < i + 1
            ensures users[j].name != name
          {
            if j > 0 {
              assert users[j] == users[1..][j - 1];
            }
          }
        }
      }
      rest
  }

  /** The `create` operation: fails with `DuplicateUser` naming the user when
      a user with the same name is stored, otherwise succeeds with the user
      appended after the previously stored ones. */
  function Create(users: seq<User>, user: User): (r: Result<seq<User>, DuplicateUser>)
    ensures r.Failure? <==> HasName(users, user.name)
    ensures r.Failure? ==> r.error == DuplicateUser(user.name)
    ensures r.Success? ==> (&& |r.value| == |users| + 1
                            && r.value[..|users|] == users
                            && r.value[|users|] == user)
  {
    match FindByName(users, user.name)
    case Some(_) => Failure(DuplicateUser(user.name))
    case None => Success(users + [user])
  }

  /** The stored users once a `create` has finished, successfully or not:
      a failed call leaves them as they were. */
  function StoredAfter(users: seq<User>, user: User): seq<User>
  {
    match Create(users, user)
    case Success(stored) => stored
    case Failure(_) => users
  }

  /** The stored users after a series of `create` calls, each one's failure
      observed and the next one attempted. */
  function CreateAll(users: seq<User>, attempts: seq<User>): seq<User>
    decreases |attempts|
  {
    if attempts == [] then users
    else CreateAll(StoredAfter(users, attempts[0]), attempts[1..])
  }

  /** One `create` keeps stored names pairwise distinct, keeps the earlier
      entries in place, and leaves the user's name stored. */
  lemma CreateKeepsInvariant(users: seq<User>, user: User)
    requires NamesDistinct(users)
    ensures NamesDistinct(StoredAfter(users, user))
    ensures |users| <= |StoredAfter(users, user)|
    ensures StoredAfter(users, user)[..|users|] == users
    ensures HasName(StoredAfter(users, user), user.name)
  {
    var r := Create(users, user);
    if r.Success? {
      var s := r.value;
      forall i, j | 0 <= i < j < |s|
        ensures s[i].name != s[j].name
      {
        if j == |users| {
          assert s[i] == users[i];
        } else {
          assert s[i] == users[i] && s[j] == users[j];
        }
      }
      assert s[|users|].name == user.name;
    } else {
      assert users[..|users|] == users;
    }
  }

  /** Whatever `create` calls are made, stored names stay pairwise
      distinct, earlier entries are never moved or dropped, and every name
      that was attempted ends up stored. */
  lemma {:induction false} CreateAllKeepsInvariant(users: seq<User>, attempts: seq<User>)
    requires NamesDistinct(users)
    ensures NamesDistinct(CreateAll(users, attempts))
    ensures |users| <= |CreateAll(users, attempts)|
    ensures CreateAll(users, attempts)[..|users|] == users
    ensures forall k :: 0 <= k < |attempts| ==> HasName(CreateAll(users, attempts), attempts[k].name)
    decreases |attempts|
  {
    if attempts != [] {
      var next := StoredAfter(users, attempts[0]);
      CreateKeepsInvariant(users, attempts[0]);
      CreateAllKeepsInvariant(next, attempts[1..]);
      var result := CreateAll(users, attempts);
      assert result == CreateAll(next, attempts[1..]);
      assert result[..|users|] == users by {
        assert result[..|next|][..|users|] == result[..|users|];
      }
      forall k | 0 <= k < |attempts|
        ensures HasName(result, attempts[k].name)
      {
        if k == 0 {
          var i :| 0 <= i < |next| && next[i].name == attempts[0].name;
          assert result[..|next|][i] == result[i];
        } else {
          assert attempts[k] == attempts[1..][k - 1];
        }
      }
    }
  }

  /** A refused `create` leaves the stored users exactly as they were; an
      accepted one adds the user after them. Only names are compared. */
  lemma CreateOutcome(users: seq<User>, user: User)
    ensures HasName(users, user.name) ==> StoredAfter(users, user) == users
    ensures !HasName(users, user.name) ==> StoredAfter(users, user) == users + [user]
  {
    if !HasName(users, user.name) {
      var s := StoredAfter(users, user);
      assert s == s[..|users|] + [s[|users|]];
    }
  }

  /** Creating a user on a fresh gateway and then listing gives exactly
      that user. */
  lemma CreateThenList(user: User)
    ensures Create(Empty(), user).Success?
    ensures List(StoredAfter(Empty(), user)) == [user]
  {
  }

  /** Creating the same user twice fails the second time with
      `DuplicateUser` carrying its name. */
  lemma CreateTwiceFails(user: User)
    ensures Create(StoredAfter(Empty(), user), user) == Failure(DuplicateUser(user.name))
  {
    var stored := StoredAfter(Empty(), user);
    assert stored[0].name == user.name;
  }
}
