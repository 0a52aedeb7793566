/** The in-memory user repository of the user service: a list of users, seeded with three
    entries, that is appended to, searched, updated in place and shrunk. */
module Users {
  import opened Nullable
  import opened Lists

  /** A user record. Ids are Java `Long`s; they are only compared, never computed with. */
  datatype User = User(id: int, username: string, password: string)

  /** The filter `user.getId().equals(id)`. */
  function ById(id: int): User -> bool
  {
    (u: User) => u.id == id
  }

  /** The filter `user.getUsername().equals(username)`. */
  function ByName(username: string): User -> bool
  {
    (u: User) => u.username == username
  }

  /** The filter `ids.contains(user.getId())`. */
  function ByIds(ids: seq<int>): User -> bool
  {
    (u: User) => u.id in ids
  }

  /** No two users in the list share an id. The service does not enforce this; the lemmas
      below say which operations keep it. */
  ghost predicate DistinctIds(users: seq<User>)
  {
    forall i, j :: 0 <= i < j < |users| ==> users[i].id != users[j].id
  }

  // ---------------------------------------------------------------------------------------
  // Queries: stream filters over the list, which they leave unchanged.

  /** `getUser(id)`: the first user in list order with that id, or `null`. */
  function GetUser(users: seq<User>, id: int): (r: Option<User>)
    ensures r.None? <==> forall i :: 0 <= i < |users| ==> users[i].id != id
    ensures forall k :: IsFirst(users, k, ById(id)) ==> r == Some(users[k])
  {
    FilterEmpty(users, ById(id));
    FirstFound(users, ById(id));
    var found := Filter(users, ById(id));
    if |found| > 0 then Some(found[0]) else None
  }

  /** `getByUserName(username)`: the first user in list order with that username, or `null`. */
  function GetByUserName(users: seq<User>, username: string): (r: Option<User>)
    ensures r.None? <==> forall i :: 0 <= i < |users| ==> users[i].username != username
    ensures forall k :: IsFirst(users, k, ByName(username)) ==> r == Some(users[k])
  {
    FilterEmpty(users, ByName(username));
    FirstFound(users, ByName(username));
    var found := Filter(users, ByName(username));
    if |found| > 0 then Some(found[0]) else None
  }

  /** `getUserByIds(ids)`: every user whose id is listed, in the order of the user list (not
      the order of `ids`), each entry as often as it occurs in the list. */
  function GetUserByIds(users: seq<User>, ids: seq<int>): (r: seq<User>)
    ensures IsSubsequence(r, users)
    ensures forall u :: multiset(r)[u] == if u.id in ids then multiset(users)[u] else 0
    ensures forall u :: u in r <==> u in users && u.id in ids
  {
    Filter(users, ByIds(ids))
  }

  /** Every first match is the head of the filtered list. */
  lemma FirstFound(users: seq<User>, p: User -> bool)
    ensures forall k :: IsFirst(users, k, p) ==> Filter(users, p) != [] && Filter(users, p)[0] == users[k]
  {
    forall k | IsFirst(users, k, p) ensures Filter(users, p) != [] && Filter(users, p)[0] == users[k] {
      FilterFirst(users, p, k);
    }
  }

  // ---------------------------------------------------------------------------------------
  // What the mutating operations leave behind, as functions of the old list.

  /** The list `initData` builds. */
  function SeedUsers(): seq<User>
  {
    [User(1, "ly", "5211"), User(2, "zy", "5211"), User(3, "lyzzy", "5211")]
  }

  /** `item` after `setUsername(user.getUsername())` and `setPassword(user.getPassword())`. */
  function WithCredentials(item: User, user: User): User
  {
    item.(username := user.username, password := user.password)
  }

  /** The list after `update(user)`: every entry with `user`'s id takes its credentials. */
  function Updated(users: seq<User>, user: User): seq<User>
  {
    seq(|users|, i requires 0 <= i < |users| =>
      if users[i].id == user.id then WithCredentials(users[i], user) else users[i])
  }

  /** The list without its entry at position `k`, as `delete` leaves it. */
  function RemoveAt(users: seq<User>, k: nat): seq<User>
    requires k < |users|
  {
    users[..k] + users[k + 1..]
  }

  // ---------------------------------------------------------------------------------------
  // Properties of the operations.

  /** The seed users have distinct ids and each is found by id and by name. */
  lemma SeedLookups()
    ensures DistinctIds(SeedUsers())
    ensures GetUser(SeedUsers(), 1) == Some(User(1, "ly", "5211"))
    ensures GetUser(SeedUsers(), 2) == Some(User(2, "zy", "5211"))
    ensures GetUser(SeedUsers(), 3) == Some(User(3, "lyzzy", "5211"))
    ensures GetByUserName(SeedUsers(), "lyzzy") == Some(User(3, "lyzzy", "5211"))
    ensures GetUser(SeedUsers(), 4) == None
  {
    var s := SeedUsers();
    assert IsFirst(s, 0, ById(1));
    assert IsFirst(s, 1, ById(2));
    assert IsFirst(s, 2, ById(3));
    assert IsFirst(s, 2, ByName("lyzzy"));
  }

  /** After `create(user)` with a fresh id, `getUser` of that id returns `user`. */
  lemma CreateThenGetUser(users: seq<User>, user: User)
    requires forall i :: 0 <= i < |users| ==> users[i].id != user.id
    ensures GetUser(users + [user], user.id) == Some(user)
  {
    assert IsFirst(users + [user], |users|, ById(user.id));
  }

  /** `create(user)` does not change what `getUser` returns for an id already present, nor
      for any id other than `user`'s. */
  lemma CreateKeepsGetUser(users: seq<User>, user: User, id: int)
    requires id != user.id || exists i :: 0 <= i < |users| && users[i].id == id
    ensures GetUser(users + [user], id) == GetUser(users, id)
  {
    var k := FirstIndex(users, ById(id));
    if k < |users| {
      assert IsFirst(users + [user], k, ById(id));
    } else {
      assert forall i :: 0 <= i < |users + [user]| ==> (users + [user])[i].id != id;
    }
  }

  /** `create` keeps ids distinct exactly when the new id is not taken. */
  lemma CreateDistinctIds(users: seq<User>, user: User)
    ensures DistinctIds(users + [user]) <==>
            DistinctIds(users) && forall i :: 0 <= i < |users| ==> users[i].id != user.id
  {
    var s := users + [user];
    if DistinctIds(s) {
      forall i | 0 <= i < |users| ensures users[i].id != user.id {
        assert s[i] == users[i] && s[|users|] == user;
      }
      forall i, j | 0 <= i < j < |users| ensures users[i].id != users[j].id {
        assert s[i] == users[i] && s[j] == users[j];
      }
    }
    if DistinctIds(users) && forall i :: 0 <= i < |users| ==> users[i].id != user.id {
      forall i, j | 0 <= i < j < |s| ensures s[i].id != s[j].id {
        assert s[i] == users[i];
        if j < |users| { assert s[j] == users[j]; }
      }
    }
  }

  /** `update` changes only credentials of matching entries: ids, length and order stay. */
  lemma UpdateKeepsIds(users: seq<User>, user: User)
    ensures |Updated(users, user)| == |users|
    ensures forall i :: 0 <= i < |users| ==> Updated(users, user)[i].id == users[i].id
    ensures forall i :: 0 <= i < |users| && users[i].id != user.id ==> Updated(users, user)[i] == users[i]
    ensures DistinctIds(users) ==> DistinctIds(Updated(users, user))
  {
  }

  /** `update` of an id nobody has leaves the list as it was. */
  lemma UpdateAbsentIsNoOp(users: seq<User>, user: User)
    requires forall i :: 0 <= i < |users| ==> users[i].id != user.id
    ensures Updated(users, user) == users
  {
  }

  /** After `update(user)` of a present id, `getUser` of that id returns a user equal to
      `user`: same id, and now the same username and password. */
  lemma UpdateThenGetUser(users: seq<User>, user: User)
    requires exists i :: 0 <= i < |users| && users[i].id == user.id
    ensures GetUser(Updated(users, user), user.id) == Some(user)
  {
    var k := FirstIndex(users, ById(user.id));
    assert IsFirst(Updated(users, user), k, ById(user.id));
  }

  /** Applying the same `update` twice is the same as applying it once. */
  lemma UpdateIdempotent(users: seq<User>, user: User)
    ensures Updated(Updated(users, user), user) == Updated(users, user)
  {
  }

  /** `delete(id)` finds the first user with that id and removes the first entry equal to
      it: that is the entry at the first position holding the id. */
  lemma DeleteRemovesFirstMatch(users: seq<User>, id: int, k: int)
    requires IsFirst(users, k, ById(id))
    ensures RemoveFirst(users, users[k]) == RemoveAt(users, k)
  {
    forall j | 0 <= j < k ensures users[..k][j] != users[k] {
      assert !ById(id)(users[j]);
    }
    RemoveFirstAt(users, users[k], k);
  }

  /** After `delete(id)`, `getUser(id)` finds the next user with that id, if any. */
  lemma DeleteThenGetUser(users: seq<User>, id: int, k: int)
    requires IsFirst(users, k, ById(id))
    ensures GetUser(RemoveAt(users, k), id) == GetUser(users[k + 1..], id)
  {
    var rest := RemoveAt(users, k);
    var tail := users[k + 1..];
    var m := FirstIndex(tail, ById(id));
    if m < |tail| {
      assert IsFirst(rest, k + m, ById(id)) by {
        assert rest[k + m] == tail[m];
        forall j | 0 <= j < k + m ensures !ById(id)(rest[j]) {
          if j < k { assert rest[j] == users[j]; } else { assert rest[j] == tail[j - k]; }
        }
      }
    } else {
      forall j | 0 <= j < |rest| ensures rest[j].id != id {
        if j < k { assert rest[j] == users[j]; } else { assert rest[j] == tail[j - k]; }
      }
    }
  }

  /** With distinct ids, `delete(id)` leaves no user with that id behind, and ids stay distinct. */
  lemma DeleteUniqueId(users: seq<User>, id: int, k: int)
    requires DistinctIds(users)
    requires IsFirst(users, k, ById(id))
    ensures GetUser(RemoveAt(users, k), id) == None
    ensures DistinctIds(RemoveAt(users, k))
  {
    DeleteThenGetUser(users, id, k);
    var tail := users[k + 1..];
    forall i | 0 <= i < |tail| ensures tail[i].id != id {
      assert tail[i] == users[k + 1 + i];
    }
    var rest := RemoveAt(users, k);
    forall i, j | 0 <= i < j < |rest| ensures rest[i].id != rest[j].id {
      var i' := if i < k then i else i + 1;
      var j' := if j < k then j else j + 1;
      assert rest[i] == users[i'] && rest[j] == users[j'];
    }
  }

  // ---------------------------------------------------------------------------------------
  // The service object and its state-changing operations.

  /** `UserServiceImpl`: the service holding the mutable `userList`. */
  class UserServiceImpl {
    var userList: seq<User>

    /** `initData`: starts the list with the three seed users, appended one by one. */
    constructor ()
      ensures userList == SeedUsers()
    {
      userList := [];
      userList := userList + [User(1, "ly", "5211")];
      userList := userList + [User(2, "zy", "5211")];
      userList := userList + [User(3, "lyzzy", "5211")];
    }

    /** `create(user)`: appends `user`; every earlier entry stays where it was. */
    method Create(user: User)
      modifies this
      ensures userList == old(userList) + [user]
    {
      userList := userList + [user];
    }

    /** `update(user)`: walks the list and gives every entry with `user`'s id the username
        and password of `user`. */
    method Update(user: User)
      modifies this
      ensures userList == Updated(old(userList), user)
    {
      var i := 0;
      while i < |userList|
        invariant 0 <= i <= |userList| == |old(userList)|
        invariant forall j :: 0 <= j < i ==> userList[j] == Updated(old(userList), user)[j]
        invariant forall j :: i <= j < |userList| ==> userList[j] == old(userList)[j]
      {
        if userList[i].id == user.id {
          userList := userList[i := WithCredentials(userList[i], user)];
        }
        i := i + 1;
      }
    }

    /** `delete(id)`: looks the id up with `getUser` and, when found, removes that user; the
        result is the list without the first entry holding the id. */
    method Delete(id: int)
      modifies this
      ensures (forall i :: 0 <= i < |old(userList)| ==> old(userList)[i].id != id) ==>
                userList == old(userList)
      ensures forall k :: IsFirst(old(userList), k, ById(id)) ==> userList == RemoveAt(old(userList), k)
    {
      var user := GetUser(userList, id);
      if user.Some? {
        ghost var k := FirstIndex(userList, ById(id));
        DeleteRemovesFirstMatch(userList, id, k);
        userList := RemoveFirst(userList, user.value);
      }
    }
  }
}
