/** storage/user/InMemoryUserStorage.java: users in a HashMap keyed by id,
    with friendships kept in each user's own `friends` map. */
module UserStorage {
  import opened Common
  import opened Model
  import opened UserUtil

  /** `ids.map(users::get)`: the stored user for each id, or null for an id
      that is not stored. */
  function StoredUsers(users: map<int, User>, ids: seq<int>): (r: seq<Option<User>>)
    ensures |r| == |ids|
    ensures forall i | 0 <= i < |r| :: r[i].Some? <==> ids[i] in users
    ensures forall i | 0 <= i < |r| :: r[i].Some? ==> r[i].value == users[ids[i]]
  {
    seq(|ids|, i requires 0 <= i < |ids| => Get(users, ids[i]))
  }

  /** In a store that keeps each user under its own id, every user looked
      up is a stored one carrying the id asked for, and every stored id asked
      for is found; an id asked for that is not stored gives a null. */
  lemma StoredUsersFound(users: map<int, User>, ids: seq<int>)
    requires forall k | k in users :: users[k].id == Some(k)
    ensures forall i | 0 <= i < |ids| :: StoredUsers(users, ids)[i].Some? ==>
      StoredUsers(users, ids)[i].value in users.Values && StoredUsers(users, ids)[i].value.id == Some(ids[i])
    ensures forall k | k in ids && k in users :: Some(users[k]) in StoredUsers(users, ids)
    ensures forall k | k in ids && k !in users :: None in StoredUsers(users, ids)
  {
    var r := StoredUsers(users, ids);
    forall i | 0 <= i < |ids| && r[i].Some? ensures r[i].value in users.Values && r[i].value.id == Some(ids[i]) {
      var k := ids[i];
      assert r[i].value == users[k] && users[k].id == Some(k);
    }
    forall k | k in ids && k in users ensures Some(users[k]) in r {
      var i :| 0 <= i < |ids| && ids[i] == k;
      assert r[i] == Some(users[k]);
    }
    forall k | k in ids && k !in users ensures None in r {
      var i :| 0 <= i < |ids| && ids[i] == k;
      assert r[i] == None;
    }
  }

  class InMemoryUserStorage {
    var users: map<int, User>

    /** Every user is stored under its own id. */
    predicate Valid()
      reads this, users.Values
    {
      forall k | k in users :: users[k].id == Some(k)
    }

    constructor ()
      ensures users == map[]
      ensures Valid()
    {
      users := map[];
    }

    /** `getNextId`: one more than the largest id, 1 when empty. */
    function NextUserId(): (r: int)
      reads this
      ensures r !in users
      ensures forall k | k in users :: k < r
      ensures users == map[] ==> r == 1
    {
      NextId(users.Keys)
    }

    /** `create`: the user gets the next id, is stored under it and is
        returned; its other fields are kept. */
    method Create(user: User) returns (r: User)
      requires Valid()
      requires user !in users.Values
      modifies this, user`id
      ensures Valid()
      ensures r == user
      ensures user.id == Some(old(NextUserId()))
      ensures users == old(users)[user.id.value := user]
    {
      user.id := Some(NextUserId());
      users := users[user.id.value := user];
      r := user;
    }

    /** `findById`: the user stored under `id`; a null id finds nothing. */
    function FindById(id: Option<int>): (r: Option<User>)
      requires Valid()
      reads this, users.Values
      ensures r.Some? <==> id.Some? && id.value in users
      ensures r.Some? ==> r.value == users[id.value] && r.value.id == id
    {
      if id.Some? then Get(users, id.value) else None
    }

    /** `findAll`: every stored user exactly once. */
    function FindAll(): (r: seq<User>)
      reads this
      ensures |r| == |users|
      ensures forall i | 0 <= i < |r| :: r[i] in users.Values
      ensures forall k | k in users :: users[k] in r
    {
      ValuesInOrderCovers(users);
      ValuesInOrder(users)
    }

    /** `update`: an unknown (or null) id changes nothing; for a known one
        the stored user takes the request's non-null fields in place and
        stays under its key. */
    method Update(newUser: User) returns (r: Option<User>)
      requires Valid()
      modifies this`users,
               (if newUser.id.Some? && newUser.id.value in users then {users[newUser.id.value]} else {})`email,
               (if newUser.id.Some? && newUser.id.value in users then {users[newUser.id.value]} else {})`login,
               (if newUser.id.Some? && newUser.id.value in users then {users[newUser.id.value]} else {})`name,
               (if newUser.id.Some? && newUser.id.value in users then {users[newUser.id.value]} else {})`birthday
      ensures Valid()
      ensures users == old(users)
      ensures !(newUser.id.Some? && newUser.id.value in users) ==> r.None?
      ensures newUser.id.Some? && newUser.id.value in users ==>
        && r == Some(users[newUser.id.value])
        && r.value.Data() == MergedUser(old(users[newUser.id.value].Data()), old(newUser.Data()))
    {
      if !(newUser.id.Some? && newUser.id.value in users) {
        return None;
      }
      var key := newUser.id.value;
      var stored := users[key];
      assert stored.id == Some(key);
      var updatedUser := UserFieldsUpdate(stored, newUser);
      users := users[updatedUser.id.value := updatedUser];
      r := Some(users[newUser.id.value]);
    }

    /** `removeById`: the user that was stored under `id`, which is gone
        afterwards; nothing else changes. A null id removes nothing. */
    method RemoveById(id: Option<int>) returns (r: Option<User>)
      requires Valid()
      modifies this
      ensures Valid()
      ensures r == (if id.Some? then Get(old(users), id.value) else None)
      ensures users == (if id.Some? then old(users) - {id.value} else old(users))
    {
      if id.None? {
        return None;
      }
      r := Get(users, id.value);
      users := users - {id.value};
    }

    /** `addFriend`: an UNCONFIRMED request writes only the edge from `user`
        to `friend`; a CONFIRMED one writes both edges as CONFIRMED. */
    method AddFriend(user: User, friend: User, status: FriendStatus) returns (r: User)
      requires friend.id.Some?
      requires status == Confirmed ==> user.id.Some?
      modifies user`friends, friend`friends
      ensures r == user
      ensures status == Unconfirmed ==>
        && user.friends == old(user.friends)[friend.id.value := Unconfirmed]
        && (friend != user ==> friend.friends == old(friend.friends))
      ensures status == Confirmed && friend != user ==>
        && user.friends == old(user.friends)[friend.id.value := Confirmed]
        && friend.friends == old(friend.friends)[user.id.value := Confirmed]
      ensures status == Confirmed && friend == user ==>
        user.friends == old(user.friends)[user.id.value := Confirmed]
    {
      user.friends := user.friends[friend.id.value := status];
      if status == Confirmed {
        friend.friends := friend.friends[user.id.value := Confirmed];
      }
      r := user;
    }

    /** `removeFriend`: only the edge from `user` to `friend` goes; the
        friend's own map is untouched. */
    method RemoveFriend(user: User, friend: User) returns (r: User)
      modifies user`friends
      ensures r == user
      ensures user.friends == (if friend.id.Some? then old(user.friends) - {friend.id.value} else old(user.friends))
    {
      if friend.id.Some? {
        user.friends := user.friends - {friend.id.value};
      }
      r := user;
    }

    /** `findFriends`: one entry per key of the user's friend map, holding
        that stored user, or null when the id is no longer stored. */
    function FindFriends(user: User): (r: seq<Option<User>>)
      requires Valid()
      reads this, users.Values, user
      ensures |r| == |user.friends|
      ensures forall i | 0 <= i < |r| :: r[i].Some? ==>
        r[i].value in users.Values && r[i].value.id.Some? && r[i].value.id.value in user.friends
      ensures forall k | k in user.friends && k in users :: Some(users[k]) in r
      ensures forall k | k in user.friends && k !in users :: None in r
      ensures forall i | 0 <= i < |r| :: var k := SortedKeys(user.friends.Keys)[i];
        && (r[i].Some? <==> k in users)
        && (r[i].Some? ==> r[i].value == users[k])
    {
      var ks := SortedKeys(user.friends.Keys);
      assert forall i | 0 <= i < |ks| :: ks[i] in user.friends;
      StoredUsersFound(users, ks);
      StoredUsers(users, ks)
    }

    /** `findCommonFriends`: one entry per id in both users' friend maps,
        holding that stored user, or null when the id is not stored. */
    function FindCommonFriends(user: User, otherUser: User): (r: seq<Option<User>>)
      requires Valid()
      reads this, users.Values, user, otherUser
      ensures |r| == |user.friends.Keys * otherUser.friends.Keys|
      ensures forall i | 0 <= i < |r| :: r[i].Some? ==>
        && r[i].value in users.Values && r[i].value.id.Some?
        && r[i].value.id.value in user.friends && r[i].value.id.value in otherUser.friends
      ensures forall k | k in user.friends && k in otherUser.friends && k in users :: Some(users[k]) in r
      ensures forall k | k in user.friends && k in otherUser.friends && k !in users :: None in r
      ensures forall i | 0 <= i < |r| :: var k := SortedKeys(user.friends.Keys * otherUser.friends.Keys)[i];
        && (r[i].Some? <==> k in users)
        && (r[i].Some? ==> r[i].value == users[k])
    {
      var common := user.friends.Keys * otherUser.friends.Keys;
      var ks := SortedKeys(common);
      assert forall i | 0 <= i < |ks| :: ks[i] in common;
      StoredUsersFound(users, ks);
      StoredUsers(users, ks)
    }
  }
}
