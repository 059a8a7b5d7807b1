/** service/UserService.java, the older user service: email uniqueness, the
    login as default name, id allocation and a two-way friend set, on top of
    a user storage. The storage interface it calls (`containsEmail`, Optional
    results, friends as a set of ids) matches no store in the repository, so
    the storage is stood in for by the service's own `users` map, with
    lookup, insertion under the user's id, removal, and the null-preserving
    field update that every user store of the repository performs. */
module LegacyUserServices {
  import opened Common
  import opened Model
  import opened UserUtil
  import opened LegacyUserStorage

  /** The value held by a user of this service at one moment. */
  datatype LegacyUserData = LegacyUserData(
    id: Option<int>,
    email: Option<string>,
    login: Option<string>,
    name: Option<string>,
    birthday: Option<Date>,
    friends: set<int>)

  /** The user this service was written for: friends are a set of ids. */
  class LegacyUser {
    var id: Option<int>
    var email: Option<string>
    var login: Option<string>
    var name: Option<string>
    var birthday: Option<Date>
    var friends: set<int>

    constructor (email: Option<string>, login: Option<string>, name: Option<string>, birthday: Option<Date>)
      ensures Data() == LegacyUserData(None, email, login, name, birthday, {})
    {
      this.id := None;
      this.email := email;
      this.login := login;
      this.name := name;
      this.birthday := birthday;
      this.friends := {};
    }

    function Data(): LegacyUserData
      reads this
    {
      LegacyUserData(id, email, login, name, birthday, friends)
    }
  }

  /** The user the stand-in `update` leaves behind: email, login, name and
      birthday taken from the request where it has them; id and friends kept. */
  function MergedLegacyUser(cur: LegacyUserData, upd: LegacyUserData): (r: LegacyUserData)
    ensures r.id == cur.id && r.friends == cur.friends
  {
    cur.(email := Prefer(upd.email, cur.email), login := Prefer(upd.login, cur.login),
         name := Prefer(upd.name, cur.name), birthday := Prefer(upd.birthday, cur.birthday))
  }

  /** A legacy user seen as a current one, with the given friend map. */
  function AsUserData(d: LegacyUserData, friends: map<int, FriendStatus>): UserData {
    UserData(d.id, d.email, d.login, d.name, d.birthday, friends)
  }

  /** The stand-in update merges fields exactly as `UserUtil.userFieldsUpdate`. */
  lemma MergedLegacyUserIsMergedUser(cur: LegacyUserData, upd: LegacyUserData, friends: map<int, FriendStatus>)
    ensures AsUserData(MergedLegacyUser(cur, upd), friends) == MergedUser(AsUserData(cur, friends), AsUserData(upd, map[]))
  {
  }

  /** Updating a stored user with itself changes nothing: the stand-in
      `userStorage.update(user)` calls of `addFriend` and `removeFriend`
      leave the user as the friend-set edits made it. */
  lemma MergedLegacyUserSelf(d: LegacyUserData)
    ensures MergedLegacyUser(d, d) == d
  {
  }

  /** The friend edges after `addFriend(a, b)`: b joins a's set, a joins b's. */
  function Befriend(g: map<int, set<int>>, a: int, b: int): (r: map<int, set<int>>)
    requires a in g && b in g
  {
    g[a := g[a] + {b}][b := g[b] + {a}]
  }

  /** The friend edges after `removeFriend(a, b)`: b leaves a's set, a leaves b's. */
  function Unfriend(g: map<int, set<int>>, a: int, b: int): (r: map<int, set<int>>)
    requires a in g && b in g
  {
    g[a := g[a] - {b}][b := g[b] - {a}]
  }

  /** Every friendship between two stored users is recorded on both sides. */
  predicate Symmetric(g: map<int, set<int>>) {
    forall a, b | a in g && b in g && b in g[a] :: a in g[b]
  }

  /** After `addFriend(a, b)` each is in the other's set, and nobody else's
      set has changed. */
  lemma BefriendLinks(g: map<int, set<int>>, a: int, b: int)
    requires a in g && b in g
    ensures Befriend(g, a, b).Keys == g.Keys
    ensures b in Befriend(g, a, b)[a] && a in Befriend(g, a, b)[b]
    ensures a != b ==> Befriend(g, a, b)[a] == g[a] + {b} && Befriend(g, a, b)[b] == g[b] + {a}
    ensures forall k | k in g && k != a && k != b :: Befriend(g, a, b)[k] == g[k]
  {
  }

  /** After `removeFriend(a, b)` neither is in the other's set, and nobody
      else's set has changed. */
  lemma UnfriendUnlinks(g: map<int, set<int>>, a: int, b: int)
    requires a in g && b in g
    ensures Unfriend(g, a, b).Keys == g.Keys
    ensures b !in Unfriend(g, a, b)[a] && a !in Unfriend(g, a, b)[b]
    ensures a != b ==> Unfriend(g, a, b)[a] == g[a] - {b} && Unfriend(g, a, b)[b] == g[b] - {a}
    ensures forall k | k in g && k != a && k != b :: Unfriend(g, a, b)[k] == g[k]
  {
  }

  /** `addFriend` keeps friendships two-way. */
  lemma BefriendKeepsSymmetric(g: map<int, set<int>>, a: int, b: int)
    requires a in g && b in g
    requires Symmetric(g)
    ensures Symmetric(Befriend(g, a, b))
  {
    var r := Befriend(g, a, b);
    forall x, y | x in r && y in r && y in r[x] ensures x in r[y] {
      if x != a && x != b && y != a && y != b {
        assert r[x] == g[x] && r[y] == g[y];
      }
    }
  }

  /** `removeFriend` keeps friendships two-way. */
  lemma UnfriendKeepsSymmetric(g: map<int, set<int>>, a: int, b: int)
    requires a in g && b in g
    requires Symmetric(g)
    ensures Symmetric(Unfriend(g, a, b))
  {
    var r := Unfriend(g, a, b);
    forall x, y | x in r && y in r && y in r[x] ensures x in r[y] {
      assert y in g[x];
      assert x in g[y];
    }
  }

  /** Befriending two users who were not friends and then unfriending them
      restores every friend set. */
  lemma UnfriendUndoesBefriend(g: map<int, set<int>>, a: int, b: int)
    requires a in g && b in g
    requires b !in g[a] && a !in g[b]
    ensures Unfriend(Befriend(g, a, b), a, b) == g
  {
    var r := Unfriend(Befriend(g, a, b), a, b);
    forall k | k in g ensures r[k] == g[k] {
      if k == a || k == b {
        assert r[k] == g[k];
      }
    }
  }

  /** Each user's friend set, by id. */
  function FriendsOf(users: map<int, LegacyUser>): (r: map<int, set<int>>)
    reads users.Values
    ensures r.Keys == users.Keys
    ensures forall k | k in r :: r[k] == users[k].friends
  {
    map k | k in users :: users[k].friends
  }

  /** In a store keyed by id, each user looked up is a stored one carrying
      the id asked for, and each id asked for yields its user. */
  lemma UsersAtFound(users: map<int, LegacyUser>, ids: seq<int>)
    requires forall i | 0 <= i < |ids| :: ids[i] in users
    requires forall k | k in users :: users[k].id == Some(k)
    ensures forall i | 0 <= i < |ids| :: ValuesAt(users, ids)[i] in users.Values && ValuesAt(users, ids)[i].id == Some(ids[i])
    ensures forall k | k in ids :: users[k] in ValuesAt(users, ids)
  {
    var r := ValuesAt(users, ids);
    forall i | 0 <= i < |ids| ensures r[i] in users.Values && r[i].id == Some(ids[i]) {
      var k := ids[i];
      assert r[i] == users[k] && users[k].id == Some(k);
    }
    forall k | k in ids ensures users[k] in r {
      var i :| 0 <= i < |ids| && ids[i] == k;
      assert r[i] == users[k];
    }
  }

  class UserService {
    /** The content of the injected user storage. */
    var users: map<int, LegacyUser>

    /** Every user is stored under its own id. */
    predicate Valid()
      reads this, users.Values
    {
      forall k | k in users :: users[k].id == Some(k)
    }

    constructor ()
      ensures users == map[]
      ensures Valid()
    {
      users := map[];
    }

    /** The stand-in `userStorage.containsEmail`: the user's email is
        non-null and some stored user has it. */
    function ContainsEmail(user: LegacyUser): (r: bool)
      reads this, users.Values, user
      ensures r <==> user.email.Some? && exists k | k in users :: users[k].email == user.email
    {
      user.email.Some? && exists k | k in users :: users[k].email == user.email
    }

    /** `getNextId`: the largest id in `findAll` plus one, 1 when empty; the
        ids of the stored users are the keys. */
    function NextUserId(): (r: int)
      requires Valid()
      reads this, users.Values
      ensures r !in users
      ensures forall u | u in users.Values :: u.id.Some? && u.id.value < r
      ensures users == map[] ==> r == 1
    {
      assert forall u | u in users.Values :: u.id.Some? && u.id.value in users by {
        forall u | u in users.Values ensures u.id.Some? && u.id.value in users {
          if forall k | k in users :: users[k] != u { assert false; }
          var k :| k in users && users[k] == u;
        }
      }
      NextId(users.Keys)
    }

    /** `getUser`: the stored user under the id; the storage finds nothing
        for an unknown or null id, which is NotFound. */
    function GetUser(id: Option<int>): (r: Result<LegacyUser>)
      requires Valid()
      reads this, users.Values
      ensures r.Ok? <==> id.Some? && id.value in users
      ensures r.Ok? ==> r.value == users[id.value] && r.value.id == id
      ensures r.Err? ==> r.error == NotFound
    {
      if !(id.Some? && id.value in users) then Err(NotFound)
      else
        var k := id.value;
        assert users[k].id == Some(k);
        Ok(users[k])
    }

    /** `findById`: a null id is a ConditionsNotMet error, an unknown one
        NotFound. */
    function FindById(id: Option<int>): (r: Result<LegacyUser>)
      requires Valid()
      reads this, users.Values
      ensures id.None? ==> r == Err(ConditionsNotMet)
      ensures id.Some? ==> r == GetUser(id)
    {
      if id.None? then Err(ConditionsNotMet) else GetUser(id)
    }

    /** `create`: an email in use throws DuplicatedData and changes nothing;
        otherwise a null or blank name becomes the login, the user gets the
        next id and the storage keeps it under that id. */
    method Create(user: LegacyUser) returns (r: Result<LegacyUser>)
      requires Valid()
      requires user !in users.Values
      modifies this, user`name, user`id
      ensures Valid()
      ensures old(ContainsEmail(user)) ==>
        r == Err(DuplicatedData) && users == old(users) && user.Data() == old(user.Data())
      ensures !old(ContainsEmail(user)) ==>
        && r == Ok(user)
        && user.Data() == old(user.Data()).(id := Some(old(NextUserId())), name := DefaultName(old(user.name), old(user.login)))
        && users == old(users)[user.id.value := user]
    {
      if ContainsEmail(user) {
        return Err(DuplicatedData);
      }
      user.name := DefaultName(user.name, user.login);
      user.id := Some(NextUserId());
      users := users[user.id.value := user];
      r := Ok(user);
    }

    /** The stored user an update request addresses, if any. */
    function Target(newUser: LegacyUser): set<LegacyUser>
      reads this, newUser
    {
      if newUser.id.Some? && newUser.id.value in users then {users[newUser.id.value]} else {}
    }

    /** The duplicate test of `update`: a non-null email that differs from
        the stored user's and that some stored user has. */
    predicate EmailClash(newUser: LegacyUser)
      requires newUser.id.Some? && newUser.id.value in users
      reads this, users.Values, newUser
    {
      newUser.email.Some? && newUser.email != users[newUser.id.value].email && ContainsEmail(newUser)
    }

    /** `update`: a null id is a ConditionsNotMet error and an unknown one
        NotFound; a new email that is already in use throws DuplicatedData,
        while keeping one's own email is no clash. Otherwise the storage
        copies the request's non-null fields onto the stored user. */
    method Update(newUser: LegacyUser) returns (r: Result<LegacyUser>)
      requires Valid()
      modifies Target(newUser)`email, Target(newUser)`login, Target(newUser)`name, Target(newUser)`birthday
      ensures Valid()
      ensures newUser.id.None? ==> r == Err(ConditionsNotMet)
      ensures newUser.id.Some? && newUser.id.value !in users ==> r == Err(NotFound)
      ensures newUser.id.Some? && newUser.id.value in users && old(EmailClash(newUser)) ==>
        r == Err(DuplicatedData) && users[newUser.id.value].Data() == old(users[newUser.id.value].Data())
      ensures newUser.id.Some? && newUser.id.value in users && !old(EmailClash(newUser)) ==>
        && r == Ok(users[newUser.id.value])
        && r.value.Data() == MergedLegacyUser(old(users[newUser.id.value].Data()), old(newUser.Data()))
    {
      if newUser.id.None? {
        return Err(ConditionsNotMet);
      }
      var found := GetUser(newUser.id);
      if found.Err? {
        return Err(found.error);
      }
      var oldUser := found.value;
      if newUser.email.Some? && newUser.email != oldUser.email && ContainsEmail(newUser) {
        return Err(DuplicatedData);
      }
      if newUser.email.Some? {
        oldUser.email := newUser.email;
      }
      if newUser.login.Some? {
        oldUser.login := newUser.login;
      }
      if newUser.name.Some? {
        oldUser.name := newUser.name;
      }
      if newUser.birthday.Some? {
        oldUser.birthday := newUser.birthday;
      }
      r := Ok(oldUser);
    }

    /** `removeById`: a null id is a ConditionsNotMet error, an unknown one
        NotFound; otherwise the storage drops the user and returns it. */
    method RemoveById(id: Option<int>) returns (r: Result<LegacyUser>)
      requires Valid()
      modifies this
      ensures Valid()
      ensures id.None? ==> r == Err(ConditionsNotMet) && users == old(users)
      ensures id.Some? && id.value !in old(users) ==> r == Err(NotFound) && users == old(users)
      ensures id.Some? && id.value in old(users) ==>
        r == Ok(old(users)[id.value]) && users == old(users) - {id.value}
    {
      if id.None? {
        return Err(ConditionsNotMet);
      }
      if id.value !in users {
        return Err(NotFound);
      }
      r := Ok(users[id.value]);
      users := users - {id.value};
    }

    /** The stored users a friendship call addresses. */
    function Pair(id: Option<int>, friendId: Option<int>): set<LegacyUser>
      reads this
    {
      (if id.Some? && id.value in users then {users[id.value]} else {}) +
      (if friendId.Some? && friendId.value in users then {users[friendId.value]} else {})
    }

    /** `addFriend`: both users must be stored (NotFound otherwise, and nothing
        changes); then each joins the other's friend set. */
    method AddFriend(id: Option<int>, friendId: Option<int>) returns (r: Result<LegacyUser>)
      requires Valid()
      modifies Pair(id, friendId)`friends
      ensures Valid()
      ensures !(id.Some? && id.value in users && friendId.Some? && friendId.value in users) ==>
        r == Err(NotFound) && FriendsOf(users) == old(FriendsOf(users))
      ensures id.Some? && id.value in users && friendId.Some? && friendId.value in users ==>
        && r == Ok(users[id.value])
        && FriendsOf(users) == Befriend(old(FriendsOf(users)), id.value, friendId.value)
    {
      var u := GetUser(id);
      if u.Err? {
        return Err(u.error);
      }
      var f := GetUser(friendId);
      if f.Err? {
        return Err(f.error);
      }
      var user := u.value;
      var friend := f.value;
      ghost var g := FriendsOf(users);
      user.friends := user.friends + {friendId.value};
      friend.friends := friend.friends + {id.value};
      FriendsAfterEdit(g, id.value, friendId.value, g[id.value] + {friendId.value}, g[friendId.value] + {id.value});
      r := Ok(user);
    }

    /** `removeFriend`: both users must be stored (NotFound otherwise, and
        nothing changes); then each leaves the other's friend set. */
    method RemoveFriend(id: Option<int>, friendId: Option<int>) returns (r: Result<LegacyUser>)
      requires Valid()
      modifies Pair(id, friendId)`friends
      ensures Valid()
      ensures !(id.Some? && id.value in users && friendId.Some? && friendId.value in users) ==>
        r == Err(NotFound) && FriendsOf(users) == old(FriendsOf(users))
      ensures id.Some? && id.value in users && friendId.Some? && friendId.value in users ==>
        && r == Ok(users[id.value])
        && FriendsOf(users) == Unfriend(old(FriendsOf(users)), id.value, friendId.value)
    {
      var u := GetUser(id);
      if u.Err? {
        return Err(u.error);
      }
      var f := GetUser(friendId);
      if f.Err? {
        return Err(f.error);
      }
      var user := u.value;
      var friend := f.value;
      ghost var g := FriendsOf(users);
      user.friends := user.friends - {friendId.value};
      friend.friends := friend.friends - {id.value};
      FriendsAfterEdit(g, id.value, friendId.value, g[id.value] - {friendId.value}, g[friendId.value] - {id.value});
      r := Ok(user);
    }

    /** After the friend sets of the users under `a` and `b` were set (b's
        last), the friend map is the old one with those two entries replaced. */
    lemma FriendsAfterEdit(g: map<int, set<int>>, a: int, b: int, sa: set<int>, sb: set<int>)
      requires Valid()
      requires a in users && b in users && g.Keys == users.Keys
      requires users[b].friends == sb
      requires a != b ==> users[a].friends == sa
      requires forall k | k in users && k != a && k != b :: users[k].friends == g[k]
      ensures FriendsOf(users) == g[a := sa][b := sb]
    {
      var f := FriendsOf(users);
      var e := g[a := sa][b := sb];
      assert f.Keys == e.Keys;
      forall k | k in f ensures f[k] == e[k] {
        if k != a && k != b {
          assert f[k] == users[k].friends == g[k];
        }
      }
    }

    /** `findFriends`: the user must be stored, and so must every id in its
        friend set (the first unknown one throws NotFound); the result holds
        the stored user for each friend id. */
    function FindFriends(id: Option<int>): (r: Result<seq<LegacyUser>>)
      requires Valid()
      reads this, users.Values
      ensures r.Ok? <==> id.Some? && id.value in users && users[id.value].friends <= users.Keys
      ensures r.Err? ==> r.error == NotFound
      ensures r.Ok? ==> |r.value| == |users[id.value].friends|
      ensures r.Ok? ==> forall i | 0 <= i < |r.value| ::
        r.value[i] in users.Values && r.value[i].id.Some? && r.value[i].id.value in users[id.value].friends
      ensures r.Ok? ==> forall k | k in users[id.value].friends :: users[k] in r.value
    {
      match GetUser(id) {
        case Err(e) => Err(e)
        case Ok(user) =>
          if !(user.friends <= users.Keys) then Err(NotFound)
          else
            var ks := SortedKeys(user.friends);
            assert forall i | 0 <= i < |ks| :: ks[i] in user.friends;
            UsersAtFound(users, ks);
            Ok(ValuesAt(users, ks))
      }
    }

    /** `findCommonFriends`: both users must be stored, and so must every id
        in both friend sets; the result holds the stored user for each id
        the two sets share. */
    function FindCommonFriends(id: Option<int>, otherId: Option<int>): (r: Result<seq<LegacyUser>>)
      requires Valid()
      reads this, users.Values
      ensures r.Ok? <==>
        && id.Some? && id.value in users && otherId.Some? && otherId.value in users
        && users[id.value].friends * users[otherId.value].friends <= users.Keys
      ensures r.Err? ==> r.error == NotFound
      ensures r.Ok? ==> |r.value| == |users[id.value].friends * users[otherId.value].friends|
      ensures r.Ok? ==> forall i | 0 <= i < |r.value| ::
        && r.value[i] in users.Values && r.value[i].id.Some?
        && r.value[i].id.value in users[id.value].friends
        && r.value[i].id.value in users[otherId.value].friends
      ensures r.Ok? ==> forall k | k in users[id.value].friends && k in users[otherId.value].friends :: users[k] in r.value
    {
      match GetUser(id) {
        case Err(e) => Err(e)
        case Ok(user) =>
          match GetUser(otherId) {
            case Err(e) => Err(e)
            case Ok(other) =>
              var common := user.friends * other.friends;
              if !(common <= users.Keys) then Err(NotFound)
              else
                var ks := SortedKeys(common);
                assert forall i | 0 <= i < |ks| :: ks[i] in common;
                UsersAtFound(users, ks);
                Ok(ValuesAt(users, ks))
          }
      }
    }
  }
}
