/** storage/InMemoryUserStorage.java, the older user store: users in a
    HashMap keyed by id, an email that may belong to one user only, lookups
    that throw instead of returning an empty Optional, and an update that
    takes the user out of the map while it checks the new email. */
module LegacyUserStorage {
  import opened Common
  import opened Model
  import opened UserUtil

  /** The name a new user is stored with: the login when the given name is
      null or blank, the given name otherwise. */
  function DefaultName(name: Option<string>, login: Option<string>): (r: Option<string>)
    ensures HasText(name) ==> r == name
    ensures !HasText(name) ==> r == login
  {
    if name.None? || IsBlank(name.value) then login else name
  }

  /** Some stored user has this email. */
  predicate HoldsEmail(users: map<int, User>, email: string)
    reads users.Values
  {
    exists k | k in users :: users[k].email == Some(email)
  }

  /** A stored user other than the one under `id` has this email. */
  predicate HeldByOther(users: map<int, User>, id: int, email: string)
    reads users.Values
  {
    exists k | k in users && k != id :: users[k].email == Some(email)
  }

  /** No two stored users share a non-null email. */
  predicate UniqueEmails(users: map<int, User>)
    reads users.Values
  {
    forall i, j | i in users && j in users && i != j && users[i].email.Some? :: users[i].email != users[j].email
  }

  /** With the user under `id` taken out, the email is in use exactly when
      another user holds it. */
  lemma HeldWithoutIsHeldByOther(users: map<int, User>, id: int, email: string)
    ensures HoldsEmail(users - {id}, email) <==> HeldByOther(users, id, email)
  {
    var rest := users - {id};
    if HeldByOther(users, id, email) {
      var k :| k in users && k != id && users[k].email == Some(email);
      assert k in rest && rest[k].email == Some(email);
    }
  }

  /** Taking a user out keeps emails unique. */
  lemma UniqueWithout(users: map<int, User>, id: int)
    requires UniqueEmails(users)
    ensures UniqueEmails(users - {id})
  {
  }

  /** When emails are unique, nobody else holds a user's own email. */
  lemma OwnEmailFree(users: map<int, User>, id: int)
    requires UniqueEmails(users)
    requires id in users && users[id].email.Some?
    ensures !HeldByOther(users, id, users[id].email.value)
  {
  }

  /** What taking the user under `id` out tells about the email check of an
      update request carrying `email`: the store without it holds the email
      exactly when another user does, emails stay unique, and when they were
      unique the user's own email is held by nobody left. */
  lemma TakeOutForCheck(users: map<int, User>, id: int, email: Option<string>)
    requires id in users
    ensures email.Some? ==> (HoldsEmail(users - {id}, email.value) <==> HeldByOther(users, id, email.value))
    ensures UniqueEmails(users) ==> UniqueEmails(users - {id})
    ensures UniqueEmails(users) && users[id].email.Some? ==> !HoldsEmail(users - {id}, users[id].email.value)
  {
    if email.Some? {
      HeldWithoutIsHeldByOther(users, id, email.value);
    }
    if UniqueEmails(users) {
      UniqueWithout(users, id);
      if users[id].email.Some? {
        OwnEmailFree(users, id);
        HeldWithoutIsHeldByOther(users, id, users[id].email.value);
      }
    }
  }

  /** Putting a user under a fresh key, with an email nobody holds, keeps
      emails unique. */
  lemma UniqueAfterPut(users: map<int, User>, id: int, u: User)
    requires UniqueEmails(users)
    requires id !in users
    requires u.email.Some? ==> !HoldsEmail(users, u.email.value)
    ensures UniqueEmails(users[id := u])
  {
    var after := users[id := u];
    forall i, j | i in after && j in after && i != j && after[i].email.Some? ensures after[i].email != after[j].email {
      if i == id {
        assert after[j] == users[j];
      } else if j == id {
        assert after[i] == users[i];
        if u.email.Some? {
          assert users[i].email != Some(u.email.value);
        }
      } else {
        assert after[i] == users[i] && after[j] == users[j];
      }
    }
  }

  /** In a map keyed by id, a user carrying an id that is not a key is not
      stored under any other key either. */
  lemma AbsentKeyNotStored(users: map<int, User>, key: int, u: User)
    requires forall k | k in users :: users[k].id == Some(k)
    requires u.id == Some(key) && key !in users
    ensures u !in users.Values
  {
    if u in users.Values {
      if forall k | k in users :: users[k] != u { assert false; }
    }
  }

  class InMemoryUserStorage {
    var users: map<int, User>

    /** Every user is stored under its own id. */
    predicate Valid()
      reads this, users.Values
    {
      forall k | k in users :: users[k].id == Some(k)
    }

    /** The rule the store keeps: no two stored users share a non-null email. */
    predicate EmailsUnique()
      reads this, users.Values
    {
      UniqueEmails(users)
    }

    constructor ()
      ensures users == map[]
      ensures Valid() && EmailsUnique()
    {
      users := map[];
    }

    /** `getNextId`: one more than the largest id, 1 when empty. */
    function NextUserId(): (r: int)
      reads this
      ensures r !in users
      ensures forall k | k in users :: k < r
      ensures users == map[] ==> r == 1
    {
      NextId(users.Keys)
    }

    /** `isContainsEmail`: some stored user's email equals the given user's.
        The source dereferences that email, so it is non-null here. */
    function IsContainsEmail(user: User): (r: bool)
      requires user.email.Some?
      reads this, users.Values, user
      ensures r <==> HoldsEmail(users, user.email.value)
    {
      exists k | k in users :: users[k].email == user.email
    }

    /** `create`: an email already in use throws DuplicatedData and changes
        nothing; otherwise a null or blank name becomes the login, the user
        gets the next id and is stored under it. The source dereferences the
        email, so it is non-null here. */
    method Create(user: User) returns (r: Result<User>)
      requires Valid()
      requires user.email.Some?
      requires user !in users.Values
      modifies this, user`name, user`id
      ensures Valid()
      ensures old(IsContainsEmail(user)) ==>
        r == Err(DuplicatedData) && users == old(users) && user.Data() == old(user.Data())
      ensures !old(IsContainsEmail(user)) ==>
        && r == Ok(user)
        && user.Data() == old(user.Data()).(id := Some(old(NextUserId())), name := DefaultName(old(user.name), old(user.login)))
        && users == old(users)[user.id.value := user]
      ensures old(EmailsUnique()) ==> EmailsUnique()
    {
      if IsContainsEmail(user) {
        return Err(DuplicatedData);
      }
      ghost var before := users;
      ghost var unique := UniqueEmails(users);
      user.name := DefaultName(user.name, user.login);
      user.id := Some(NextUserId());
      assert UniqueEmails(before) == unique && !HoldsEmail(before, user.email.value);
      if unique {
        UniqueAfterPut(users, user.id.value, user);
      }
      users := users[user.id.value := user];
      r := Ok(user);
    }

    /** `findById`: an id that is not a key, null included, throws NotFound;
        the null test after it can never fire. */
    function FindById(id: Option<int>): (r: Result<User>)
      requires Valid()
      reads this, users.Values
      ensures r.Ok? <==> id.Some? && id.value in users
      ensures r.Ok? ==> r.value == users[id.value] && r.value.id == id
      ensures r.Err? ==> r.error == NotFound
    {
      if !(id.Some? && id.value in users) then Err(NotFound)
      else
        var k := id.value;
        assert users[k].id == Some(k);
        Ok(users[k])
    }

    /** `findAll`: every stored user exactly once. */
    function FindAll(): (r: seq<User>)
      reads this
      ensures |r| == |users|
      ensures forall i | 0 <= i < |r| :: r[i] in users.Values
      ensures forall k | k in users :: users[k] in r
    {
      ValuesInOrderCovers(users);
      ValuesInOrder(users)
    }

    /** The stored user an update request addresses, if any. */
    function Target(newUser: User): set<User>
      reads this, newUser
    {
      if newUser.id.Some? && newUser.id.value in users then {users[newUser.id.value]} else {}
    }

    /** The tail of `update` once the email check has passed: the user that
        was taken out takes the request's non-null fields through the setters
        of `UserUtil.userFieldsUpdate` and goes back under its id. Emails stay
        unique when the email it ends with is held by nobody else. */
    method PutBackMerged(oldUser: User, newUser: User) returns (r: User)
      requires forall k | k in users :: users[k].id == Some(k)
      requires oldUser.id.Some? && oldUser.id.value !in users
      modifies this`users, oldUser`email, oldUser`login, oldUser`name, oldUser`birthday
      ensures r == oldUser
      ensures users == old(users)[oldUser.id.value := oldUser]
      ensures oldUser.Data() == MergedUser(old(oldUser.Data()), old(newUser.Data()))
      ensures old(UniqueEmails(users)) &&
              old(var e := Prefer(newUser.email, oldUser.email); e.Some? ==> !HoldsEmail(users, e.value)) ==>
        UniqueEmails(users)
    {
      AbsentKeyNotStored(users, oldUser.id.value, oldUser);
      ghost var unique := UniqueEmails(users);
      ghost var e := Prefer(newUser.email, oldUser.email);
      ghost var free := e.Some? ==> !HoldsEmail(users, e.value);
      r := UserFieldsUpdate(oldUser, newUser);
      assert r.email == e;
      assert free == (e.Some? ==> !HoldsEmail(users, e.value));
      assert unique == UniqueEmails(users);
      if unique && free {
        UniqueAfterPut(users, r.id.value, r);
      }
      users := users[r.id.value := r];
    }

    /** `update`: a null id is a ConditionsNotMet error and an unknown one
        NotFound. A known user is taken out of the map; if another user has
        the request's non-null email it is put back and DuplicatedData is
        thrown, otherwise it takes the request's non-null fields in place and
        goes back under its id. The four non-null setters are those of
        `UserUtil.userFieldsUpdate`. The map ends as it began on every path. */
    method Update(newUser: User) returns (r: Result<User>)
      requires Valid()
      modifies this`users, Target(newUser)`email, Target(newUser)`login,
               Target(newUser)`name, Target(newUser)`birthday
      ensures Valid()
      ensures users == old(users)
      ensures newUser.id.None? ==> r == Err(ConditionsNotMet)
      ensures newUser.id.Some? && newUser.id.value !in users ==> r == Err(NotFound)
      ensures newUser.id.Some? && newUser.id.value in users &&
              old(newUser.email.Some? && HeldByOther(users, newUser.id.value, newUser.email.value)) ==>
        r == Err(DuplicatedData) && users[newUser.id.value].Data() == old(users[newUser.id.value].Data())
      ensures newUser.id.Some? && newUser.id.value in users &&
              !old(newUser.email.Some? && HeldByOther(users, newUser.id.value, newUser.email.value)) ==>
        && r == Ok(users[newUser.id.value])
        && r.value.Data() == MergedUser(old(users[newUser.id.value].Data()), old(newUser.Data()))
      ensures old(EmailsUnique()) ==> EmailsUnique()
    {
      if newUser.id.None? {
        return Err(ConditionsNotMet);
      }
      if newUser.id.value !in users {
        return Err(NotFound);
      }
      var key := newUser.id.value;
      var oldUser := users[key];
      assert oldUser.id == Some(key);
      ghost var before := users;
      TakeOutForCheck(users, key, newUser.email);
      users := users - {key};
      if newUser.email.Some? && IsContainsEmail(newUser) {
        users := users[oldUser.id.value := oldUser];
        assert users == before;
        return Err(DuplicatedData);
      }
      var updated := PutBackMerged(oldUser, newUser);
      assert users == before;
      r := Ok(updated);
    }

    /** `deleteById`: an id that is not a key throws NotFound; otherwise the
        user is removed and returned. */
    method DeleteById(id: Option<int>) returns (r: Result<User>)
      requires Valid()
      modifies this
      ensures Valid()
      ensures !(id.Some? && id.value in old(users)) ==> r == Err(NotFound) && users == old(users)
      ensures id.Some? && id.value in old(users) ==>
        r == Ok(old(users)[id.value]) && users == old(users) - {id.value}
    {
      if !(id.Some? && id.value in users) {
        return Err(NotFound);
      }
      r := Ok(users[id.value]);
      users := users - {id.value};
    }
  }
}
