/** util/UserUtil.java: copy the non-null fields of an update request onto a
    stored user. */
module UserUtil {
  import opened Common
  import opened Model

  /** The user that `userFieldsUpdate(cur, upd)` leaves behind: email, login,
      name and birthday taken from `upd` where it has them; id and friends
      always those of `cur`. */
  function MergedUser(cur: UserData, upd: UserData): (r: UserData)
    ensures r.id == cur.id && r.friends == cur.friends
  {
    UserData(cur.id, Prefer(upd.email, cur.email), Prefer(upd.login, cur.login),
             Prefer(upd.name, cur.name), Prefer(upd.birthday, cur.birthday), cur.friends)
  }

  /** The setters run one by one on `oldUser`, which is also the result. */
  method UserFieldsUpdate(oldUser: User, newUser: User) returns (r: User)
    modifies oldUser`email, oldUser`login, oldUser`name, oldUser`birthday
    ensures r == oldUser
    ensures oldUser.Data() == MergedUser(old(oldUser.Data()), old(newUser.Data()))
  {
    if newUser.email.Some? {
      oldUser.email := newUser.email;
    }
    if newUser.login.Some? {
      oldUser.login := newUser.login;
    }
    if newUser.name.Some? {
      oldUser.name := newUser.name;
    }
    if newUser.birthday.Some? {
      oldUser.birthday := newUser.birthday;
    }
    r := oldUser;
  }

  /** Each of email, login, name and birthday is taken from the request
      exactly when the request's field is non-null. */
  lemma MergedUserFields(cur: UserData, upd: UserData)
    ensures var r := MergedUser(cur, upd);
      && r.email == (if upd.email.Some? then upd.email else cur.email)
      && r.login == (if upd.login.Some? then upd.login else cur.login)
      && r.name == (if upd.name.Some? then upd.name else cur.name)
      && r.birthday == (if upd.birthday.Some? then upd.birthday else cur.birthday)
  {
  }

  /** A request with every field null changes nothing. */
  lemma MergedUserAllNull(cur: UserData, upd: UserData)
    requires upd.email.None? && upd.login.None? && upd.name.None? && upd.birthday.None?
    ensures MergedUser(cur, upd) == cur
  {
  }

  /** Applying the same request twice is applying it once. */
  lemma MergedUserIdempotent(cur: UserData, upd: UserData)
    ensures MergedUser(MergedUser(cur, upd), upd) == MergedUser(cur, upd)
  {
  }
}
