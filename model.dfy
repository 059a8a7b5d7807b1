/** The entities of model/: users and films are objects whose fields the
    update utilities and the stores set in place; genres and MPA ratings are
    catalog entries compared by id only. */
module Model {
  import opened Common

  /** Status of a directed friendship edge. */
  datatype FriendStatus = Unconfirmed | Confirmed

  /** A `LocalDate`, kept opaque: the core only copies dates around. */
  datatype Date = Date(epochDay: int)

  /** A genre catalog entry (model/Genre.java); its `equals` compares ids only. */
  datatype Genre = Genre(id: Option<int>, name: Option<string>)

  /** An MPA rating catalog entry (model/Mpa.java); `equals` compares ids only. */
  datatype Mpa = Mpa(id: Option<int>, name: Option<string>, description: Option<string>)

  /** Lombok's `@EqualsAndHashCode(of = {"id"})` on Genre. */
  predicate GenreEquals(a: Genre, b: Genre) {
    a.id == b.id
  }

  /** Lombok's `@EqualsAndHashCode(of = {"id"})` on Mpa. */
  predicate MpaEquals(a: Mpa, b: Mpa) {
    a.id == b.id
  }

  /** The value held by a User object at one moment. */
  datatype UserData = UserData(
    id: Option<int>,
    email: Option<string>,
    login: Option<string>,
    name: Option<string>,
    birthday: Option<Date>,
    friends: map<int, FriendStatus>)

  /** model/User.java: every field but `friends` may be null; `friends` maps a
      friend's id to the status of the edge from this user to that friend. */
  class User {
    var id: Option<int>
    var email: Option<string>
    var login: Option<string>
    var name: Option<string>
    var birthday: Option<Date>
    var friends: map<int, FriendStatus>

    /** A user as the JSON boundary delivers it: no id, no friends yet. */
    constructor (email: Option<string>, login: Option<string>, name: Option<string>, birthday: Option<Date>)
      ensures Data() == UserData(None, email, login, name, birthday, map[])
    {
      this.id := None;
      this.email := email;
      this.login := login;
      this.name := name;
      this.birthday := birthday;
      this.friends := map[];
    }

    function Data(): UserData
      reads this
    {
      UserData(id, email, login, name, birthday, friends)
    }
  }

  /** The value held by a Film object at one moment. `genres` is the film's
      genre set, listed in the order the model keeps it. */
  datatype FilmData = FilmData(
    id: Option<int>,
    name: Option<string>,
    description: Option<string>,
    releaseDate: Option<Date>,
    duration: Option<int>,
    mpa: Option<Mpa>,
    genres: Option<seq<Genre>>,
    likes: set<int>)

  /** A film: the fields of model/Film.java plus the `mpa`, `genres` and
      `likes` fields that the stores and services read and write. */
  class Film {
    var id: Option<int>
    var name: Option<string>
    var description: Option<string>
    var releaseDate: Option<Date>
    var duration: Option<int>
    var mpa: Option<Mpa>
    var genres: Option<seq<Genre>>
    var likes: set<int>

    /** A film as the JSON boundary delivers it: no id, no likes yet. */
    constructor (name: Option<string>, description: Option<string>, releaseDate: Option<Date>,
                 duration: Option<int>, mpa: Option<Mpa>, genres: Option<seq<Genre>>)
      ensures Data() == FilmData(None, name, description, releaseDate, duration, mpa, genres, {})
    {
      this.id := None;
      this.name := name;
      this.description := description;
      this.releaseDate := releaseDate;
      this.duration := duration;
      this.mpa := mpa;
      this.genres := genres;
      this.likes := {};
    }

    function Data(): FilmData
      reads this
    {
      FilmData(id, name, description, releaseDate, duration, mpa, genres, likes)
    }
  }
}
