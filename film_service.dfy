/** service/FilmService.java: films, likes and the popular list on top of
    the injected stores, which are the in-memory ones. The service checks a
    film's MPA and genres against the injected rating and genre stores;
    the film store then resolves them against its own private catalogs. */
module FilmServices {
  import opened Common
  import opened Model
  import opened GenreUtil
  import opened MpaUtil
  import opened GenreSet
  import opened FilmStorage
  import opened UserStorage
  import opened GenreStorage
  import opened MpaStorage

  /** What `checkMpaAndGenre` accepts: a null MPA or one whose id the rating
      store holds, and a null or empty genre list or one whose every id the
      genre store holds. */
  predicate ReferencesKnown(d: FilmData, mpas: map<int, Mpa>, genres: map<int, Genre>)
    requires RefsHaveIds(d)
  {
    && (d.mpa.Some? ==> d.mpa.value.id.value in mpas)
    && (GenresGiven(d.genres) ==> forall i | 0 <= i < |d.genres.value| :: d.genres.value[i].id.value in genres)
  }

  /** While the injected stores hold the same catalogs as the film store's
      private copies, a film that passes `checkMpaAndGenre` is created. */
  lemma CheckedFilmIsCreated(genres: map<int, Genre>, mpas: map<int, Mpa>, d: FilmData, id: int)
    requires RefsHaveIds(d)
    requires KeyedById(genres)
    requires ReferencesKnown(d, mpas, genres)
    ensures CreateOutcome(genres, mpas, d, id).ok
  {
  }

  /** The two catalogs can part: a genre created through the genre store
      gets id 7, so a film naming it passes the service's check, yet the film
      store, which knows only the six seeded genres, throws NotFound. */
  lemma NewGenreUnknownToFilmStore()
    ensures
      var injected := SeedGenres()[NextId(SeedGenres().Keys) := Genre(Some(7), Some("Noir"))];
      var d := FilmData(None, Some("Film"), None, None, None, None, Some([Genre(Some(7), None)]), {});
      && ReferencesKnown(d, SeedMpa(), injected)
      && !CreateOutcome(SeedGenres(), SeedMpa(), d, 1).ok
  {
    FirstCreatedGenreId();
    SeedGenreKeys();
    var d := FilmData(None, Some("Film"), None, None, None, None, Some([Genre(Some(7), None)]), {});
    assert d.genres.value[0].id.value !in SeedGenres();
  }

  class FilmService {
    const filmStorage: InMemoryFilmStorage
    const userStorage: InMemoryUserStorage
    const mpaStorage: InMemoryMpaStorage
    const genreStorage: InMemoryGenreStorage

    constructor (filmStorage: InMemoryFilmStorage, userStorage: InMemoryUserStorage,
                 mpaStorage: InMemoryMpaStorage, genreStorage: InMemoryGenreStorage)
      ensures this.filmStorage == filmStorage && this.userStorage == userStorage
      ensures this.mpaStorage == mpaStorage && this.genreStorage == genreStorage
    {
      this.filmStorage := filmStorage;
      this.userStorage := userStorage;
      this.mpaStorage := mpaStorage;
      this.genreStorage := genreStorage;
    }

    predicate Valid()
      reads this, filmStorage, filmStorage.films.Values, userStorage, userStorage.users.Values,
            mpaStorage, genreStorage
    {
      && filmStorage.Valid()
      && userStorage.Valid()
      && mpaStorage.Valid()
      && genreStorage.Valid()
    }

    /** `checkMpaAndGenre`: true when the film's references are known to the
        injected stores, false where the source throws NotFound. The stores
        are TreeMaps, so every id looked up is non-null. */
    method CheckMpaAndGenre(film: Film) returns (ok: bool)
      requires RefsHaveIds(film.Data())
      ensures ok <==> ReferencesKnown(film.Data(), mpaStorage.mpaMap, genreStorage.genres)
    {
      if film.mpa.Some? && !mpaStorage.Contains(film.mpa.value) {
        return false;
      }
      if GenresGiven(film.genres) {
        var gs := film.genres.value;
        for i := 0 to |gs|
          invariant forall j | 0 <= j < i :: gs[j].id.value in genreStorage.genres
        {
          if !genreStorage.Contains(gs[i]) {
            return false;
          }
        }
      }
      return true;
    }

    /** `create`: a film with an unknown reference throws NotFound and is
        left untouched; otherwise the film store creates it. */
    method Create(film: Film) returns (r: Result<Film>)
      requires Valid()
      requires film !in filmStorage.films.Values
      requires RefsHaveIds(film.Data())
      modifies filmStorage`films, film`id, film`mpa, film`genres
      ensures Valid()
      ensures !ReferencesKnown(old(film.Data()), mpaStorage.mpaMap, genreStorage.genres) ==>
        && r == Err(NotFound)
        && film.Data() == old(film.Data())
        && filmStorage.films == old(filmStorage.films)
      ensures ReferencesKnown(old(film.Data()), mpaStorage.mpaMap, genreStorage.genres) ==>
        var outcome := CreateOutcome(filmStorage.genreCatalog, filmStorage.mpaCatalog,
                                     old(film.Data()), old(filmStorage.NextFilmId()));
        && film.Data() == outcome.film
        && (outcome.ok ==> r == Ok(film) && filmStorage.films == old(filmStorage.films)[film.id.value := film])
        && (!outcome.ok ==> r == Err(NotFound) && filmStorage.films == old(filmStorage.films))
    {
      var known := CheckMpaAndGenre(film);
      if !known {
        return Err(NotFound);
      }
      r := filmStorage.Create(film);
    }

    /** `findById`: a null id is a ConditionsNotMet error, an unknown one
        NotFound; otherwise the film stored under it. */
    function FindById(id: Option<int>): (r: Result<Film>)
      requires filmStorage.Valid()
      reads this, filmStorage, filmStorage.films.Values
      ensures id.None? ==> r == Err(ConditionsNotMet)
      ensures id.Some? ==> (r.Ok? <==> id.value in filmStorage.films)
      ensures id.Some? && id.value !in filmStorage.films ==> r == Err(NotFound)
      ensures r.Ok? ==> r.value == filmStorage.films[id.value] && r.value.id == id
    {
      if id.None? then Err(ConditionsNotMet)
      else match filmStorage.FindById(id.value) {
        case None => Err(NotFound)
        case Some(f) => Ok(f)
      }
    }

    /** `update`: a null id is a ConditionsNotMet error and an unknown
        reference NotFound, both before anything changes; then the film
        store updates, and an id it does not hold is NotFound too. */
    method Update(newFilm: Film) returns (r: Result<Film>)
      requires Valid()
      requires RefsHaveIds(newFilm.Data())
      modifies filmStorage`films, filmStorage.Target(newFilm)`name, filmStorage.Target(newFilm)`description,
               filmStorage.Target(newFilm)`releaseDate, filmStorage.Target(newFilm)`duration,
               filmStorage.Target(newFilm)`mpa, filmStorage.Target(newFilm)`genres
      ensures Valid()
      ensures filmStorage.films == old(filmStorage.films)
      ensures newFilm.id.None? ==> r == Err(ConditionsNotMet)
      ensures newFilm.id.Some? && !old(ReferencesKnown(newFilm.Data(), mpaStorage.mpaMap, genreStorage.genres)) ==>
        && r == Err(NotFound)
        && (newFilm.id.value in filmStorage.films ==>
              filmStorage.films[newFilm.id.value].Data() == old(filmStorage.films[newFilm.id.value].Data()))
      ensures newFilm.id.Some? && old(ReferencesKnown(newFilm.Data(), mpaStorage.mpaMap, genreStorage.genres)) &&
              newFilm.id.value !in filmStorage.films ==>
        r == Err(NotFound)
      ensures newFilm.id.Some? && old(ReferencesKnown(newFilm.Data(), mpaStorage.mpaMap, genreStorage.genres)) &&
              newFilm.id.value in filmStorage.films ==>
        var outcome := UpdateOutcome(filmStorage.mpaCatalog, old(filmStorage.films[newFilm.id.value].Data()),
                                     old(newFilm.Data()));
        && filmStorage.films[newFilm.id.value].Data() == outcome.film
        && r == (if outcome.ok then Ok(filmStorage.films[newFilm.id.value]) else Err(NotFound))
    {
      if newFilm.id.None? {
        return Err(ConditionsNotMet);
      }
      var known := CheckMpaAndGenre(newFilm);
      if !known {
        return Err(NotFound);
      }
      var updated := filmStorage.Update(newFilm);
      match updated {
        case Err(e) => r := Err(e);
        case Ok(None) => r := Err(NotFound);
        case Ok(Some(f)) => r := Ok(f);
      }
    }

    /** `removeById`: a null id is a ConditionsNotMet error; otherwise the
        film under the id is removed and returned, NotFound if there was
        none. */
    method RemoveById(id: Option<int>) returns (r: Result<Film>)
      requires filmStorage.Valid()
      modifies filmStorage`films
      ensures filmStorage.Valid()
      ensures id.None? ==> r == Err(ConditionsNotMet) && filmStorage.films == old(filmStorage.films)
      ensures id.Some? ==> filmStorage.films == old(filmStorage.films) - {id.value}
      ensures id.Some? && id.value in old(filmStorage.films) ==> r == Ok(old(filmStorage.films)[id.value])
      ensures id.Some? && id.value !in old(filmStorage.films) ==> r == Err(NotFound)
    {
      if id.None? {
        return Err(ConditionsNotMet);
      }
      var removed := filmStorage.RemoveById(id.value);
      r := if removed.Some? then Ok(removed.value) else Err(NotFound);
    }

    /** `getUser`: the stored user with this id, NotFound otherwise (a null
        id finds nobody). */
    function GetUser(id: Option<int>): (r: Result<User>)
      requires userStorage.Valid()
      reads this, userStorage, userStorage.users.Values
      ensures r.Ok? <==> id.Some? && id.value in userStorage.users
      ensures r.Ok? ==> r.value == userStorage.users[id.value] && r.value.id == id
      ensures r.Err? ==> r.error == NotFound
    {
      match userStorage.FindById(id) {
        case None => Err(NotFound)
        case Some(u) => Ok(u)
      }
    }

    /** The film whose likes a like request may change. */
    function LikeTarget(id: Option<int>): set<Film>
      reads this, filmStorage
    {
      if id.Some? && id.value in filmStorage.films then {filmStorage.films[id.value]} else {}
    }

    /** `addLike`: the film is looked up first, then the user; either error
        leaves the likes alone. Otherwise the user's id joins the film's
        likes. */
    method AddLike(id: Option<int>, userId: Option<int>) returns (r: Result<Film>)
      requires Valid()
      modifies filmStorage`films, LikeTarget(id)`likes
      ensures Valid()
      ensures filmStorage.films == old(filmStorage.films)
      ensures old(FindById(id)).Err? ==> r == Err(old(FindById(id)).error)
      ensures old(FindById(id)).Ok? && GetUser(userId).Err? ==>
        r == Err(NotFound) && filmStorage.films[id.value].likes == old(filmStorage.films[id.value].likes)
      ensures old(FindById(id)).Ok? && GetUser(userId).Ok? ==>
        && r == Ok(filmStorage.films[id.value])
        && filmStorage.films[id.value].likes == old(filmStorage.films[id.value].likes) + {userId.value}
    {
      var found := FindById(id);
      if found.Err? {
        return Err(found.error);
      }
      var user := GetUser(userId);
      if user.Err? {
        return Err(user.error);
      }
      ghost var before := filmStorage.films;
      var film := filmStorage.AddLike(found.value, user.value);
      assert before[id.value := film] == before;
      r := Ok(film);
    }

    /** `removeLike`: as `addLike`, but the user's id leaves the likes. */
    method RemoveLike(id: Option<int>, userId: Option<int>) returns (r: Result<Film>)
      requires Valid()
      modifies filmStorage`films, LikeTarget(id)`likes
      ensures Valid()
      ensures filmStorage.films == old(filmStorage.films)
      ensures old(FindById(id)).Err? ==> r == Err(old(FindById(id)).error)
      ensures old(FindById(id)).Ok? && GetUser(userId).Err? ==>
        r == Err(NotFound) && filmStorage.films[id.value].likes == old(filmStorage.films[id.value].likes)
      ensures old(FindById(id)).Ok? && GetUser(userId).Ok? ==>
        && r == Ok(filmStorage.films[id.value])
        && filmStorage.films[id.value].likes == old(filmStorage.films[id.value].likes) - {userId.value}
    {
      var found := FindById(id);
      if found.Err? {
        return Err(found.error);
      }
      var user := GetUser(userId);
      if user.Err? {
        return Err(user.error);
      }
      ghost var before := filmStorage.films;
      var film := filmStorage.RemoveLike(found.value, user.value);
      assert before[id.value := film] == before;
      r := Ok(film);
    }

    /** A like and its withdrawal by a user who had not liked the film leave
        the film's likes as they were. */
    method LikeThenUnlike(id: Option<int>, userId: Option<int>)
      requires Valid()
      requires FindById(id).Ok? && GetUser(userId).Ok?
      requires userId.value !in filmStorage.films[id.value].likes
      modifies filmStorage`films, LikeTarget(id)`likes
      ensures Valid()
      ensures filmStorage.films == old(filmStorage.films)
      ensures filmStorage.films[id.value].likes == old(filmStorage.films[id.value].likes)
    {
      var liked := AddLike(id, userId);
      var unliked := RemoveLike(id, userId);
    }

    /** Liking a film twice is liking it once. */
    method LikeTwice(id: Option<int>, userId: Option<int>)
      requires Valid()
      requires FindById(id).Ok? && GetUser(userId).Ok?
      modifies filmStorage`films, LikeTarget(id)`likes
      ensures Valid()
      ensures filmStorage.films == old(filmStorage.films)
      ensures filmStorage.films[id.value].likes == old(filmStorage.films[id.value].likes) + {userId.value}
    {
      var first := AddLike(id, userId);
      var second := AddLike(id, userId);
    }
  }
}
