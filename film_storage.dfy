/** storage/film/InMemoryFilmStorage.java: films in a HashMap keyed by id.
    MPA ratings and genres named by a film are looked up in the store's own
    private catalogs, fresh copies of the MpaUtil and GenreUtil seeds that no
    other object can reach or change. */
module FilmStorage {
  import opened Common
  import opened Model
  import opened FilmUtil
  import opened GenreUtil
  import opened MpaUtil
  import opened GenreSet
  import opened Popularity

  /** The film a `create` or `update` leaves behind under that id, and whether
      the call returned normally or threw NotFound. */
  datatype Outcome = Outcome(ok: bool, film: FilmData)

  /** Every MPA in a film has a non-null id, and so does every genre: the
      catalogs are TreeMaps and reject a null key. */
  predicate RefsHaveIds(d: FilmData) {
    && (d.mpa.Some? ==> d.mpa.value.id.Some?)
    && (d.genres.Some? ==> HasIds(d.genres.value))
  }

  /** `getMpa`: the catalog entry for the film's MPA id, or NotFound. */
  function MpaLookup(catalog: map<int, Mpa>, mpa: Mpa): (r: Result<Mpa>)
    requires mpa.id.Some?
    ensures r.Ok? <==> mpa.id.value in catalog
    ensures r.Ok? ==> r.value == catalog[mpa.id.value]
    ensures r.Err? ==> r.error == NotFound
  {
    if mpa.id.value in catalog then Ok(catalog[mpa.id.value]) else Err(NotFound)
  }

  /** The `getGenres() != null && !getGenres().isEmpty()` guard. */
  predicate GenresGiven(genres: Option<seq<Genre>>) {
    genres.Some? && |genres.value| > 0
  }

  /** What `create` does to a film `d` it numbers `id`: the id is set first;
      a non-null MPA is replaced by its catalog entry, else NotFound; then a
      non-empty genre list is replaced by its catalog entries in id order,
      else NotFound. A throw leaves the steps already taken in place. */
  function CreateOutcome(genreCatalog: map<int, Genre>, mpaCatalog: map<int, Mpa>,
                         d: FilmData, id: int): (r: Outcome)
    requires RefsHaveIds(d)
    requires KeyedById(genreCatalog)
    ensures r.film.id == Some(id)
    ensures r.film == d.(id := Some(id), mpa := r.film.mpa, genres := r.film.genres)
    ensures r.ok <==>
      && (d.mpa.Some? ==> d.mpa.value.id.value in mpaCatalog)
      && (GenresGiven(d.genres) ==> forall i | 0 <= i < |d.genres.value| :: d.genres.value[i].id.value in genreCatalog)
    ensures d.mpa.Some? && d.mpa.value.id.value in mpaCatalog ==>
      r.film.mpa == Some(mpaCatalog[d.mpa.value.id.value])
    ensures d.mpa.Some? && d.mpa.value.id.value !in mpaCatalog ==>
      r.film.mpa == d.mpa && r.film.genres == d.genres
    ensures d.mpa.None? ==> r.film.mpa == None
    ensures !r.ok || !GenresGiven(d.genres) ==> r.film.genres == d.genres
    ensures r.ok && GenresGiven(d.genres) ==>
      && r.film.genres.Some?
      && IdsIncreasing(r.film.genres.value)
      && GenreIds(r.film.genres.value) == GenreIds(d.genres.value)
      && forall i | 0 <= i < |r.film.genres.value| ::
           r.film.genres.value[i] == genreCatalog[r.film.genres.value[i].id.value]
  {
    var numbered := d.(id := Some(id));
    if d.mpa.Some? && MpaLookup(mpaCatalog, d.mpa.value).Err? then Outcome(false, numbered)
    else
      var rated := if d.mpa.Some? then numbered.(mpa := Some(MpaLookup(mpaCatalog, d.mpa.value).value)) else numbered;
      if !GenresGiven(d.genres) then Outcome(true, rated)
      else match ResolveGenres(genreCatalog, d.genres.value) {
        case Err(_) => Outcome(false, rated)
        case Ok(gs) => Outcome(true, rated.(genres := Some(gs)))
      }
  }

  /** What `update` does to the stored film `cur` for request `upd`: the
      null-preserving merge of FilmUtil runs first, copying the request's MPA
      and genres as they are; then a non-null MPA is replaced by its catalog
      entry, else NotFound with the merge already applied. Genres are never
      looked up. */
  function UpdateOutcome(mpaCatalog: map<int, Mpa>, cur: FilmData, upd: FilmData): (r: Outcome)
    requires RefsHaveIds(upd)
    ensures r.ok <==> upd.mpa.None? || upd.mpa.value.id.value in mpaCatalog
    ensures r.film.id == cur.id && r.film.likes == cur.likes
    ensures r.film == MergedFilm(cur, upd).(mpa := r.film.mpa)
    ensures r.film.genres == (if upd.genres.Some? then upd.genres else cur.genres)
    ensures r.film.mpa == (if upd.mpa.Some? && r.ok then Some(mpaCatalog[upd.mpa.value.id.value])
                           else if upd.mpa.Some? then upd.mpa else cur.mpa)
  {
    var merged := MergedFilm(cur, upd);
    if upd.mpa.None? then Outcome(true, merged)
    else match MpaLookup(mpaCatalog, upd.mpa.value) {
      case Err(_) => Outcome(false, merged)
      case Ok(m) => Outcome(true, merged.(mpa := Some(m)))
    }
  }

  /** `findPopular` on ids: sorted by like count, most liked first, cut to
      `limit` entries. */
  function PopularIds(likes: map<int, nat>, limit: nat): (r: seq<int>)
    ensures |r| == if limit < |likes| then limit else |likes|
    ensures forall i | 0 <= i < |r| :: r[i] in likes
    ensures NonIncreasing(r, likes)
    ensures forall i, j | 0 <= i < j < |r| :: r[i] != r[j]
  {
    var order := PopularOrder(likes);
    var n := if limit < |order| then limit else |order|;
    PrefixKeepsOrder(order, likes, n);
    order[..n]
  }

  /** The whole sorted order `findPopular` cuts from: every stored id once. */
  function PopularOrder(likes: map<int, nat>): (r: seq<int>)
    ensures |r| == |likes|
    ensures forall i | 0 <= i < |r| :: r[i] in likes
    ensures multiset(r) == multiset(SortedKeys(likes.Keys))
    ensures NonIncreasing(r, likes)
    ensures forall i, j | 0 <= i < j < |r| :: r[i] != r[j]
  {
    var ids := SortedKeys(likes.Keys);
    assert forall i | 0 <= i < |ids| :: ids[i] in likes;
    var order := SortByLikes(ids, likes);
    PermutationOfIncreasingIsDistinct(order, ids);
    order
  }

  /** Every stored id has its place in the sorted order. */
  lemma PopularOrderCovers(likes: map<int, nat>, k: int)
    requires k in likes
    ensures exists j | 0 <= j < |PopularOrder(likes)| :: PopularOrder(likes)[j] == k
  {
    var order := PopularOrder(likes);
    assert k in SortedKeys(likes.Keys);
    assert k in multiset(order);
    assert k in order;
  }

  /** No id left out by `limit` has more likes than the last one kept, and
      an id is left out only when `limit` entries were kept. */
  lemma PopularIdsCutOff(likes: map<int, nat>, limit: nat)
    ensures forall k | k in likes && k !in PopularIds(likes, limit) ::
      |PopularIds(likes, limit)| == limit &&
      (limit > 0 ==> likes[k] <= likes[PopularIds(likes, limit)[limit - 1]])
  {
    var order := PopularOrder(likes);
    var n := if limit < |order| then limit else |order|;
    var r := PopularIds(likes, limit);
    assert r == order[..n];
    forall k | k in likes && k !in r
      ensures |r| == limit && (limit > 0 ==> likes[k] <= likes[r[limit - 1]])
    {
      PopularOrderCovers(likes, k);
      var j :| 0 <= j < |order| && order[j] == k;
      assert j >= n;
      if limit > 0 { CutOffIsLeast(order, likes, n); }
    }
  }

  /** A stored film missing from `ValuesAt(fs, ids)` has an id not in `ids`. */
  lemma FilmsAtMissing(fs: map<int, Film>, ids: seq<int>)
    requires forall i | 0 <= i < |ids| :: ids[i] in fs
    ensures forall k | k in fs && fs[k] !in ValuesAt(fs, ids) :: k !in ids
  {
    var r := ValuesAt(fs, ids);
    forall k | k in fs && fs[k] !in r ensures k !in ids {
      if k in ids { assert false; }
    }
  }

  /** Films looked up under distinct ids of a store that keeps each film
      under its own id are distinct objects, each under its own id, and keep
      the order of the ids' like counts. */
  lemma FilmsAtStored(fs: map<int, Film>, ids: seq<int>)
    requires forall i | 0 <= i < |ids| :: ids[i] in fs
    requires forall k | k in fs :: fs[k].id == Some(k)
    ensures forall i | 0 <= i < |ValuesAt(fs, ids)| ::
      && ValuesAt(fs, ids)[i].id.Some?
      && ValuesAt(fs, ids)[i].id.value in fs
      && fs[ValuesAt(fs, ids)[i].id.value] == ValuesAt(fs, ids)[i]
  {
    var r := ValuesAt(fs, ids);
    forall i | 0 <= i < |r| ensures r[i].id == Some(ids[i]) {
      var k := ids[i];
      assert r[i] == fs[k] && fs[k].id == Some(k);
    }
  }

  /** Films looked up under distinct ids ordered by like count are
      distinct and ordered by the size of their like sets. */
  lemma FilmsAtOrdered(fs: map<int, Film>, ids: seq<int>, likes: map<int, nat>)
    requires forall i | 0 <= i < |ids| :: ids[i] in fs && ids[i] in likes
    requires forall k | k in fs :: fs[k].id == Some(k)
    requires forall k | k in likes :: k in fs && likes[k] == |fs[k].likes|
    requires NonIncreasing(ids, likes)
    requires forall i, j | 0 <= i < j < |ids| :: ids[i] != ids[j]
    ensures forall i, j | 0 <= i < j < |ValuesAt(fs, ids)| :: ValuesAt(fs, ids)[i] != ValuesAt(fs, ids)[j]
    ensures forall i, j | 0 <= i < j < |ValuesAt(fs, ids)| ::
      |ValuesAt(fs, ids)[i].likes| >= |ValuesAt(fs, ids)[j].likes|
  {
    var r := ValuesAt(fs, ids);
    forall i, j | 0 <= i < j < |r| ensures r[i] != r[j] && |r[i].likes| >= |r[j].likes| {
      assert r[i].id == Some(ids[i]) && r[j].id == Some(ids[j]);
      assert likes[ids[i]] >= likes[ids[j]];
    }
  }

  class InMemoryFilmStorage {
    var films: map<int, Film>
    /** The private InMemoryGenreStorage: only ever read. */
    const genreCatalog: map<int, Genre>
    /** The private InMemoryMpaStorage: only ever read. */
    const mpaCatalog: map<int, Mpa>

    /** Every film is stored under its own id, and catalog genres carry
        the id they are stored under. */
    predicate Valid()
      reads this, films.Values
    {
      && (forall k | k in films :: films[k].id == Some(k))
      && KeyedById(genreCatalog)
    }

    constructor ()
      ensures films == map[]
      ensures genreCatalog == SeedGenres() && mpaCatalog == SeedMpa()
      ensures Valid()
    {
      films := map[];
      var genres := FillGenres();
      genreCatalog := genres;
      var mpa := FillMpa();
      mpaCatalog := mpa;
    }

    /** `getNextId`: one more than the largest id, 1 when empty. */
    function NextFilmId(): (r: int)
      reads this
      ensures r !in films
      ensures forall k | k in films :: k < r
      ensures films == map[] ==> r == 1
    {
      NextId(films.Keys)
    }

    /** `create`: the film is numbered, its references are resolved, and it
        is stored; an unknown MPA or genre id throws NotFound, and then the
        map is left as it was while the film keeps the steps already done. */
    method Create(film: Film) returns (r: Result<Film>)
      requires Valid()
      requires film !in films.Values
      requires RefsHaveIds(film.Data())
      modifies this`films, film`id, film`mpa, film`genres
      ensures Valid()
      ensures film.Data() == CreateOutcome(genreCatalog, mpaCatalog, old(film.Data()), old(NextFilmId())).film
      ensures CreateOutcome(genreCatalog, mpaCatalog, old(film.Data()), old(NextFilmId())).ok ==>
        r == Ok(film) && films == old(films)[film.id.value := film]
      ensures !CreateOutcome(genreCatalog, mpaCatalog, old(film.Data()), old(NextFilmId())).ok ==>
        r == Err(NotFound) && films == old(films)
    {
      film.id := Some(NextFilmId());
      if film.mpa.Some? {
        var m := MpaLookup(mpaCatalog, film.mpa.value);
        if m.Err? {
          return Err(NotFound);
        }
        film.mpa := Some(m.value);
      }
      if GenresGiven(film.genres) {
        var gs := ResolveGenres(genreCatalog, film.genres.value);
        if gs.Err? {
          return Err(NotFound);
        }
        film.genres := Some(gs.value);
      }
      films := films[film.id.value := film];
      r := Ok(films[film.id.value]);
    }

    /** `findById`: the film stored under `id`, if any; it carries that id. */
    function FindById(id: int): (r: Option<Film>)
      requires Valid()
      reads this, films.Values
      ensures r.Some? <==> id in films
      ensures r.Some? ==> r.value == films[id] && r.value.id == Some(id)
    {
      Get(films, id)
    }

    /** `findAll`: every stored film exactly once. */
    function FindAll(): (r: seq<Film>)
      reads this
      ensures |r| == |films|
      ensures forall i | 0 <= i < |r| :: r[i] in films.Values
      ensures forall k | k in films :: films[k] in r
    {
      ValuesInOrderCovers(films);
      ValuesInOrder(films)
    }

    /** The stored film an update request addresses, if any. */
    function Target(newFilm: Film): set<Film>
      reads this, newFilm
    {
      if newFilm.id.Some? && newFilm.id.value in films then {films[newFilm.id.value]} else {}
    }

    /** `update`: an unknown (or null) id returns empty and changes nothing.
        Otherwise the stored film is merged in place and its MPA resolved;
        an unknown MPA id throws NotFound after the merge. The film stays
        under its key either way. */
    method Update(newFilm: Film) returns (r: Result<Option<Film>>)
      requires Valid()
      requires RefsHaveIds(newFilm.Data())
      modifies this`films, Target(newFilm)`name, Target(newFilm)`description,
               Target(newFilm)`releaseDate, Target(newFilm)`duration,
               Target(newFilm)`mpa, Target(newFilm)`genres
      ensures Valid()
      ensures films == old(films)
      ensures !(newFilm.id.Some? && newFilm.id.value in films) ==> r == Ok(None)
      ensures newFilm.id.Some? && newFilm.id.value in films ==>
        var outcome := UpdateOutcome(mpaCatalog, old(films[newFilm.id.value].Data()), old(newFilm.Data()));
        && films[newFilm.id.value].Data() == outcome.film
        && r == (if outcome.ok then Ok(Some(films[newFilm.id.value])) else Err(NotFound))
    {
      if !(newFilm.id.Some? && newFilm.id.value in films) {
        return Ok(None);
      }
      var key := newFilm.id.value;
      var stored := films[key];
      assert stored.id == Some(key);
      ghost var request := newFilm.Data();
      var updatedFilm := FilmFieldsUpdate(stored, newFilm);
      assert newFilm.mpa == request.mpa && newFilm.genres == request.genres;
      if newFilm.mpa.Some? {
        var m := MpaLookup(mpaCatalog, newFilm.mpa.value);
        if m.Err? {
          return Err(NotFound);
        }
        updatedFilm.mpa := Some(m.value);
      }
      if GenresGiven(newFilm.genres) {
        updatedFilm.genres := newFilm.genres;
      }
      films := films[updatedFilm.id.value := updatedFilm];
      r := Ok(Some(films[key]));
    }

    /** `removeById`: the film that was stored under `id`, which is gone
        afterwards; nothing else changes. */
    method RemoveById(id: int) returns (r: Option<Film>)
      requires Valid()
      modifies this`films
      ensures Valid()
      ensures r == Get(old(films), id)
      ensures films == old(films) - {id}
    {
      r := Get(films, id);
      films := films - {id};
    }

    /** `addLike`: the user's id joins the film's likes, and the film is
        stored under its id. */
    method AddLike(film: Film, user: User) returns (r: Film)
      requires Valid()
      requires film.id.Some? && user.id.Some?
      modifies this`films, film`likes
      ensures Valid()
      ensures r == film
      ensures film.likes == old(film.likes) + {user.id.value}
      ensures films == old(films)[film.id.value := film]
    {
      film.likes := film.likes + {user.id.value};
      films := films[film.id.value := film];
      r := film;
    }

    /** `removeLike`: the user's id leaves the film's likes, and the film is
        stored under its id. */
    method RemoveLike(film: Film, user: User) returns (r: Film)
      requires Valid()
      requires film.id.Some? && user.id.Some?
      modifies this`films, film`likes
      ensures Valid()
      ensures r == film
      ensures film.likes == old(film.likes) - {user.id.value}
      ensures films == old(films)[film.id.value := film]
    {
      film.likes := film.likes - {user.id.value};
      films := films[film.id.value := film];
      r := film;
    }

    /** The like count of every stored film, by id. */
    function LikeCounts(): (r: map<int, nat>)
      reads this, films.Values
      ensures forall k :: k in r <==> k in films
      ensures forall k | k in r :: r[k] == |films[k].likes|
      ensures |r| == |films|
    {
      var r := map k | k in films :: |films[k].likes|;
      assert r.Keys == films.Keys;
      r
    }

    /** `findPopular`: the stored films sorted by like count, most liked
        first, cut to `limit`. */
    function FindPopular(limit: nat): (r: seq<Film>)
      requires Valid()
      reads this, films.Values
      ensures |r| == if limit < |films| then limit else |films|
    {
      ValuesAt(films, PopularIds(LikeCounts(), limit))
    }

    /** Every film `findPopular` returns is a stored film, under its own id. */
    lemma FindPopularStored(limit: nat)
      requires Valid()
      ensures forall i | 0 <= i < |FindPopular(limit)| ::
        && FindPopular(limit)[i].id.Some?
        && FindPopular(limit)[i].id.value in films
        && films[FindPopular(limit)[i].id.value] == FindPopular(limit)[i]
    {
      FilmsAtStored(films, PopularIds(LikeCounts(), limit));
    }

    /** `findPopular` lists each film at most once, most liked first. */
    lemma FindPopularSorted(limit: nat)
      requires Valid()
      ensures forall i, j | 0 <= i < j < |FindPopular(limit)| :: FindPopular(limit)[i] != FindPopular(limit)[j]
      ensures forall i, j | 0 <= i < j < |FindPopular(limit)| ::
        |FindPopular(limit)[i].likes| >= |FindPopular(limit)[j].likes|
    {
      var likes := LikeCounts();
      FilmsAtOrdered(films, PopularIds(likes, limit), likes);
    }

    /** A film `findPopular` leaves out has no more likes than the last one
        it returns, and films are left out only when `limit` were returned. */
    lemma FindPopularCutOff(limit: nat)
      requires Valid()
      ensures forall k | k in films && films[k] !in FindPopular(limit) ::
        |FindPopular(limit)| == limit &&
        (limit > 0 ==> |films[k].likes| <= |FindPopular(limit)[limit - 1].likes|)
    {
      var likes := LikeCounts();
      var ids := PopularIds(likes, limit);
      FilmsAtMissing(films, ids);
      PopularIdsCutOff(likes, limit);
    }
  }
}
