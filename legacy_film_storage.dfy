/** storage/InMemoryFilmStorage.java, the older film store: films in a
    HashMap keyed by id, lookups that throw instead of returning an empty
    Optional, and an update that touches four fields only. */
module LegacyFilmStorage {
  import opened Common
  import opened Model
  import opened FilmUtil

  /** The film the older `update` leaves behind: name, description, release
      date and duration taken from the request where it has them; every
      other field kept. */
  function LegacyMergedFilm(cur: FilmData, upd: FilmData): (r: FilmData)
    ensures r.id == cur.id && r.mpa == cur.mpa && r.genres == cur.genres && r.likes == cur.likes
  {
    cur.(name := Prefer(upd.name, cur.name), description := Prefer(upd.description, cur.description),
         releaseDate := Prefer(upd.releaseDate, cur.releaseDate), duration := Prefer(upd.duration, cur.duration))
  }

  /** The older merge is the current FilmUtil merge of a request whose MPA
      and genres are null. */
  lemma LegacyMergeIsMergeWithoutRefs(cur: FilmData, upd: FilmData)
    ensures LegacyMergedFilm(cur, upd) == MergedFilm(cur, upd.(mpa := None, genres := None))
  {
  }

  class InMemoryFilmStorage {
    var films: map<int, Film>

    /** Every film is stored under its own id. */
    predicate Valid()
      reads this, films.Values
    {
      forall k | k in films :: films[k].id == Some(k)
    }

    constructor ()
      ensures films == map[]
      ensures Valid()
    {
      films := map[];
    }

    /** `getNextId`: one more than the largest id, 1 when empty. */
    function NextFilmId(): (r: int)
      reads this
      ensures r !in films
      ensures forall k | k in films :: k < r
      ensures films == map[] ==> r == 1
    {
      NextId(films.Keys)
    }

    /** `create`: the film gets the next id and is stored under it. */
    method Create(film: Film) returns (r: Film)
      requires Valid()
      requires film !in films.Values
      modifies this, film`id
      ensures Valid()
      ensures r == film
      ensures film.id == Some(old(NextFilmId()))
      ensures films == old(films)[film.id.value := film]
    {
      film.id := Some(NextFilmId());
      films := films[film.id.value := film];
      r := film;
    }

    /** `findById`: an id that is not a key, null included, throws NotFound;
        the null test after it can never fire. */
    function FindById(id: Option<int>): (r: Result<Film>)
      requires Valid()
      reads this, films.Values
      ensures r.Ok? <==> id.Some? && id.value in films
      ensures r.Ok? ==> r.value == films[id.value] && r.value.id == id
      ensures r.Err? ==> r.error == NotFound
    {
      if !(id.Some? && id.value in films) then Err(NotFound)
      else
        var k := id.value;
        assert films[k].id == Some(k);
        Ok(films[k])
    }

    /** `findAll`: every stored film exactly once. */
    function FindAll(): (r: seq<Film>)
      reads this
      ensures |r| == |films|
      ensures forall i | 0 <= i < |r| :: r[i] in films.Values
      ensures forall k | k in films :: films[k] in r
    {
      ValuesInOrderCovers(films);
      ValuesInOrder(films)
    }

    /** The stored film an update request addresses, if any. */
    function Target(newFilm: Film): set<Film>
      reads this, newFilm
    {
      if newFilm.id.Some? && newFilm.id.value in films then {films[newFilm.id.value]} else {}
    }

    /** `update`: a null id is a ConditionsNotMet error and an unknown one
        NotFound; otherwise the stored film takes the request's non-null
        name, description, release date and duration in place. */
    method Update(newFilm: Film) returns (r: Result<Film>)
      requires Valid()
      modifies Target(newFilm)`name, Target(newFilm)`description,
               Target(newFilm)`releaseDate, Target(newFilm)`duration
      ensures Valid()
      ensures newFilm.id.None? ==> r == Err(ConditionsNotMet)
      ensures newFilm.id.Some? && newFilm.id.value !in films ==> r == Err(NotFound)
      ensures newFilm.id.Some? && newFilm.id.value in films ==>
        && r == Ok(films[newFilm.id.value])
        && r.value.Data() == LegacyMergedFilm(old(films[newFilm.id.value].Data()), old(newFilm.Data()))
    {
      if newFilm.id.None? {
        return Err(ConditionsNotMet);
      }
      if newFilm.id.value !in films {
        return Err(NotFound);
      }
      var key := newFilm.id.value;
      var oldFilm := films[key];
      assert oldFilm.id == Some(key);
      if newFilm.name.Some? {
        oldFilm.name := newFilm.name;
      }
      if newFilm.description.Some? {
        oldFilm.description := newFilm.description;
      }
      if newFilm.releaseDate.Some? {
        oldFilm.releaseDate := newFilm.releaseDate;
      }
      if newFilm.duration.Some? {
        oldFilm.duration := newFilm.duration;
      }
      r := Ok(oldFilm);
    }

    /** `deleteById`: an id that is not a key throws NotFound; otherwise the
        film is removed and returned. */
    method DeleteById(id: Option<int>) returns (r: Result<Film>)
      requires Valid()
      modifies this
      ensures Valid()
      ensures !(id.Some? && id.value in old(films)) ==> r == Err(NotFound) && films == old(films)
      ensures id.Some? && id.value in old(films) ==>
        r == Ok(old(films)[id.value]) && films == old(films) - {id.value}
    {
      if !(id.Some? && id.value in films) {
        return Err(NotFound);
      }
      r := Ok(films[id.value]);
      films := films - {id.value};
    }
  }
}
