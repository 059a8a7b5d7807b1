/** storage/genres/InMemoryGenreStorage.java: the genre catalog, a TreeMap
    from id to genre seeded with the six genres of GenreUtil. */
module GenreStorage {
  import opened Common
  import opened Model
  import opened GenreUtil

  /** The genre `update` leaves behind: the request's name replaces the
      stored one only when it is non-null and not blank. */
  function RenamedGenre(cur: Genre, newName: Option<string>): (r: Genre)
    ensures r.id == cur.id
    ensures HasText(newName) ==> r.name == newName
    ensures !HasText(newName) ==> r == cur
  {
    if HasText(newName) then cur.(name := newName) else cur
  }

  /** Renaming twice with the same request is renaming once. */
  lemma RenamedGenreIdempotent(cur: Genre, newName: Option<string>)
    ensures RenamedGenre(RenamedGenre(cur, newName), newName) == RenamedGenre(cur, newName)
  {
  }

  class InMemoryGenreStorage {
    var genres: map<int, Genre>

    /** Every genre is stored under its own id. */
    predicate Valid()
      reads this
    {
      forall k | k in genres :: genres[k].id == Some(k)
    }

    /** The catalog starts as the seed table. */
    constructor ()
      ensures genres == SeedGenres()
      ensures Valid()
    {
      var seed := FillGenres();
      genres := seed;
    }

    /** `getNextId`: one more than the largest id, 1 when empty. */
    function NextGenreId(): (r: int)
      reads this
      ensures r !in genres
      ensures forall k | k in genres :: k < r
    {
      NextId(genres.Keys)
    }

    /** `create`: the genre gets the next id and is stored under it. */
    method Create(genre: Genre) returns (r: Genre)
      requires Valid()
      modifies this
      ensures Valid()
      ensures r == genre.(id := Some(old(NextGenreId())))
      ensures genres == old(genres)[r.id.value := r]
    {
      r := genre.(id := Some(NextGenreId()));
      genres := genres[r.id.value := r];
    }

    /** `findById`: the genre stored under `id`, if any; it carries that id. */
    function FindById(id: int): (r: Option<Genre>)
      requires Valid()
      reads this
      ensures r.Some? <==> id in genres
      ensures r.Some? ==> r.value == genres[id] && r.value.id == Some(id)
    {
      Get(genres, id)
    }

    /** `findAll`: every stored genre once, in ascending id order. */
    function FindAll(): (r: seq<Genre>)
      requires Valid()
      reads this
      ensures |r| == |genres|
      ensures forall g :: g in r <==> g in genres.Values
      ensures forall i, j | 0 <= i < j < |r| :: r[i].id.Some? && r[j].id.Some? && r[i].id.value < r[j].id.value
    {
      ValuesInOrderCovers(genres);
      var r := ValuesInOrder(genres);
      r
    }

    /** `update`: an unknown id changes nothing; a known one gets the
        request's name when that is non-null and not blank. The id is
        non-null, since a TreeMap rejects a null key. */
    method Update(newGenre: Genre) returns (r: Option<Genre>)
      requires newGenre.id.Some?
      requires Valid()
      modifies this
      ensures Valid()
      ensures newGenre.id.value !in old(genres) ==> r.None? && genres == old(genres)
      ensures newGenre.id.value in old(genres) ==>
        && r == Some(RenamedGenre(old(genres)[newGenre.id.value], newGenre.name))
        && genres == old(genres)[newGenre.id.value := r.value]
    {
      var id := newGenre.id.value;
      if id !in genres {
        return None;
      }
      var oldGenre := genres[id];
      if HasText(newGenre.name) {
        oldGenre := oldGenre.(name := newGenre.name);
        genres := genres[oldGenre.id.value := oldGenre];
      }
      r := Some(oldGenre);
    }

    /** `removeById`: the genre that was stored under `id`, which is gone
        afterwards; nothing else changes. */
    method RemoveById(id: int) returns (r: Option<Genre>)
      requires Valid()
      modifies this
      ensures Valid()
      ensures r == Get(old(genres), id)
      ensures genres == old(genres) - {id}
    {
      r := Get(genres, id);
      genres := genres - {id};
    }

    /** `contains`: the genre's id is a key; its name plays no part. */
    function Contains(genre: Genre): (r: bool)
      requires genre.id.Some?
      reads this
      ensures r <==> genre.id.value in genres
    {
      genre.id.value in genres
    }

    /** Containment is equality by id with some stored genre. */
    lemma ContainsIsEqualityById(genre: Genre)
      requires genre.id.Some?
      requires Valid()
      ensures Contains(genre) <==> exists g | g in genres.Values :: GenreEquals(g, genre)
    {
      var id := genre.id.value;
      if id in genres {
        assert genres[id].id == Some(id);
        assert genres[id] in genres.Values && GenreEquals(genres[id], genre);
      }
      if exists g | g in genres.Values :: GenreEquals(g, genre) {
        var g :| g in genres.Values && GenreEquals(g, genre);
        if forall k | k in genres :: genres[k] != g { assert false; }
        var k :| k in genres && genres[k] == g;
        assert k == id;
      }
    }
  }

  /** On the seed table the first created genre gets id 7. */
  lemma FirstCreatedGenreId()
    ensures NextId(SeedGenres().Keys) == 7
  {
    SeedGenreKeys();
    NextIdOfRange(SeedGenres().Keys, 6);
  }
}
