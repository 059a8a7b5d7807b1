/** service/GenreService.java: the genre catalog's business rules on top of
    the injected genre store, the in-memory one of storage/genres. A name
    may belong to one genre only. */
module GenreServices {
  import opened Common
  import opened Model
  import opened GenreUtil
  import opened GenreStorage

  /** The rule the service keeps: no two stored genres share a name. */
  predicate NamesDistinct(genres: map<int, Genre>) {
    forall i, j | i in genres && j in genres && i != j :: genres[i].name != genres[j].name
  }

  /** Some stored genre carries exactly this name. */
  predicate NameTaken(genres: map<int, Genre>, name: string) {
    exists k | k in genres :: genres[k].name == Some(name)
  }

  /** The duplicate test of `update`: a non-null name that differs from the
      genre's current one and is already taken. */
  predicate RenameClashes(genres: map<int, Genre>, id: int, newName: Option<string>)
    requires id in genres
  {
    newName.Some? && newName != genres[id].name && NameTaken(genres, newName.value)
  }

  /** The seed catalog obeys the rule. */
  lemma SeedNamesDistinct()
    ensures NamesDistinct(SeedGenres())
  {
    SeedGenreNamesDistinct();
  }

  /** Storing a genre under a fresh id with a name nobody has keeps names
      distinct. */
  lemma CreateKeepsNamesDistinct(genres: map<int, Genre>, id: int, g: Genre)
    requires NamesDistinct(genres)
    requires id !in genres
    requires g.name.Some? && !NameTaken(genres, g.name.value)
    ensures NamesDistinct(genres[id := g])
  {
    var after := genres[id := g];
    forall i, j | i in after && j in after && i != j ensures after[i].name != after[j].name {
      if i == id {
        assert after[j] == genres[j];
      } else if j == id {
        assert after[i] == genres[i];
      }
    }
  }

  /** A rename that passes the duplicate test keeps names distinct. */
  lemma RenameKeepsNamesDistinct(genres: map<int, Genre>, id: int, newName: Option<string>)
    requires NamesDistinct(genres)
    requires id in genres
    requires !RenameClashes(genres, id, newName)
    ensures NamesDistinct(genres[id := RenamedGenre(genres[id], newName)])
  {
    var g := RenamedGenre(genres[id], newName);
    var after := genres[id := g];
    if HasText(newName) && newName != genres[id].name {
      forall i, j | i in after && j in after && i != j ensures after[i].name != after[j].name {
        if i == id {
          assert after[j] == genres[j];
          assert genres[j].name != Some(newName.value);
        } else if j == id {
          assert after[i] == genres[i];
          assert genres[i].name != Some(newName.value);
        }
      }
    } else {
      assert g.name == genres[id].name;
      forall i, j | i in after && j in after && i != j ensures after[i].name != after[j].name {
        assert after[i].name == genres[i].name && after[j].name == genres[j].name;
      }
    }
  }

  /** Renaming a genre to the name another genre already has is a clash,
      while keeping one's own name never is. */
  lemma RenameClashesExactly(genres: map<int, Genre>, id: int, other: int)
    requires NamesDistinct(genres)
    requires id in genres && other in genres && other != id
    requires genres[other].name.Some?
    ensures RenameClashes(genres, id, genres[other].name)
    ensures !RenameClashes(genres, id, genres[id].name)
  {
    assert genres[other].name != genres[id].name;
  }

  /** In a catalog keyed by id, every stored genre sits under its own id. */
  lemma StoredGenresKeyed(genres: map<int, Genre>)
    requires forall k | k in genres :: genres[k].id == Some(k)
    ensures forall g | g in genres.Values :: g.id.Some? && g.id.value in genres && genres[g.id.value] == g
  {
    forall g | g in genres.Values ensures g.id.Some? && g.id.value in genres && genres[g.id.value] == g {
      if forall k | k in genres :: genres[k] != g { assert false; }
      var k :| k in genres && genres[k] == g;
    }
  }

  /** Searching a listing of a keyed catalog for a genre equal to `genre`
      succeeds exactly when its id is a key. */
  lemma LookupByEquals(genres: map<int, Genre>, all: seq<Genre>, genre: Genre)
    requires forall k | k in genres :: genres[k].id == Some(k)
    requires forall g :: g in all <==> g in genres.Values
    ensures (exists i | 0 <= i < |all| :: GenreEquals(genre, all[i])) <==>
      genre.id.Some? && genre.id.value in genres
  {
    StoredGenresKeyed(genres);
    if exists i | 0 <= i < |all| :: GenreEquals(genre, all[i]) {
      var i :| 0 <= i < |all| && GenreEquals(genre, all[i]);
      assert all[i] in genres.Values;
    }
    if genre.id.Some? && genre.id.value in genres {
      var k := genre.id.value;
      assert genres[k] in genres.Values;
      assert genres[k] in all;
    }
  }

  class GenreService {
    const genreStorage: InMemoryGenreStorage

    constructor (genreStorage: InMemoryGenreStorage)
      ensures this.genreStorage == genreStorage
    {
      this.genreStorage := genreStorage;
    }

    predicate Valid()
      reads this, genreStorage
    {
      genreStorage.Valid()
    }

    /** `containsName`: some genre of `findAll` has exactly this name. A
        null name throws NullPointerException in the source, so the name is
        given. */
    function ContainsName(name: string): (r: bool)
      requires Valid()
      reads this, genreStorage
      ensures r <==> NameTaken(genreStorage.genres, name)
    {
      var all := genreStorage.FindAll();
      var r := exists i | 0 <= i < |all| :: all[i].name == Some(name);
      assert r ==> NameTaken(genreStorage.genres, name) by {
        if r {
          var i :| 0 <= i < |all| && all[i].name == Some(name);
          assert all[i] in genreStorage.genres.Values;
        }
      }
      assert NameTaken(genreStorage.genres, name) ==> r by {
        if NameTaken(genreStorage.genres, name) {
          var k :| k in genreStorage.genres && genreStorage.genres[k].name == Some(name);
          assert genreStorage.genres[k] in genreStorage.genres.Values;
          assert genreStorage.genres[k] in all;
        }
      }
      r
    }

    /** `create`: a taken name throws DuplicatedData and stores nothing;
        otherwise the store numbers and keeps the genre. */
    method Create(genre: Genre) returns (r: Result<Genre>)
      requires Valid()
      requires genre.name.Some?
      modifies genreStorage
      ensures Valid()
      ensures old(NameTaken(genreStorage.genres, genre.name.value)) ==>
        r == Err(DuplicatedData) && genreStorage.genres == old(genreStorage.genres)
      ensures !old(NameTaken(genreStorage.genres, genre.name.value)) ==>
        && r == Ok(genre.(id := Some(old(genreStorage.NextGenreId()))))
        && genreStorage.genres == old(genreStorage.genres)[r.value.id.value := r.value]
      ensures NamesDistinct(old(genreStorage.genres)) ==> NamesDistinct(genreStorage.genres)
    {
      if ContainsName(genre.name.value) {
        return Err(DuplicatedData);
      }
      ghost var before := genreStorage.genres;
      var created := genreStorage.Create(genre);
      if NamesDistinct(before) {
        CreateKeepsNamesDistinct(before, created.id.value, created);
      }
      r := Ok(created);
    }

    /** `findById`: a null id is a ConditionsNotMet error, an unknown one
        NotFound; otherwise the genre stored under it. */
    function FindById(id: Option<int>): (r: Result<Genre>)
      requires Valid()
      reads this, genreStorage
      ensures id.None? ==> r == Err(ConditionsNotMet)
      ensures id.Some? ==> (r.Ok? <==> id.value in genreStorage.genres)
      ensures id.Some? && id.value !in genreStorage.genres ==> r == Err(NotFound)
      ensures r.Ok? ==> r.value == genreStorage.genres[id.value] && r.value.id == id
    {
      if id.None? then Err(ConditionsNotMet)
      else match genreStorage.FindById(id.value) {
        case None => Err(NotFound)
        case Some(g) => Ok(g)
      }
    }

    /** `update`: the genre must exist (ConditionsNotMet for a null id,
        NotFound for an unknown one); a new name that another genre already
        has throws DuplicatedData; otherwise the store renames it. Every
        error leaves the catalog as it was. */
    method Update(newGenre: Genre) returns (r: Result<Genre>)
      requires Valid()
      modifies genreStorage
      ensures Valid()
      ensures newGenre.id.None? ==> r == Err(ConditionsNotMet)
      ensures newGenre.id.Some? && newGenre.id.value !in old(genreStorage.genres) ==> r == Err(NotFound)
      ensures newGenre.id.Some? && newGenre.id.value in old(genreStorage.genres) &&
              old(RenameClashes(genreStorage.genres, newGenre.id.value, newGenre.name)) ==>
        r == Err(DuplicatedData)
      ensures r.Err? ==> genreStorage.genres == old(genreStorage.genres)
      ensures newGenre.id.Some? && newGenre.id.value in old(genreStorage.genres) &&
              !old(RenameClashes(genreStorage.genres, newGenre.id.value, newGenre.name)) ==>
        && r == Ok(RenamedGenre(old(genreStorage.genres)[newGenre.id.value], newGenre.name))
        && genreStorage.genres == old(genreStorage.genres)[newGenre.id.value := r.value]
      ensures NamesDistinct(old(genreStorage.genres)) ==> NamesDistinct(genreStorage.genres)
    {
      var found := FindById(newGenre.id);
      if found.Err? {
        return Err(found.error);
      }
      var oldGenre := found.value;
      if newGenre.name.Some? && newGenre.name != oldGenre.name && ContainsName(newGenre.name.value) {
        return Err(DuplicatedData);
      }
      ghost var before := genreStorage.genres;
      var updated := genreStorage.Update(newGenre);
      if NamesDistinct(before) {
        RenameKeepsNamesDistinct(before, newGenre.id.value, newGenre.name);
      }
      r := Ok(updated.value);
    }

    /** `containsGenre`: some genre of `findAll` equals this one, and genres
        are equal when their ids are (a null id matches no stored genre). */
    function ContainsGenre(genre: Genre): (r: bool)
      requires Valid()
      reads this, genreStorage
      ensures r <==> genre.id.Some? && genre.id.value in genreStorage.genres
    {
      var all := genreStorage.FindAll();
      LookupByEquals(genreStorage.genres, all, genre);
      exists i | 0 <= i < |all| :: GenreEquals(genre, all[i])
    }
  }
}
