/** util/GenreUtil.java: the seed table of the genre catalog. */
module GenreUtil {
  import opened Common
  import opened Model

  /** The genre names, in id order. */
  const GenreNames: seq<string> :=
    ["Комедия", "Драма", "Мультфильм", "Триллер", "Документальный", "Боевик"]

  /** The catalog `fillGenres` builds: key i holds genre i with name
      GenreNames[i - 1], for i = 1 .. 6. */
  function SeedGenres(): map<int, Genre> {
    map i | 1 <= i <= |GenreNames| :: Genre(Some(i), Some(GenreNames[i - 1]))
  }

  /** The loop of `fillGenres`: one fresh entry per name, keyed by its id. */
  method FillGenres() returns (genreMap: map<int, Genre>)
    ensures forall i :: i in genreMap <==> 1 <= i <= 6
    ensures forall i | i in genreMap :: genreMap[i].id == Some(i)
    ensures forall i | i in genreMap :: genreMap[i].name == Some(GenreNames[i - 1])
    ensures genreMap == SeedGenres()
  {
    genreMap := map[];
    for i := 1 to |GenreNames| + 1
      invariant forall j :: j in genreMap <==> 1 <= j < i
      invariant forall j | j in genreMap :: genreMap[j] == Genre(Some(j), Some(GenreNames[j - 1]))
    {
      var genre := Genre(Some(i), Some(GenreNames[i - 1]));
      genreMap := genreMap[genre.id.value := genre];
    }
  }

  /** No two seeded genres share a name. */
  lemma SeedGenreNamesDistinct()
    ensures forall i, j | i in SeedGenres() && j in SeedGenres() && i != j ::
      SeedGenres()[i].name != SeedGenres()[j].name
  {
    var s := SeedGenres();
    forall i, j | i in s && j in s && i != j ensures s[i].name != s[j].name {
      assert 1 <= i <= 6 && 1 <= j <= 6;
    }
  }

  /** In ascending key order, a TreeMap's iteration order, the catalog lists
      genres 1 .. 6 with the names of GenreNames in turn. */
  lemma SeedGenresInOrder()
    ensures SortedKeys(SeedGenres().Keys) == [1, 2, 3, 4, 5, 6]
    ensures forall i | 0 <= i < 6 ::
      SeedGenres()[SortedKeys(SeedGenres().Keys)[i]].name == Some(GenreNames[i])
  {
    SeedGenreKeys();
    CatalogInOrder(SeedGenres());
  }

  lemma CatalogInOrder(g: map<int, Genre>)
    requires forall k :: k in g <==> 1 <= k <= 6
    requires |g| == 6
    requires forall k | k in g :: g[k].name == Some(GenreNames[k - 1])
    ensures SortedKeys(g.Keys) == [1, 2, 3, 4, 5, 6]
    ensures forall i | 0 <= i < 6 :: g[SortedKeys(g.Keys)[i]].name == Some(GenreNames[i])
  {
    SortedKeysOfRange(g.Keys, 6);
    var ks := SortedKeys(g.Keys);
    assert ks == [1, 2, 3, 4, 5, 6] by {
      assert ks[0] == 1 && ks[1] == 2 && ks[2] == 3 && ks[3] == 4 && ks[4] == 5 && ks[5] == 6;
    }
  }

  /** The catalog's key set is exactly 1 .. 6. */
  lemma SeedGenreKeys()
    ensures forall k :: k in SeedGenres() <==> 1 <= k <= 6
    ensures |SeedGenres()| == 6
  {
    var s := SeedGenres().Keys;
    assert s == {1, 2, 3, 4, 5, 6};
  }
}
