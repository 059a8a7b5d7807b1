/** util/MpaUtil.java: the seed table of the MPA rating catalog. */
module MpaUtil {
  import opened Common
  import opened Model

  /** The rating names, in id order. */
  const MpaNames: seq<string> := ["G", "PG", "PG-13", "R", "NC-17"]

  /** The rating descriptions, in id order. */
  const MpaDescriptions: seq<string> := [
    "у фильма нет возрастных ограничений",
    "детям рекомендуется смотреть фильм с родителями",
    "детям до 13 лет просмотр не желателен",
    "лицам до 17 лет просматривать фильм можно только в присутствии взрослого",
    "лицам до 18 лет просмотр запрещён"]

  /** The catalog `fillMpa` builds: key i holds rating i with name
      MpaNames[i - 1] and description MpaDescriptions[i - 1], for i = 1 .. 5. */
  function SeedMpa(): map<int, Mpa> {
    map i | 1 <= i <= |MpaNames| :: Mpa(Some(i), Some(MpaNames[i - 1]), Some(MpaDescriptions[i - 1]))
  }

  /** The loop of `fillMpa`: one fresh entry per name, keyed by its id. */
  method FillMpa() returns (mpaMap: map<int, Mpa>)
    ensures forall i :: i in mpaMap <==> 1 <= i <= 5
    ensures forall i | i in mpaMap :: mpaMap[i].id == Some(i)
    ensures forall i | i in mpaMap :: mpaMap[i].name == Some(MpaNames[i - 1])
    ensures forall i | i in mpaMap :: mpaMap[i].description == Some(MpaDescriptions[i - 1])
    ensures mpaMap == SeedMpa()
  {
    mpaMap := map[];
    for i := 1 to |MpaNames| + 1
      invariant forall j :: j in mpaMap <==> 1 <= j < i
      invariant forall j | j in mpaMap ::
        mpaMap[j] == Mpa(Some(j), Some(MpaNames[j - 1]), Some(MpaDescriptions[j - 1]))
    {
      var mpa := Mpa(Some(i), Some(MpaNames[i - 1]), Some(MpaDescriptions[i - 1]));
      mpaMap := mpaMap[mpa.id.value := mpa];
    }
  }

  /** No two seeded ratings share a name. */
  lemma SeedMpaNamesDistinct()
    ensures forall i, j | i in SeedMpa() && j in SeedMpa() && i != j ::
      SeedMpa()[i].name != SeedMpa()[j].name
  {
    var s := SeedMpa();
    forall i, j | i in s && j in s && i != j ensures s[i].name != s[j].name {
      assert 1 <= i <= 5 && 1 <= j <= 5;
    }
  }

  /** The catalog's key set is exactly 1 .. 5. */
  lemma SeedMpaKeys()
    ensures forall k :: k in SeedMpa() <==> 1 <= k <= 5
    ensures |SeedMpa()| == 5
  {
    var s := SeedMpa().Keys;
    assert s == {1, 2, 3, 4, 5};
  }

  /** In ascending key order, a TreeMap's iteration order, the catalog lists
      ratings 1 .. 5 named G, PG, PG-13, R, NC-17. */
  lemma SeedMpaInOrder()
    ensures SortedKeys(SeedMpa().Keys) == [1, 2, 3, 4, 5]
    ensures forall i | 0 <= i < 5 ::
      SeedMpa()[SortedKeys(SeedMpa().Keys)[i]].name == Some(MpaNames[i])
  {
    SeedMpaKeys();
    CatalogInOrder(SeedMpa());
  }

  lemma CatalogInOrder(m: map<int, Mpa>)
    requires forall k :: k in m <==> 1 <= k <= 5
    requires |m| == 5
    requires forall k | k in m :: m[k].name == Some(MpaNames[k - 1])
    ensures SortedKeys(m.Keys) == [1, 2, 3, 4, 5]
    ensures forall i | 0 <= i < 5 :: m[SortedKeys(m.Keys)[i]].name == Some(MpaNames[i])
  {
    SortedKeysOfRange(m.Keys, 5);
    var ks := SortedKeys(m.Keys);
    assert ks == [1, 2, 3, 4, 5] by {
      assert ks[0] == 1 && ks[1] == 2 && ks[2] == 3 && ks[3] == 4 && ks[4] == 5;
    }
  }
}
