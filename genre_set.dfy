/** The genre handling inside storage/film/InMemoryFilmStorage.java: each
    requested genre is looked up by id in the catalog, and the results are
    collected into a TreeSet ordered by id, which this model writes as a
    sequence with strictly increasing ids. */
module GenreSet {
  import opened Common
  import opened Model

  /** Every genre carries a non-null id. */
  predicate HasIds(gs: seq<Genre>) {
    forall i | 0 <= i < |gs| :: gs[i].id.Some?
  }

  /** The iteration order of a TreeSet compared by id: ids strictly increase. */
  predicate IdsIncreasing(gs: seq<Genre>) {
    HasIds(gs) && forall i, j | 0 <= i < j < |gs| :: gs[i].id.value < gs[j].id.value
  }

  /** The ids that occur in a list of genres. */
  function GenreIds(gs: seq<Genre>): (r: set<int>)
    requires HasIds(gs)
    ensures forall i | 0 <= i < |gs| :: gs[i].id.value in r
  {
    set i | 0 <= i < |gs| :: gs[i].id.value
  }

  /** The ids of a concatenation are those of its parts. */
  lemma GenreIdsConcat(a: seq<Genre>, b: seq<Genre>)
    requires HasIds(a) && HasIds(b)
    ensures HasIds(a + b)
    ensures GenreIds(a + b) == GenreIds(a) + GenreIds(b)
  {
    var ab := a + b;
    assert forall i | 0 <= i < |a| :: ab[i] == a[i];
    assert forall i | 0 <= i < |b| :: ab[|a| + i] == b[i];
    forall k | k in GenreIds(ab) ensures k in GenreIds(a) + GenreIds(b) {
      var i :| 0 <= i < |ab| && ab[i].id.value == k;
      if i >= |a| { assert ab[i] == b[i - |a|]; }
    }
  }

  lemma GenreIdsSingleton(g: Genre)
    requires g.id.Some?
    ensures HasIds([g]) && GenreIds([g]) == {g.id.value}
  {
    assert [g][0] == g;
  }

  /** A catalog in which every entry is stored under its own id. */
  predicate KeyedById(catalog: map<int, Genre>) {
    forall k | k in catalog :: catalog[k].id == Some(k)
  }

  /** A genre with a smaller id than every element may go in front. */
  lemma ConsIncreasing(x: Genre, rest: seq<Genre>)
    requires x.id.Some? && IdsIncreasing(rest)
    requires forall i | 0 <= i < |rest| :: x.id.value < rest[i].id.value
    ensures IdsIncreasing([x] + rest)
    ensures GenreIds([x] + rest) == {x.id.value} + GenreIds(rest)
  {
    var r := [x] + rest;
    assert forall i | 0 < i < |r| :: r[i] == rest[i - 1];
    GenreIdsSingleton(x);
    GenreIdsConcat([x], rest);
  }

  /** `TreeSet.add` on a set held in id order: a genre whose id is already
      present leaves the set as it is; otherwise it goes in before the first
      genre with a larger id. */
  function InsertById(s: seq<Genre>, g: Genre): (r: seq<Genre>)
    requires HasIds(s)
    requires g.id.Some?
    ensures HasIds(r)
    decreases |s|
  {
    if s == [] then [g]
    else if g.id.value < s[0].id.value then [g] + s
    else if g.id.value == s[0].id.value then s
    else
      var rest := InsertById(s[1..], g);
      var r := [s[0]] + rest;
      assert forall i | 0 < i < |r| :: r[i] == rest[i - 1];
      r
  }

  /** `add` puts in the genre's id and no other, and brings in no genre but
      the one added. */
  lemma {:induction false} InsertByIdElements(s: seq<Genre>, g: Genre)
    requires HasIds(s)
    requires g.id.Some?
    ensures GenreIds(InsertById(s, g)) == GenreIds(s) + {g.id.value}
    ensures forall h | h in InsertById(s, g) :: h in s || h == g
    decreases |s|
  {
    var r := InsertById(s, g);
    GenreIdsSingleton(g);
    if s == [] {
    } else if g.id.value < s[0].id.value {
      GenreIdsConcat([g], s);
    } else if g.id.value == s[0].id.value {
      assert g.id.value in GenreIds(s);
    } else {
      var tail := s[1..];
      assert s == [s[0]] + tail;
      var rest := InsertById(tail, g);
      InsertByIdElements(tail, g);
      assert r == [s[0]] + rest;
      GenreIdsConcat([s[0]], tail);
      GenreIdsConcat([s[0]], rest);
      forall h | h in r ensures h in s || h == g {
        if h != s[0] {
          assert h in rest;
        }
      }
    }
  }

  /** `add` keeps the set in id order. */
  lemma {:induction false} InsertByIdIncreasing(s: seq<Genre>, g: Genre)
    requires IdsIncreasing(s)
    requires g.id.Some?
    ensures IdsIncreasing(InsertById(s, g))
    decreases |s|
  {
    if s == [] {
    } else if g.id.value < s[0].id.value {
      ConsIncreasing(g, s);
    } else if g.id.value > s[0].id.value {
      var tail := s[1..];
      assert forall i | 0 <= i < |tail| :: tail[i] == s[i + 1];
      var rest := InsertById(tail, g);
      InsertByIdIncreasing(tail, g);
      InsertByIdElements(tail, g);
      forall i | 0 <= i < |rest| ensures s[0].id.value < rest[i].id.value {
        assert rest[i].id.value in GenreIds(rest);
        if rest[i].id.value != g.id.value {
          var j :| 0 <= j < |tail| && tail[j].id.value == rest[i].id.value;
        }
      }
      ConsIncreasing(s[0], rest);
    }
  }

  /** Adding a genre whose id is present changes nothing. */
  lemma {:induction false} InsertByIdPresent(s: seq<Genre>, g: Genre)
    requires IdsIncreasing(s)
    requires g.id.Some? && g.id.value in GenreIds(s)
    ensures InsertById(s, g) == s
    decreases |s|
  {
    var i :| 0 <= i < |s| && s[i].id.value == g.id.value;
    assert s[0].id.value <= g.id.value by {
      if i > 0 { assert s[0].id.value < s[i].id.value; }
    }
    if g.id.value > s[0].id.value {
      var tail := s[1..];
      assert forall j | 0 <= j < |tail| :: tail[j] == s[j + 1];
      assert i > 0 && tail[i - 1].id.value == g.id.value;
      InsertByIdPresent(tail, g);
      assert s == [s[0]] + tail;
    }
  }

  /** `collect(toCollection(TreeSet::new))`: the genres added one by one in
      list order. */
  function ToTreeSet(gs: seq<Genre>): (r: seq<Genre>)
    requires HasIds(gs)
    ensures HasIds(r)
  {
    if gs == [] then []
    else InsertById(ToTreeSet(gs[..|gs| - 1]), gs[|gs| - 1])
  }

  /** The collected set is in id order, holds every id of the list, and
      holds only genres of the list. */
  lemma {:induction false} ToTreeSetSpec(gs: seq<Genre>)
    requires HasIds(gs)
    ensures IdsIncreasing(ToTreeSet(gs))
    ensures GenreIds(ToTreeSet(gs)) == GenreIds(gs)
    ensures forall h | h in ToTreeSet(gs) :: h in gs
  {
    if gs != [] {
      var init := gs[..|gs| - 1];
      var last := gs[|gs| - 1];
      assert gs == init + [last];
      GenreIdsConcat(init, [last]);
      GenreIdsSingleton(last);
      ToTreeSetSpec(init);
      var acc := ToTreeSet(init);
      InsertByIdIncreasing(acc, last);
      InsertByIdElements(acc, last);
      var r := ToTreeSet(gs);
      forall h | h in r ensures h in gs {
        if h != last { assert h in acc && h in init; }
      }
    }
  }

  /** The `map(findById ... orElseThrow)` stage: the catalog entry for each
      requested id in turn, or NotFound at the first id the catalog lacks. */
  function CatalogEntries(catalog: map<int, Genre>, gs: seq<Genre>): (r: Result<seq<Genre>>)
    requires HasIds(gs)
    ensures r.Ok? <==> forall i | 0 <= i < |gs| :: gs[i].id.value in catalog
    ensures r.Err? ==> r.error == NotFound
    ensures r.Ok? ==> |r.value| == |gs| && forall i | 0 <= i < |gs| :: r.value[i] == catalog[gs[i].id.value]
  {
    if gs == [] then Ok([])
    else
      var tail := gs[1..];
      assert forall i | 0 <= i < |tail| :: tail[i] == gs[i + 1];
      if gs[0].id.value !in catalog then Err(NotFound)
      else match CatalogEntries(catalog, tail) {
        case Err(e) => Err(e)
        case Ok(rest) =>
          var r := [catalog[gs[0].id.value]] + rest;
          assert forall i | 0 < i < |gs| :: r[i] == rest[i - 1];
          Ok(r)
      }
  }

  /** Replacing each genre by the catalog entry for its id keeps the ids,
      when the catalog stores each entry under its own id. */
  lemma EntriesKeepIds(catalog: map<int, Genre>, gs: seq<Genre>, entries: seq<Genre>)
    requires HasIds(gs)
    requires KeyedById(catalog)
    requires forall i | 0 <= i < |gs| :: gs[i].id.value in catalog
    requires |entries| == |gs| && forall i | 0 <= i < |gs| :: entries[i] == catalog[gs[i].id.value]
    ensures HasIds(entries) && GenreIds(entries) == GenreIds(gs)
    ensures forall i | 0 <= i < |entries| :: entries[i].id.value in catalog && entries[i] == catalog[entries[i].id.value]
  {
    forall i | 0 <= i < |entries| ensures entries[i].id == gs[i].id {
      var k := gs[i].id.value;
      assert catalog[k].id == Some(k);
    }
    forall k | k in GenreIds(gs) ensures k in GenreIds(entries) {
      var i :| 0 <= i < |gs| && gs[i].id.value == k;
      assert entries[i].id.value == k;
    }
  }

  /** `getGenres`: the requested genres replaced by their catalog entries
      and collected into a TreeSet ordered by id. */
  function ResolveGenres(catalog: map<int, Genre>, gs: seq<Genre>): (r: Result<seq<Genre>>)
    requires HasIds(gs)
    requires KeyedById(catalog)
    ensures r.Ok? <==> forall i | 0 <= i < |gs| :: gs[i].id.value in catalog
    ensures r.Err? ==> r.error == NotFound
    ensures r.Ok? ==> IdsIncreasing(r.value) && GenreIds(r.value) == GenreIds(gs)
    ensures r.Ok? ==> forall i | 0 <= i < |r.value| ::
      r.value[i].id.value in catalog && r.value[i] == catalog[r.value[i].id.value]
  {
    match CatalogEntries(catalog, gs) {
      case Err(e) => Err(e)
      case Ok(entries) =>
        EntriesKeepIds(catalog, gs, entries);
        var r := ToTreeSet(entries);
        ToTreeSetSpec(entries);
        assert forall i | 0 <= i < |r| :: r[i] in entries;
        Ok(r)
    }
  }
}
