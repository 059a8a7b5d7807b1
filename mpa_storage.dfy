/** storage/mpa/InMemoryMpaStorage.java: the MPA rating catalog, a TreeMap
    from id to rating seeded with the five ratings of MpaUtil. */
module MpaStorage {
  import opened Common
  import opened Model
  import opened MpaUtil

  /** The rating `update` leaves behind: description and name are each
      replaced independently, and only by a non-null, non-blank value. */
  function RevisedMpa(cur: Mpa, upd: Mpa): (r: Mpa)
    ensures r.id == cur.id
    ensures r.description == (if HasText(upd.description) then upd.description else cur.description)
    ensures r.name == (if HasText(upd.name) then upd.name else cur.name)
  {
    var withDescription := if HasText(upd.description) then cur.(description := upd.description) else cur;
    if HasText(upd.name) then withDescription.(name := upd.name) else withDescription
  }

  /** A request whose name and description are both null or blank leaves
      the rating as it was. */
  lemma RevisedMpaBlankRequest(cur: Mpa, upd: Mpa)
    requires !HasText(upd.name) && !HasText(upd.description)
    ensures RevisedMpa(cur, upd) == cur
  {
  }

  /** Revising twice with the same request is revising once. */
  lemma RevisedMpaIdempotent(cur: Mpa, upd: Mpa)
    ensures RevisedMpa(RevisedMpa(cur, upd), upd) == RevisedMpa(cur, upd)
  {
  }

  class InMemoryMpaStorage {
    var mpaMap: map<int, Mpa>

    /** Every rating is stored under its own id. */
    predicate Valid()
      reads this
    {
      forall k | k in mpaMap :: mpaMap[k].id == Some(k)
    }

    /** The catalog starts as the seed table. */
    constructor ()
      ensures mpaMap == SeedMpa()
      ensures Valid()
    {
      var seed := FillMpa();
      mpaMap := seed;
    }

    /** `getNextId`: one more than the largest id, 1 when empty. */
    function NextMpaId(): (r: int)
      reads this
      ensures r !in mpaMap
      ensures forall k | k in mpaMap :: k < r
    {
      NextId(mpaMap.Keys)
    }

    /** `create`: the rating gets the next id and is stored under it. */
    method Create(mpa: Mpa) returns (r: Mpa)
      requires Valid()
      modifies this
      ensures Valid()
      ensures r == mpa.(id := Some(old(NextMpaId())))
      ensures mpaMap == old(mpaMap)[r.id.value := r]
    {
      r := mpa.(id := Some(NextMpaId()));
      mpaMap := mpaMap[r.id.value := r];
    }

    /** `findById`: the rating stored under `id`, if any; it carries that id. */
    function FindById(id: int): (r: Option<Mpa>)
      requires Valid()
      reads this
      ensures r.Some? <==> id in mpaMap
      ensures r.Some? ==> r.value == mpaMap[id] && r.value.id == Some(id)
    {
      Get(mpaMap, id)
    }

    /** `findAll`: every stored rating once, in ascending id order. */
    function FindAll(): (r: seq<Mpa>)
      requires Valid()
      reads this
      ensures |r| == |mpaMap|
      ensures forall m :: m in r <==> m in mpaMap.Values
      ensures forall i, j | 0 <= i < j < |r| :: r[i].id.Some? && r[j].id.Some? && r[i].id.value < r[j].id.value
    {
      ValuesInOrderCovers(mpaMap);
      var r := ValuesInOrder(mpaMap);
      r
    }

    /** `update`: an unknown id changes nothing; a known one gets the
        request's non-blank description and name, each on its own. The id
        is non-null, since a TreeMap rejects a null key. */
    method Update(newMpa: Mpa) returns (r: Option<Mpa>)
      requires newMpa.id.Some?
      requires Valid()
      modifies this
      ensures Valid()
      ensures newMpa.id.value !in old(mpaMap) ==> r.None? && mpaMap == old(mpaMap)
      ensures newMpa.id.value in old(mpaMap) ==>
        && r == Some(RevisedMpa(old(mpaMap)[newMpa.id.value], newMpa))
        && mpaMap == old(mpaMap)[newMpa.id.value := r.value]
    {
      var id := newMpa.id.value;
      if id !in mpaMap {
        return None;
      }
      var oldMpa := mpaMap[id];
      if HasText(newMpa.description) {
        oldMpa := oldMpa.(description := newMpa.description);
      }
      if HasText(newMpa.name) {
        oldMpa := oldMpa.(name := newMpa.name);
      }
      mpaMap := mpaMap[oldMpa.id.value := oldMpa];
      r := Some(oldMpa);
    }

    /** `removeById`: the rating that was stored under `id`, which is gone
        afterwards; nothing else changes. */
    method RemoveById(id: int) returns (r: Option<Mpa>)
      requires Valid()
      modifies this
      ensures Valid()
      ensures r == Get(old(mpaMap), id)
      ensures mpaMap == old(mpaMap) - {id}
    {
      r := Get(mpaMap, id);
      mpaMap := mpaMap - {id};
    }

    /** `contains`: the rating's id is a key; name and description play no part. */
    function Contains(mpa: Mpa): (r: bool)
      requires mpa.id.Some?
      reads this
      ensures r <==> mpa.id.value in mpaMap
    {
      mpa.id.value in mpaMap
    }

    /** Containment is equality by id with some stored rating. */
    lemma ContainsIsEqualityById(mpa: Mpa)
      requires mpa.id.Some?
      requires Valid()
      ensures Contains(mpa) <==> exists m | m in mpaMap.Values :: MpaEquals(m, mpa)
    {
      var id := mpa.id.value;
      if id in mpaMap {
        assert mpaMap[id].id == Some(id);
        assert mpaMap[id] in mpaMap.Values && MpaEquals(mpaMap[id], mpa);
      }
      if exists m | m in mpaMap.Values :: MpaEquals(m, mpa) {
        var m :| m in mpaMap.Values && MpaEquals(m, mpa);
        if forall k | k in mpaMap :: mpaMap[k] != m { assert false; }
        var k :| k in mpaMap && mpaMap[k] == m;
        assert k == id;
      }
    }
  }

  /** On the seed table the first created rating gets id 6. */
  lemma FirstCreatedMpaId()
    ensures NextId(SeedMpa().Keys) == 6
  {
    SeedMpaKeys();
    NextIdOfRange(SeedMpa().Keys, 5);
  }
}
