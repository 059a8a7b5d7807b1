/** service/MpaService.java: the MPA rating catalog's business rules on top
    of the injected rating store, the in-memory one of storage/mpa. A name
    may belong to one rating only. */
module MpaServices {
  import opened Common
  import opened Model
  import opened MpaUtil
  import opened MpaStorage

  /** The rule the service keeps: no two stored ratings share a name. */
  predicate NamesDistinct(mpas: map<int, Mpa>) {
    forall i, j | i in mpas && j in mpas && i != j :: mpas[i].name != mpas[j].name
  }

  /** Some stored rating carries exactly this name. */
  predicate NameTaken(mpas: map<int, Mpa>, name: string) {
    exists k | k in mpas :: mpas[k].name == Some(name)
  }

  /** The duplicate test of `update`: a non-null name that differs from the
      rating's current one and is already taken. */
  predicate RenameClashes(mpas: map<int, Mpa>, id: int, newName: Option<string>)
    requires id in mpas
  {
    newName.Some? && newName != mpas[id].name && NameTaken(mpas, newName.value)
  }

  /** The seed catalog obeys the rule. */
  lemma SeedNamesDistinct()
    ensures NamesDistinct(SeedMpa())
  {
    SeedMpaNamesDistinct();
  }

  /** Storing a rating under a fresh id with a name nobody has keeps names
      distinct. */
  lemma CreateKeepsNamesDistinct(mpas: map<int, Mpa>, id: int, m: Mpa)
    requires NamesDistinct(mpas)
    requires id !in mpas
    requires m.name.Some? && !NameTaken(mpas, m.name.value)
    ensures NamesDistinct(mpas[id := m])
  {
    var after := mpas[id := m];
    forall i, j | i in after && j in after && i != j ensures after[i].name != after[j].name {
      if i == id {
        assert after[j] == mpas[j];
      } else if j == id {
        assert after[i] == mpas[i];
      }
    }
  }

  /** A revision that passes the duplicate test keeps names distinct; the
      description plays no part. */
  lemma RenameKeepsNamesDistinct(mpas: map<int, Mpa>, id: int, upd: Mpa)
    requires NamesDistinct(mpas)
    requires id in mpas
    requires !RenameClashes(mpas, id, upd.name)
    ensures NamesDistinct(mpas[id := RevisedMpa(mpas[id], upd)])
  {
    var m := RevisedMpa(mpas[id], upd);
    var after := mpas[id := m];
    if HasText(upd.name) && upd.name != mpas[id].name {
      forall i, j | i in after && j in after && i != j ensures after[i].name != after[j].name {
        if i == id {
          assert after[j] == mpas[j];
          assert mpas[j].name != Some(upd.name.value);
        } else if j == id {
          assert after[i] == mpas[i];
          assert mpas[i].name != Some(upd.name.value);
        }
      }
    } else {
      assert m.name == mpas[id].name;
      forall i, j | i in after && j in after && i != j ensures after[i].name != after[j].name {
        assert after[i].name == mpas[i].name && after[j].name == mpas[j].name;
      }
    }
  }

  /** Renaming a rating to the name another rating already has is a clash,
      while keeping one's own name never is. */
  lemma RenameClashesExactly(mpas: map<int, Mpa>, id: int, other: int)
    requires NamesDistinct(mpas)
    requires id in mpas && other in mpas && other != id
    requires mpas[other].name.Some?
    ensures RenameClashes(mpas, id, mpas[other].name)
    ensures !RenameClashes(mpas, id, mpas[id].name)
  {
    assert mpas[other].name != mpas[id].name;
  }

  class MpaService {
    const mpaStorage: InMemoryMpaStorage

    constructor (mpaStorage: InMemoryMpaStorage)
      ensures this.mpaStorage == mpaStorage
    {
      this.mpaStorage := mpaStorage;
    }

    predicate Valid()
      reads this, mpaStorage
    {
      mpaStorage.Valid()
    }

    /** `containsName`: some rating of `findAll` has exactly this name. A
        null name throws NullPointerException in the source, so the name is
        given. */
    function ContainsName(name: string): (r: bool)
      requires Valid()
      reads this, mpaStorage
      ensures r <==> NameTaken(mpaStorage.mpaMap, name)
    {
      var all := mpaStorage.FindAll();
      var r := exists i | 0 <= i < |all| :: all[i].name == Some(name);
      assert r ==> NameTaken(mpaStorage.mpaMap, name) by {
        if r {
          var i :| 0 <= i < |all| && all[i].name == Some(name);
          assert all[i] in mpaStorage.mpaMap.Values;
        }
      }
      assert NameTaken(mpaStorage.mpaMap, name) ==> r by {
        if NameTaken(mpaStorage.mpaMap, name) {
          var k :| k in mpaStorage.mpaMap && mpaStorage.mpaMap[k].name == Some(name);
          assert mpaStorage.mpaMap[k] in mpaStorage.mpaMap.Values;
          assert mpaStorage.mpaMap[k] in all;
        }
      }
      r
    }

    /** `create`: a taken name throws DuplicatedData and stores nothing;
        otherwise the store numbers and keeps the rating. */
    method Create(mpa: Mpa) returns (r: Result<Mpa>)
      requires Valid()
      requires mpa.name.Some?
      modifies mpaStorage
      ensures Valid()
      ensures old(NameTaken(mpaStorage.mpaMap, mpa.name.value)) ==>
        r == Err(DuplicatedData) && mpaStorage.mpaMap == old(mpaStorage.mpaMap)
      ensures !old(NameTaken(mpaStorage.mpaMap, mpa.name.value)) ==>
        && r == Ok(mpa.(id := Some(old(mpaStorage.NextMpaId()))))
        && mpaStorage.mpaMap == old(mpaStorage.mpaMap)[r.value.id.value := r.value]
      ensures NamesDistinct(old(mpaStorage.mpaMap)) ==> NamesDistinct(mpaStorage.mpaMap)
    {
      if ContainsName(mpa.name.value) {
        return Err(DuplicatedData);
      }
      ghost var before := mpaStorage.mpaMap;
      var created := mpaStorage.Create(mpa);
      if NamesDistinct(before) {
        CreateKeepsNamesDistinct(before, created.id.value, created);
      }
      r := Ok(created);
    }

    /** `findById`: a null id is a ConditionsNotMet error, an unknown one
        NotFound; otherwise the rating stored under it. */
    function FindById(id: Option<int>): (r: Result<Mpa>)
      requires Valid()
      reads this, mpaStorage
      ensures id.None? ==> r == Err(ConditionsNotMet)
      ensures id.Some? ==> (r.Ok? <==> id.value in mpaStorage.mpaMap)
      ensures id.Some? && id.value !in mpaStorage.mpaMap ==> r == Err(NotFound)
      ensures r.Ok? ==> r.value == mpaStorage.mpaMap[id.value] && r.value.id == id
    {
      if id.None? then Err(ConditionsNotMet)
      else match mpaStorage.FindById(id.value) {
        case None => Err(NotFound)
        case Some(m) => Ok(m)
      }
    }

    /** `update`: the rating must exist (ConditionsNotMet for a null id,
        NotFound for an unknown one); a new name that another rating already
        has throws DuplicatedData; otherwise the store revises it. Every
        error leaves the catalog as it was. */
    method Update(newMpa: Mpa) returns (r: Result<Mpa>)
      requires Valid()
      modifies mpaStorage
      ensures Valid()
      ensures newMpa.id.None? ==> r == Err(ConditionsNotMet)
      ensures newMpa.id.Some? && newMpa.id.value !in old(mpaStorage.mpaMap) ==> r == Err(NotFound)
      ensures newMpa.id.Some? && newMpa.id.value in old(mpaStorage.mpaMap) &&
              old(RenameClashes(mpaStorage.mpaMap, newMpa.id.value, newMpa.name)) ==>
        r == Err(DuplicatedData)
      ensures r.Err? ==> mpaStorage.mpaMap == old(mpaStorage.mpaMap)
      ensures newMpa.id.Some? && newMpa.id.value in old(mpaStorage.mpaMap) &&
              !old(RenameClashes(mpaStorage.mpaMap, newMpa.id.value, newMpa.name)) ==>
        && r == Ok(RevisedMpa(old(mpaStorage.mpaMap)[newMpa.id.value], newMpa))
        && mpaStorage.mpaMap == old(mpaStorage.mpaMap)[newMpa.id.value := r.value]
      ensures NamesDistinct(old(mpaStorage.mpaMap)) ==> NamesDistinct(mpaStorage.mpaMap)
    {
      var found := FindById(newMpa.id);
      if found.Err? {
        return Err(found.error);
      }
      var oldMpa := found.value;
      if newMpa.name.Some? && newMpa.name != oldMpa.name && ContainsName(newMpa.name.value) {
        return Err(DuplicatedData);
      }
      ghost var before := mpaStorage.mpaMap;
      var updated := mpaStorage.Update(newMpa);
      if NamesDistinct(before) {
        RenameKeepsNamesDistinct(before, newMpa.id.value, newMpa);
      }
      r := Ok(updated.value);
    }
  }
}
