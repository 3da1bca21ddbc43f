/**
 * The building service: thin wrappers over the base repository. The unique
 * address constraint is the only check `create` and `update` meet; `delete`
 * refuses an unknown id.
 */
module BuildingService {
  import opened Outcome
  import opened Entities
  import opened BaseRepository

  /** One `setattr` on a building. */
  datatype BuildingAttr = SetAddress(address: string) | SetLatitude(latitude: real) | SetLongitude(longitude: real)

  function AssignBuilding(b: Building, attr: BuildingAttr): Building {
    match attr
    case SetAddress(s) => b.(address := s)
    case SetLatitude(x) => b.(latitude := x)
    case SetLongitude(y) => b.(longitude := y)
  }

  /** The keyword arguments `address=..., latitude=..., longitude=...` of the repository update. */
  function BuildingKwargs(address: Option<string>, latitude: Option<real>, longitude: Option<real>)
    : seq<Option<BuildingAttr>>
  {
    [if address.Some? then Some(SetAddress(address.value)) else None,
     if latitude.Some? then Some(SetLatitude(latitude.value)) else None,
     if longitude.Some? then Some(SetLongitude(longitude.value)) else None]
  }

  /** The partial update changes exactly the fields given as non-None. */
  lemma BuildingUpdateFields(b: Building, address: Option<string>, latitude: Option<real>, longitude: Option<real>)
    ensures ApplyKwargs(b, BuildingKwargs(address, latitude, longitude), AssignBuilding)
         == Building(address.GetOr(b.address), latitude.GetOr(b.latitude), longitude.GetOr(b.longitude))
  {
    var kw := BuildingKwargs(address, latitude, longitude);
    var one := kw[..1];
    var two := kw[..2];
    assert one[..0] == [] && |one| == 1 && one[0] == kw[0];
    assert two[..1] == one && |two| == 2 && two[1] == kw[1];
    assert kw[..|kw| - 1] == two;
    assert ApplyKwargs(b, one[..0], AssignBuilding) == b;
    var b1 := ApplyKwargs(b, one, AssignBuilding);
    assert b1 == b.(address := address.GetOr(b.address));
    var b2 := ApplyKwargs(b, two, AssignBuilding);
    assert b2 == b1.(latitude := latitude.GetOr(b.latitude));
  }

  class BuildingService {
    const repo: Table<Building>

    ghost predicate Valid()
      reads this, repo
    {
      repo.Valid() && UniqueAddresses(repo.rows)
    }

    constructor (repo: Table<Building>)
      requires repo.Valid() && UniqueAddresses(repo.rows)
      ensures this.repo == repo && Valid()
    {
      this.repo := repo;
    }

    /** `get_all`: every stored building. */
    method GetAll() returns (all: map<int, Building>)
      requires Valid()
      ensures all == repo.rows && UniqueAddresses(all)
    {
      all := repo.GetAll();
    }

    /** `get_by_id`: the building with that id, if there is one. */
    method GetById(id: int) returns (b: Option<Building>)
      ensures b.Some? <==> id in repo.rows
      ensures b.Some? ==> b.value == repo.rows[id]
    {
      b := repo.GetById(id);
    }

    /**
     * `create(address, latitude, longitude)`: stores exactly that record under a
     * fresh id, unless another building already has the address.
     */
    method Create(address: string, latitude: real, longitude: real) returns (r: Result<int>)
      requires Valid()
      modifies repo
      ensures Valid()
      ensures r == (if AddressTaken(old(repo.rows), address, None) then Err(UniqueViolation) else Ok(old(repo.nextId)))
      ensures r.Err? ==> repo.rows == old(repo.rows) && repo.nextId == old(repo.nextId)
      ensures r.Ok? ==> r.value !in old(repo.rows) &&
                        repo.rows == old(repo.rows)[r.value := Building(address, latitude, longitude)]
      ensures r.Ok? ==> repo.nextId == old(repo.nextId) + 1
    {
      if AddressTaken(repo.rows, address, None) {
        return Err(UniqueViolation);
      }
      var b := Building(address, latitude, longitude);
      PutKeepsUniqueAddresses(repo.rows, repo.nextId, b);
      var id := repo.Create(b);
      r := Ok(id);
    }

    /**
     * `update(building, address, latitude, longitude)`: the given fields replace
     * the stored ones, the others stay; a new address already used by another
     * building is refused and nothing changes.
     */
    method Update(id: int, address: Option<string>, latitude: Option<real>, longitude: Option<real>)
      returns (r: Result<Building>)
      requires Valid() && id in repo.rows
      modifies repo
      ensures Valid() && repo.nextId == old(repo.nextId)
      ensures r.Err? <==> address.Some? && AddressTaken(old(repo.rows), address.value, Some(id))
      ensures r.Err? ==> r.error == UniqueViolation && repo.rows == old(repo.rows)
      ensures r.Ok? ==> r.value == Building(address.GetOr(old(repo.rows)[id].address),
                                             latitude.GetOr(old(repo.rows)[id].latitude),
                                             longitude.GetOr(old(repo.rows)[id].longitude))
      ensures r.Ok? ==> repo.rows == old(repo.rows)[id := r.value]
    {
      if address.Some? && AddressTaken(repo.rows, address.value, Some(id)) {
        return Err(UniqueViolation);
      }
      var stored := repo.rows[id];
      BuildingUpdateFields(stored, address, latitude, longitude);
      PutKeepsUniqueAddresses(repo.rows, id, Building(address.GetOr(stored.address), latitude.GetOr(stored.latitude),
                                                      longitude.GetOr(stored.longitude)));
      var updated := repo.Update(id, BuildingKwargs(address, latitude, longitude), AssignBuilding);
      r := Ok(updated);
    }

    /** `delete(building_id)`: an unknown id fails and removes nothing; otherwise exactly that row goes. */
    method Delete(id: int) returns (r: Result<()>)
      requires Valid()
      modifies repo
      ensures Valid() && repo.nextId == old(repo.nextId)
      ensures r == (if id in old(repo.rows) then Ok(()) else Err(BuildingNotFound(id)))
      ensures repo.rows == if r.Ok? then old(repo.rows) - {id} else old(repo.rows)
    {
      var building := repo.GetById(id);
      if building.None? {
        return Err(BuildingNotFound(id));
      }
      repo.Delete(id);
      r := Ok(());
    }
  }
}
