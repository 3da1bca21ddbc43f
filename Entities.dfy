/**
 * The stored records and the constraints the schema declares on them.
 * Every table is a map from primary key to record; the key is the record's id.
 */
module Entities {
  import opened Outcome

  datatype Building = Building(address: string, latitude: real, longitude: real)

  /** `parentId == None` marks a root of the activity forest. */
  datatype Activity = Activity(name: string, parentId: Option<int>)

  /**
   * `activities` is the organization's side of the organization/activity join
   * relation. The relation's composite primary key makes each pair occur at most
   * once, which a set of activity ids per organization states by construction.
   */
  datatype Organization = Organization(
    name: string,
    phones: seq<string>,
    buildingId: Option<int>,
    activities: set<int>)

  /** Building addresses are unique. */
  ghost predicate UniqueAddresses(buildings: map<int, Building>) {
    forall i, j :: i in buildings && j in buildings && i != j ==>
      buildings[i].address != buildings[j].address
  }

  /** Activity names are unique. */
  ghost predicate UniqueNames(acts: map<int, Activity>) {
    forall i, j :: i in acts && j in acts && i != j ==> acts[i].name != acts[j].name
  }

  /** Whether a building other than `except` already has this address. */
  predicate AddressTaken(buildings: map<int, Building>, address: string, except: Option<int>) {
    exists i :: i in buildings && Some(i) != except && buildings[i].address == address
  }

  /** Whether an activity other than `except` already has this name. */
  predicate NameTaken(acts: map<int, Activity>, name: string, except: Option<int>) {
    exists i :: i in acts && Some(i) != except && acts[i].name == name
  }

  /** Writing `b` at key `id` keeps addresses unique exactly when no other building has its address. */
  lemma PutKeepsUniqueAddresses(buildings: map<int, Building>, id: int, b: Building)
    requires UniqueAddresses(buildings)
    requires !AddressTaken(buildings, b.address, Some(id))
    ensures UniqueAddresses(buildings[id := b])
  {
  }

  /** Writing `a` at key `id` keeps names unique exactly when no other activity has its name. */
  lemma PutKeepsUniqueNames(acts: map<int, Activity>, id: int, a: Activity)
    requires UniqueNames(acts)
    requires !NameTaken(acts, a.name, Some(id))
    ensures UniqueNames(acts[id := a])
  {
  }
}
