/**
 * The organization service: `create` and `update` check the building and each
 * activity id before calling the repository; the queries expand an activity
 * to its sub-activities or pass through to the repository filters.
 */
module OrganizationService {
  import opened Outcome
  import opened Entities
  import opened BaseRepository
  import opened ActivityRepository
  import opened OrganizationRepository

  /** The first id of `ids`, in list order, that names no activity. */
  function FirstMissing(acts: map<int, Activity>, ids: seq<int>): (r: Option<int>)
    ensures r.None? ==> forall x :: x in ids ==> x in acts
    ensures r.Some? ==> r.value in ids && r.value !in acts
    ensures r.Some? ==> exists i :: 0 <= i < |ids| && ids[i] == r.value &&
                                    forall j :: 0 <= j < i ==> ids[j] in acts
    decreases |ids|
  {
    if |ids| == 0 then None
    else if ids[0] !in acts then Some(ids[0])
    else
      var r := FirstMissing(acts, ids[1..]);
      assert forall x :: x in ids ==> x == ids[0] || x in ids[1..];
      if r.Some? then
        var i :| 0 <= i < |ids[1..]| && ids[1..][i] == r.value &&
                 forall j :: 0 <= j < i ==> ids[1..][j] in acts;
        assert ids[i + 1] == r.value;
        assert forall j :: 1 <= j < i + 1 ==> ids[j] == ids[1..][j - 1];
        r
      else r
  }

  /**
   * What `create` answers, check by check: the building, then each activity
   * id in list order, then the repository's own checks.
   */
  function CreateOutcome(acts: map<int, Activity>, buildings: map<int, Building>,
                         buildingId: int, ids: seq<int>): (r: Result<set<int>>)
    ensures buildingId !in buildings ==> r == Err(BuildingNotFound(buildingId))
    ensures buildingId in buildings && FirstMissing(acts, ids).Some? ==> r == Err(ActivityNotFound(FirstMissing(acts, ids).value))
    ensures r.Ok? <==> buildingId in buildings && (forall x :: x in ids ==> x in acts) && Distinct(ids)
    ensures r.Ok? ==> r.value == ToSet(ids)
  {
    if buildingId !in buildings then Err(BuildingNotFound(buildingId))
    else if FirstMissing(acts, ids).Some? then Err(ActivityNotFound(FirstMissing(acts, ids).value))
    else CreateCheck(acts, buildings, buildingId, ids)
  }

  /**
   * After the service's own checks only a duplicate can still fail: ids that
   * all exist but repeat reach the repository and are rejected there, and the
   * repository never reports an unresolved id.
   */
  lemma CreateOutcomeCases(acts: map<int, Activity>, buildings: map<int, Building>,
                           buildingId: int, ids: seq<int>)
    ensures CreateOutcome(acts, buildings, buildingId, ids) != Err(UnresolvedActivityIds)
    ensures buildingId in buildings && (forall x :: x in ids ==> x in acts) ==>
              CreateOutcome(acts, buildings, buildingId, ids) ==
                (if Distinct(ids) then Ok(ToSet(ids)) else Err(DuplicateActivityIds))
  {
  }

  /** What `update` answers: the building if given, the activity ids if given, then the repository. */
  function UpdateOutcome(acts: map<int, Activity>, buildings: map<int, Building>,
                         buildingId: Option<int>, ids: Option<seq<int>>): (r: Result<Option<set<int>>>)
    ensures buildingId.Some? && buildingId.value !in buildings ==> r == Err(BuildingNotFound(buildingId.value))
    ensures (buildingId.None? || buildingId.value in buildings) && ids.None? ==> r == Ok(None)
    ensures r.Ok? && ids.Some? ==> r.value == Some(ToSet(ids.value)) && Distinct(ids.value) &&
                                   forall x :: x in ids.value ==> x in acts
    ensures r != Err(UnresolvedActivityIds)
    ensures (buildingId.None? || buildingId.value in buildings) && ids.Some? ==>
              (r.Ok? <==> Distinct(ids.value) && forall x :: x in ids.value ==> x in acts)
    ensures (buildingId.None? || buildingId.value in buildings) && ids.Some? && FirstMissing(acts, ids.value).Some? ==>
              r == Err(ActivityNotFound(FirstMissing(acts, ids.value).value))
    ensures (buildingId.None? || buildingId.value in buildings) && ids.Some? &&
              (forall x :: x in ids.value ==> x in acts) && !Distinct(ids.value) ==>
              r == Err(DuplicateActivityIds)
  {
    if buildingId.Some? && buildingId.value !in buildings then Err(BuildingNotFound(buildingId.value))
    else if ids.Some? && FirstMissing(acts, ids.value).Some? then Err(ActivityNotFound(FirstMissing(acts, ids.value).value))
    else UpdateActivitiesCheck(acts, ids)
  }

  class OrganizationService {
    const orgRepo: OrganizationRepository
    const activityRepo: Table<Activity>
    const buildingRepo: Table<Building>

    /** The three repositories share one session, so they see the same tables. */
    ghost predicate Valid()
      reads this, orgRepo, orgRepo.orgs
    {
      orgRepo.Valid() && orgRepo.activities == activityRepo && orgRepo.buildings == buildingRepo
    }

    constructor (orgRepo: OrganizationRepository)
      requires orgRepo.Valid()
      ensures this.orgRepo == orgRepo && Valid()
    {
      this.orgRepo := orgRepo;
      this.activityRepo := orgRepo.activities;
      this.buildingRepo := orgRepo.buildings;
    }

    /** The `for aid in activity_ids` loop: the first id that `get_by_id` does not find. */
    method FindMissingActivity(ids: seq<int>) returns (missing: Option<int>)
      ensures missing == FirstMissing(activityRepo.rows, ids)
    {
      var i := 0;
      while i < |ids|
        invariant 0 <= i <= |ids|
        invariant FirstMissing(activityRepo.rows, ids) == FirstMissing(activityRepo.rows, ids[i..])
      {
        var activity := activityRepo.GetById(ids[i]);
        if activity.None? {
          return Some(ids[i]);
        }
        assert ids[i..][1..] == ids[i + 1..];
        i := i + 1;
      }
      missing := None;
    }

    /**
     * `create`: a missing building fails first, then the first activity id that
     * does not exist; otherwise the repository's `create` decides.
     */
    method Create(name: string, phones: seq<string>, buildingId: int, activityIds: seq<int>)
      returns (r: Result<int>)
      requires Valid()
      modifies orgRepo.orgs
      ensures Valid()
      ensures r.Err? <==> CreateOutcome(activityRepo.rows, buildingRepo.rows, buildingId, activityIds).Err?
      ensures r.Err? ==> r.error == CreateOutcome(activityRepo.rows, buildingRepo.rows, buildingId, activityIds).error
      ensures r.Err? ==> orgRepo.orgs.rows == old(orgRepo.orgs.rows) && orgRepo.orgs.nextId == old(orgRepo.orgs.nextId)
      ensures r.Ok? ==> r.value == old(orgRepo.orgs.nextId) && orgRepo.orgs.nextId == old(orgRepo.orgs.nextId) + 1
      ensures r.Ok? ==> r.value !in old(orgRepo.orgs.rows) && orgRepo.orgs.rows == old(orgRepo.orgs.rows)[r.value :=
                          Organization(name, phones, Some(buildingId), ToSet(activityIds))]
      ensures r.Ok? ==> forall b :: ByBuilding(orgRepo.orgs.rows, b) ==
                          ByBuilding(old(orgRepo.orgs.rows), b) + (if b == buildingId then {r.value} else {})
    {
      var building := buildingRepo.GetById(buildingId);
      if building.None? {
        return Err(BuildingNotFound(buildingId));
      }
      var missing := FindMissingActivity(activityIds);
      if missing.Some? {
        return Err(ActivityNotFound(missing.value));
      }
      r := orgRepo.Create(name, phones, buildingId, activityIds);
      if r.Ok? {
        forall b ensures ByBuilding(orgRepo.orgs.rows, b) ==
                         ByBuilding(old(orgRepo.orgs.rows), b) + (if b == buildingId then {r.value} else {}) {
          ByBuildingAfterPut(old(orgRepo.orgs.rows), r.value, orgRepo.orgs.rows[r.value], b);
        }
      }
    }

    /**
     * `update`: the building is checked only when `building_id` is given and
     * the activities only when `activity_ids` is given; then the repository's
     * `update` runs.
     */
    method Update(id: int, name: Option<string>, phones: Option<seq<string>>,
                  buildingId: Option<int>, activityIds: Option<seq<int>>)
      returns (r: Result<Organization>)
      requires Valid() && id in orgRepo.orgs.rows
      modifies orgRepo.orgs
      ensures Valid() && orgRepo.orgs.nextId == old(orgRepo.orgs.nextId)
      ensures r.Err? <==> UpdateOutcome(activityRepo.rows, buildingRepo.rows, buildingId, activityIds).Err?
      ensures r.Err? ==> r.error == UpdateOutcome(activityRepo.rows, buildingRepo.rows, buildingId, activityIds).error
      ensures r.Err? ==> orgRepo.orgs.rows == old(orgRepo.orgs.rows)
      ensures r.Ok? ==> r.value == Patched(old(orgRepo.orgs.rows)[id],
                                           UpdateOutcome(activityRepo.rows, buildingRepo.rows, buildingId, activityIds).value,
                                           name, phones, buildingId)
      ensures r.Ok? ==> orgRepo.orgs.rows == old(orgRepo.orgs.rows)[id := r.value]
      ensures r.Ok? ==> forall b :: ByBuilding(orgRepo.orgs.rows, b) ==
                          (ByBuilding(old(orgRepo.orgs.rows), b) - {id}) + (if r.value.buildingId == Some(b) then {id} else {})
    {
      if buildingId.Some? {
        var building := buildingRepo.GetById(buildingId.value);
        if building.None? {
          return Err(BuildingNotFound(buildingId.value));
        }
      }
      if activityIds.Some? {
        var missing := FindMissingActivity(activityIds.value);
        if missing.Some? {
          return Err(ActivityNotFound(missing.value));
        }
      }
      r := orgRepo.Update(id, name, phones, buildingId, activityIds);
      if r.Ok? {
        forall b ensures ByBuilding(orgRepo.orgs.rows, b) ==
                         (ByBuilding(old(orgRepo.orgs.rows), b) - {id}) + (if r.value.buildingId == Some(b) then {id} else {}) {
          ByBuildingAfterPut(old(orgRepo.orgs.rows), id, r.value, b);
        }
      }
    }

    /** `delete`: removes exactly that organization. */
    method Delete(id: int)
      requires Valid() && id in orgRepo.orgs.rows
      modifies orgRepo.orgs
      ensures Valid() && orgRepo.orgs.rows == old(orgRepo.orgs.rows) - {id} && orgRepo.orgs.nextId == old(orgRepo.orgs.nextId)
      ensures forall b :: ByBuilding(orgRepo.orgs.rows, b) == ByBuilding(old(orgRepo.orgs.rows), b) - {id}
    {
      orgRepo.Delete(id);
      forall b ensures ByBuilding(orgRepo.orgs.rows, b) == ByBuilding(old(orgRepo.orgs.rows), b) - {id} {
        ByBuildingAfterRemove(old(orgRepo.orgs.rows), id, b);
      }
    }

    /**
     * `get_by_activity(activity_id)`: the organizations tagged with the activity
     * or with any activity at most 3 child links below it, each once.
     */
    method GetByActivity(activityId: int) returns (r: set<int>)
      ensures forall o :: o in r <==>
                (o in orgRepo.orgs.rows &&
                 exists a :: a in orgRepo.orgs.rows[o].activities && ReachableWithin(activityRepo.rows, activityId, a, 3))
      ensures activityId !in activityRepo.rows ==> r == {}
    {
      var subtree := SubActivities(activityRepo.rows, activityId, 3);
      r := ByActivities(orgRepo.orgs.rows, activityRepo.rows, subtree);
      forall a ensures a in subtree <==> ReachableWithin(activityRepo.rows, activityId, a, 3) {
        SubActivitiesAreReachable(activityRepo.rows, activityId, 3, a);
      }
    }

    /** `get_by_building`: the repository's filter. */
    method GetByBuilding(buildingId: int) returns (r: set<int>)
      ensures forall o :: o in r <==> o in orgRepo.orgs.rows && orgRepo.orgs.rows[o].buildingId == Some(buildingId)
      ensures buildingId in buildingRepo.rows ==>
                r <= InRect(orgRepo.orgs.rows, buildingRepo.rows,
                            buildingRepo.rows[buildingId].latitude, buildingRepo.rows[buildingId].latitude,
                            buildingRepo.rows[buildingId].longitude, buildingRepo.rows[buildingId].longitude)
    {
      r := ByBuilding(orgRepo.orgs.rows, buildingId);
      if buildingId in buildingRepo.rows {
        ByBuildingInPointRect(orgRepo.orgs.rows, buildingRepo.rows, buildingId);
      }
    }

    /** `get_in_rect`: the repository's inclusive rectangle filter. */
    method GetInRect(minLat: real, maxLat: real, minLon: real, maxLon: real) returns (r: set<int>)
      ensures forall o :: o in r <==>
                o in orgRepo.orgs.rows && InBox(orgRepo.orgs.rows, buildingRepo.rows, o, minLat, maxLat, minLon, maxLon)
    {
      r := InRect(orgRepo.orgs.rows, buildingRepo.rows, minLat, maxLat, minLon, maxLon);
    }

    /** `get_in_radius`, with `cos(radians(lat))` supplied as `cosLat`: the repository's box filter. */
    method GetInRadius(lat: real, lon: real, radius: real, cosLat: real) returns (r: set<int>)
      ensures forall o :: o in r <==>
                (o in orgRepo.orgs.rows &&
                 InBox(orgRepo.orgs.rows, buildingRepo.rows, o,
                       lat - radius / KmPerDegree, lat + radius / KmPerDegree,
                       lon - LonDelta(radius, cosLat), lon + LonDelta(radius, cosLat)))
    {
      r := InRadius(orgRepo.orgs.rows, buildingRepo.rows, lat, lon, radius, cosLat);
    }
  }
}
