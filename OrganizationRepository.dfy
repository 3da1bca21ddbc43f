/**
 * The organization repository: the checks of `create` and `update` on
 * activity-id lists, the partial update, and the query filters (by building,
 * by activities, inside a rectangle, inside a radius box).
 */
module OrganizationRepository {
  import opened Outcome
  import opened Entities
  import opened BaseRepository

  type Organizations = map<int, Organization>

  // ---------------------------------------------------------------------------
  // Activity-id lists
  // ---------------------------------------------------------------------------

  /** Python's `set(ids)`. */
  function ToSet(ids: seq<int>): set<int> {
    set x | x in ids
  }

  ghost predicate Distinct(ids: seq<int>) {
    forall i, j :: 0 <= i < j < |ids| ==> ids[i] != ids[j]
  }

  /** `len(ids) != len(set(ids))` holds exactly when some id occurs twice. */
  lemma {:induction false} SetOfSeqSize(ids: seq<int>)
    ensures |ToSet(ids)| <= |ids|
    ensures |ToSet(ids)| == |ids| <==> Distinct(ids)
  {
    if |ids| > 0 {
      var rest := ids[1..];
      SetOfSeqSize(rest);
      assert ToSet(ids) == {ids[0]} + ToSet(rest) by {
        forall x ensures x in ToSet(ids) <==> x == ids[0] || x in ToSet(rest) {
          if x in ids && x != ids[0] {
            var i :| 0 <= i < |ids| && ids[i] == x;
            assert rest[i - 1] == x;
          }
        }
      }
      if ids[0] in rest {
        var j :| 0 <= j < |rest| && rest[j] == ids[0];
        assert ids[j + 1] == ids[0];
        assert !Distinct(ids);
      } else {
        assert Distinct(ids) <==> Distinct(rest) by {
          if Distinct(rest) {
            forall i, j | 0 <= i < j < |ids| ensures ids[i] != ids[j] {
              if i == 0 {
                assert ids[j] == rest[j - 1];
              } else {
                assert ids[i] == rest[i - 1] && ids[j] == rest[j - 1];
              }
            }
          }
          if Distinct(ids) {
            forall i, j | 0 <= i < j < |rest| ensures rest[i] != rest[j] {
              assert rest[i] == ids[i + 1] && rest[j] == ids[j + 1];
            }
          }
        }
      }
    }
  }

  /** The ids of the rows `select(Activity).where(Activity.id.in_(ids))` returns. */
  function Resolved(acts: map<int, Activity>, ids: seq<int>): set<int> {
    set x | x in ids && x in acts
  }

  /**
   * For a duplicate-free list, as many activities resolve as ids were given
   * exactly when every id names an activity, and then they resolve to the
   * list's own ids.
   */
  lemma ResolvedCount(acts: map<int, Activity>, ids: seq<int>)
    requires Distinct(ids)
    ensures |Resolved(acts, ids)| == |ids| <==> forall x :: x in ids ==> x in acts
    ensures |Resolved(acts, ids)| == |ids| ==> Resolved(acts, ids) == ToSet(ids)
  {
    SetOfSeqSize(ids);
    var r, s := Resolved(acts, ids), ToSet(ids);
    assert r <= s;
    if forall x :: x in ids ==> x in acts {
      assert r == s;
    }
    if |r| == |ids| {
      assert |s - r| == |s| - |r| == 0;
      assert s - r == {};
      forall x | x in ids ensures x in acts {
        assert x in s;
      }
    }
  }

  /**
   * The checks of `create`, in the source's order: duplicate ids (skipped for
   * an empty list), then the building, then ids that do not resolve. On success
   * the value is the set of activities the new organization is associated with.
   */
  function CreateCheck(acts: map<int, Activity>, buildings: map<int, Building>,
                       buildingId: int, ids: seq<int>): (r: Result<set<int>>)
    ensures r == Err(DuplicateActivityIds) <==> !Distinct(ids)
    ensures Distinct(ids) && buildingId !in buildings ==> r == Err(BuildingNotFound(buildingId))
    ensures r == Err(UnresolvedActivityIds) <==>
              Distinct(ids) && buildingId in buildings && exists x :: x in ids && x !in acts
    ensures r.Ok? <==> Distinct(ids) && buildingId in buildings && forall x :: x in ids ==> x in acts
    ensures r.Ok? ==> r.value == ToSet(ids)
  {
    SetOfSeqSize(ids);
    if |ids| > 0 && |ToSet(ids)| != |ids| then Err(DuplicateActivityIds)
    else if buildingId !in buildings then Err(BuildingNotFound(buildingId))
    else if |ids| > 0 && |Resolved(acts, ids)| != |ids| then
      ResolvedCount(acts, ids);
      Err(UnresolvedActivityIds)
    else
      ResolvedCount(acts, ids);
      Ok(Resolved(acts, ids))
  }

  /**
   * The `activity_ids` step of `update`: None leaves the associations as they
   * are (`Ok(None)`), an empty list clears them, and a non-empty list is
   * checked for duplicates and unresolved ids before it replaces them.
   */
  function UpdateActivitiesCheck(acts: map<int, Activity>, ids: Option<seq<int>>): (r: Result<Option<set<int>>>)
    ensures ids.None? ==> r == Ok(None)
    ensures ids == Some([]) ==> r == Ok(Some({}))
    ensures ids.Some? && !Distinct(ids.value) ==> r == Err(DuplicateActivityIds)
    ensures ids.Some? && Distinct(ids.value) ==>
              r == if forall x :: x in ids.value ==> x in acts then Ok(Some(ToSet(ids.value)))
                   else Err(UnresolvedActivityIds)
  {
    match ids
    case None => Ok(None)
    case Some(l) =>
      SetOfSeqSize(l);
      if |l| == 0 then
        assert ToSet(l) == {};
        Ok(Some({}))
      else if |ToSet(l)| != |l| then Err(DuplicateActivityIds)
      else
        ResolvedCount(acts, l);
        if |Resolved(acts, l)| != |l| then Err(UnresolvedActivityIds)
        else Ok(Some(Resolved(acts, l)))
  }

  /** One `setattr` on an organization (the `activities` assignment is one too). */
  datatype OrganizationAttr =
    | SetActivities(ids: set<int>)
    | SetName(name: string)
    | SetPhones(phones: seq<string>)
    | SetBuilding(buildingId: int)

  function AssignOrganization(o: Organization, attr: OrganizationAttr): Organization {
    match attr
    case SetActivities(ids) => o.(activities := ids)
    case SetName(n) => o.(name := n)
    case SetPhones(p) => o.(phones := p)
    case SetBuilding(b) => o.(buildingId := Some(b))
  }

  /** The association assignment followed by the keyword arguments `name`, `phones`, `building_id`. */
  function OrganizationKwargs(activities: Option<set<int>>, name: Option<string>,
                              phones: Option<seq<string>>, buildingId: Option<int>): seq<Option<OrganizationAttr>> {
    [if activities.Some? then Some(SetActivities(activities.value)) else None,
     if name.Some? then Some(SetName(name.value)) else None,
     if phones.Some? then Some(SetPhones(phones.value)) else None,
     if buildingId.Some? then Some(SetBuilding(buildingId.value)) else None]
  }

  /** The organization after an update: each field given as non-None replaces the stored one. */
  function Patched(o: Organization, activities: Option<set<int>>, name: Option<string>,
                   phones: Option<seq<string>>, buildingId: Option<int>): Organization {
    Organization(name.GetOr(o.name), phones.GetOr(o.phones),
                 if buildingId.Some? then buildingId else o.buildingId,
                 activities.GetOr(o.activities))
  }

  /** The `setattr` sequence of `update` produces exactly the patched organization. */
  lemma OrganizationUpdateFields(o: Organization, activities: Option<set<int>>, name: Option<string>,
                                 phones: Option<seq<string>>, buildingId: Option<int>)
    ensures ApplyKwargs(o, OrganizationKwargs(activities, name, phones, buildingId), AssignOrganization)
         == Patched(o, activities, name, phones, buildingId)
  {
    var kw := OrganizationKwargs(activities, name, phones, buildingId);
    assert kw[..0] == [];
    assert kw[..1][..0] == kw[..0];
    assert kw[..2][..1] == kw[..1];
    assert kw[..3][..2] == kw[..2];
    assert kw[..4][..3] == kw[..3];
    assert kw[..4] == kw;
    assert |kw[..1]| == 1 && kw[..1][0] == kw[0];
    assert ApplyKwargs(o, kw[..1][..0], AssignOrganization) == o;
    var o1 := ApplyKwargs(o, kw[..1], AssignOrganization);
    assert o1 == o.(activities := activities.GetOr(o.activities));
    var o2 := ApplyKwargs(o, kw[..2], AssignOrganization);
    assert o2 == o1.(name := name.GetOr(o.name));
    var o3 := ApplyKwargs(o, kw[..3], AssignOrganization);
    assert o3 == o2.(phones := phones.GetOr(o.phones));
  }

  /** Patching with every field None changes nothing. */
  lemma PatchNothing(o: Organization)
    ensures Patched(o, None, None, None, None) == o
  {
  }

  // ---------------------------------------------------------------------------
  // Queries
  // ---------------------------------------------------------------------------

  /** `get_by_building`: the organizations whose `building_id` is the given one. */
  function ByBuilding(orgs: Organizations, buildingId: int): (r: set<int>)
    ensures forall o :: o in r <==> o in orgs && orgs[o].buildingId == Some(buildingId)
  {
    set o | o in orgs && orgs[o].buildingId == Some(buildingId)
  }

  /**
   * Storing `org` under `id` takes `id` off every building's list but that of
   * `org`'s building, puts it on that one, and moves no other organization.
   */
  lemma ByBuildingAfterPut(orgs: Organizations, id: int, org: Organization, b: int)
    ensures ByBuilding(orgs[id := org], b) == (ByBuilding(orgs, b) - {id}) + (if org.buildingId == Some(b) then {id} else {})
  {
  }

  /** Removing an organization takes it off its building's list and changes no other entry. */
  lemma ByBuildingAfterRemove(orgs: Organizations, id: int, b: int)
    ensures ByBuilding(orgs - {id}, b) == ByBuilding(orgs, b) - {id}
  {
  }

  /** Each stored organization with a building is listed under that building and under no other. */
  lemma ByBuildingPartitions(orgs: Organizations, o: int, b: int)
    requires o in orgs && orgs[o].buildingId.Some?
    ensures o in ByBuilding(orgs, orgs[o].buildingId.value)
    ensures b != orgs[o].buildingId.value ==> o !in ByBuilding(orgs, b)
  {
  }

  /**
   * The organizations of a stored building all lie in the zero-size rectangle
   * at that building's coordinates, so the rectangle search finds them too.
   */
  lemma ByBuildingInPointRect(orgs: Organizations, buildings: map<int, Building>, b: int)
    requires b in buildings
    ensures ByBuilding(orgs, b) <= InRect(orgs, buildings, buildings[b].latitude, buildings[b].latitude,
                                          buildings[b].longitude, buildings[b].longitude)
  {
  }

  /**
   * `get_by_activity(ids)`: the organizations joined to at least one activity
   * row whose id is in `ids`, each once.
   */
  function ByActivities(orgs: Organizations, acts: map<int, Activity>, ids: set<int>): (r: set<int>)
    ensures forall o :: o in r <==> o in orgs && exists a :: a in ids && a in acts && a in orgs[o].activities
  {
    set o | o in orgs && exists a :: a in orgs[o].activities && a in ids && a in acts
  }

  /** The older revision's `get_by_activity(id)`: only the organizations tagged with that one id. */
  function ByActivityDirect(orgs: Organizations, acts: map<int, Activity>, id: int): (r: set<int>)
    ensures forall o :: o in r <==> o in orgs && id in acts && id in orgs[o].activities
  {
    ByActivities(orgs, acts, {id})
  }

  /** SQL `x BETWEEN lo AND hi`: inclusive on both ends, false when `lo > hi`. */
  predicate Between(x: real, lo: real, hi: real) {
    lo <= x && x <= hi
  }

  /** The organization's building row exists and lies in the box. */
  predicate InBox(orgs: Organizations, buildings: map<int, Building>, o: int,
                  minLat: real, maxLat: real, minLon: real, maxLon: real)
    requires o in orgs
  {
    && orgs[o].buildingId.Some?
    && orgs[o].buildingId.value in buildings
    && Between(buildings[orgs[o].buildingId.value].latitude, minLat, maxLat)
    && Between(buildings[orgs[o].buildingId.value].longitude, minLon, maxLon)
  }

  /**
   * `get_in_rect`: the organizations whose building has
   * `min_lat <= latitude <= max_lat` and `min_lon <= longitude <= max_lon`.
   * The inner join drops organizations without a building.
   */
  function InRect(orgs: Organizations, buildings: map<int, Building>,
                  minLat: real, maxLat: real, minLon: real, maxLon: real): (r: set<int>)
    ensures forall o :: o in r <==> o in orgs && InBox(orgs, buildings, o, minLat, maxLat, minLon, maxLon)
    ensures forall o :: o in r ==> orgs[o].buildingId.Some?
  {
    set o | o in orgs && InBox(orgs, buildings, o, minLat, maxLat, minLon, maxLon)
  }

  /** Kilometres per degree of latitude. */
  const KmPerDegree: real := 111.0

  /** The cosine below which the longitude window falls back to the latitude one. */
  const PoleEpsilon: real := 0.000001

  function Abs(x: real): real {
    if x < 0.0 then -x else x
  }

  /**
   * The half-width in degrees of longitude of the radius box, given
   * `cos(radians(lat))` as `cosLat`: `radius / 111` near the poles, where
   * `|cosLat| < 1e-6`, and `radius / (111 * cosLat)` elsewhere. It never
   * divides by zero.
   */
  function LonDelta(radius: real, cosLat: real): (d: real)
    ensures Abs(cosLat) < PoleEpsilon ==> d * KmPerDegree == radius
    ensures Abs(cosLat) >= PoleEpsilon ==> d * (KmPerDegree * cosLat) == radius
  {
    if Abs(cosLat) < PoleEpsilon then radius / KmPerDegree
    else radius / (KmPerDegree * cosLat)
  }

  /**
   * `get_in_radius`: the rectangle filter on `[lat - r/111, lat + r/111]` by
   * `[lon - LonDelta, lon + LonDelta]`.
   */
  function InRadius(orgs: Organizations, buildings: map<int, Building>,
                    lat: real, lon: real, radius: real, cosLat: real): (r: set<int>)
    ensures forall o :: o in r <==>
              (o in orgs &&
               InBox(orgs, buildings, o, lat - radius / KmPerDegree, lat + radius / KmPerDegree,
                     lon - LonDelta(radius, cosLat), lon + LonDelta(radius, cosLat)))
  {
    var latDelta := radius / KmPerDegree;
    var lonDelta := LonDelta(radius, cosLat);
    InRect(orgs, buildings, lat - latDelta, lat + latDelta, lon - lonDelta, lon + lonDelta)
  }

  /** Rectangle bounds are not required to be ordered; inverted bounds match nothing. */
  lemma InvertedRectIsEmpty(orgs: Organizations, buildings: map<int, Building>,
                            minLat: real, maxLat: real, minLon: real, maxLon: real)
    requires minLat > maxLat || minLon > maxLon
    ensures InRect(orgs, buildings, minLat, maxLat, minLon, maxLon) == {}
  {
    forall o | o in InRect(orgs, buildings, minLat, maxLat, minLon, maxLon) ensures false {
    }
  }

  /** A rectangle inside another selects a subset. */
  lemma InRectMonotone(orgs: Organizations, buildings: map<int, Building>,
                       minLat: real, maxLat: real, minLon: real, maxLon: real,
                       minLat': real, maxLat': real, minLon': real, maxLon': real)
    requires minLat' <= minLat && maxLat <= maxLat' && minLon' <= minLon && maxLon <= maxLon'
    ensures InRect(orgs, buildings, minLat, maxLat, minLon, maxLon)
         <= InRect(orgs, buildings, minLat', maxLat', minLon', maxLon')
  {
  }

  /**
   * Where `0 <= cosLat <= 1` (the cosine of a latitude in [-90, 90]) and the
   * radius is positive, the longitude half-width is positive and at least the
   * latitude half-width; near a pole it equals it.
   */
  lemma LonDeltaAtLeastLatDelta(radius: real, cosLat: real)
    requires radius > 0.0 && 0.0 <= cosLat <= 1.0
    ensures LonDelta(radius, cosLat) >= radius / KmPerDegree > 0.0
    ensures cosLat < PoleEpsilon ==> LonDelta(radius, cosLat) == radius / KmPerDegree
  {
    if cosLat >= PoleEpsilon {
      var d := LonDelta(radius, cosLat);
      assert d * KmPerDegree * cosLat == radius;
      assert d > 0.0;
      assert d * KmPerDegree >= d * KmPerDegree * cosLat;
    }
  }

  lemma NonNegativeFactor(x: real, c: real)
    requires c > 0.0 && x * c >= 0.0
    ensures x >= 0.0
  {
  }

  /** A larger radius gives a wider longitude half-width (for `0 <= cosLat <= 1`). */
  lemma LonDeltaMonotone(r1: real, r2: real, cosLat: real)
    requires 0.0 < r1 <= r2 && 0.0 <= cosLat <= 1.0
    ensures LonDelta(r1, cosLat) <= LonDelta(r2, cosLat)
  {
    var d1, d2 := LonDelta(r1, cosLat), LonDelta(r2, cosLat);
    if Abs(cosLat) >= PoleEpsilon {
      var c := KmPerDegree * cosLat;
      assert d1 * c == r1 && d2 * c == r2;
      assert (d2 - d1) * c == r2 - r1;
      NonNegativeFactor(d2 - d1, c);
    } else {
      assert (d2 - d1) * KmPerDegree == r2 - r1;
      NonNegativeFactor(d2 - d1, KmPerDegree);
    }
  }

  /** A larger radius never loses an organization (for `0 <= cosLat <= 1`). */
  lemma InRadiusMonotone(orgs: Organizations, buildings: map<int, Building>,
                         lat: real, lon: real, r1: real, r2: real, cosLat: real)
    requires 0.0 < r1 <= r2 && 0.0 <= cosLat <= 1.0
    ensures InRadius(orgs, buildings, lat, lon, r1, cosLat) <= InRadius(orgs, buildings, lat, lon, r2, cosLat)
  {
    LonDeltaMonotone(r1, r2, cosLat);
    var d1, d2 := LonDelta(r1, cosLat), LonDelta(r2, cosLat);
    assert r1 / KmPerDegree <= r2 / KmPerDegree;
    InRectMonotone(orgs, buildings,
                   lat - r1 / KmPerDegree, lat + r1 / KmPerDegree, lon - d1, lon + d1,
                   lat - r2 / KmPerDegree, lat + r2 / KmPerDegree, lon - d2, lon + d2);
  }

  /** An organization whose building stands at the centre is found by any positive radius. */
  lemma InRadiusFindsCentre(orgs: Organizations, buildings: map<int, Building>,
                            lat: real, lon: real, radius: real, cosLat: real, o: int)
    requires radius > 0.0 && 0.0 <= cosLat <= 1.0
    requires o in orgs && orgs[o].buildingId.Some? && orgs[o].buildingId.value in buildings
    requires buildings[orgs[o].buildingId.value].latitude == lat
    requires buildings[orgs[o].buildingId.value].longitude == lon
    ensures o in InRadius(orgs, buildings, lat, lon, radius, cosLat)
  {
    LonDeltaAtLeastLatDelta(radius, cosLat);
  }

  // ---------------------------------------------------------------------------
  // The repository
  // ---------------------------------------------------------------------------

  class OrganizationRepository {
    const orgs: Table<Organization>
    const buildings: Table<Building>
    const activities: Table<Activity>

    ghost predicate Valid()
      reads this, orgs
    {
      orgs.Valid()
    }

    constructor (orgs: Table<Organization>, buildings: Table<Building>, activities: Table<Activity>)
      requires orgs.Valid()
      ensures this.orgs == orgs && this.buildings == buildings && this.activities == activities
      ensures Valid()
    {
      this.orgs := orgs;
      this.buildings := buildings;
      this.activities := activities;
    }

    /**
     * `create`: runs `CreateCheck`; on success stores the name, the phones, the
     * building and exactly the given activity set under a fresh id.
     */
    method Create(name: string, phones: seq<string>, buildingId: int, activityIds: seq<int>)
      returns (r: Result<int>)
      requires Valid()
      modifies orgs
      ensures Valid()
      ensures r.Err? <==> CreateCheck(activities.rows, buildings.rows, buildingId, activityIds).Err?
      ensures r.Err? ==> r.error == CreateCheck(activities.rows, buildings.rows, buildingId, activityIds).error
      ensures r.Err? ==> orgs.rows == old(orgs.rows) && orgs.nextId == old(orgs.nextId)
      ensures r.Ok? ==> r.value == old(orgs.nextId) && r.value !in old(orgs.rows) && orgs.nextId == old(orgs.nextId) + 1
      ensures r.Ok? ==> orgs.rows == old(orgs.rows)[r.value :=
                          Organization(name, phones, Some(buildingId), ToSet(activityIds))]
    {
      var check := CreateCheck(activities.rows, buildings.rows, buildingId, activityIds);
      if check.Err? {
        return Err(check.error);
      }
      var id := orgs.Create(Organization(name, phones, Some(buildingId), check.value));
      r := Ok(id);
    }

    /**
     * `update`: the `activity_ids` step first, then `setattr` for each of
     * `name`, `phones`, `building_id` that is not None. A failed check writes
     * nothing.
     */
    method Update(id: int, name: Option<string>, phones: Option<seq<string>>,
                  buildingId: Option<int>, activityIds: Option<seq<int>>)
      returns (r: Result<Organization>)
      requires Valid() && id in orgs.rows
      modifies orgs
      ensures Valid() && orgs.nextId == old(orgs.nextId)
      ensures r.Err? <==> UpdateActivitiesCheck(activities.rows, activityIds).Err?
      ensures r.Err? ==> r.error == UpdateActivitiesCheck(activities.rows, activityIds).error
      ensures r.Err? ==> orgs.rows == old(orgs.rows)
      ensures r.Ok? ==> r.value == Patched(old(orgs.rows)[id], UpdateActivitiesCheck(activities.rows, activityIds).value,
                                           name, phones, buildingId)
      ensures r.Ok? ==> orgs.rows == old(orgs.rows)[id := r.value]
    {
      var check := UpdateActivitiesCheck(activities.rows, activityIds);
      if check.Err? {
        return Err(check.error);
      }
      OrganizationUpdateFields(orgs.rows[id], check.value, name, phones, buildingId);
      var updated := orgs.Update(id, OrganizationKwargs(check.value, name, phones, buildingId), AssignOrganization);
      r := Ok(updated);
    }

    /** `delete`: removes exactly that organization. */
    method Delete(id: int)
      requires Valid() && id in orgs.rows
      modifies orgs
      ensures Valid() && orgs.rows == old(orgs.rows) - {id} && orgs.nextId == old(orgs.nextId)
    {
      orgs.Delete(id);
    }
  }
}
