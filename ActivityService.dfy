/**
 * The activity service: create and update validate the requested parent
 * (existence, self-reference, the three-level cap) before writing, and delete
 * checks that the activity exists.
 */
module ActivityService {
  import opened Outcome
  import opened Entities
  import opened BaseRepository
  import opened ActivityRepository

  /** One `setattr` on an activity. */
  datatype ActivityAttr = SetName(name: string) | SetParent(parentId: int)

  function AssignActivity(a: Activity, attr: ActivityAttr): Activity {
    match attr
    case SetName(n) => a.(name := n)
    case SetParent(p) => a.(parentId := Some(p))
  }

  /** The keyword arguments `name=..., parent_id=...` of the repository update. */
  function ActivityKwargs(name: Option<string>, parentId: Option<int>): seq<Option<ActivityAttr>> {
    [if name.Some? then Some(SetName(name.value)) else None,
     if parentId.Some? then Some(SetParent(parentId.value)) else None]
  }

  /** The partial update changes exactly the fields given as non-None. */
  lemma ActivityUpdateFields(a: Activity, name: Option<string>, parentId: Option<int>)
    ensures ApplyKwargs(a, ActivityKwargs(name, parentId), AssignActivity)
         == Activity(name.GetOr(a.name), if parentId.Some? then parentId else a.parentId)
  {
    var kw := ActivityKwargs(name, parentId);
    var first := kw[..1];
    assert first[..0] == [] && |first| == 1 && first[0] == kw[0];
    assert ApplyKwargs(a, first[..0], AssignActivity) == a;
    var a1 := ApplyKwargs(a, first, AssignActivity);
    assert a1 == Activity(name.GetOr(a.name), a.parentId);
    assert kw[..|kw| - 1] == first;
  }

  /**
   * The parent check of `create` (no `selfId`) and of `update` (`selfId` is the
   * activity being updated): None when the parent is acceptable. The checks run
   * in the source's order: self-reference, existence, then the level cap.
   */
  function ParentCheck(acts: Activities, selfId: Option<int>, parentId: int): (e: Option<Error>)
    requires selfId != Some(parentId) && parentId in acts ==> HasTop(acts, parentId)
    ensures e.None? <==> Some(parentId) != selfId && parentId in acts && Depth(acts, parentId) < MaxLevel
    ensures selfId == Some(parentId) ==> e == Some(SelfParent)
    ensures selfId != Some(parentId) && parentId !in acts ==> e == Some(ParentNotFound)
    ensures selfId != Some(parentId) && parentId in acts && Depth(acts, parentId) >= MaxLevel ==> e == Some(NestingLimit)
  {
    if selfId == Some(parentId) then Some(SelfParent)
    else if parentId !in acts then Some(ParentNotFound)
    else if GetDepth(acts, Some(parentId)) >= MaxLevel then Some(NestingLimit)
    else None
  }

  /** A parent accepted by the check puts its new child at level 2 or above none. */
  lemma AcceptedParentKeepsCap(acts: Activities, n: int, a: Activity)
    requires WithinNestingLimit(acts) && n !in acts && Unreferenced(acts, n)
    requires a.parentId.Some? ==> ParentCheck(acts, None, a.parentId.value).None?
    ensures WithinNestingLimit(acts[n := a])
    ensures Depth(acts[n := a], n) <= MaxLevel
  {
    AddLeafLevels(acts, n, a);
  }

  /**
   * The parent check `update` evidently intends: `ParentCheck`, and then also
   * refusing a parent inside the activity's own subtree, which `ParentCheck`
   * lets through and which would close a cycle.
   */
  function MoveCheck(acts: Activities, id: int, parentId: int): (e: Option<Error>)
    requires id != parentId && parentId in acts ==> HasTop(acts, parentId)
    ensures ParentCheck(acts, Some(id), parentId).Some? ==> e == ParentCheck(acts, Some(id), parentId)
    ensures e.None? <==> ParentCheck(acts, Some(id), parentId).None? && !AncestorOrSelf(acts, id, parentId)
  {
    var e := ParentCheck(acts, Some(id), parentId);
    if e.Some? then e
    else if AncestorOrSelf(acts, id, parentId) then Some(ParentIsDescendant)
    else None
  }

  /** An update whose parent passes `MoveCheck` keeps an acyclic tree acyclic. */
  lemma MoveCheckKeepsAcyclic(acts: Activities, id: int, a: Activity)
    requires Acyclic(acts) && id in acts && a.parentId.Some?
    requires MoveCheck(acts, id, a.parentId.value).None?
    ensures Acyclic(acts[id := a])
  {
    MoveKeepsAcyclic(acts, id, a);
  }

  /**
   * The source's own check accepts a parent in the activity's subtree when that
   * parent is below level 2; the update then leaves the activity on a walk
   * that never ends, where the upward query does not return.
   */
  lemma ParentCheckAdmitsCycle(acts: Activities, id: int, a: Activity)
    requires id in acts && a.parentId.Some? && a.parentId.value in acts && a.parentId.value != id
    requires HasTop(acts, a.parentId.value) && AncestorOrSelf(acts, id, a.parentId.value)
    requires Depth(acts, a.parentId.value) < MaxLevel
    ensures ParentCheck(acts, Some(id), a.parentId.value).None?
    ensures MoveCheck(acts, id, a.parentId.value) == Some(ParentIsDescendant)
    ensures !HasTop(acts[id := a], id)
  {
    MoveUnderDescendantIsCyclic(acts, id, a);
  }

  /** No stored `parent_id` names an id the counter has not handed out yet. */
  ghost predicate ParentsBelow(acts: Activities, nextId: int) {
    forall k :: k in acts && acts[k].parentId.Some? ==> acts[k].parentId.value < nextId
  }

  class ActivityService {
    const repo: Table<Activity>

    ghost predicate Valid()
      reads this, repo
    {
      repo.Valid() && ParentsBelow(repo.rows, repo.nextId) && UniqueNames(repo.rows)
    }

    constructor (repo: Table<Activity>)
      requires repo.Valid() && ParentsBelow(repo.rows, repo.nextId) && UniqueNames(repo.rows)
      ensures this.repo == repo && Valid()
    {
      this.repo := repo;
    }

    /** `get_sub_activities` with the default depth of 3. */
    method GetSubActivities(id: int) returns (ids: set<int>)
      ensures forall x :: x in ids <==> ReachableWithin(repo.rows, id, x, 3)
    {
      ids := SubActivities(repo.rows, id, 3);
      forall x ensures x in ids <==> ReachableWithin(repo.rows, id, x, 3) {
        SubActivitiesAreReachable(repo.rows, id, 3, x);
      }
    }

    /**
     * `create(name, parent_id)`: with no parent nothing is checked; otherwise the
     * parent must exist and sit below level 2. A name already in use is refused
     * by the unique constraint. Nothing is written unless every check passes.
     */
    method Create(name: string, parentId: Option<int>) returns (r: Result<int>)
      requires Valid()
      requires parentId.Some? && parentId.value in repo.rows ==> HasTop(repo.rows, parentId.value)
      modifies repo
      ensures Valid()
      ensures parentId.Some? && ParentCheck(old(repo.rows), None, parentId.value).Some? ==>
                r == Err(ParentCheck(old(repo.rows), None, parentId.value).value)
      ensures (parentId.None? || ParentCheck(old(repo.rows), None, parentId.value).None?) ==>
                r == (if NameTaken(old(repo.rows), name, None) then Err(UniqueViolation) else Ok(old(repo.nextId)))
      ensures r.Err? ==> repo.rows == old(repo.rows) && repo.nextId == old(repo.nextId)
      ensures r.Ok? ==> r.value !in old(repo.rows) && repo.rows == old(repo.rows)[r.value := Activity(name, parentId)]
      ensures r.Ok? ==> repo.nextId == old(repo.nextId) + 1
      ensures r.Ok? ==> HasTop(repo.rows, r.value) && Depth(repo.rows, r.value) <= MaxLevel
      ensures r.Ok? ==> forall id :: id in old(repo.rows) ==> (HasTop(repo.rows, id) <==> HasTop(old(repo.rows), id))
      ensures r.Ok? ==> forall id :: id in old(repo.rows) && HasTop(old(repo.rows), id) ==>
                          Depth(repo.rows, id) == Depth(old(repo.rows), id)
      ensures Acyclic(old(repo.rows)) ==> Acyclic(repo.rows)
      ensures WithinNestingLimit(old(repo.rows)) ==> WithinNestingLimit(repo.rows)
    {
      if parentId.Some? {
        var parent := repo.GetById(parentId.value);
        if parent.None? {
          return Err(ParentNotFound);
        }
        if GetDepth(repo.rows, parentId) >= MaxLevel {
          return Err(NestingLimit);
        }
      }
      if NameTaken(repo.rows, name, None) {
        return Err(UniqueViolation);
      }
      ghost var before := repo.rows;
      var a := Activity(name, parentId);
      AddLeafLevels(before, repo.nextId, a);
      if WithinNestingLimit(before) {
        AcceptedParentKeepsCap(before, repo.nextId, a);
      }
      PutKeepsUniqueNames(before, repo.nextId, a);
      var id := repo.Create(a);
      r := Ok(id);
    }

    /**
     * `update(activity, name, parent_id)`: a given parent must not be the
     * activity itself, must exist and must sit below level 2; None fields are
     * left as they are. The moved activity's own descendants are not looked at,
     * so the result may hold a cycle or a node below level 2.
     */
    method Update(id: int, name: Option<string>, parentId: Option<int>) returns (r: Result<Activity>)
      requires Valid() && id in repo.rows
      requires parentId.Some? && parentId.value != id && parentId.value in repo.rows ==> HasTop(repo.rows, parentId.value)
      modifies repo
      ensures Valid() && repo.nextId == old(repo.nextId)
      ensures parentId.Some? && ParentCheck(old(repo.rows), Some(id), parentId.value).Some? ==>
                r == Err(ParentCheck(old(repo.rows), Some(id), parentId.value).value)
      ensures (parentId.None? || ParentCheck(old(repo.rows), Some(id), parentId.value).None?) ==>
                (r.Err? <==> name.Some? && NameTaken(old(repo.rows), name.value, Some(id))) &&
                (r.Err? ==> r.error == UniqueViolation)
      ensures r.Err? ==> repo.rows == old(repo.rows)
      ensures r.Ok? ==> r.value == Activity(name.GetOr(old(repo.rows)[id].name),
                                             if parentId.Some? then parentId else old(repo.rows)[id].parentId)
      ensures r.Ok? ==> repo.rows == old(repo.rows)[id := r.value]
      ensures r.Ok? && parentId.None? ==> (Acyclic(old(repo.rows)) ==> Acyclic(repo.rows))
      ensures r.Ok? && parentId.Some? ==>
                (Acyclic(old(repo.rows)) && !AncestorOrSelf(old(repo.rows), id, parentId.value) ==> Acyclic(repo.rows)) &&
                (AncestorOrSelf(old(repo.rows), id, parentId.value) ==> !HasTop(repo.rows, id))
    {
      if parentId.Some? {
        var parent := repo.GetById(parentId.value);
        if id == parentId.value {
          return Err(SelfParent);
        }
        if parent.None? {
          return Err(ParentNotFound);
        }
        if GetDepth(repo.rows, parentId) >= MaxLevel {
          return Err(NestingLimit);
        }
      }
      if name.Some? && NameTaken(repo.rows, name.value, Some(id)) {
        return Err(UniqueViolation);
      }
      ActivityUpdateFields(repo.rows[id], name, parentId);
      var a := Activity(name.GetOr(repo.rows[id].name), if parentId.Some? then parentId else repo.rows[id].parentId);
      PutKeepsUniqueNames(repo.rows, id, a);
      if parentId.Some? {
        if AncestorOrSelf(repo.rows, id, parentId.value) {
          MoveUnderDescendantIsCyclic(repo.rows, id, a);
        } else if Acyclic(repo.rows) {
          MoveKeepsAcyclic(repo.rows, id, a);
        }
      } else {
        RenameKeepsChains(repo.rows, id, a);
      }
      var updated := repo.Update(id, ActivityKwargs(name, parentId), AssignActivity);
      r := Ok(updated);
    }

    /** `delete(activity_id)`: a missing id fails and removes nothing; otherwise exactly that row goes. */
    method Delete(id: int) returns (r: Result<()>)
      requires Valid()
      modifies repo
      ensures Valid() && repo.nextId == old(repo.nextId)
      ensures r == (if id in old(repo.rows) then Ok(()) else Err(ActivityNotFound(id)))
      ensures repo.rows == if r.Ok? then old(repo.rows) - {id} else old(repo.rows)
      ensures Acyclic(old(repo.rows)) ==> Acyclic(repo.rows)
      ensures WithinNestingLimit(old(repo.rows)) ==> WithinNestingLimit(repo.rows)
    {
      var activity := repo.GetById(id);
      if activity.None? {
        return Err(ActivityNotFound(id));
      }
      RemoveLevels(repo.rows, id);
      repo.Delete(id);
      r := Ok(());
    }
  }
}
