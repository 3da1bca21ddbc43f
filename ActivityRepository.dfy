/**
 * The two recursive queries of the activity repository, as functions of the
 * activity table: the bounded downward closure behind `get_sub_activities` and
 * the upward parent walk behind `get_depth`.
 */
module ActivityRepository {
  import opened Outcome
  import opened Entities

  type Activities = map<int, Activity>

  // ---------------------------------------------------------------------------
  // Upward walk (get_depth)
  // ---------------------------------------------------------------------------

  /**
   * The parent row the upward query joins to: the parent of `id` when `id` is a
   * row and its `parent_id` names another row. A null or dangling `parent_id`
   * ends the walk.
   */
  function ParentIn(acts: Activities, id: int): (r: Option<int>)
    ensures r.Some? <==> id in acts && acts[id].parentId.Some? && acts[id].parentId.value in acts
    ensures r.Some? ==> acts[id].parentId == r
  {
    if id in acts && acts[id].parentId.Some? && acts[id].parentId.value in acts
    then acts[id].parentId
    else None
  }

  /** The ancestor `k` parent links above `id`, if the chain is that long. */
  function Up(acts: Activities, id: int, k: nat): Option<int>
    decreases k
  {
    if k == 0 then Some(id)
    else
      match ParentIn(acts, id)
      case None => None
      case Some(p) => Up(acts, p, k - 1)
  }

  /** The ancestor `k` links above `id` exists and has no parent row. */
  ghost predicate IsTopAt(acts: Activities, id: int, k: nat) {
    Up(acts, id, k).Some? && ParentIn(acts, Up(acts, id, k).value).None?
  }

  ghost predicate HasTop(acts: Activities, id: int) {
    exists k: nat :: IsTopAt(acts, id, k)
  }

  /**
   * No activity is its own ancestor: the walk up from every row ends at a
   * top-level row. The upward query has no cycle guard; started from one id it
   * ends exactly when that id's own chain does (`HasTop`).
   */
  ghost predicate Acyclic(acts: Activities) {
    forall id :: id in acts ==> HasTop(acts, id)
  }

  /** The top of a chain is reached at exactly one distance. */
  lemma {:induction false} TopUnique(acts: Activities, id: int, i: nat, j: nat)
    requires IsTopAt(acts, id, i) && IsTopAt(acts, id, j)
    ensures i == j
    decreases i
  {
    if i > 0 && j > 0 {
      var p := ParentIn(acts, id).value;
      TopUnique(acts, p, i - 1, j - 1);
    }
  }

  ghost function TopIndex(acts: Activities, id: int): (k: nat)
    requires HasTop(acts, id)
    ensures IsTopAt(acts, id, k)
  {
    var k: nat :| IsTopAt(acts, id, k); k
  }

  /** A node with a parent row is one link further from its top than that parent. */
  lemma ParentTop(acts: Activities, id: int, p: int)
    requires HasTop(acts, id) && ParentIn(acts, id) == Some(p)
    ensures HasTop(acts, p) && TopIndex(acts, p) < TopIndex(acts, id)
  {
    var k := TopIndex(acts, id);
    assert IsTopAt(acts, p, k - 1);
    TopUnique(acts, p, k - 1, TopIndex(acts, p));
  }

  /**
   * The level of an activity whose chain ends: the number of parent links from
   * it up to its top-level ancestor (the largest `depth` the upward CTE
   * produces). Cycles elsewhere in the table do not matter.
   */
  function Depth(acts: Activities, id: int): (d: nat)
    requires HasTop(acts, id)
    ensures IsTopAt(acts, id, d)
    decreases TopIndex(acts, id)
  {
    match ParentIn(acts, id)
    case None => 0
    case Some(p) =>
      ParentTop(acts, id, p);
      1 + Depth(acts, p)
  }

  /**
   * `get_depth`: 0 for None and for an id with no row (the `coalesce(max, 0)`
   * of an empty CTE), otherwise the level of the row.
   */
  function GetDepth(acts: Activities, id: Option<int>): (d: nat)
    requires id.Some? && id.value in acts ==> HasTop(acts, id.value)
    ensures id.None? || id.value !in acts ==> d == 0
    ensures id.Some? && id.value in acts ==> IsTopAt(acts, id.value, d)
  {
    match id
    case None => 0
    case Some(i) => if i in acts then Depth(acts, i) else 0
  }

  /** `get_depth` counts ancestor hops: it equals any distance at which the chain tops out. */
  lemma DepthIsHopCount(acts: Activities, id: int, k: nat)
    requires IsTopAt(acts, id, k)
    ensures HasTop(acts, id) && GetDepth(acts, Some(id)) == k
  {
    if id in acts {
      TopUnique(acts, id, k, Depth(acts, id));
    }
  }

  /** A root, and a row whose parent reference dangles, has level 0. */
  lemma DepthOfTop(acts: Activities, id: int)
    requires ParentIn(acts, id).None?
    ensures HasTop(acts, id) && GetDepth(acts, Some(id)) == 0
  {
    assert IsTopAt(acts, id, 0);
    DepthIsHopCount(acts, id, 0);
  }

  /** A node under an existing parent is one level below it. */
  lemma DepthOfChild(acts: Activities, id: int, p: int)
    requires id in acts && acts[id].parentId == Some(p) && p in acts && HasTop(acts, p)
    ensures HasTop(acts, id) && GetDepth(acts, Some(id)) == GetDepth(acts, Some(p)) + 1
  {
    var d := GetDepth(acts, Some(p));
    assert Up(acts, id, d + 1) == Up(acts, p, d);
    DepthIsHopCount(acts, id, d + 1);
  }

  /** A row that is its own parent makes the table cyclic. */
  lemma SelfParentIsCyclic(acts: Activities, id: int)
    requires id in acts && acts[id].parentId == Some(id)
    ensures !Acyclic(acts)
  {
    if Acyclic(acts) {
      var k := TopIndex(acts, id);
      SelfParentNeverTops(acts, id, k);
    }
  }

  lemma {:induction false} SelfParentNeverTops(acts: Activities, id: int, k: nat)
    requires id in acts && acts[id].parentId == Some(id)
    ensures !IsTopAt(acts, id, k)
  {
    if k > 0 {
      SelfParentNeverTops(acts, id, k - 1);
    }
  }

  /** The deepest level a node may have: root 0, child 1, grandchild 2. */
  const MaxLevel := 2

  /** The tree is acyclic and no activity sits below level 2. */
  ghost predicate WithinNestingLimit(acts: Activities) {
    Acyclic(acts) && forall id :: id in acts ==> Depth(acts, id) <= MaxLevel
  }

  // ---------------------------------------------------------------------------
  // How the levels change when a row is added or removed
  // ---------------------------------------------------------------------------

  /** No row's `parent_id` names `n`. */
  ghost predicate Unreferenced(acts: Activities, n: int) {
    forall k :: k in acts && acts[k].parentId.Some? ==> acts[k].parentId.value != n
  }

  lemma ParentInAfterAdd(acts: Activities, n: int, a: Activity, v: int)
    requires n !in acts && Unreferenced(acts, n) && v != n
    ensures ParentIn(acts[n := a], v) == ParentIn(acts, v)
  {
  }

  lemma {:induction false} AddLeafKeepsChain(acts: Activities, n: int, a: Activity, id: int, k: nat)
    requires n !in acts && Unreferenced(acts, n) && id != n
    ensures Up(acts[n := a], id, k) == Up(acts, id, k)
    ensures Up(acts, id, k).Some? ==> Up(acts, id, k).value != n
    ensures IsTopAt(acts[n := a], id, k) <==> IsTopAt(acts, id, k)
    decreases k
  {
    ParentInAfterAdd(acts, n, a, id);
    if k > 0 && ParentIn(acts, id).Some? {
      AddLeafKeepsChain(acts, n, a, ParentIn(acts, id).value, k - 1);
    }
    if Up(acts, id, k).Some? {
      ParentInAfterAdd(acts, n, a, Up(acts, id, k).value);
    }
  }

  /**
   * Storing a new row `n` that nobody references, under an existing parent
   * whose chain ends or under none, keeps the tree acyclic, changes for no
   * other row whether its chain ends or at which level, and puts the new row
   * one level below its parent.
   */
  lemma AddLeafLevels(acts: Activities, n: int, a: Activity)
    requires n !in acts && Unreferenced(acts, n)
    requires a.parentId.Some? ==> a.parentId.value in acts && HasTop(acts, a.parentId.value)
    ensures forall id :: id in acts ==> (HasTop(acts[n := a], id) <==> HasTop(acts, id))
    ensures forall id :: id in acts && HasTop(acts, id) ==> Depth(acts[n := a], id) == Depth(acts, id)
    ensures HasTop(acts[n := a], n)
    ensures Depth(acts[n := a], n) == if a.parentId.None? then 0 else 1 + Depth(acts, a.parentId.value)
    ensures Acyclic(acts) ==> Acyclic(acts[n := a])
  {
    var acts' := acts[n := a];
    forall id | id in acts
      ensures HasTop(acts', id) <==> HasTop(acts, id)
    {
      if HasTop(acts, id) {
        AddLeafKeepsChain(acts, n, a, id, TopIndex(acts, id));
      }
      if HasTop(acts', id) {
        AddLeafKeepsChain(acts, n, a, id, TopIndex(acts', id));
      }
    }
    forall id | id in acts && HasTop(acts, id)
      ensures Depth(acts', id) == Depth(acts, id)
    {
      AddLeafKeepsChain(acts, n, a, id, Depth(acts, id));
      DepthIsHopCount(acts', id, Depth(acts, id));
    }
    if a.parentId.None? {
      DepthOfTop(acts', n);
    } else {
      DepthOfChild(acts', n, a.parentId.value);
    }
  }

  lemma {:induction false} RemoveKeepsTop(acts: Activities, x: int, id: int, j: nat)
    requires IsTopAt(acts, id, j)
    ensures exists i: nat :: i <= j && IsTopAt(acts - {x}, id, i)
    decreases j
  {
    var acts' := acts - {x};
    if ParentIn(acts', id).None? {
      assert IsTopAt(acts', id, 0);
    } else {
      var p := ParentIn(acts', id).value;
      assert ParentIn(acts, id) == Some(p);
      assert IsTopAt(acts, p, j - 1);
      RemoveKeepsTop(acts, x, p, j - 1);
      var i: nat :| i <= j - 1 && IsTopAt(acts', p, i);
      assert Up(acts', id, i + 1) == Up(acts', p, i);
      assert IsTopAt(acts', id, i + 1);
    }
  }

  /**
   * Removing a row keeps every ending chain ending, lowers no level and keeps
   * an acyclic tree acyclic: a child of the removed row has a dangling
   * `parent_id`, which both queries treat as null.
   */
  lemma RemoveLevels(acts: Activities, x: int)
    ensures forall id :: id in acts - {x} && HasTop(acts, id) ==> HasTop(acts - {x}, id)
    ensures forall id :: id in acts - {x} && HasTop(acts, id) ==> Depth(acts - {x}, id) <= Depth(acts, id)
    ensures Acyclic(acts) ==> Acyclic(acts - {x})
  {
    var acts' := acts - {x};
    forall id | id in acts' && HasTop(acts, id)
      ensures HasTop(acts', id) && exists i: nat :: i <= Depth(acts, id) && IsTopAt(acts', id, i)
    {
      RemoveKeepsTop(acts, x, id, Depth(acts, id));
    }
    forall id | id in acts' && HasTop(acts, id)
      ensures Depth(acts', id) <= Depth(acts, id)
    {
      var i: nat :| i <= Depth(acts, id) && IsTopAt(acts', id, i);
      DepthIsHopCount(acts', id, i);
    }
  }

  // ---------------------------------------------------------------------------
  // Re-pointing a parent (what `update` does with `parent_id`)
  // ---------------------------------------------------------------------------

  /** `anc` is `x` itself or one of its ancestors: the walk from `x`, which ends, passes it. */
  function AncestorOrSelf(acts: Activities, anc: int, x: int): bool
    requires HasTop(acts, x)
    decreases TopIndex(acts, x)
  {
    if x == anc then true
    else
      match ParentIn(acts, x)
      case None => false
      case Some(q) =>
        ParentTop(acts, x, q);
        AncestorOrSelf(acts, anc, q)
  }

  /** Storing a row with its old `parent_id` (a rename) changes no walk. */
  lemma {:induction false} RenameKeepsUp(acts: Activities, id: int, a: Activity, x: int, k: nat)
    requires id in acts && a.parentId == acts[id].parentId
    ensures Up(acts[id := a], x, k) == Up(acts, x, k)
    ensures IsTopAt(acts[id := a], x, k) <==> IsTopAt(acts, x, k)
    decreases k
  {
    assert ParentIn(acts[id := a], x) == ParentIn(acts, x);
    if k > 0 && ParentIn(acts, x).Some? {
      RenameKeepsUp(acts, id, a, ParentIn(acts, x).value, k - 1);
    }
    if Up(acts, x, k).Some? {
      assert ParentIn(acts[id := a], Up(acts, x, k).value) == ParentIn(acts, Up(acts, x, k).value);
    }
  }

  lemma RenameKeepsChains(acts: Activities, id: int, a: Activity)
    requires id in acts && a.parentId == acts[id].parentId
    ensures Acyclic(acts) ==> Acyclic(acts[id := a])
  {
    var acts' := acts[id := a];
    if Acyclic(acts) {
      forall x | x in acts'
        ensures HasTop(acts', x)
      {
        RenameKeepsUp(acts, id, a, x, TopIndex(acts, x));
      }
    }
  }

  /** Walking `i` links and then `j` more is walking `i + j` links. */
  lemma {:induction false} UpAdd(acts: Activities, x: int, i: nat, j: nat)
    ensures Up(acts, x, i + j) == if Up(acts, x, i).None? then None else Up(acts, Up(acts, x, i).value, j)
    decreases i
  {
    if i > 0 && ParentIn(acts, x).Some? {
      UpAdd(acts, ParentIn(acts, x).value, i - 1, j);
    }
  }

  /** `AncestorOrSelf` holds exactly for the ids on the walk up from `x`. */
  lemma {:induction false} AncestorOrSelfOnChain(acts: Activities, anc: int, x: int, k: nat)
    requires HasTop(acts, x)
    ensures Up(acts, x, k) == Some(anc) ==> AncestorOrSelf(acts, anc, x)
    ensures AncestorOrSelf(acts, anc, x) ==> exists i :: 0 <= i <= TopIndex(acts, x) && Up(acts, x, i) == Some(anc)
    decreases TopIndex(acts, x)
  {
    if x != anc && ParentIn(acts, x).Some? {
      var q := ParentIn(acts, x).value;
      ParentTop(acts, x, q);
      if k > 0 {
        AncestorOrSelfOnChain(acts, anc, q, k - 1);
      } else {
        AncestorOrSelfOnChain(acts, anc, q, 0);
      }
      if AncestorOrSelf(acts, anc, q) {
        var i :| 0 <= i <= TopIndex(acts, q) && Up(acts, q, i) == Some(anc);
        assert Up(acts, x, i + 1) == Up(acts, q, i);
        assert 0 <= i + 1 <= TopIndex(acts, x);
      }
    } else if x == anc {
      assert Up(acts, x, 0) == Some(anc);
    }
  }

  /** A walk that returns to its start after `c > 0` links never ends. */
  lemma ReturningWalkNeverTops(acts: Activities, x: int, c: nat)
    requires c > 0 && Up(acts, x, c) == Some(x)
    ensures !HasTop(acts, x)
  {
    if HasTop(acts, x) {
      var t := TopIndex(acts, x);
      UpAdd(acts, x, c, t);
      assert IsTopAt(acts, x, c + t);
      TopUnique(acts, x, t, c + t);
    }
  }

  /** Storing `a`, with `a.parentId == Some(p)`, leaves alone a walk that does not pass `id`. */
  lemma {:induction false} MoveKeepsAvoidingChain(acts: Activities, id: int, a: Activity, q: int, m: nat)
    requires id in acts && a.parentId.Some? && a.parentId.value in acts
    requires IsTopAt(acts, q, m) && forall i: nat :: i <= m ==> Up(acts, q, i) != Some(id)
    ensures IsTopAt(acts[id := a], q, m)
    decreases m
  {
    var acts' := acts[id := a];
    assert Up(acts, q, 0) != Some(id);
    assert ParentIn(acts', q) == ParentIn(acts, q);
    if m > 0 {
      var r := ParentIn(acts, q).value;
      forall i: nat | i <= m - 1
        ensures Up(acts, r, i) != Some(id)
      {
        assert Up(acts, q, i + 1) == Up(acts, r, i);
      }
      MoveKeepsAvoidingChain(acts, id, a, r, m - 1);
      assert Up(acts', q, m) == Up(acts', r, m - 1);
    }
  }

  /**
   * Re-pointing `id` to a parent `p` that is not `id` or one of its
   * descendants keeps every ending walk ending.
   */
  lemma {:induction false} MoveKeepsTop(acts: Activities, id: int, a: Activity, x: int)
    requires id in acts && a.parentId.Some? && a.parentId.value in acts
    requires HasTop(acts, a.parentId.value) && !AncestorOrSelf(acts, id, a.parentId.value)
    requires HasTop(acts, x)
    ensures HasTop(acts[id := a], x)
    decreases TopIndex(acts, x)
  {
    var acts' := acts[id := a];
    var p := a.parentId.value;
    if x == id {
      var m := TopIndex(acts, p);
      forall i: nat | i <= m
        ensures Up(acts, p, i) != Some(id)
      {
        AncestorOrSelfOnChain(acts, id, p, i);
      }
      MoveKeepsAvoidingChain(acts, id, a, p, m);
      assert ParentIn(acts', id) == Some(p);
      assert Up(acts', id, m + 1) == Up(acts', p, m);
      assert IsTopAt(acts', id, m + 1);
    } else {
      assert ParentIn(acts', x) == ParentIn(acts, x);
      match ParentIn(acts, x)
      case None =>
        assert IsTopAt(acts', x, 0);
      case Some(q) =>
        ParentTop(acts, x, q);
        MoveKeepsTop(acts, id, a, q);
        var m := TopIndex(acts', q);
        assert Up(acts', x, m + 1) == Up(acts', q, m);
        assert IsTopAt(acts', x, m + 1);
    }
  }

  /** Re-pointing `id` to a parent outside its own subtree keeps an acyclic tree acyclic. */
  lemma MoveKeepsAcyclic(acts: Activities, id: int, a: Activity)
    requires Acyclic(acts) && id in acts && a.parentId.Some? && a.parentId.value in acts
    requires !AncestorOrSelf(acts, id, a.parentId.value)
    ensures Acyclic(acts[id := a])
  {
    var acts' := acts[id := a];
    forall x | x in acts'
      ensures HasTop(acts', x)
    {
      MoveKeepsTop(acts, id, a, x);
    }
  }

  lemma {:induction false} MoveUnderDescendantLoops(acts: Activities, id: int, a: Activity, acts': Activities, x: int)
    requires id in acts && a.parentId.Some? && a.parentId.value in acts && acts' == acts[id := a]
    requires HasTop(acts, x) && AncestorOrSelf(acts, id, x)
    ensures exists k: nat :: Up(acts', x, k) == Some(id)
    decreases TopIndex(acts, x)
  {
    if x == id {
      assert Up(acts', x, 0) == Some(id);
    } else {
      var q := ParentIn(acts, x).value;
      assert ParentIn(acts', x) == Some(q);
      ParentTop(acts, x, q);
      MoveUnderDescendantLoops(acts, id, a, acts', q);
      var k: nat :| Up(acts', q, k) == Some(id);
      assert Up(acts', x, k + 1) == Up(acts', q, k);
    }
  }

  /**
   * Re-pointing `id` to `id` itself or to one of its descendants closes a
   * cycle: the walk up from `id` never ends, so the upward query started
   * there does not return.
   */
  lemma MoveUnderDescendantIsCyclic(acts: Activities, id: int, a: Activity)
    requires id in acts && a.parentId.Some? && a.parentId.value in acts
    requires HasTop(acts, a.parentId.value) && AncestorOrSelf(acts, id, a.parentId.value)
    ensures !HasTop(acts[id := a], id)
    ensures !Acyclic(acts[id := a])
  {
    var acts' := acts[id := a];
    var p := a.parentId.value;
    MoveUnderDescendantLoops(acts, id, a, acts', p);
    var k: nat :| Up(acts', p, k) == Some(id);
    assert ParentIn(acts', id) == Some(p);
    assert Up(acts', id, k + 1) == Up(acts', p, k);
    ReturningWalkNeverTops(acts', id, k + 1);
  }

  // ---------------------------------------------------------------------------
  // Downward closure (get_sub_activities)
  // ---------------------------------------------------------------------------

  /** The rows whose `parent_id` is one of `parents`: one step of the recursive CTE. */
  function Children(acts: Activities, parents: set<int>): (r: set<int>)
    ensures r <= acts.Keys
  {
    set c | c in acts && acts[c].parentId.Some? && acts[c].parentId.value in parents
  }

  /** The ids of the CTE rows whose `level` column is `level`. */
  function Level(acts: Activities, root: int, level: nat): set<int>
    decreases level
  {
    if level == 0 then {root} else Children(acts, Level(acts, root, level - 1))
  }

  /** The ids of the CTE rows with `level <= depth`. */
  function Tree(acts: Activities, root: int, depth: nat): (r: set<int>)
    ensures root in r
    ensures root in acts ==> r <= acts.Keys
    decreases depth
  {
    if depth == 0 then Level(acts, root, 0)
    else Tree(acts, root, depth - 1) + Level(acts, root, depth)
  }

  /**
   * `get_sub_activities(root, depth)`: empty for `depth <= 0` or a missing root;
   * otherwise the root, taken at level 0, and the children of every row of
   * level below `depth`. The result is an id set, so each activity occurs once.
   */
  function SubActivities(acts: Activities, root: int, depth: int): (r: set<int>)
    ensures depth <= 0 || root !in acts ==> r == {}
    ensures depth > 0 && root in acts ==> root in r
    ensures r <= acts.Keys
  {
    if depth <= 0 || root !in acts then {} else Tree(acts, root, depth)
  }

  /** A downward path: a row, then a row whose parent is it, and so on. */
  ghost predicate IsChildPath(acts: Activities, path: seq<int>) {
    && |path| >= 1
    && path[0] in acts
    && forall i :: 1 <= i < |path| ==> path[i] in acts && acts[path[i]].parentId == Some(path[i - 1])
  }

  /** `x` is `root` or a descendant of it at most `depth` child links below. */
  ghost predicate ReachableWithin(acts: Activities, root: int, x: int, depth: int) {
    exists path :: IsChildPath(acts, path) && path[0] == root && path[|path| - 1] == x && |path| <= depth + 1
  }

  lemma {:induction false} LevelHasPath(acts: Activities, root: int, k: nat, x: int)
    requires root in acts && x in Level(acts, root, k)
    ensures exists path :: IsChildPath(acts, path) && path[0] == root && path[|path| - 1] == x && |path| == k + 1
  {
    if k == 0 {
      assert IsChildPath(acts, [root]);
    } else {
      var q := acts[x].parentId.value;
      LevelHasPath(acts, root, k - 1, q);
      var path :| IsChildPath(acts, path) && path[0] == root && path[|path| - 1] == q && |path| == k;
      var longer := path + [x];
      assert IsChildPath(acts, longer) by {
        forall i | 1 <= i < |longer|
          ensures longer[i] in acts && acts[longer[i]].parentId == Some(longer[i - 1])
        {
          if i < |path| {
            assert longer[i] == path[i] && longer[i - 1] == path[i - 1];
          }
        }
      }
      assert longer[|longer| - 1] == x;
    }
  }

  lemma {:induction false} PathInLevel(acts: Activities, path: seq<int>)
    requires IsChildPath(acts, path)
    ensures path[|path| - 1] in Level(acts, path[0], |path| - 1)
  {
    if |path| > 1 {
      var shorter := path[..|path| - 1];
      assert IsChildPath(acts, shorter) by {
        forall i | 1 <= i < |shorter|
          ensures shorter[i] in acts && acts[shorter[i]].parentId == Some(shorter[i - 1])
        {
          assert shorter[i] == path[i] && shorter[i - 1] == path[i - 1];
        }
      }
      PathInLevel(acts, shorter);
      var x, q := path[|path| - 1], path[|path| - 2];
      assert q == shorter[|shorter| - 1] && q in Level(acts, path[0], |path| - 2);
      assert x in acts && acts[x].parentId == Some(q);
      assert x in Children(acts, Level(acts, path[0], |path| - 2));
    }
  }

  lemma {:induction false} LevelInTree(acts: Activities, root: int, depth: nat, k: nat, x: int)
    requires k <= depth && x in Level(acts, root, k)
    ensures x in Tree(acts, root, depth)
    decreases depth
  {
    if k < depth {
      LevelInTree(acts, root, depth - 1, k, x);
    }
  }

  lemma {:induction false} TreeHasLevel(acts: Activities, root: int, depth: nat, x: int)
    requires x in Tree(acts, root, depth)
    ensures exists k :: 0 <= k <= depth && x in Level(acts, root, k)
    decreases depth
  {
    if depth == 0 || x in Level(acts, root, depth) {
      assert 0 <= depth <= depth && x in Level(acts, root, depth);
    } else {
      TreeHasLevel(acts, root, depth - 1, x);
      var k :| 0 <= k <= depth - 1 && x in Level(acts, root, k);
      assert 0 <= k <= depth && x in Level(acts, root, k);
    }
  }

  lemma TreeIsUnionOfLevels(acts: Activities, root: int, depth: nat, x: int)
    ensures x in Tree(acts, root, depth) <==> exists k :: 0 <= k <= depth && x in Level(acts, root, k)
  {
    if x in Tree(acts, root, depth) {
      TreeHasLevel(acts, root, depth, x);
    }
    if exists k :: 0 <= k <= depth && x in Level(acts, root, k) {
      var k :| 0 <= k <= depth && x in Level(acts, root, k);
      LevelInTree(acts, root, depth, k, x);
    }
  }

  /**
   * An activity is in `get_sub_activities(root, depth)` exactly when it is
   * reachable from the root by at most `depth` child links (and `depth > 0`).
   */
  lemma SubActivitiesAreReachable(acts: Activities, root: int, depth: int, x: int)
    ensures x in SubActivities(acts, root, depth) <==> depth > 0 && ReachableWithin(acts, root, x, depth)
  {
    if depth > 0 && root in acts {
      TreeIsUnionOfLevels(acts, root, depth, x);
      if x in SubActivities(acts, root, depth) {
        var k :| 0 <= k <= depth && x in Level(acts, root, k);
        LevelHasPath(acts, root, k, x);
      }
      if ReachableWithin(acts, root, x, depth) {
        var path :| IsChildPath(acts, path) && path[0] == root && path[|path| - 1] == x && |path| <= depth + 1;
        PathInLevel(acts, path);
      }
    }
  }
}
