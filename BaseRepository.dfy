/**
 * The generic keyed table behind every repository: `get_all`, `get_by_id`,
 * `create`, `update` and `delete` over one entity type, with ids handed out by
 * an auto-increment counter as the database's serial primary key does.
 */
module BaseRepository {
  import opened Outcome

  /**
   * The entity after `setattr(entity, key, value)` for each keyword argument
   * whose value is not None, taken in argument order. Each keyword is given as
   * an optional attribute assignment; `assign` performs one `setattr`.
   */
  function ApplyKwargs<T, A>(entity: T, kwargs: seq<Option<A>>, assign: (T, A) -> T): (r: T)
    ensures |kwargs| == 0 ==> r == entity
    ensures |kwargs| == 1 ==> r == if kwargs[0].Some? then assign(entity, kwargs[0].value) else entity
    decreases |kwargs|
  {
    if |kwargs| == 0 then entity
    else
      var before := ApplyKwargs(entity, kwargs[..|kwargs| - 1], assign);
      match kwargs[|kwargs| - 1]
      case None => before
      case Some(a) => assign(before, a)
  }

  /** An update whose every value is None leaves the entity as it was. */
  lemma {:induction false} AllNoneLeavesEntity<T, A>(entity: T, kwargs: seq<Option<A>>, assign: (T, A) -> T)
    requires forall i :: 0 <= i < |kwargs| ==> kwargs[i].None?
    ensures ApplyKwargs(entity, kwargs, assign) == entity
  {
    if |kwargs| > 0 {
      AllNoneLeavesEntity(entity, kwargs[..|kwargs| - 1], assign);
    }
  }

  /**
   * A field that no given assignment touches keeps its value: `get` reads the
   * field and `touches(a)` says whether assignment `a` may change it.
   */
  lemma {:induction false} UntouchedFieldKept<T, A, V>(
    entity: T, kwargs: seq<Option<A>>, assign: (T, A) -> T, get: T -> V, touches: A -> bool)
    requires forall x, a :: !touches(a) ==> get(assign(x, a)) == get(x)
    requires forall i :: 0 <= i < |kwargs| && kwargs[i].Some? ==> !touches(kwargs[i].value)
    ensures get(ApplyKwargs(entity, kwargs, assign)) == get(entity)
  {
    if |kwargs| > 0 {
      UntouchedFieldKept(entity, kwargs[..|kwargs| - 1], assign, get, touches);
    }
  }

  class Table<T> {
    var rows: map<int, T>
    var nextId: int

    /** Every stored id was handed out by the counter, which starts at 1. */
    ghost predicate Valid()
      reads this
    {
      1 <= nextId && forall id :: id in rows ==> 1 <= id < nextId
    }

    constructor ()
      ensures Valid() && rows == map[] && nextId == 1
    {
      rows := map[];
      nextId := 1;
    }

    /** Every stored entity, keyed by id. */
    method GetAll() returns (all: map<int, T>)
      ensures all == rows
    {
      all := rows;
    }

    /** The entity stored under `id`, or None if there is none. */
    method GetById(id: int) returns (r: Option<T>)
      ensures r.Some? <==> id in rows
      ensures r.Some? ==> r.value == rows[id]
    {
      if id in rows {
        r := Some(rows[id]);
      } else {
        r := None;
      }
    }

    /** Stores `entity` under a fresh id and returns that id. */
    method Create(entity: T) returns (id: int)
      requires Valid()
      modifies this
      ensures Valid()
      ensures id == old(nextId) && id !in old(rows)
      ensures rows == old(rows)[id := entity] && nextId == old(nextId) + 1
    {
      id := nextId;
      rows := rows[id := entity];
      nextId := nextId + 1;
    }

    /** Sets every non-None attribute of the entity stored under `id`, one at a time. */
    method Update<A>(id: int, kwargs: seq<Option<A>>, assign: (T, A) -> T) returns (entity: T)
      requires Valid() && id in rows
      modifies this
      ensures Valid() && nextId == old(nextId)
      ensures entity == ApplyKwargs(old(rows)[id], kwargs, assign)
      ensures rows == old(rows)[id := entity]
    {
      entity := rows[id];
      var i := 0;
      while i < |kwargs|
        invariant 0 <= i <= |kwargs|
        invariant entity == ApplyKwargs(rows[id], kwargs[..i], assign)
      {
        assert kwargs[..i + 1][..i] == kwargs[..i];
        if kwargs[i].Some? {
          entity := assign(entity, kwargs[i].value);
        }
        i := i + 1;
      }
      assert kwargs[..|kwargs|] == kwargs;
      rows := rows[id := entity];
    }

    /** Removes exactly the entity stored under `id`. */
    method Delete(id: int)
      requires Valid() && id in rows
      modifies this
      ensures Valid() && nextId == old(nextId)
      ensures rows == old(rows) - {id}
    {
      rows := rows - {id};
    }
  }
}
