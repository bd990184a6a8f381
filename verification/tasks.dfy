/** The `UserTask` record of the task organiser and the facts about task
    identifiers that the store relies on. */
module Tasks {

  /** A point in time (Foundation's `Date`). It is used both for a task's
      start and end times and as the key of the store; the model only ever
      compares two dates for equality. */
  type Date(==, !new)

  /** A universally unique identifier, drawn once when a task is built. */
  type Uuid(==, !new)

  /** A task. `id` is fixed at construction; the other four fields can be
      edited. Records are values: editing one produces a new value. */
  datatype UserTask = UserTask(
    id: Uuid,
    title: string,
    startTime: Date,
    endTime: Date,
    location: string)

  /** The edit form: the task's copy gets new values for every editable
      field, while its identity is kept, so that a later update still finds
      the stored entry. */
  function Edit(t: UserTask, title: string, startTime: Date, endTime: Date, location: string): (r: UserTask)
    ensures r.id == t.id
  {
    t.(title := title, startTime := startTime, endTime := endTime, location := location)
  }

  /** The identifiers carried by a list of tasks. */
  function Ids(xs: seq<UserTask>): (ids: set<Uuid>)
    ensures forall i :: 0 <= i < |xs| ==> xs[i].id in ids
    ensures forall id :: id in ids ==> exists i :: 0 <= i < |xs| && xs[i].id == id
  {
    set x | x in xs :: x.id
  }

  /** No two positions of the list carry the same identifier. */
  ghost predicate DistinctIds(xs: seq<UserTask>) {
    forall i, j :: 0 <= i < j < |xs| ==> xs[i].id != xs[j].id
  }

  lemma IdsAppend(xs: seq<UserTask>, ys: seq<UserTask>)
    ensures Ids(xs + ys) == Ids(xs) + Ids(ys)
  {
    assert forall x :: x in xs + ys <==> x in xs || x in ys;
  }

  /** A list extended at the back keeps distinct identifiers exactly when
      the new task's identifier is not already in it. */
  lemma DistinctIdsSnoc(xs: seq<UserTask>, t: UserTask)
    ensures DistinctIds(xs + [t]) <==> DistinctIds(xs) && t.id !in Ids(xs)
  {
    var ys := xs + [t];
    if DistinctIds(ys) {
      assert forall i, j :: 0 <= i < j < |xs| ==> xs[i] == ys[i] && xs[j] == ys[j];
      forall i | 0 <= i < |xs| ensures xs[i].id != t.id {
        assert ys[i] == xs[i] && ys[|xs|] == t;
      }
    }
  }

  /** A list extended at the front keeps distinct identifiers exactly when
      the new task's identifier is not already in it. */
  lemma DistinctIdsCons(t: UserTask, xs: seq<UserTask>)
    ensures DistinctIds([t] + xs) <==> DistinctIds(xs) && t.id !in Ids(xs)
  {
    var ys := [t] + xs;
    assert ys[0] == t;
    assert forall k :: 0 <= k < |xs| ==> ys[k + 1] == xs[k];
    if DistinctIds(ys) {
      forall i, j | 0 <= i < j < |xs| ensures xs[i].id != xs[j].id {
        assert ys[i + 1].id != ys[j + 1].id;
      }
      forall i | 0 <= i < |xs| ensures xs[i].id != t.id {
        assert ys[0].id != ys[i + 1].id;
      }
    }
    if DistinctIds(xs) && t.id !in Ids(xs) {
      forall i, j | 0 <= i < j < |ys| ensures ys[i].id != ys[j].id {
        if i == 0 {
          assert ys[j] == xs[j - 1];
        } else {
          assert ys[i] == xs[i - 1] && ys[j] == xs[j - 1];
        }
      }
    }
  }

  /** Replacing an entry by a task with the same identifier changes neither
      the set of identifiers nor their distinctness. */
  lemma ReplaceSameId(xs: seq<UserTask>, i: nat, t: UserTask)
    requires i < |xs| && xs[i].id == t.id
    ensures Ids(xs[i := t]) == Ids(xs)
    ensures DistinctIds(xs[i := t]) <==> DistinctIds(xs)
  {
    var ys := xs[i := t];
    assert forall k :: 0 <= k < |xs| ==> ys[k].id == xs[k].id;
    forall id | id in Ids(ys) ensures id in Ids(xs) {
      var k :| 0 <= k < |ys| && ys[k].id == id;
      assert xs[k].id == id;
    }
    forall id | id in Ids(xs) ensures id in Ids(ys) {
      var k :| 0 <= k < |xs| && xs[k].id == id;
      assert ys[k].id == id;
    }
  }
}
