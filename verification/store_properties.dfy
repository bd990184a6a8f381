/** Properties of the task store: the add/remove round trip, idempotence of
    remove and update, the positional meaning of update, the invariant that
    identifiers are unique across the whole store, and what a whole session
    of writes can and cannot do to a day nobody added to. */
module StoreProperties {
  import opened Tasks
  import opened TaskLists
  import opened TaskStore

  /** Every identifier appears at most once in the whole store: never twice
      in one day's list, and never under two different days. */
  ghost predicate WellFormed(s: Store) {
    && (forall d :: d in s ==> DistinctIds(s[d]))
    && (forall d, e :: d in s && e in s && d != e ==> Ids(s[d]) !! Ids(s[e]))
  }

  /** No entry of the store carries `id`, as for an identifier `UUID()` has
      just drawn. */
  ghost predicate FreshIn(s: Store, id: Uuid) {
    forall d :: d in s ==> id !in Ids(s[d])
  }

  // ---------------------------------------------------------------------
  // add / remove

  /** Adding a task whose identifier the day does not hold, then removing
      it, gives the day back its previous list. The day's key stays: when
      the day had none before, it now reads as an explicit empty list. */
  lemma AddThenRemove(s: Store, t: UserTask, d: Date)
    requires t.id !in Ids(TasksFor(s, d))
    ensures TasksFor(Remove(Add(s, t, d), t, d), d) == TasksFor(s, d)
    ensures d in s ==> Remove(Add(s, t, d), t, d) == s
    ensures d !in s ==> Remove(Add(s, t, d), t, d) == s[d := []]
  {
    var xs := TasksFor(s, d);
    RemoveAllAppend(xs, [t], t.id);
    RemoveAllAbsent(xs, t.id);
    assert RemoveAllWithId([t], t.id) == [] by {
      assert [t][1..] == [];
    }
  }

  /** Removing twice is removing once. */
  lemma RemoveIdempotent(s: Store, t: UserTask, d: Date)
    ensures Remove(Remove(s, t, d), t, d) == Remove(s, t, d)
  {
    if d in s {
      RemoveAllIdempotent(s[d], t.id);
    }
  }

  /** When the day's identifiers are distinct, removing a task that is at
      position `i` of the day deletes that one entry and keeps the others in
      order. */
  lemma RemoveDeletesOne(s: Store, t: UserTask, d: Date, i: nat)
    requires d in s && DistinctIds(s[d])
    requires i < |s[d]| && s[d][i].id == t.id
    ensures Remove(s, t, d)[d] == s[d][..i] + s[d][i + 1..]
    ensures |Remove(s, t, d)[d]| == |s[d]| - 1
  {
    RemoveAllDistinct(s[d], i, t.id);
  }

  // ---------------------------------------------------------------------
  // update

  /** Update overwrites exactly the first position carrying the task's
      identifier: that position now holds the task, and every other
      position and the length are as before. */
  lemma UpdateReplacesFirstMatch(s: Store, t: UserTask, d: Date, i: nat)
    requires i < |TasksFor(s, d)| && TasksFor(s, d)[i].id == t.id
    requires forall j :: 0 <= j < i ==> TasksFor(s, d)[j].id != t.id
    ensures TasksFor(Update(s, t, d), d) == TasksFor(s, d)[i := t]
  {
    FirstIndexOfUnique(TasksFor(s, d), i, t.id);
  }

  /** After an update, looking the identifier up again finds the saved task
      at the same position, so a second identical update changes nothing. */
  lemma UpdateIdempotent(s: Store, t: UserTask, d: Date)
    ensures FirstIndexOf(TasksFor(Update(s, t, d), d), t.id) == FirstIndexOf(TasksFor(s, d), t.id)
    ensures Update(Update(s, t, d), t, d) == Update(s, t, d)
  {
    var r := FirstIndexOf(TasksFor(s, d), t.id);
    if r.Some? {
      FirstIndexAfterReplace(TasksFor(s, d), r.value, t);
      assert TasksFor(s, d)[r.value := t][r.value := t] == TasksFor(s, d)[r.value := t];
    }
  }

  /** Update never moves a task between days nor changes which identifiers
      a day holds. */
  lemma UpdateKeepsIds(s: Store, t: UserTask, d: Date)
    ensures forall k :: Ids(TasksFor(Update(s, t, d), k)) == Ids(TasksFor(s, k))
  {
    var xs := TasksFor(s, d);
    var r := FirstIndexOf(xs, t.id);
    if r.Some? {
      ReplaceSameId(xs, r.value, t);
    }
  }

  /** The edit sheet's save: the row's task, edited in the form (its `id`
      untouched) and passed to update, lands at the row's position with the
      form's values; the rest of the day and the other days are untouched. */
  lemma EditThenSave(s: Store, d: Date, i: nat, title: string, startTime: Date, endTime: Date, location: string)
    requires d in s && DistinctIds(s[d])
    requires i < |s[d]|
    ensures var e := Edit(s[d][i], title, startTime, endTime, location);
      Update(s, e, d)[d] == s[d][i := e]
    ensures Update(s, Edit(s[d][i], title, startTime, endTime, location), d)[d][i]
      == UserTask(s[d][i].id, title, startTime, endTime, location)
    ensures forall k :: k in s && k != d ==> Update(s, Edit(s[d][i], title, startTime, endTime, location), d)[k] == s[k]
  {
    var e := Edit(s[d][i], title, startTime, endTime, location);
    forall j | 0 <= j < i ensures s[d][j].id != e.id {
      assert s[d][j].id != s[d][i].id;
    }
    UpdateReplacesFirstMatch(s, e, d, i);
  }

  // ---------------------------------------------------------------------
  // the uniqueness invariant

  /** Adding a task with a freshly drawn identifier keeps identifiers unique. */
  lemma AddPreservesWellFormed(s: Store, t: UserTask, d: Date)
    requires WellFormed(s)
    requires FreshIn(s, t.id)
    ensures WellFormed(Add(s, t, d))
  {
    var r := Add(s, t, d);
    var xs := TasksFor(s, d);
    DistinctIdsSnoc(xs, t);
    IdsAppend(xs, [t]);
    assert Ids([t]) == {t.id};
    forall e | e in r && e != d ensures Ids(r[d]) !! Ids(r[e]) {
      assert r[e] == s[e];
    }
  }

  /** Removing keeps identifiers unique; after removing a task that was in
      the day, its identifier is nowhere in the store. */
  lemma RemovePreservesWellFormed(s: Store, t: UserTask, d: Date)
    requires WellFormed(s)
    ensures WellFormed(Remove(s, t, d))
    ensures t.id in Ids(TasksFor(s, d)) ==> FreshIn(Remove(s, t, d), t.id)
  {
    if d in s {
      var r := Remove(s, t, d);
      RemoveAllKeepsDistinct(s[d], t.id);
      forall e | e in r && e != d ensures Ids(r[d]) !! Ids(r[e]) {
        assert r[e] == s[e];
      }
    }
  }

  /** Updating keeps identifiers unique. */
  lemma UpdatePreservesWellFormed(s: Store, t: UserTask, d: Date)
    requires WellFormed(s)
    ensures WellFormed(Update(s, t, d))
  {
    var xs := TasksFor(s, d);
    var r := FirstIndexOf(xs, t.id);
    if r.Some? {
      ReplaceSameId(xs, r.value, t);
    }
  }

  // ---------------------------------------------------------------------
  // sessions of writes

  /** One write issued by the screen. */
  datatype Op =
    | AddOp(task: UserTask, date: Date)
    | RemoveOp(task: UserTask, date: Date)
    | UpdateOp(task: UserTask, date: Date)

  function Apply(s: Store, op: Op): Store
  {
    match op
    case AddOp(t, d) => Add(s, t, d)
    case RemoveOp(t, d) => Remove(s, t, d)
    case UpdateOp(t, d) => Update(s, t, d)
  }

  /** The store after issuing `ops` in order. */
  function Run(s: Store, ops: seq<Op>): Store
    decreases |ops|
  {
    if ops == [] then s else Run(Apply(s, ops[0]), ops[1..])
  }

  /** Every add in the session uses an identifier that is fresh at the
      moment it is issued. */
  ghost predicate FreshAdds(s: Store, ops: seq<Op>)
    decreases |ops|
  {
    ops == [] ||
    ((ops[0].AddOp? ==> FreshIn(s, ops[0].task.id)) && FreshAdds(Apply(s, ops[0]), ops[1..]))
  }

  /** Only an add creates a key: after a session with no add for `d`, a day
      that had no key still has none, and reads as the empty list. */
  lemma {:induction false} NeverAddedReadsEmpty(s: Store, ops: seq<Op>, d: Date)
    requires d !in s
    requires forall i :: 0 <= i < |ops| ==> !(ops[i].AddOp? && ops[i].date == d)
    ensures d !in Run(s, ops)
    ensures TasksFor(Run(s, ops), d) == []
    decreases |ops|
  {
    if ops != [] {
      var s' := Apply(s, ops[0]);
      assert d !in s';
      NeverAddedReadsEmpty(s', ops[1..], d);
    }
  }

  /** A session whose adds all draw fresh identifiers keeps identifiers
      unique across the whole store. */
  lemma {:induction false} RunPreservesWellFormed(s: Store, ops: seq<Op>)
    requires WellFormed(s)
    requires FreshAdds(s, ops)
    ensures WellFormed(Run(s, ops))
    decreases |ops|
  {
    if ops != [] {
      match ops[0] {
        case AddOp(t, d) => AddPreservesWellFormed(s, t, d);
        case RemoveOp(t, d) => RemovePreservesWellFormed(s, t, d);
        case UpdateOp(t, d) => UpdatePreservesWellFormed(s, t, d);
      }
      RunPreservesWellFormed(Apply(s, ops[0]), ops[1..]);
    }
  }

  /** A fresh store reads every day as empty. */
  lemma EmptyReadsEmpty(d: Date)
    ensures TasksFor(Empty, d) == []
    ensures WellFormed(Empty)
  {
  }

  /** The "+" button draws a fresh identifier, so it keeps identifiers
      unique across the store. */
  lemma AddDummyTaskPreservesWellFormed(s: Store, d: Date, newId: Uuid, start: Date, end: Date)
    requires WellFormed(s)
    requires FreshIn(s, newId)
    ensures WellFormed(AddDummyTask(s, d, newId, start, end))
  {
    AddPreservesWellFormed(s, DummyTask(newId, start, end), d);
  }

  /** Starting empty, the "+" button gives the day exactly the placeholder;
      deleting it leaves the day present and empty. */
  lemma DummyTaskScenario(d: Date, newId: Uuid, start: Date, end: Date)
    ensures var s1 := AddDummyTask(Empty, d, newId, start, end);
      && TasksFor(s1, d) == [UserTask(newId, "New Task", start, end, "Madrid")]
      && Remove(s1, DummyTask(newId, start, end), d) == map[d := []]
  {
    AddThenRemove(Empty, DummyTask(newId, start, end), d);
  }
}
