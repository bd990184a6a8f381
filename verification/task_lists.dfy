/** The two list primitives the store applies to one day's tasks: removing
    every entry with a given identifier, and finding the first entry with a
    given identifier. */
module TaskLists {
  import opened Tasks

  datatype Option<T> = None | Some(value: T)

  /** `removeAll(where: { $0.id == id })`: drops every entry carrying `id`
      and keeps the others in their original order. */
  function RemoveAllWithId(xs: seq<UserTask>, id: Uuid): (r: seq<UserTask>)
    ensures |r| <= |xs|
    ensures forall x :: x in r <==> x in xs && x.id != id
    ensures id !in Ids(r)
  {
    if xs == [] then []
    else if xs[0].id == id then RemoveAllWithId(xs[1..], id)
    else [xs[0]] + RemoveAllWithId(xs[1..], id)
  }

  /** Removal works entry by entry: it distributes over concatenation, so
      the survivors of each part keep their relative order. */
  lemma {:induction false} RemoveAllAppend(xs: seq<UserTask>, ys: seq<UserTask>, id: Uuid)
    ensures RemoveAllWithId(xs + ys, id) == RemoveAllWithId(xs, id) + RemoveAllWithId(ys, id)
    decreases |xs|
  {
    if xs == [] {
      assert xs + ys == ys;
    } else {
      assert (xs + ys)[0] == xs[0];
      assert (xs + ys)[1..] == xs[1..] + ys;
      RemoveAllAppend(xs[1..], ys, id);
    }
  }

  /** A list with no entry carrying `id` is left exactly as it was. */
  lemma {:induction false} RemoveAllAbsent(xs: seq<UserTask>, id: Uuid)
    requires forall i :: 0 <= i < |xs| ==> xs[i].id != id
    ensures RemoveAllWithId(xs, id) == xs
    decreases |xs|
  {
    if xs != [] {
      var tail := xs[1..];
      assert forall i :: 0 <= i < |tail| ==> tail[i] == xs[i + 1];
      RemoveAllAbsent(tail, id);
      assert xs == [xs[0]] + tail;
    }
  }

  /** Removing twice is removing once. */
  lemma RemoveAllIdempotent(xs: seq<UserTask>, id: Uuid)
    ensures RemoveAllWithId(RemoveAllWithId(xs, id), id) == RemoveAllWithId(xs, id)
  {
    RemoveAllAbsent(RemoveAllWithId(xs, id), id);
  }

  /** When identifiers are distinct, removal deletes exactly the one entry
      that carries `id` and closes the gap. */
  lemma RemoveAllDistinct(xs: seq<UserTask>, i: nat, id: Uuid)
    requires DistinctIds(xs)
    requires i < |xs| && xs[i].id == id
    ensures RemoveAllWithId(xs, id) == xs[..i] + xs[i + 1..]
    ensures |RemoveAllWithId(xs, id)| == |xs| - 1
  {
    var a, b := xs[..i], xs[i + 1..];
    var x := xs[i];
    assert xs == (a + [x]) + b;
    assert RemoveAllWithId([x], id) == [] by {
      assert [x][1..] == [];
    }
    OnlyMatch(xs, i);
    RemoveAllAbsent(a, id);
    RemoveAllAbsent(b, id);
    RemoveAllAppend(a + [x], b, id);
    RemoveAllAppend(a, [x], id);
    assert RemoveAllWithId(a + [x], id) == a;
  }

  /** With distinct identifiers, the entry at `i` is the only one carrying
      its identifier: neither the part before it nor the part after it does. */
  lemma OnlyMatch(xs: seq<UserTask>, i: nat)
    requires DistinctIds(xs)
    requires i < |xs|
    ensures xs[i].id !in Ids(xs[..i])
    ensures xs[i].id !in Ids(xs[i + 1..])
  {
    var a, b := xs[..i], xs[i + 1..];
    forall k | 0 <= k < |a| ensures a[k].id != xs[i].id {
      assert a[k] == xs[k];
    }
    forall k | 0 <= k < |b| ensures b[k].id != xs[i].id {
      assert b[k] == xs[i + 1 + k];
    }
  }

  /** Removal never introduces a duplicate identifier. */
  lemma {:induction false} RemoveAllKeepsDistinct(xs: seq<UserTask>, id: Uuid)
    requires DistinctIds(xs)
    ensures DistinctIds(RemoveAllWithId(xs, id))
    ensures Ids(RemoveAllWithId(xs, id)) == Ids(xs) - {id}
    decreases |xs|
  {
    if xs != [] {
      assert xs == [xs[0]] + xs[1..];
      DistinctIdsCons(xs[0], xs[1..]);
      RemoveAllKeepsDistinct(xs[1..], id);
      IdsAppend([xs[0]], xs[1..]);
      assert Ids([xs[0]]) == {xs[0].id};
      if xs[0].id != id {
        DistinctIdsCons(xs[0], RemoveAllWithId(xs[1..], id));
        IdsAppend([xs[0]], RemoveAllWithId(xs[1..], id));
      }
    }
  }

  /** `firstIndex(where: { $0.id == id })`: the position of the first entry
      carrying `id`, or `None` when no entry does. */
  function FirstIndexOf(xs: seq<UserTask>, id: Uuid): (r: Option<nat>)
    ensures r.Some? ==> r.value < |xs| && xs[r.value].id == id
    ensures r.Some? ==> forall j :: 0 <= j < r.value ==> xs[j].id != id
    ensures r.None? <==> id !in Ids(xs)
  {
    if xs == [] then None
    else if xs[0].id == id then Some(0)
    else match FirstIndexOf(xs[1..], id)
      case None => None
      case Some(i) => Some(i + 1)
  }

  /** The first match is characterised by its position alone: any position
      that carries `id` with no earlier match is the one found. */
  lemma FirstIndexOfUnique(xs: seq<UserTask>, i: nat, id: Uuid)
    requires i < |xs| && xs[i].id == id
    requires forall j :: 0 <= j < i ==> xs[j].id != id
    ensures FirstIndexOf(xs, id) == Some(i)
  {
  }

  /** Overwriting the first match with a task of the same identifier leaves
      it the first match. */
  lemma FirstIndexAfterReplace(xs: seq<UserTask>, i: nat, t: UserTask)
    requires FirstIndexOf(xs, t.id) == Some(i)
    ensures FirstIndexOf(xs[i := t], t.id) == Some(i)
  {
    var ys := xs[i := t];
    forall j | 0 <= j < i ensures ys[j].id != t.id {
      assert ys[j] == xs[j];
    }
    FirstIndexOfUnique(ys, i, t.id);
  }
}
