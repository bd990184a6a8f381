/** `TaskStore`: the tasks of every day, keyed by the exact `Date` value the
    caller passes (no calendar-day normalisation), with the three writes the
    screen issues and the per-day read it renders from. */
module TaskStore {
  import opened Tasks
  import opened TaskLists

  /** `tasks: [Date: [UserTask]]`: each key's tasks in insertion order. */
  type Store = map<Date, seq<UserTask>>

  /** The store as the app creates it: no key at all. */
  const Empty: Store := map[]

  /** The per-day read `tasks[date] ?? []`: a day without a key reads as
      the empty list, never as a missing value. */
  function TasksFor(s: Store, d: Date): (r: seq<UserTask>)
    ensures d !in s ==> r == []
    ensures r != [] ==> d in s
  {
    if d in s then s[d] else []
  }

  /** `add(task:for:)`: appends to the day's list, creating the key with an
      empty list first when it is absent. */
  function Add(s: Store, t: UserTask, d: Date): (r: Store)
    ensures r.Keys == s.Keys + {d}
    ensures TasksFor(r, d) == TasksFor(s, d) + [t]
    ensures |TasksFor(r, d)| == |TasksFor(s, d)| + 1
    ensures d !in s ==> r[d] == [t]
    ensures forall k :: k != d ==> TasksFor(r, k) == TasksFor(s, k)
    ensures forall k :: k in s && k != d ==> r[k] == s[k]
  {
    s[d := TasksFor(s, d) + [t]]
  }

  /** `remove(task:for:)`: drops every entry of the day whose identifier is
      the task's. An absent day is left absent; a day whose last entry is
      removed keeps its key with an empty list. */
  function Remove(s: Store, t: UserTask, d: Date): (r: Store)
    ensures r.Keys == s.Keys
    ensures d !in s ==> r == s
    ensures d in s ==> r[d] == RemoveAllWithId(s[d], t.id)
    ensures t.id !in Ids(TasksFor(r, d))
    ensures forall x :: x in TasksFor(r, d) <==> x in TasksFor(s, d) && x.id != t.id
    ensures forall k :: k in s && k != d ==> r[k] == s[k]
  {
    if d in s then s[d := RemoveAllWithId(s[d], t.id)] else s
  }

  /** `update(task:for:)`: overwrites, in place, the first entry of the day
      whose identifier is the task's; without such an entry (or without the
      day) nothing changes. Keys and list lengths never change. */
  function Update(s: Store, t: UserTask, d: Date): (r: Store)
    ensures r.Keys == s.Keys
    ensures |TasksFor(r, d)| == |TasksFor(s, d)|
    ensures t.id !in Ids(TasksFor(s, d)) ==> r == s
    ensures t.id in Ids(TasksFor(s, d)) ==> t in TasksFor(r, d)
    ensures forall j :: 0 <= j < |TasksFor(r, d)| ==> TasksFor(r, d)[j] == t || TasksFor(r, d)[j] == TasksFor(s, d)[j]
    ensures forall k :: k in s && k != d ==> r[k] == s[k]
  {
    if d !in s then s
    else match FirstIndexOf(s[d], t.id)
      case None => s
      case Some(i) =>
        assert s[d][i := t][i] == t;
        s[d := s[d][i := t]]
  }

  /** The placeholder the "+" button adds: title "New Task", location
      "Madrid". `newId` stands for the identifier `UUID()` draws; `start` and
      `end` for the day at 16:00 and 17:00 as the platform calendar computes
      them. */
  function DummyTask(newId: Uuid, start: Date, end: Date): UserTask
  {
    UserTask(newId, "New Task", start, end, "Madrid")
  }

  /** `addDummyTask(for:)`: adds the placeholder at the end of the day. */
  function AddDummyTask(s: Store, d: Date, newId: Uuid, start: Date, end: Date): (r: Store)
    ensures r.Keys == s.Keys + {d}
    ensures |TasksFor(r, d)| == |TasksFor(s, d)| + 1
    ensures TasksFor(r, d)[..|TasksFor(s, d)|] == TasksFor(s, d)
    ensures var last := TasksFor(r, d)[|TasksFor(s, d)|];
      last.id == newId && last.title == "New Task" && last.location == "Madrid"
      && last.startTime == start && last.endTime == end
    ensures forall k :: k != d ==> TasksFor(r, k) == TasksFor(s, k)
  {
    Add(s, DummyTask(newId, start, end), d)
  }
}
