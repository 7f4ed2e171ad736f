/** The in-memory task collection of tasks.py: the records, the two operations that change
    the collection (add_task, mark_done) and what each does to it.

    The pure functions `AddEffect`/`AddReport` and `MarkDoneEffect`/`MarkDoneReport` say what
    an operation leaves behind and what it reports; the methods of `TaskList` carry out the
    operations in place, as the source does, and are proved to agree with them. */
module Tasks {
  import opened Wrappers
  import opened Text

  /** One element of the collection: a JSON object of tasks.json. Keys a loaded file may lack
      are optional; a record with no `done` key is pending, as `get("done", False)` reads it. */
  datatype Task = Task(
    id: Option<int>,
    title: Option<string>,
    description: Option<string>,
    done: bool,
    createdAt: Option<string>,
    completedAt: Option<string>)

  /** The record add_task builds: every key present, pending, not yet completed. */
  function NewTask(id: int, title: string, description: string, now: string): (t: Task)
    ensures t.id == Some(id) && t.title == Some(title) && t.description == Some(description)
    ensures !t.done && t.createdAt == Some(now) && t.completedAt.None?
  {
    Task(Some(id), Some(title), Some(description), false, Some(now), None)
  }

  /** The Pending -> Done transition mark_done applies to the record it finds. */
  function Completed(t: Task, now: string): (r: Task)
    ensures r.done && r.completedAt == Some(now)
    ensures r.id == t.id && r.title == t.title && r.description == t.description
    ensures r.createdAt == t.createdAt
  {
    t.(done := true, completedAt := Some(now))
  }

  /** `task.get("id") == task_id`: a record matches a number exactly when its id holds that
      number; a record without an id matches no number. */
  predicate HasId(t: Task, id: int): (r: bool)
    ensures t.id.None? ==> !r
    ensures r ==> t.id.Some? && t.id.value == id
    ensures t.id.Some? && t.id.value == id ==> r
  {
    t.id == Some(id)
  }

  /** Position of the first record whose id is `id`, if any. */
  function FirstIndexOf(ts: seq<Task>, id: int): (r: Option<nat>)
    ensures r.Some? ==> r.value < |ts| && HasId(ts[r.value], id)
    ensures r.Some? ==> forall k | 0 <= k < r.value :: !HasId(ts[k], id)
    ensures r.None? <==> forall k | 0 <= k < |ts| :: !HasId(ts[k], id)
  {
    if ts == [] then None
    else if HasId(ts[0], id) then Some(0)
    else match FirstIndexOf(ts[1..], id)
      case None => None
      case Some(i) => Some(i + 1)
  }

  /** The ids of a collection, in order. */
  function Ids(ts: seq<Task>): (r: seq<Option<int>>)
    ensures |r| == |ts| && forall k | 0 <= k < |ts| :: r[k] == ts[k].id
  {
    seq(|ts|, k requires 0 <= k < |ts| => ts[k].id)
  }

  /** Record k (counting from zero) has id k + 1: the ids are exactly 1..n in order. */
  predicate IdsSequential(ts: seq<Task>) {
    forall k | 0 <= k < |ts| :: ts[k].id == Some(k + 1)
  }

  /** No two records share an id. */
  predicate IdsUnique(ts: seq<Task>) {
    forall j, k | 0 <= j < k < |ts| :: ts[j].id.Some? ==> ts[j].id != ts[k].id
  }

  /** Ids 1..n in order are in particular pairwise distinct. */
  lemma SequentialIdsUnique(ts: seq<Task>)
    requires IdsSequential(ts)
    ensures IdsUnique(ts)
  {
  }

  // ---------------------------------------------------------------------------------------
  // add_task

  /** What add_task reports. `Added` is the only outcome in which a save was attempted; its id
      is printed only when the save succeeded (`saved`), a failed save prints no id. */
  datatype AddOutcome = EmptyTitle | Added(id: int, saved: bool)

  /** The collection after add_task with the raw title and description typed by the user.
      A blank title changes nothing; otherwise one record is appended at the end, with the
      next id, both texts stripped and the creation time given. */
  function AddEffect(ts: seq<Task>, rawTitle: string, rawDescription: string, now: string): (r: seq<Task>)
    ensures IsBlank(rawTitle) ==> r == ts
    ensures !IsBlank(rawTitle) ==> |r| == |ts| + 1 && forall k | 0 <= k < |ts| :: r[k] == ts[k]
    ensures !IsBlank(rawTitle) ==>
      var t := r[|ts|];
      && t.id == Some(|ts| + 1)
      && t.title == Some(Trim(rawTitle)) && t.title.value != []
      && t.description == Some(Trim(rawDescription))
      && !t.done && t.createdAt == Some(now) && t.completedAt.None?
  {
    TrimEmptyIffBlank(rawTitle);
    var title := Trim(rawTitle);
    if title == [] then ts
    else ts + [NewTask(|ts| + 1, title, Trim(rawDescription), now)]
  }

  /** What add_task reports: the title error when the title is blank, and otherwise the new
      id together with the save's outcome. */
  function AddReport(ts: seq<Task>, rawTitle: string, saveSucceeds: bool): (o: AddOutcome)
    ensures o.EmptyTitle? <==> IsBlank(rawTitle)
    ensures o.Added? ==> o.id == |ts| + 1 && o.saved == saveSucceeds
  {
    TrimEmptyIffBlank(rawTitle);
    if Trim(rawTitle) == [] then EmptyTitle else Added(|ts| + 1, saveSucceeds)
  }

  /** A save is attempted exactly when the collection grew, and then by exactly one record
      that keeps the reported id; a failed save leaves that record in place. */
  lemma AddSavesIffAppended(ts: seq<Task>, rawTitle: string, rawDescription: string, now: string, saveSucceeds: bool)
    ensures var r := AddEffect(ts, rawTitle, rawDescription, now);
            var o := AddReport(ts, rawTitle, saveSucceeds);
            && (o.Added? <==> r != ts)
            && (o.Added? <==> |r| == |ts| + 1)
            && (o.Added? ==> r[|ts|].id == Some(o.id))
  {
    var r := AddEffect(ts, rawTitle, rawDescription, now);
    if !IsBlank(rawTitle) {
      assert |r| != |ts|;
    }
  }

  /** Adding keeps the ids 1..n in order. */
  lemma AddKeepsIdsSequential(ts: seq<Task>, rawTitle: string, rawDescription: string, now: string)
    requires IdsSequential(ts)
    ensures IdsSequential(AddEffect(ts, rawTitle, rawDescription, now))
  {
    var r := AddEffect(ts, rawTitle, rawDescription, now);
    if !IsBlank(rawTitle) {
      assert forall k | 0 <= k < |ts| :: r[k].id == Some(k + 1);
    }
  }

  /** Adding a task with a title such as "Finish report" (no whitespace at either end) and no
      description to an empty collection appends task 1 with that very title. */
  lemma AddFirstTask(title: string, created: string)
    requires title != [] && !IsSpace(title[0]) && !IsSpace(title[|title| - 1])
    ensures AddEffect([], title, "", created) == [NewTask(1, title, "", created)]
  {
    TrimOfTrimmed(title);
    TrimEmptyIffBlank(title);
    assert Trim("") == "";
    var r := AddEffect([], title, "", created);
    assert r[0] == NewTask(1, title, "", created);
  }

  // ---------------------------------------------------------------------------------------
  // mark_done

  /** What mark_done reports. `Marked` is the only outcome in which a save was attempted; its
      id is printed only when the save succeeded (`saved`), a failed save prints no id. */
  datatype MarkOutcome =
    | NoTasks
    | InvalidNumber
    | NotFound(id: int)
    | AlreadyDone(id: int)
    | Marked(id: int, saved: bool)

  /** The collection after mark_done with the requested id (`None` when the typed text is not
      a number). At most one record changes: the first one with that id, and only if it was
      pending; it becomes done with the given completion time. Ids and length never change,
      and a done record is never touched. */
  function MarkDoneEffect(ts: seq<Task>, requested: Option<int>, now: string): (r: seq<Task>)
    ensures |r| == |ts| && Ids(r) == Ids(ts)
    ensures forall k | 0 <= k < |ts| ::
      || r[k] == ts[k]
      || (&& requested.Some? && FirstIndexOf(ts, requested.value) == Some(k)
          && !ts[k].done && r[k] == Completed(ts[k], now))
    ensures requested.None? || FirstIndexOf(ts, requested.value).None? ==> r == ts
    ensures requested.Some? && FirstIndexOf(ts, requested.value).Some? ==>
      var i := FirstIndexOf(ts, requested.value).value;
      r[i].done && (ts[i].done ==> r[i] == ts[i]) && (!ts[i].done ==> r[i].completedAt == Some(now))
  {
    if ts == [] || requested.None? then ts
    else match FirstIndexOf(ts, requested.value)
      case None => ts
      case Some(i) => if ts[i].done then ts else ts[i := Completed(ts[i], now)]
  }

  /** What mark_done reports, in the order the source checks: an empty collection, a
      non-numeric id, an unknown id, a task already done, and otherwise success with the
      save's outcome. */
  function MarkDoneReport(ts: seq<Task>, requested: Option<int>, saveSucceeds: bool): (o: MarkOutcome)
    ensures o.NoTasks? <==> ts == []
    ensures o.InvalidNumber? <==> ts != [] && requested.None?
    ensures o.NotFound? <==> ts != [] && requested.Some? && forall k | 0 <= k < |ts| :: !HasId(ts[k], requested.value)
    ensures o.AlreadyDone? <==> requested.Some? && exists k | 0 <= k < |ts| :: HasId(ts[k], requested.value) && ts[k].done && FirstIndexOf(ts, requested.value) == Some(k)
    ensures o.Marked? ==> requested == Some(o.id) && o.saved == saveSucceeds
    ensures o.NotFound? || o.AlreadyDone? ==> requested == Some(o.id)
  {
    if ts == [] then NoTasks
    else if requested.None? then InvalidNumber
    else match FirstIndexOf(ts, requested.value)
      case None => NotFound(requested.value)
      case Some(i) => if ts[i].done then AlreadyDone(requested.value) else Marked(requested.value, saveSucceeds)
  }

  /** Marking id 1 in a collection holding only a pending task 1 completes that task. */
  lemma MarkOnlyTask(t: Task, completed: string)
    requires t.id == Some(1) && !t.done
    ensures MarkDoneEffect([t], Some(1), completed) == [Completed(t, completed)]
  {
    assert FirstIndexOf([t], 1) == Some(0);
    var two := MarkDoneEffect([t], Some(1), completed);
    assert two[0] == Completed(t, completed);
  }

  /** A save is attempted exactly when the collection changed. */
  lemma MarkDoneSavesIffChanged(ts: seq<Task>, requested: Option<int>, now: string, saveSucceeds: bool)
    ensures MarkDoneReport(ts, requested, saveSucceeds).Marked? <==> MarkDoneEffect(ts, requested, now) != ts
  {
    if requested.Some? && FirstIndexOf(ts, requested.value).Some? {
      var i := FirstIndexOf(ts, requested.value).value;
      if !ts[i].done {
        assert MarkDoneEffect(ts, requested, now)[i] != ts[i];
      }
    }
  }

  /** Marking the same id again changes nothing, whatever the time: the first completion
      time is kept. */
  lemma MarkDoneIdempotent(ts: seq<Task>, requested: Option<int>, now: string, later: string)
    ensures var r := MarkDoneEffect(ts, requested, now);
            MarkDoneEffect(r, requested, later) == r
  {
    var r := MarkDoneEffect(ts, requested, now);
    if requested.Some? {
      SameIdsSameFirstIndex(ts, r, requested.value);
    }
  }

  /** Collections with the same ids find the same first match. */
  lemma {:induction false} SameIdsSameFirstIndex(ts: seq<Task>, us: seq<Task>, id: int)
    requires Ids(ts) == Ids(us)
    ensures FirstIndexOf(ts, id) == FirstIndexOf(us, id)
    decreases |ts|
  {
    if ts != [] {
      assert ts[0].id == us[0].id by {
        assert Ids(ts)[0] == Ids(us)[0];
      }
      assert Ids(ts[1..]) == Ids(us[1..]) by {
        forall k | 0 <= k < |ts| - 1 ensures Ids(ts[1..])[k] == Ids(us[1..])[k] {
          assert Ids(ts)[k + 1] == Ids(us)[k + 1];
        }
      }
      SameIdsSameFirstIndex(ts[1..], us[1..], id);
    }
  }

  /** Marking a second time after a successful mark reports `AlreadyDone` and so attempts no
      further save. */
  lemma MarkDoneAgainReportsAlreadyDone(ts: seq<Task>, id: int, now: string, saveSucceeds: bool)
    requires MarkDoneReport(ts, Some(id), saveSucceeds).Marked?
    ensures MarkDoneReport(MarkDoneEffect(ts, Some(id), now), Some(id), saveSucceeds) == AlreadyDone(id)
  {
    SameIdsSameFirstIndex(ts, MarkDoneEffect(ts, Some(id), now), id);
  }

  /** Marking keeps the ids 1..n in order. */
  lemma MarkDoneKeepsIdsSequential(ts: seq<Task>, requested: Option<int>, now: string)
    requires IdsSequential(ts)
    ensures IdsSequential(MarkDoneEffect(ts, requested, now))
  {
    var r := MarkDoneEffect(ts, requested, now);
    forall k | 0 <= k < |r| ensures r[k].id == Some(k + 1) {
      assert Ids(r)[k] == Ids(ts)[k];
    }
  }

  // ---------------------------------------------------------------------------------------
  // The collection, updated in place

  /** The list add_task and mark_done mutate; the console input, the clock and the outcome
      of `save_tasks` arrive as arguments. */
  class TaskList {
    var tasks: seq<Task>

    /** The collection as `load_tasks` returned it. */
    constructor (loaded: seq<Task>)
      ensures tasks == loaded
    {
      tasks := loaded;
    }

    /** add_task: strips the title and gives up on a blank one before anything changes;
        otherwise appends the new record and then saves. The append stays whether or not
        the save succeeds. */
    method AddTask(rawTitle: string, rawDescription: string, now: string, saveSucceeds: bool)
      returns (outcome: AddOutcome)
      modifies this
      ensures tasks == AddEffect(old(tasks), rawTitle, rawDescription, now)
      ensures outcome == AddReport(old(tasks), rawTitle, saveSucceeds)
      ensures IdsSequential(old(tasks)) ==> IdsSequential(tasks)
    {
      if IdsSequential(tasks) {
        AddKeepsIdsSequential(tasks, rawTitle, rawDescription, now);
      }
      var title := Trim(rawTitle);
      if title == [] {
        return EmptyTitle;
      }
      var description := Trim(rawDescription);
      var task := NewTask(|tasks| + 1, title, description, now);
      tasks := tasks + [task];
      outcome := Added(task.id.value, saveSucceeds);
    }

    /** mark_done: walks the collection in order, stops at the first record with the
        requested id, and completes it (then saves) only if it is still pending. */
    method MarkDone(requested: Option<int>, now: string, saveSucceeds: bool) returns (outcome: MarkOutcome)
      modifies this
      ensures tasks == MarkDoneEffect(old(tasks), requested, now)
      ensures outcome == MarkDoneReport(old(tasks), requested, saveSucceeds)
      ensures IdsSequential(old(tasks)) ==> IdsSequential(tasks)
    {
      if IdsSequential(tasks) {
        MarkDoneKeepsIdsSequential(tasks, requested, now);
      }
      if tasks == [] {
        return NoTasks;
      }
      if requested.None? {
        return InvalidNumber;
      }
      var id := requested.value;
      var found := false;
      var i := 0;
      while i < |tasks|
        invariant 0 <= i <= |tasks|
        invariant tasks == old(tasks)
        invariant forall k | 0 <= k < i :: !HasId(tasks[k], id)
      {
        if HasId(tasks[i], id) {
          found := true;
          if tasks[i].done {
            outcome := AlreadyDone(id);
          } else {
            tasks := tasks[i := Completed(tasks[i], now)];
            outcome := Marked(id, saveSucceeds);
          }
          break;
        }
        i := i + 1;
      }
      if !found {
        outcome := NotFound(id);
      }
    }
  }
}
