/** A session of the task manager seen from the collection: the menu loop runs add_task and
    mark_done in some order, and the collection threads through them. */
module Session {
  import opened Wrappers
  import opened Text
  import opened Tasks

  /** One mutating menu choice with the input it read and the time it ran at. */
  datatype Command =
    | Add(rawTitle: string, rawDescription: string, now: string)
    | Mark(requested: Option<int>, now: string)

  /** One menu choice applied to the collection: the records already there keep their place
      and id, and at most one record is appended. */
  function Step(ts: seq<Task>, c: Command): (r: seq<Task>)
    ensures |ts| <= |r| <= |ts| + 1
    ensures forall k | 0 <= k < |ts| :: r[k].id == ts[k].id
  {
    match c
    case Add(title, description, now) => AddEffect(ts, title, description, now)
    case Mark(requested, now) => MarkDoneEffect(ts, requested, now)
  }

  /** The collection after running the commands in order. */
  function Run(ts: seq<Task>, cs: seq<Command>): (r: seq<Task>)
    ensures |ts| <= |r| <= |ts| + |cs|
    ensures forall k | 0 <= k < |ts| :: r[k].id == ts[k].id
    decreases |cs|
  {
    if cs == [] then ts else Run(Step(ts, cs[0]), cs[1..])
  }

  /** How many of the commands add a task (those whose title is not blank). */
  function AddedCount(cs: seq<Command>): (n: nat)
    ensures n <= |cs|
  {
    if cs == [] then 0
    else (if cs[0].Add? && !IsBlank(cs[0].rawTitle) then 1 else 0) + AddedCount(cs[1..])
  }

  /** The collection grows by exactly one record per successful add; mark_done never changes
      its length. */
  lemma {:induction false} RunLength(ts: seq<Task>, cs: seq<Command>)
    ensures |Run(ts, cs)| == |ts| + AddedCount(cs)
    decreases |cs|
  {
    if cs != [] {
      RunLength(Step(ts, cs[0]), cs[1..]);
    }
  }

  /** Any run keeps the ids 1..n in order. */
  lemma {:induction false} RunKeepsIdsSequential(ts: seq<Task>, cs: seq<Command>)
    requires IdsSequential(ts)
    ensures IdsSequential(Run(ts, cs))
    decreases |cs|
  {
    if cs != [] {
      match cs[0] {
        case Add(title, description, now) => AddKeepsIdsSequential(ts, title, description, now);
        case Mark(requested, now) => MarkDoneKeepsIdsSequential(ts, requested, now);
      }
      RunKeepsIdsSequential(Step(ts, cs[0]), cs[1..]);
    }
  }

  /** From an empty collection, any session leaves ids 1..n in order, so no two tasks share an
      id, and n is the number of successful adds. */
  lemma SessionFromEmpty(cs: seq<Command>)
    ensures var ts := Run([], cs);
            IdsSequential(ts) && IdsUnique(ts) && |ts| == AddedCount(cs)
  {
    RunKeepsIdsSequential([], cs);
    SequentialIdsUnique(Run([], cs));
    RunLength([], cs);
  }

  /** Completion is one-way and final: a record that is done stays exactly as it is for the
      rest of the session, and the records present at the start stay at their positions. */
  lemma {:induction false} RunKeepsDoneRecords(ts: seq<Task>, cs: seq<Command>)
    ensures |ts| <= |Run(ts, cs)|
    ensures forall k | 0 <= k < |ts| :: ts[k].done ==> Run(ts, cs)[k] == ts[k]
    ensures forall k | 0 <= k < |ts| :: Run(ts, cs)[k].id == ts[k].id
    decreases |cs|
  {
    if cs != [] {
      var u := Step(ts, cs[0]);
      assert |ts| <= |u|;
      assert forall k | 0 <= k < |ts| :: u[k].id == ts[k].id && (ts[k].done ==> u[k] == ts[k]) by {
        forall k | 0 <= k < |ts| ensures u[k].id == ts[k].id && (ts[k].done ==> u[k] == ts[k]) {
          if cs[0].Add? {
          } else {
            assert Ids(u)[k] == Ids(ts)[k];
          }
        }
      }
      RunKeepsDoneRecords(u, cs[1..]);
    }
  }
}
