/** list_tasks of tasks.py: the text it prints for a collection, one `print` call per line
    (each line keeps the newline the source puts at its front). */
module Listing {
  import opened Wrappers
  import opened Text
  import opened Tasks

  /** The rule of 70 `=` signs framing the listing (`"=" * 70`). */
  const Rule: string := "======================================================================"

  /** The three lines above the task blocks and the line below them. */
  const Header: seq<string> := ["\n" + Rule, "YOUR TASKS", Rule]
  const Footer: string := "\n" + Rule

  const NoTasksMessage: string := "\nNo tasks found. Add your first task!"

  /** The check mark shown for a done task, and the circle shown for a pending one. */
  const DoneGlyph: char := '\U{2713}'
  const PendingGlyph: char := '\U{25CB}'

  function StatusGlyph(done: bool): char {
    if done then DoneGlyph else PendingGlyph
  }

  /** The displayed fields, with the defaults list_tasks uses for missing keys. */
  function IdText(id: Option<int>): string {
    match id
    case Some(n) => IntText(n)
    case None => "?"
  }

  function TitleText(t: Task): string {
    t.title.GetOr("Untitled")
  }

  function DescriptionText(t: Task): string {
    t.description.GetOr("")
  }

  function CreatedText(t: Task): string {
    t.createdAt.GetOr("Unknown")
  }

  /** The first line of a task's block: its status glyph in brackets, then its id and title. */
  function HeadLine(t: Task): (r: string)
    ensures |r| == 13 + |IdText(t.id)| + |TitleText(t)|
  {
    "\n[" + [StatusGlyph(t.done)] + "] Task #" + IdText(t.id) + ": " + TitleText(t)
  }

  /** What a head line shows: the check mark exactly when the task is done and the circle
      exactly when it is pending, the printed id after "Task #", and the title at the end. */
  lemma HeadLineShows(t: Task)
    ensures var r := HeadLine(t);
            && (r[2] == DoneGlyph <==> t.done)
            && r[..2] == "\n["
            && (r[2] == PendingGlyph <==> !t.done)
            && r[3..11] == "] Task #"
            && r[11..11 + |IdText(t.id)|] == IdText(t.id)
            && r[11 + |IdText(t.id)|..13 + |IdText(t.id)|] == ": "
            && r[|r| - |TitleText(t)|..] == TitleText(t)
  {
  }

  function DescriptionLine(t: Task): string {
    "    Description: " + DescriptionText(t)
  }

  function CreatedLine(t: Task): string {
    "    Created: " + CreatedText(t)
  }

  /** The lines printed for one task: the head line, a description line when there is a
      description, and the creation line (see `TaskBlockShows`). */
  function TaskBlock(t: Task): (r: seq<string>)
    ensures 2 <= |r| <= 3
  {
    [HeadLine(t)] + (if DescriptionText(t) != [] then [DescriptionLine(t)] else []) + [CreatedLine(t)]
  }

  /** A task's block is its head line, then a description line exactly when the description is
      non-empty, and the creation line last. */
  lemma TaskBlockShows(t: Task)
    ensures var r := TaskBlock(t);
            && (|r| == 3 <==> DescriptionText(t) != [])
            && r[0] == HeadLine(t)
            && r[|r| - 1] == CreatedLine(t)
            && (|r| == 3 ==> r[1] == DescriptionLine(t))
  {
  }

  /** The blocks of all tasks, in collection order. */
  function Blocks(ts: seq<Task>): (r: seq<string>)
    ensures 2 * |ts| <= |r| <= 3 * |ts|
  {
    if ts == [] then [] else TaskBlock(ts[0]) + Blocks(ts[1..])
  }

  /** Everything list_tasks prints: only the "no tasks" message for an empty collection;
      otherwise a framed listing whose body is the blocks of the tasks. */
  function Render(ts: seq<Task>): (r: seq<string>)
    ensures ts == [] <==> |r| == 1
    ensures ts == [] ==> r[0] == NoTasksMessage
    ensures ts != [] ==>
      && |r| == |Blocks(ts)| + 4
      && r[0] == Header[0] && r[1] == Header[1] && r[2] == Header[2]
      && r[|r| - 1] == Footer
      && forall j | 0 <= j < |Blocks(ts)| :: r[3 + j] == Blocks(ts)[j]
  {
    if ts == [] then [NoTasksMessage] else Header + Blocks(ts) + [Footer]
  }

  /** The blocks of two collections one after the other are the blocks of their concatenation. */
  lemma {:induction false} BlocksAppend(a: seq<Task>, b: seq<Task>)
    ensures Blocks(a + b) == Blocks(a) + Blocks(b)
    decreases |a|
  {
    if a == [] {
      assert a + b == b;
    } else {
      assert (a + b)[0] == a[0];
      assert (a + b)[1..] == a[1..] + b;
      BlocksAppend(a[1..], b);
    }
  }

  /** Task i's block sits among the blocks right after the blocks of the tasks before it. */
  lemma BlockAt(ts: seq<Task>, i: nat)
    requires i < |ts|
    ensures var o := |Blocks(ts[..i])|;
            var b := TaskBlock(ts[i]);
            && o + |b| <= |Blocks(ts)|
            && forall j | 0 <= j < |b| :: Blocks(ts)[o + j] == b[j]
  {
    var pre, post := ts[..i], ts[i..];
    assert ts == pre + post;
    BlocksAppend(pre, post);
    assert post[0] == ts[i];
    assert Blocks(post) == TaskBlock(ts[i]) + Blocks(post[1..]);
  }

  /** Task i's block sits in the listing right after the blocks of the tasks before it. */
  lemma RenderShowsTaskAt(ts: seq<Task>, i: nat)
    requires i < |ts|
    ensures var r := Render(ts);
            var o := 3 + |Blocks(ts[..i])|;
            var b := TaskBlock(ts[i]);
            && o + |b| < |r|
            && forall j | 0 <= j < |b| :: r[o + j] == b[j]
  {
    BlockAt(ts, i);
  }

  /** Blocks appear in insertion order and do not overlap: an earlier task's block ends before
      a later task's block starts. */
  lemma BlocksInOrder(ts: seq<Task>, i: nat, j: nat)
    requires i < j <= |ts|
    ensures |Blocks(ts[..i])| + |TaskBlock(ts[i])| <= |Blocks(ts[..j])|
  {
    var pre, mid := ts[..i], ts[i..j];
    assert ts[..j] == pre + mid;
    BlocksAppend(pre, mid);
    assert mid[0] == ts[i];
    assert Blocks(mid) == TaskBlock(ts[i]) + Blocks(mid[1..]);
  }

  /** A record lacking every optional key is shown with the defaults "?", "Untitled" and
      "Unknown", pending and without a description line. */
  lemma MissingKeysShowDefaults()
    ensures TaskBlock(Task(None, None, None, false, None, None))
            == ["\n[" + [PendingGlyph] + "] Task #?: Untitled", "    Created: Unknown"]
  {
    var t := Task(None, None, None, false, None, None);
    assert DescriptionText(t) == [];
    assert HeadLine(t) == "\n[" + [PendingGlyph] + "] Task #?: Untitled";
    assert CreatedLine(t) == "    Created: Unknown";
  }

  /** Appending a task adds its block after the blocks already there. */
  lemma BlocksAppendOne(ts: seq<Task>, t: Task)
    ensures Blocks(ts + [t]) == Blocks(ts) + TaskBlock(t)
  {
    var b := TaskBlock(t);
    assert Blocks([t]) == b by {
      assert [t][1..] == [];
      assert b + [] == b;
    }
    BlocksAppend(ts, [t]);
  }

  /** When the blocks end with `b`, the listing shows `b` just before the closing rule. */
  lemma RenderTail(u: seq<Task>, pre: seq<string>, b: seq<string>)
    requires u != [] && Blocks(u) == pre + b
    ensures var r := Render(u);
            && 3 + |pre| + |b| == |r| - 1
            && (forall j | 0 <= j < |b| :: r[3 + |pre| + j] == b[j])
  {
    forall j | 0 <= j < |b| ensures Render(u)[3 + |pre| + j] == b[j] {
      assert Blocks(u)[|pre| + j] == b[j];
    }
  }

  /** Appending a task puts its block last in the listing, just before the closing rule. */
  lemma RenderAppend(ts: seq<Task>, t: Task)
    ensures var r := Render(ts + [t]);
            var b := TaskBlock(t);
            var o := 3 + |Blocks(ts)|;
            && o + |b| == |r| - 1
            && (forall j | 0 <= j < |b| :: r[o + j] == b[j])
  {
    BlocksAppendOne(ts, t);
    RenderTail(ts + [t], Blocks(ts), TaskBlock(t));
  }

  /** After a successful add, the new task's block is the last one before the closing rule,
      and its head line shows the circle of a pending task. */
  lemma RenderAfterAdd(ts: seq<Task>, rawTitle: string, rawDescription: string, now: string)
    requires !IsBlank(rawTitle)
    ensures AddEffect(ts, rawTitle, rawDescription, now)
            == ts + [NewTask(|ts| + 1, Trim(rawTitle), Trim(rawDescription), now)]
    ensures var t := NewTask(|ts| + 1, Trim(rawTitle), Trim(rawDescription), now);
            var r := Render(ts + [t]);
            var b := TaskBlock(t);
            var o := 3 + |Blocks(ts)|;
            && o + |b| == |r| - 1
            && (forall j | 0 <= j < |b| :: r[o + j] == b[j])
            && r[o] == HeadLine(t)
    ensures HeadLine(NewTask(|ts| + 1, Trim(rawTitle), Trim(rawDescription), now))[2] == PendingGlyph
  {
    var t := NewTask(|ts| + 1, Trim(rawTitle), Trim(rawDescription), now);
    assert AddEffect(ts, rawTitle, rawDescription, now) == ts + [t];
    RenderAppend(ts, t);
    TaskBlockShows(t);
    HeadLineShows(t);
  }

  /** After mark_done completes a task, that task's head line in the listing shows the check
      mark. */
  lemma RenderAfterMarkDone(ts: seq<Task>, id: int, now: string, saveSucceeds: bool)
    requires MarkDoneReport(ts, Some(id), saveSucceeds).Marked?
    ensures var i := FirstIndexOf(ts, id).value;
            var u := MarkDoneEffect(ts, Some(id), now);
            var r := Render(u);
            var o := 3 + |Blocks(u[..i])|;
            o < |r| && r[o] == HeadLine(u[i]) && r[o][2] == DoneGlyph
  {
    var i := FirstIndexOf(ts, id).value;
    var u := MarkDoneEffect(ts, Some(id), now);
    assert u[i].done;
    RenderShowsTaskAt(u, i);
    assert TaskBlock(u[i])[0] == HeadLine(u[i]);
    HeadLineShows(u[i]);
  }

  /** The head line of the only task of a one-task collection is the listing's fourth line. */
  lemma SingleTaskHeadLine(t: Task)
    ensures Render([t])[3] == HeadLine(t)
  {
    assert Blocks([t]) == TaskBlock(t) + Blocks([]);
  }

  /** The head line of task 1, with the id printed as "1". */
  lemma TaskOneHeadLine(t: Task)
    requires t.id == Some(1) && t.title.Some?
    ensures HeadLine(t) == "\n[" + [StatusGlyph(t.done)] + "] Task #1: " + t.title.value
  {
    assert IdText(t.id) == "1";
    var g := "\n[" + [StatusGlyph(t.done)];
    assert g + "] Task #" + "1" + ": " == g + "] Task #1: ";
  }

  /** Starting from nothing, adding a task titled e.g. "Finish report" lists it as pending
      task 1; marking id 1 done then lists it with the check mark and records the completion
      time. */
  lemma AddThenMarkScenario(title: string, created: string, completed: string)
    requires title != [] && !IsSpace(title[0]) && !IsSpace(title[|title| - 1])
    ensures var one := AddEffect([], title, "", created);
            var two := MarkDoneEffect(one, Some(1), completed);
            && Render(one)[3] == "\n[" + [PendingGlyph] + "] Task #1: " + title
            && Render(two)[3] == "\n[" + [DoneGlyph] + "] Task #1: " + title
            && two[0].completedAt == Some(completed)
  {
    var t := NewTask(1, title, "", created);
    AddFirstTask(title, created);
    var d := Completed(t, completed);
    MarkOnlyTask(t, completed);
    SingleTaskHeadLine(t);
    SingleTaskHeadLine(d);
    TaskOneHeadLine(t);
    TaskOneHeadLine(d);
  }
}
