# Task Manager: the in-memory task collection

A Dafny model of the collection logic of the command-line task manager in `tasks.py`:
adding a task, marking a task as done, and listing the tasks. The collection is an ordered
sequence of task records (a JSON object each: `id`, `title`, `description`, `done`,
`created_at`, optionally `completed_at`); insertion order is display order.

- `wrappers.dfy` (module `Wrappers`): the `Option` type used for keys a record may lack and
  for an id that failed to parse.
- `text.dfy` (module `Text`): `str.strip()` as `Trim` over the whitespace set of Python's
  `str.isspace()`, and the decimal text of an integer as an f-string prints it, with a
  reading-back function as its inverse.
- `tasks.dfy` (module `Tasks`): the `Task` record; the pure functions `AddEffect`/`AddReport`
  and `MarkDoneEffect`/`MarkDoneReport` stating what add_task and mark_done leave behind and
  what they report; and the class `TaskList`, whose methods `AddTask` and `MarkDone` update the
  collection in place as the source does (mark_done's search is a `while` loop that stops at
  the first match with `break`) and are proved equal to those functions.
- `listing.dfy` (module `Listing`): list_tasks as a pure function `Render` from the collection
  to the sequence of printed lines.
- `session.dfy` (module `Session`): any sequence of adds and mark-dones, and what holds after
  it (ids 1..n in order, hence unique; completed records never change again).

The console input, the clock and the outcome of saving are arguments: the typed title and
description are strings, the typed id is an `Option<int>` (`None` when `int()` would raise),
the time is a string, and `save_tasks` is a boolean `saveSucceeds`. Each operation reports an
outcome (`AddOutcome`, `MarkOutcome`) from which one reads whether a save was attempted
(`Added`, `Marked`) and what it returned.

mark_done checks for an empty collection before it reads (and parses) the id, so with no
tasks a non-numeric id is never reported as invalid. Records read from a file may lack keys,
so the listing shows the defaults `?`, `Untitled`, an absent description and `Unknown`.

## Model

| member | source | states |
|---|---|---|
| `Text.Trim` | tasks.py:59 | the stripped text is no longer than the input and neither starts nor ends with whitespace |
| `Text.TrimIsInfix` | tasks.py:59 | the stripped text is the part of the input after its leading whitespace run, and everything dropped before and after it is whitespace |
| `Text.TrimEmptyIffBlank` | tasks.py:59-63 | the stripped title is empty exactly when every character of the typed title is whitespace (both directions) |
| `Text.TrimIdempotent` | tasks.py:59 | stripping a stripped text changes nothing |
| `Text.TrimOfTrimmed` | tasks.py:59 | text with no whitespace at either end is returned unchanged by strip |
| `Text.IntText` | tasks.py:102 | the printed id starts with a minus sign exactly when the id is negative; after the sign come one or more digits with no leading zero unless the text is `0` itself |
| `Text.NatTextValue` | tasks.py:102 | reading the printed digits of a natural number back gives the number |
| `Text.IntTextValue` | tasks.py:102 | reading the printed text of any integer back (sign and digits) gives the integer |
| `Text.IntTextInjective` | tasks.py:102 | two ids print the same text only if they are equal |
| `Tasks.NewTask` | tasks.py:67-73 | the record add_task builds carries the given id, title, description and creation time, is pending and has no completion time |
| `Tasks.Completed` | tasks.py:133-136 | completing a record sets it done with the given completion time and leaves its id, title, description and creation time as they were |
| `Tasks.HasId` | tasks.py:128 | a record matches a number exactly when its id holds that number; a record without an id matches nothing |
| `Tasks.FirstIndexOf` | tasks.py:126-129 | the position found holds the requested id and no earlier record does; nothing is found exactly when no record has the id |
| `Tasks.AddEffect` | tasks.py:59-75 | a blank title leaves the collection unchanged; otherwise exactly one record is appended at the end, earlier records unchanged, with id old length + 1, the stripped non-empty title, the stripped description, pending, the given creation time and no completion time |
| `Tasks.AddReport` | tasks.py:61-80 | the title error is reported exactly when the title is blank; otherwise the outcome carries the new id, old length + 1 (printed only when the save succeeds, tasks.py:78), and the save result is passed through |
| `Tasks.AddSavesIffAppended` | tasks.py:75-80 | a save is attempted exactly when the collection changed, i.e. grew by one, and the appended record carries the reported id; the save result plays no part in the new collection |
| `Tasks.AddKeepsIdsSequential` | tasks.py:68 | if the ids were 1..n in order, after an add they are 1..n or 1..n+1 in order |
| `Tasks.AddFirstTask` | tasks.py:59-75 | adding a title with no whitespace at its ends and no description to an empty collection yields exactly the one pending task 1 with that title |
| `Tasks.MarkDoneEffect` | tasks.py:127-141 | length and ids never change; every record stays as it was except possibly the first record with the requested id, which, if pending, becomes done with the given completion time; done records are never touched; a non-numeric or unknown id changes nothing |
| `Tasks.MarkDoneReport` | tasks.py:114-144 | reports no tasks exactly for an empty collection, an invalid number exactly for a non-numeric id on a non-empty one, not found exactly when no record has the id, already done exactly when the first match is done, and otherwise success with the save result; not found, already done and success all carry the requested id |
| `Tasks.MarkDoneSavesIffChanged` | tasks.py:130-137 | a save is attempted exactly when the collection changed |
| `Tasks.MarkDoneIdempotent` | tasks.py:130-131 | marking the same id again, at any later time, changes nothing, so the first completion time is kept |
| `Tasks.MarkDoneAgainReportsAlreadyDone` | tasks.py:130-131 | after a successful mark, marking the same id again reports already done and attempts no save |
| `Tasks.SameIdsSameFirstIndex` | tasks.py:127-128 | the search depends only on the ids, so collections with the same ids find the same first match |
| `Tasks.MarkDoneKeepsIdsSequential` | tasks.py:127-141 | mark-done keeps ids 1..n in order |
| `Tasks.MarkOnlyTask` | tasks.py:127-136 | marking id 1 in a collection holding only pending task 1 completes it with the given time |
| `Tasks.SequentialIdsUnique` | tasks.py:68 | ids 1..n in order are pairwise distinct |
| `Tasks.TaskList.constructor` | tasks.py:162 | the collection starts as the list that was loaded |
| `Tasks.TaskList.AddTask` | tasks.py:54-80 | the collection after the call and the outcome are those of `AddEffect` and `AddReport` whatever the save returns, and ids 1..n in order are kept |
| `Tasks.TaskList.MarkDone` | tasks.py:110-144 | the in-place search-and-update loop leaves the collection of `MarkDoneEffect` and reports the outcome of `MarkDoneReport`, and ids 1..n in order are kept |
| `Listing.HeadLine` | tasks.py:96-102 | the head line is 13 characters of fixed text and glyph plus the printed id and the title (what it shows is stated by `HeadLineShows`) |
| `Listing.TaskBlock` | tasks.py:102-105 | a task takes two or three lines (which ones is stated by `TaskBlockShows`) |
| `Listing.HeadLineShows` | tasks.py:96-102 | the head line of a task is a newline and `[`, then the check mark exactly when the task is done and the circle exactly when it is pending, then `] Task #`, the printed id, `: ` and the title, which ends the line |
| `Listing.TaskBlockShows` | tasks.py:102-105 | a task's block is its head line, then a description line exactly when the description is non-empty, and the creation line last |
| `Listing.Blocks` | tasks.py:95-105 | the task blocks take between two and three lines per task |
| `Listing.Render` | tasks.py:83-107 | the listing is a single line exactly when the collection is empty, and that line is the "no tasks" message; otherwise the three framing title lines, the blocks of all tasks line by line, and the closing rule |
| `Listing.BlocksAppend` | tasks.py:95 | the blocks of a concatenation are the blocks of the first part followed by those of the second |
| `Listing.BlocksAppendOne` | tasks.py:95 | appending a task adds its block after the blocks already there |
| `Listing.BlockAt` | tasks.py:95-105 | task i's block sits among the blocks right after the blocks of the tasks before it |
| `Listing.RenderShowsTaskAt` | tasks.py:95-105 | the block of task i appears in the listing right after the blocks of the tasks before it |
| `Listing.BlocksInOrder` | tasks.py:95 | an earlier task's block ends before a later task's block starts: insertion order, no overlap |
| `Listing.RenderTail` | tasks.py:95-107 | when the blocks end with some lines, the listing shows those lines just before the closing rule |
| `Listing.RenderAppend` | tasks.py:95-107 | a task appended to the collection is listed last, its block just before the closing rule |
| `Listing.MissingKeysShowDefaults` | tasks.py:96-105 | a record lacking every optional key is listed as pending, id `?`, title `Untitled`, no description line, created `Unknown` |
| `Listing.RenderAfterAdd` | tasks.py:67-75 | after an add with a non-blank title, the listing ends with the new task's block, whose head line is that of the new pending record with id old length + 1 and the stripped title, showing the circle |
| `Listing.RenderAfterMarkDone` | tasks.py:133-137 | after a successful mark-done, the marked task's head line in the listing shows the check mark |
| `Listing.SingleTaskHeadLine` | tasks.py:91-102 | the listing of a one-task collection shows that task's head line right after the three title lines |
| `Listing.TaskOneHeadLine` | tasks.py:102 | the head line of task 1 reads `[<glyph>] Task #1: <title>` |
| `Listing.AddThenMarkScenario` | tasks.py:54-144 | from an empty collection, adding a task titled e.g. "Finish report" lists `[○] Task #1: Finish report`; marking id 1 then lists `[✓] Task #1: Finish report` and records the completion time |
| `Session.Step` | tasks.py:168-173 | one menu choice 1 or 3 keeps every record's place and id and appends at most one record |
| `Session.Run` | tasks.py:164-173 | a sequence of adds and mark-dones keeps every initial record's place and id and appends at most one record per command |
| `Session.RunLength` | tasks.py:68-75 | the collection grows by one record per add with a non-blank title and by nothing else |
| `Session.RunKeepsIdsSequential` | tasks.py:68 | any sequence of adds and mark-dones keeps ids 1..n in order |
| `Session.SessionFromEmpty` | tasks.py:68 | from an empty collection, any session leaves ids exactly 1..n in order, hence unique, with n the number of successful adds |
| `Session.RunKeepsDoneRecords` | tasks.py:130-136 | records present at the start keep their place and id, and a done record stays exactly as it is for the rest of the session |

## Left out

- `load_tasks` and `save_tasks` (tasks.py:16-51): file and JSON I/O with exception handling; the saved outcome is the boolean argument `saveSucceeds`, and the loaded list is the constructor's argument.
- `datetime.now().strftime(...)`: the clock; the timestamp is a string argument.
- `input()`, `print()` as console effects, `display_menu`, and the choices of `main` other than 1 and 3 (list, exit, invalid choice), which leave the collection as it is: interactive glue. The loop's sequence of adds and mark-dones is modelled by `Session.Run`. The printed text of list_tasks is modelled as its sequence of lines; the messages of add_task and mark_done are modelled as outcome values rather than text.
- Message text of the outcomes: `Added` and `Marked` carry the id whatever the save returns, while the source prints the id only on success (tasks.py:78, tasks.py:138) and a fixed failure message otherwise (tasks.py:80, tasks.py:140).
- Python's `int()` parsing of the typed id: abstracted as `Option<int>`.
- Loose typing of loaded JSON: a `done` that is not a boolean (Python truthiness), ids that are not integers (`True == 1`, `1.0 == 1`), and titles or descriptions that are not strings. The model has `done: bool` (a missing key reads as false), `id: Option<int>`, and string-valued text fields.
- Elements of the loaded list that are not JSON objects: `task.get` raises an uncaught `AttributeError` in list_tasks (tasks.py:96) and mark_done (tasks.py:128) and the program ends; the `Task` type cannot represent such an element.
- Keys holding `null`: `get` returns the stored value, so a `created_at` of `null` prints `None` rather than `Unknown` (tasks.py:100), and an `id` or `title` of `null` prints `None` rather than `?` or `Untitled` (tasks.py:97-98); `Option` merges a missing key with a `null` one and the model shows the default for both.
- Aliasing: the source mutates the matched dict in place; the model replaces the element of the sequence, which is indistinguishable here because no other reference to a record exists.
- Characters: strings are sequences of Unicode scalar values; no encoding or normalisation is modelled.
