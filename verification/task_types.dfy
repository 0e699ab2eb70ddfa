/**
 * The task board's records: a task with its priority, status, dates,
 * working days and notes, and a section holding an ordered list of tasks.
 */
module TaskTypes {
  import opened Options

  /** A point in time, as milliseconds since the epoch (a JavaScript `Date`). */
  type Date = int

  datatype Priority = Low | Medium | High

  datatype Status = Todo | InProgress | Completed

  /** The string each priority is stored and selected as. */
  function PriorityName(p: Priority): (r: string)
    ensures r == "low" <==> p == Low
    ensures r == "medium" <==> p == Medium
    ensures r == "high" <==> p == High
  {
    match p
    case Low => "low"
    case Medium => "medium"
    case High => "high"
  }

  /** The string each status is stored and selected as. */
  function StatusName(s: Status): (r: string)
    ensures r == "todo" <==> s == Todo
    ensures r == "in-progress" <==> s == InProgress
    ensures r == "completed" <==> s == Completed
  {
    match s
    case Todo => "todo"
    case InProgress => "in-progress"
    case Completed => "completed"
  }

  /** Distinct priorities have distinct names, so a name picks exactly one priority. */
  lemma PriorityNamesDistinct(p: Priority, q: Priority)
    ensures PriorityName(p) == PriorityName(q) <==> p == q
  {
  }

  /** Distinct statuses have distinct names, so a name picks exactly one status. */
  lemma StatusNamesDistinct(s: Status, t: Status)
    ensures StatusName(s) == StatusName(t) <==> s == t
  {
  }

  /** A note attached to a task. */
  datatype Note = Note(id: string, title: string, content: string, createdAt: Date, updatedAt: Date)

  /**
   * A task. `completedDate` is optional and nothing in the type ties it to
   * `status`; `workingDays` is an ordered list and may hold the same day twice.
   */
  datatype Task = Task(
    id: string,
    title: string,
    description: string,
    priority: Priority,
    status: Status,
    createdAt: Date,
    updatedAt: Date,
    dueDates: Date,
    completedDate: Option<Date>,
    workingDays: seq<Date>,
    notes: seq<Note>)

  datatype TaskSection = TaskSection(id: string, title: string, tasks: seq<Task>)

  /** The link the status edit establishes: a completion date exactly for completed tasks. */
  predicate CompletionConsistent(t: Task) {
    t.completedDate.Some? <==> t.status == Completed
  }

  /** No two notes of the list share an id. */
  predicate UniqueNoteIds(notes: seq<Note>) {
    forall i, j :: 0 <= i < j < |notes| ==> notes[i].id != notes[j].id
  }

  function NoteIds(notes: seq<Note>): set<string> {
    set n | n in notes :: n.id
  }
}
