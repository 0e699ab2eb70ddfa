/**
 * The edits the task dialog's edit mode makes to its draft. Each one copies
 * the draft and changes one field (or one element of a list field). The
 * clock (`new Date()`) and the note id generator (`crypto.randomUUID()`)
 * are parameters.
 */
module TaskEdits {
  import opened Options
  import opened TaskTypes

  // ---------------------------------------------------------------------
  // Scalar fields
  // ---------------------------------------------------------------------

  function WithTitle(t: Task, title: string): (r: Task)
    ensures r.title == title
    ensures r.(title := t.title) == t
  {
    t.(title := title)
  }

  function WithDescription(t: Task, description: string): (r: Task)
    ensures r.description == description
    ensures r.(description := t.description) == t
  {
    t.(description := description)
  }

  function WithPriority(t: Task, priority: Priority): (r: Task)
    ensures r.priority == priority
    ensures r.(priority := t.priority) == t
  {
    t.(priority := priority)
  }

  /**
   * The status handler: the completion date becomes `now` when the new status
   * is completed and is cleared otherwise, whatever it was before. The select
   * calls the handler only when the picked status differs from the current one.
   */
  function WithStatus(t: Task, status: Status, now: Date): (r: Task)
    ensures r.status == status
    ensures CompletionConsistent(r)
    ensures r.completedDate.Some? ==> r.completedDate.value == now
    ensures r.(status := t.status, completedDate := t.completedDate) == t
  {
    t.(status := status, completedDate := if status == Completed then Some(now) else None)
  }

  /** The due-date picker: a cleared pick (`null`) leaves the draft as it is. */
  function WithDueDate(t: Task, pick: Option<Date>): (r: Task)
    ensures pick.None? ==> r == t
    ensures pick.Some? ==> r.dueDates == pick.value
    ensures r.(dueDates := t.dueDates) == t
  {
    match pick
    case None => t
    case Some(d) => t.(dueDates := d)
  }

  // ---------------------------------------------------------------------
  // Working days
  // ---------------------------------------------------------------------

  /** The working-day picker appends the picked day, duplicates included; a `null` pick does nothing. */
  function AddWorkingDay(t: Task, pick: Option<Date>): (r: Task)
    ensures pick.None? ==> r == t
    ensures pick.Some? ==>
      && |r.workingDays| == |t.workingDays| + 1
      && r.workingDays[..|t.workingDays|] == t.workingDays
      && r.workingDays[|t.workingDays|] == pick.value
    ensures r.(workingDays := t.workingDays) == t
  {
    match pick
    case None => t
    case Some(d) => t.(workingDays := t.workingDays + [d])
  }

  /**
   * Keeps every element whose position is not `index`: exactly one element
   * goes when `index` is a position of `s`, and the rest keep their order.
   */
  function WithoutIndex<T>(s: seq<T>, index: nat): (r: seq<T>)
    ensures index < |s| ==>
      && |r| == |s| - 1
      && (forall k :: 0 <= k < index ==> r[k] == s[k])
      && (forall k :: index <= k < |r| ==> r[k] == s[k + 1])
      && multiset(r) == multiset(s) - multiset{s[index]}
    ensures index >= |s| ==> r == s
  {
    if index < |s| then
      assert s == s[..index] + [s[index]] + s[index + 1..];
      s[..index] + s[index + 1..]
    else s
  }

  /** Deleting the working-day chip at `index`. */
  function RemoveWorkingDay(t: Task, index: nat): (r: Task)
    ensures r.workingDays == WithoutIndex(t.workingDays, index)
    ensures r.(workingDays := t.workingDays) == t
  {
    t.(workingDays := WithoutIndex(t.workingDays, index))
  }

  // ---------------------------------------------------------------------
  // Notes
  // ---------------------------------------------------------------------

  /**
   * "Add Note": one blank note at the end. The handler reads the clock once
   * for `createdAt` and again for `updatedAt`, so the two may differ.
   */
  function AddNote(t: Task, freshId: string, created: Date, updated: Date): (r: Task)
    ensures |r.notes| == |t.notes| + 1
    ensures r.notes[..|t.notes|] == t.notes
    ensures var n := r.notes[|t.notes|];
      n.id == freshId && n.title == "" && n.content == ""
      && n.createdAt == created && n.updatedAt == updated
    ensures r.(notes := t.notes) == t
  {
    t.(notes := t.notes + [Note(freshId, "", "", created, updated)])
  }

  /** The notes whose id is not `id`, in their original order. */
  function WithoutNoteId(notes: seq<Note>, id: string): (r: seq<Note>)
    ensures |r| <= |notes|
    ensures (forall n :: n in notes ==> n.id != id) ==> r == notes
  {
    if notes == [] then []
    else
      var rest := WithoutNoteId(notes[1..], id);
      assert forall n :: n in notes[1..] ==> n in notes;
      if notes[0].id == id then rest else [notes[0]] + rest
  }

  /** A note survives the deletion exactly when it was there and carries another id. */
  lemma {:induction false} WithoutNoteIdMembers(notes: seq<Note>, id: string)
    ensures forall n :: n in WithoutNoteId(notes, id) <==> n in notes && n.id != id
  {
    if notes != [] {
      WithoutNoteIdMembers(notes[1..], id);
      assert forall n :: n in notes <==> n == notes[0] || n in notes[1..];
    }
  }

  /** Deleting a note removes the notes carrying its id. */
  function DeleteNote(t: Task, id: string): (r: Task)
    ensures r.notes == WithoutNoteId(t.notes, id)
    ensures r.(notes := t.notes) == t
  {
    t.(notes := WithoutNoteId(t.notes, id))
  }

  /** Every note with the id is gone, and every other note keeps its multiplicity. */
  lemma {:induction false} WithoutNoteIdCount(notes: seq<Note>, id: string, n: Note)
    ensures multiset(WithoutNoteId(notes, id))[n] == if n.id == id then 0 else multiset(notes)[n]
  {
    if notes != [] {
      WithoutNoteIdCount(notes[1..], id, n);
      assert notes == [notes[0]] + notes[1..];
    }
  }

  /** With unique ids, deleting the note at position k removes exactly that note and keeps the order. */
  lemma {:induction false} DeleteUniqueNote(notes: seq<Note>, k: nat)
    requires UniqueNoteIds(notes)
    requires k < |notes|
    ensures WithoutNoteId(notes, notes[k].id) == notes[..k] + notes[k + 1..]
    ensures |WithoutNoteId(notes, notes[k].id)| == |notes| - 1
  {
    if k == 0 {
      DeleteUniqueHead(notes);
    } else {
      var tail := notes[1..];
      UniqueTail(notes);
      assert tail[k - 1] == notes[k];
      DeleteUniqueNote(tail, k - 1);
      assert notes[0].id != notes[k].id;
      DeleteUniqueStep(notes[0], tail, k - 1);
      assert [notes[0]] + tail == notes;
      assert [notes[0]] + tail[..k - 1] == notes[..k];
      assert tail[k..] == notes[k + 1..];
    }
  }

  /** The first note's id occurs nowhere else, so deleting it removes just the head. */
  lemma DeleteUniqueHead(notes: seq<Note>)
    requires UniqueNoteIds(notes) && notes != []
    ensures WithoutNoteId(notes, notes[0].id) == notes[1..]
  {
    var id := notes[0].id;
    var tail := notes[1..];
    forall n | n in tail ensures n.id != id {
      var j :| 0 <= j < |tail| && tail[j] == n;
      assert tail[j] == notes[j + 1];
    }
  }

  /** A head with another id stays in front of what the deletion leaves of the tail. */
  lemma DeleteUniqueStep(head: Note, tail: seq<Note>, j: nat)
    requires j < |tail| && head.id != tail[j].id
    requires WithoutNoteId(tail, tail[j].id) == tail[..j] + tail[j + 1..]
    ensures WithoutNoteId([head] + tail, tail[j].id) == [head] + tail[..j] + tail[j + 1..]
  {
    assert ([head] + tail)[1..] == tail;
  }

  lemma UniqueTail(notes: seq<Note>)
    requires UniqueNoteIds(notes) && notes != []
    ensures UniqueNoteIds(notes[1..])
  {
    var tail := notes[1..];
    forall i, j | 0 <= i < j < |tail| ensures tail[i].id != tail[j].id {
      assert tail[i] == notes[i + 1] && tail[j] == notes[j + 1];
    }
  }

  /** Deleting keeps ids unique. */
  lemma {:induction false} WithoutNoteIdKeepsUnique(notes: seq<Note>, id: string)
    requires UniqueNoteIds(notes)
    ensures UniqueNoteIds(WithoutNoteId(notes, id))
  {
    if notes != [] {
      WithoutNoteIdKeepsUnique(notes[1..], id);
      WithoutNoteIdMembers(notes[1..], id);
      var rest := WithoutNoteId(notes[1..], id);
      if notes[0].id != id {
        forall j | 0 <= j < |rest| ensures notes[0].id != rest[j].id {
          assert rest[j] in notes[1..];
        }
        assert UniqueNoteIds([notes[0]] + rest);
      }
    }
  }

  /**
   * Typing into a note's title: the note at `index` gets the new title and
   * `updatedAt := now`; its id, content and creation time stay, and every
   * other note and the list length stay as they were.
   */
  function EditNoteTitle(t: Task, index: nat, title: string, now: Date): (r: Task)
    requires index < |t.notes|
    ensures |r.notes| == |t.notes|
    ensures forall k :: 0 <= k < |t.notes| && k != index ==> r.notes[k] == t.notes[k]
    ensures var n, n' := t.notes[index], r.notes[index];
      n'.id == n.id && n'.content == n.content && n'.createdAt == n.createdAt
      && n'.title == title && n'.updatedAt == now
    ensures r.(notes := t.notes) == t
  {
    var note := t.notes[index];
    t.(notes := t.notes[index := note.(title := title, updatedAt := now)])
  }

  /** Typing into a note's content: as for the title, with the content field. */
  function EditNoteContent(t: Task, index: nat, content: string, now: Date): (r: Task)
    requires index < |t.notes|
    ensures |r.notes| == |t.notes|
    ensures forall k :: 0 <= k < |t.notes| && k != index ==> r.notes[k] == t.notes[k]
    ensures var n, n' := t.notes[index], r.notes[index];
      n'.id == n.id && n'.title == n.title && n'.createdAt == n.createdAt
      && n'.content == content && n'.updatedAt == now
    ensures r.(notes := t.notes) == t
  {
    var note := t.notes[index];
    t.(notes := t.notes[index := note.(content := content, updatedAt := now)])
  }

  // ---------------------------------------------------------------------
  // All draft edits
  // ---------------------------------------------------------------------

  /** One `onChange`/`onClick` of the edit form, with the clock readings and the id it uses. */
  datatype DraftEdit =
    | SetTitle(title: string)
    | SetDescription(description: string)
    | SetPriority(priority: Priority)
    | SetStatus(status: Status, now: Date)
    | PickDueDate(pick: Option<Date>)
    | PickWorkingDay(pick: Option<Date>)
    | DeleteWorkingDay(index: nat)
    | AddBlankNote(freshId: string, created: Date, updated: Date)
    | DeleteNoteById(id: string)
    | TypeNoteTitle(noteIndex: nat, title: string, now: Date)
    | TypeNoteContent(noteIndex: nat, content: string, now: Date)

  /** The note fields are rendered once per note, so their index is a position of the list. */
  predicate Applicable(t: Task, e: DraftEdit) {
    (e.TypeNoteTitle? || e.TypeNoteContent?) ==> e.noteIndex < |t.notes|
  }

  /** No draft edit touches the task's id or its creation and update times. */
  function ApplyEdit(t: Task, e: DraftEdit): (r: Task)
    requires Applicable(t, e)
    ensures r.id == t.id && r.createdAt == t.createdAt && r.updatedAt == t.updatedAt
  {
    match e
    case SetTitle(title) => WithTitle(t, title)
    case SetDescription(d) => WithDescription(t, d)
    case SetPriority(p) => WithPriority(t, p)
    case SetStatus(s, now) => WithStatus(t, s, now)
    case PickDueDate(pick) => WithDueDate(t, pick)
    case PickWorkingDay(pick) => AddWorkingDay(t, pick)
    case DeleteWorkingDay(i) => RemoveWorkingDay(t, i)
    case AddBlankNote(id, created, updated) => AddNote(t, id, created, updated)
    case DeleteNoteById(id) => DeleteNote(t, id)
    case TypeNoteTitle(i, title, now) => EditNoteTitle(t, i, title, now)
    case TypeNoteContent(i, content, now) => EditNoteContent(t, i, content, now)
  }

  /** A status edit establishes the completion link; every other edit keeps it. */
  lemma EditKeepsCompletionConsistent(t: Task, e: DraftEdit)
    requires Applicable(t, e)
    requires CompletionConsistent(t) || e.SetStatus?
    ensures CompletionConsistent(ApplyEdit(t, e))
  {
  }

  /** With a fresh id for every added note, no edit makes two notes share an id. */
  lemma EditKeepsNoteIdsUnique(t: Task, e: DraftEdit)
    requires Applicable(t, e)
    requires UniqueNoteIds(t.notes)
    requires e.AddBlankNote? ==> e.freshId !in NoteIds(t.notes)
    ensures UniqueNoteIds(ApplyEdit(t, e).notes)
  {
    match e
    case AddBlankNote(id, _, _) =>
      var r := ApplyEdit(t, e);
      forall i | 0 <= i < |t.notes| ensures r.notes[i].id != id {
        assert t.notes[i] in t.notes;
      }
    case DeleteNoteById(id) =>
      WithoutNoteIdKeepsUnique(t.notes, id);
    case TypeNoteTitle(i, title, now) =>
    case TypeNoteContent(i, content, now) =>
    case _ =>
  }
}
