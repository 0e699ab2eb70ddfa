/**
 * The task card's dialog: three pieces of component state (is the dialog
 * open, is it in edit mode, and the draft being edited) and the handlers
 * that overwrite them. The `task` prop is kept beside them because the
 * handlers read it; the draft is initialised from it only once, so a new
 * prop does not replace the draft until Cancel or closing the dialog.
 */
module TaskItem {
  import opened Options
  import opened TaskTypes
  import TaskEdits

  datatype DialogMode = Closed | Viewing | Editing

  class TaskItemDialog {
    /** The `task` prop of the latest render. */
    var task: Task
    /** Whether the parent passed the optional `onUpdate` callback. */
    const hasOnUpdate: bool
    var isDialogOpen: bool
    var isEditMode: bool
    var editedTask: Task

    /** Edit mode is only ever entered from inside the open dialog. */
    ghost predicate Valid()
      reads this
    {
      isEditMode ==> isDialogOpen
    }

    /** What is on screen: nothing, the read-only view, or the edit form. */
    function Mode(): DialogMode
      reads this
    {
      if !isDialogOpen then Closed
      else if isEditMode then Editing
      else Viewing
    }

    /** First render: dialog closed, not editing, draft equal to the prop. */
    constructor (task: Task, hasOnUpdate: bool)
      ensures Valid() && Mode() == Closed
      ensures this.task == task && this.hasOnUpdate == hasOnUpdate
      ensures !isDialogOpen && !isEditMode && editedTask == task
    {
      this.task := task;
      this.hasOnUpdate := hasOnUpdate;
      isDialogOpen := false;
      isEditMode := false;
      editedTask := task;
    }

    /** A re-render with a new prop: the state, the draft included, is kept. */
    method ReceiveTask(newTask: Task)
      requires Valid()
      modifies this
      ensures Valid()
      ensures task == newTask
      ensures isDialogOpen == old(isDialogOpen) && isEditMode == old(isEditMode)
      ensures editedTask == old(editedTask)
    {
      task := newTask;
    }

    /** The card's "more" button opens the dialog in whatever mode it was left. */
    method OpenDialog()
      requires Valid()
      modifies this
      ensures Valid()
      ensures isDialogOpen && isEditMode == old(isEditMode)
      ensures old(Mode()) == Closed ==> Mode() == Viewing
      ensures task == old(task) && editedTask == old(editedTask)
    {
      isDialogOpen := true;
    }

    /** The view's Close button only hides the dialog. */
    method CloseView()
      requires Valid() && Mode() == Viewing
      modifies this
      ensures Valid() && Mode() == Closed
      ensures !isDialogOpen && !isEditMode
      ensures task == old(task) && editedTask == old(editedTask)
    {
      isDialogOpen := false;
    }

    /** "Edit Task" switches the open dialog to the edit form. */
    method EditClick()
      requires Valid() && Mode() == Viewing
      modifies this
      ensures Valid() && Mode() == Editing
      ensures isDialogOpen && isEditMode
      ensures task == old(task) && editedTask == old(editedTask)
    {
      isEditMode := true;
    }

    /** One change in the edit form replaces the draft by the edited copy. */
    method Edit(e: TaskEdits.DraftEdit)
      requires Valid() && Mode() == Editing
      requires TaskEdits.Applicable(editedTask, e)
      modifies this
      ensures Valid() && Mode() == Editing
      ensures isDialogOpen && isEditMode
      ensures editedTask == TaskEdits.ApplyEdit(old(editedTask), e)
      ensures task == old(task)
    {
      editedTask := TaskEdits.ApplyEdit(editedTask, e);
    }

    /**
     * "Save Changes" hands the draft to `onUpdate` when there is one (the
     * result) and closes the dialog; the draft itself is kept.
     */
    method Save() returns (published: Option<Task>)
      requires Valid() && Mode() == Editing
      modifies this
      ensures Valid() && Mode() == Closed
      ensures published == if hasOnUpdate then Some(old(editedTask)) else None
      ensures !isDialogOpen && !isEditMode
      ensures task == old(task) && editedTask == old(editedTask)
    {
      published := if hasOnUpdate then Some(editedTask) else None;
      isEditMode := false;
      isDialogOpen := false;
    }

    /** "Cancel" throws the draft away and goes back to the view; the dialog stays open. */
    method Cancel()
      requires Valid() && Mode() == Editing
      modifies this
      ensures Valid() && Mode() == Viewing
      ensures isDialogOpen && !isEditMode
      ensures editedTask == task && task == old(task)
    {
      editedTask := task;
      isEditMode := false;
    }

    /** Closing the dialog (backdrop or Escape) closes it, leaves edit mode and resets the draft. */
    method Dismiss()
      requires Valid() && isDialogOpen
      modifies this
      ensures Valid() && Mode() == Closed
      ensures !isDialogOpen && !isEditMode
      ensures editedTask == task && task == old(task)
    {
      isDialogOpen := false;
      isEditMode := false;
      editedTask := task;
    }
  }

  /**
   * Open, edit, change anything, Cancel: the draft is the prop again, the
   * dialog shows the view, and nothing was handed to `onUpdate`.
   */
  method EditThenCancel(task: Task, hasOnUpdate: bool, e: TaskEdits.DraftEdit)
    returns (draft: Task, mode: DialogMode)
    ensures draft == task && mode == Viewing
  {
    var d := new TaskItemDialog(task, hasOnUpdate);
    d.OpenDialog();
    d.EditClick();
    if TaskEdits.Applicable(d.editedTask, e) {
      d.Edit(e);
    }
    d.Cancel();
    draft, mode := d.editedTask, d.Mode();
  }

  /**
   * Open, edit, change anything, Save: the edited draft is handed to
   * `onUpdate` exactly when the parent passed one, and the dialog is closed.
   */
  method EditThenSave(task: Task, hasOnUpdate: bool, e: TaskEdits.DraftEdit)
    returns (published: Option<Task>, mode: DialogMode)
    requires TaskEdits.Applicable(task, e)
    ensures published.Some? <==> hasOnUpdate
    ensures published.Some? ==> published.value == TaskEdits.ApplyEdit(task, e)
    ensures mode == Closed
  {
    var d := new TaskItemDialog(task, hasOnUpdate);
    d.OpenDialog();
    d.EditClick();
    d.Edit(e);
    published := d.Save();
    mode := d.Mode();
  }
}
