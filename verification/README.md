# Prioritizer: login validation and task edit dialog

Prioritizer is a browser task board. This project models two parts of its web client:

- **The login schema.** The form has two fields. `emailOrPhone` must not be empty, and the whole
  value must match an email pattern or a phone pattern. `password` must not be empty and must be at
  least six characters long.
- **The task dialog.** Each task card has a dialog with three pieces of state:
  - whether the dialog is open;
  - whether it is in edit mode;
  - a draft copy of the task.

  The dialog's buttons move it between closed, view and edit. Save hands the draft to the parent.
  Cancel and closing the dialog reset the draft. Each control in the edit form replaces the draft
  with an edited copy.

Files:

- `js_text.dfy` (module `JsText`): JavaScript strings as sequences of UTF-16 code units, and the
  ASCII character classes the patterns use.
- `email_pattern.dfy` (module `EmailPattern`): `/^[A-Z0-9._%+-]+@[A-Z0-9.-]+\.[A-Z]{2,}$/i`.
- `phone_pattern.dfy` (module `PhonePattern`): `/^\+?[1-9]\d{1,14}$/`.
- `login_schema.dfy` (module `LoginSchema`): which rules each field breaks, and when the form is
  valid.
- `task_types.dfy` (module `TaskTypes`): the `Task`, `Note` and `TaskSection` records.
- `task_edits.dfy` (module `TaskEdits`): the draft edits, as pure functions on `Task`.
- `task_item.dfy` (module `TaskItem`): the dialog, as the class `TaskItemDialog` with its three
  state fields and one method per handler.
- `options.dfy` (module `Options`): an optional value.

Each pattern is written twice:

1. **A declarative predicate** (`MatchesEmailRegex`, `MatchesPhoneRegex`). It says there is a way
   to split the input into the parts the regex names.
2. **An executable recognizer** (`IsEmail`, `IsPhone`). It is a deterministic automaton that reads
   the input once.

The contract of each recognizer says it accepts exactly what the predicate accepts. The proof
uses `Classify`, a function that gives the automaton's state for any prefix, plus two lemmas: one
step of the automaton agrees with `Classify`, and the accepting state means a match.

The regex semantics follow JavaScript:

- Neither pattern has the `m` flag, so `^` and `$` match only at the ends of the input.
- Neither pattern has the `u` flag, so `\d` means ASCII `0`-`9`.
- Under the email pattern's `i` flag without `u`, `[A-Z]` matches exactly the 52 ASCII letters.
- Yup's `min(6)` compares JavaScript `length`, which counts UTF-16 code units. A string is
  therefore `seq<CodeUnit>`, where `CodeUnit` is a 16-bit value.

Facts about the source that the model records:

- No draft edit changes the task's `updatedAt`; `ApplyEdit` proves this.
- The status handler stamps `completedDate` with the clock on every call whose new status is
  "completed", and clears it on every other call. The status select calls the handler only when
  the picked status differs from the current one.
- `workingDays` is an ordered list that may repeat a day.
- The `Task` type does not tie `completedDate` to `status`. The model proves that link about the
  status edit (`WithStatus`, `EditKeepsCompletionConsistent`). It is not an invariant of the type.
- The `Task` type has no `notes` field, but the dialog reads and writes `task.notes`. The model
  adds `notes: seq<Note>`, in the shape the "Add Note" button builds.
- The login form is a Formik form. Formik turns an empty field into `undefined` before the schema
  sees it (`SchemaInput`). Yup's `min(6)` lets an absent value pass, so an empty password breaks
  only `required`. An absent identifier breaks `required`, and its first reported message is
  "Email or phone number is required". The model also runs the custom test on it, as Yup 0.x
  does: `RegExp.prototype.test` matches the text "undefined", which neither pattern accepts.

## Model

| member | source | states |
|---|---|---|
| `EmailPattern.IsEmail` | prioritizer-web/src/features/auth/schemas/loginSchema.ts:7 | The automaton accepts a string exactly when the email pattern matches the whole string. |
| `EmailPattern.RunClassify` | prioritizer-web/src/features/auth/schemas/loginSchema.ts:7 | Running the automaton over `s` from the state that describes `w` ends in the state that describes `w + s`, so from the start state it ends in the state that describes the whole input. |
| `EmailPattern.AcceptIffMatches` | prioritizer-web/src/features/auth/schemas/loginSchema.ts:7 | The state `Classify(w)` that describes the input read so far is the accepting one exactly when some split of `w` matches: a non-empty local part over letters, digits and `._%+-`, then `@`, then a non-empty run over letters, digits and `.-`, then `.`, then at least 2 letters at the very end. |
| `EmailPattern.EmailShape` | prioritizer-web/src/features/auth/schemas/loginSchema.ts:7 | An accepted email contains exactly one `@`. What follows its last `.` is at least 2 ASCII letters. |
| `EmailPattern.EmailIsAscii` | prioritizer-web/src/features/auth/schemas/loginSchema.ts:7 | Every code unit of an accepted email is ASCII and none is a line break. No non-ASCII character folds into a letter. |
| `EmailPattern.EmailIgnoresAsciiCase` | prioritizer-web/src/features/auth/schemas/loginSchema.ts:7 | Upper-casing the ASCII letters of a string never changes whether it matches the email pattern (the `i` flag). |
| `PhonePattern.IsPhone` | prioritizer-web/src/features/auth/schemas/loginSchema.ts:8 | The automaton accepts a string exactly when the phone pattern matches the whole string. |
| `PhonePattern.RunClassify` | prioritizer-web/src/features/auth/schemas/loginSchema.ts:8 | Running the automaton over `s` from the state that describes `w` ends in the state that describes `w + s`. |
| `PhonePattern.AcceptIffMatches` | prioritizer-web/src/features/auth/schemas/loginSchema.ts:8 | The automaton is in an accepting state (at least 2 digits read) exactly when some split matches: an optional `+`, then `[1-9]`, then 1 to 14 ASCII digits up to the end. |
| `PhonePattern.PhoneShape` | prioritizer-web/src/features/auth/schemas/loginSchema.ts:8 | An accepted phone number starts with `+` or with a digit 1-9. Every later unit is an ASCII digit. After the optional `+` come 2 to 15 digits, and the first of them is not `0`. |
| `PhonePattern.PhoneIsAscii` | prioritizer-web/src/features/auth/schemas/loginSchema.ts:8 | Every code unit of an accepted phone number is ASCII and none is a line break. |
| `LoginSchema.IsEmailOrPhone` | prioritizer-web/src/features/auth/schemas/loginSchema.ts:6-10 | The custom test passes exactly when the email pattern or the phone pattern matches. |
| `LoginSchema.SchemaInput` | prioritizer-web/src/features/auth/components/Login.tsx:102-104 | The schema receives `undefined` exactly for an empty field, and the field's own text otherwise. |
| `LoginSchema.UndefinedMatchesNeither` | prioritizer-web/src/features/auth/schemas/loginSchema.ts:9 | The text "undefined", which `test` matches for an absent value, matches neither pattern. |
| `LoginSchema.EmailOrPhoneErrors` | prioritizer-web/src/features/auth/schemas/loginSchema.ts:4-10 | For the value the schema receives, no rule is broken exactly when the value is present and one of the patterns matches it. The first message is `required` ("Email or phone number is required") exactly for an absent or empty value, which also breaks the pattern test (the list Yup 0.x reports). A non-empty value never breaks `required`, and a non-empty value that matches neither pattern gets exactly "Invalid email or phone number". |
| `LoginSchema.PasswordErrors` | prioritizer-web/src/features/auth/schemas/loginSchema.ts:11-13 | For the value the schema receives, no rule is broken exactly when it is present with at least 6 code units. `required` is broken exactly for an absent or empty value. `min(6)` is broken exactly for a present value below 6 code units, and never for an absent one. There is no other rule: every message is one of these two. |
| `LoginSchema.Validate` | prioritizer-web/src/features/auth/schemas/loginSchema.ts:3-14 | For the form's strings: `emailOrPhone` breaks no rule exactly when a pattern matches it, and `password` exactly when it has at least 6 code units. An empty identifier's first message is `required`, and it gets both messages (as Yup 0.x reports them); a non-empty one never gets `required`, and a non-empty one that matches neither pattern gets exactly "Invalid email or phone number". An empty password gets only "Password is required", and a password of 1 to 5 units only the `min(6)` message. |
| `LoginSchema.ValidIff` | prioritizer-web/src/features/auth/schemas/loginSchema.ts:3-14 | The form is valid exactly when the identifier matches the email or the phone pattern and the password has at least 6 code units. |
| `LoginSchema.AcceptedIdentifierIsAscii` | prioritizer-web/src/features/auth/schemas/loginSchema.ts:7-8 | An accepted identifier is pure ASCII and holds no line break. |
| `LoginSchema.TrailingNewlineRejected` | prioritizer-web/src/features/auth/schemas/loginSchema.ts:7-8 | Any value followed by a line break is rejected, with only the pattern test's message. `$` is anchored to the end of the input. |
| `LoginSchema.PhoneIgnoresAsciiCase` | prioritizer-web/src/features/auth/schemas/loginSchema.ts:8 | Upper-casing ASCII letters never changes whether the phone pattern matches. |
| `LoginSchema.IdentifierIgnoresAsciiCase` | prioritizer-web/src/features/auth/schemas/loginSchema.ts:6-10 | Upper-casing ASCII letters never changes whether an identifier is accepted. |
| `TaskTypes.PriorityName` | prioritizer-web/src/features/tasks/types/task.types.ts:5 | Each priority is stored as its own literal: `low` exactly for Low, `medium` exactly for Medium, `high` exactly for High. |
| `TaskTypes.PriorityNamesDistinct` | prioritizer-web/src/features/tasks/types/task.types.ts:5 | The three priorities have three distinct names. |
| `TaskTypes.StatusName` | prioritizer-web/src/features/tasks/types/task.types.ts:6 | Each status is stored as its own literal: `todo` exactly for Todo, `in-progress` exactly for InProgress, `completed` exactly for Completed. |
| `TaskTypes.StatusNamesDistinct` | prioritizer-web/src/features/tasks/types/task.types.ts:6 | The three statuses have three distinct names. |
| `TaskEdits.WithTitle` | prioritizer-web/src/features/tasks/components/TaskItem.tsx:208 | The title field sets the draft's title and nothing else. |
| `TaskEdits.WithDescription` | prioritizer-web/src/features/tasks/components/TaskItem.tsx:217 | The description field sets the draft's description and nothing else. |
| `TaskEdits.WithPriority` | prioritizer-web/src/features/tasks/components/TaskItem.tsx:225-228 | The priority select sets the draft's priority and nothing else. |
| `TaskEdits.WithStatus` | prioritizer-web/src/features/tasks/components/TaskItem.tsx:241-247 | The status select sets the status. `completedDate` becomes `now` exactly when the new status is completed and is cleared otherwise. No other field changes. |
| `TaskEdits.WithDueDate` | prioritizer-web/src/features/tasks/components/TaskItem.tsx:262 | A picked date becomes the due date. A null pick changes nothing. No other field changes. |
| `TaskEdits.AddWorkingDay` | prioritizer-web/src/features/tasks/components/TaskItem.tsx:274-279 | A picked day is appended after the existing days, which keep their order. Duplicates are allowed. A null pick changes nothing. No other field changes. |
| `TaskEdits.WithoutIndex` | prioritizer-web/src/features/tasks/components/TaskItem.tsx:300 | Filtering out position `index` removes exactly that one element, even when there are duplicates. The length drops by one and the other elements keep their order. An index past the end changes nothing. |
| `TaskEdits.RemoveWorkingDay` | prioritizer-web/src/features/tasks/components/TaskItem.tsx:297-301 | Deleting the chip at `index` removes that working day as `WithoutIndex` states. No other field changes. |
| `TaskEdits.AddNote` | prioritizer-web/src/features/tasks/components/TaskItem.tsx:317-327 | Appends one note with the fresh id, empty title and content, `createdAt` the first clock reading and `updatedAt` the second. Earlier notes and all other fields are unchanged. |
| `TaskEdits.WithoutNoteId` | prioritizer-web/src/features/tasks/components/TaskItem.tsx:352 | The list never grows. When no note has the id, the list is unchanged. |
| `TaskEdits.WithoutNoteIdMembers` | prioritizer-web/src/features/tasks/components/TaskItem.tsx:352 | A note is kept exactly when it was in the list and its id differs. |
| `TaskEdits.DeleteNote` | prioritizer-web/src/features/tasks/components/TaskItem.tsx:349-353 | The delete button filters the notes by id as `WithoutNoteId` states. No other field changes. |
| `TaskEdits.WithoutNoteIdCount` | prioritizer-web/src/features/tasks/components/TaskItem.tsx:352 | After a delete, every note with the id occurs 0 times. Every other note occurs as often as before. |
| `TaskEdits.DeleteUniqueNote` | prioritizer-web/src/features/tasks/components/TaskItem.tsx:349-353 | With unique ids, deleting the note at position k gives the list without position k, in order. The length drops by exactly one. |
| `TaskEdits.WithoutNoteIdKeepsUnique` | prioritizer-web/src/features/tasks/components/TaskItem.tsx:352 | Deleting notes keeps note ids unique. |
| `TaskEdits.EditNoteTitle` | prioritizer-web/src/features/tasks/components/TaskItem.tsx:364-375 | Only the note at the index changes: it gets the new title and `updatedAt = now`, and keeps its id, content and `createdAt`. The list length and every other note stay as they were. |
| `TaskEdits.EditNoteContent` | prioritizer-web/src/features/tasks/components/TaskItem.tsx:384-395 | Only the note at the index changes: it gets the new content and `updatedAt = now`, and keeps its id, title and `createdAt`. The list length and every other note stay as they were. |
| `TaskEdits.ApplyEdit` | prioritizer-web/src/features/tasks/components/TaskItem.tsx:204-401 | No draft edit changes the task's id, `createdAt` or `updatedAt`. |
| `TaskEdits.EditKeepsCompletionConsistent` | prioritizer-web/src/features/tasks/components/TaskItem.tsx:241-247 | A status edit always links `completedDate` to `status` (present exactly when completed). Every other edit keeps an existing link. |
| `TaskEdits.EditKeepsNoteIdsUnique` | prioritizer-web/src/features/tasks/components/TaskItem.tsx:317-395 | If every added note gets a fresh id, no edit makes two notes share an id. |
| `TaskItem.TaskItemDialog.constructor` | prioritizer-web/src/features/tasks/components/TaskItem.tsx:45-47 | On the first render the dialog is closed, not in edit mode, and the draft equals the `task` prop. |
| `TaskItem.TaskItemDialog.ReceiveTask` | prioritizer-web/src/features/tasks/components/TaskItem.tsx:44-47 | A new `task` prop replaces the prop only. The open flag, the edit flag and the draft are kept. |
| `TaskItem.TaskItemDialog.OpenDialog` | prioritizer-web/src/features/tasks/components/TaskItem.tsx:452 | Opens the dialog without touching edit mode or the draft. A closed dialog opens in view mode. |
| `TaskItem.TaskItemDialog.CloseView` | prioritizer-web/src/features/tasks/components/TaskItem.tsx:191 | The view's Close button only clears the open flag. The draft is kept. |
| `TaskItem.TaskItemDialog.EditClick` | prioritizer-web/src/features/tasks/components/TaskItem.tsx:64-66 | Switches from view to edit mode. The draft is kept. |
| `TaskItem.TaskItemDialog.Edit` | prioritizer-web/src/features/tasks/components/TaskItem.tsx:199-411 | Each control of the edit form replaces the draft with the edited copy and stays in edit mode. |
| `TaskItem.TaskItemDialog.Save` | prioritizer-web/src/features/tasks/components/TaskItem.tsx:68-72 | Hands the current draft to `onUpdate` only when the parent passed one. Turns off both edit mode and the open flag. The draft is kept. |
| `TaskItem.TaskItemDialog.Cancel` | prioritizer-web/src/features/tasks/components/TaskItem.tsx:74-77 | Resets the draft to the `task` prop and leaves edit mode. The dialog stays open. |
| `TaskItem.TaskItemDialog.Dismiss` | prioritizer-web/src/features/tasks/components/TaskItem.tsx:460-464 | Closing the dialog clears the open flag and edit mode and resets the draft to the `task` prop. |
| `TaskItem.EditThenCancel` | prioritizer-web/src/features/tasks/components/TaskItem.tsx:64-77 | Open, edit, make any change, then Cancel: the draft is the prop again and the view is shown. |
| `TaskItem.EditThenSave` | prioritizer-web/src/features/tasks/components/TaskItem.tsx:64-72 | Open, edit, make a change, then Save: the edited task is published exactly when `onUpdate` exists, and the dialog ends closed. |

## Left out

- Drag-and-drop reordering and moving tasks between sections. `TaskSection.tsx` (lines 14, 31-40)
  and `TaskItem.tsx` (lines 48-62) only register ids with `@dnd-kit`; the move itself is not
  modelled.
- Rendering: the JSX, styling, locale date formatting, and the pages built only from layout
  (`TaskList.tsx`, `Tasks.tsx`, `Dashboard.tsx`, `DashboardLayout.tsx`, `colors.ts`).
- Firebase sign-in, sign-out and the auth-state gate in `Login.tsx`, `Sidebar.tsx`,
  `RouteComponents.tsx`, `App.tsx` and `router.tsx`. These are calls into a foreign service plus
  routing.
- The clock and the id generator. `new Date()` is a parameter: `now`, or `created` and `updated`
  for the two reads in "Add Note". `crypto.randomUUID()` is the `freshId` parameter. The fresh id
  is assumed unused only where uniqueness is proved.
- `LoginSchema.EmailOrPhoneErrors`: the two-message list for an absent or empty identifier follows
  Yup 0.x, where every test runs. Yup 1.x skips the other tests once `required` fails on
  `undefined`, so it reports only `required`. No file of the repository pins the Yup version. The
  first message, `required`, is the same under both.
- `LoginSchema.EmailOrPhoneErrors`: does not say which message Formik shows when a field breaks
  several rules. Which one it shows depends on how Yup orders and reports test failures, and Yup
  is not part of this model.
- Yup's handling of `null`: the form never holds one. `undefined` is modelled as the absent value
  (`None`).
- Dates are integers (milliseconds). JavaScript's invalid `Date` (NaN) is not modelled.
- `onUpdate` is a foreign callback. `Save` returns the task it would receive and does not model
  what the parent does with it. The only caller,
  `TaskSection.tsx` (lines 36-39), passes no `onUpdate`.
- `TaskItem.TaskItemDialog.OpenDialog`, `CloseView`, `EditClick`, `Edit`, `Save`, `Cancel`: each
  requires the mode in which its button is rendered: the card's icon is always rendered, "Close"
  and "Edit Task" only in view mode, the form and its buttons only in edit mode. The model does
  not cover a click that the interface cannot produce.
- `TaskEdits.EditNoteTitle`, `TaskEdits.EditNoteContent`: require an index inside the note list,
  because each field is rendered once per note with that note's own index.
