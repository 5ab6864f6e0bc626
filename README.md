# Activity tracker: the store and its editors, in Dafny

This project models the data core of a small desktop activity tracker. Activities have a name,
an optional category, an optional image and a creation and modification date. Each activity
owns a list of tasks, and each task has a description and a completed flag.

The model covers four parts:

- **The store.** `DatabaseManager` (database_manager.py) keeps activities and tasks in two
  SQLite tables. Here it is the class `Database.DatabaseManager` with two fields, `activities`
  and `tasks`: maps from rowid to row.
  - Each statement that changes a table is a method. Each read-only query is a function of the
    two tables: `get_tasks`, `get_activity`, `get_activities` and `get_activity_completion`.
  - The SQLite behaviour these statements rely on is in module `Sqlite`, and the `ORDER BY`
    keys are in module `Ordering`:
    - the BINARY text collation;
    - `LIKE`, with `%` and `_` wildcards and ASCII case folding;
    - how an `INTEGER PRIMARY KEY` picks the rowid of a new row (the largest in use plus one);
    - the order of a full scan of a rowid table (ascending rowid).
- **The Qt dialogs of progress.py** (module `Progress`):
  - The activity creator: `get_data` and `accept`.
  - The activity editor dialog. It loads the activity and its task rows, adds rows, removes
    rows, and collects the ids of saved rows that were removed on a delete list. It removes the
    image and saves, in three steps: the details, then a row loop, then a delete loop.
  - The view and sort settings of the activity display.
- **The Tk editor** `ActivityEditor` of activity_editor.py (module `Editor`). It deletes a
  removed task at once, and on save it walks the rows in order, adding, updating or deleting
  one task per row.
- **What both editors share** (module `TaskRows`):
  - Each editor keeps its rows in a fixed shape: rows with an id first, in rowid order, then
    rows without one.
  - The decision table applied to each row on save: add, skip, update or delete, decided on
    the stripped text.
  - The theorems that describe the activity's task list after a save, when every statement
    succeeds.

Text handling is in module `Text`: Python's `str.strip` with the `str.isspace` code points,
`str.split` and the task-line filter of `get_data`.

Choices the code makes and the model follows:

- Activity names are not unique.
- Deleting an activity deletes its tasks by an explicit statement; nothing cascades.
- The completion value is a ratio in [0, 1]. It is `NULL` for an activity without tasks, and
  `NULL` sorts last under `DESC`.
- `create_activity` returns the new id, and `add_task` the new task's id; the other statements
  return nothing.
- `get_tasks` has no `ORDER BY`. It is modelled as returning rows in rowid order, the order
  of a full scan of a rowid table.
- `ORDER BY` ties are broken by id. SQL does not promise this, so the listing lemmas state only
  the key order.

progress.py expects store calls to return an error value: a pair `(id, error)` from
`create_activity` and `add_task`, and the error alone from the others. The `DatabaseManager`
beside it returns neither. So each store call the Qt dialogs make is given an answer by the
caller:

- `None` means success: the statement runs.
- `Some(message)` means a failure: nothing changes and the message is reported.

The Tk editor's `save_changes` checks the name *unstripped*, so a blank name passes there but
not in the Qt dialog. The model keeps this difference.

## Model

| member | source | states |
|---|---|---|
| Text.Strip | progress.py:146-147 | The result has no leading or trailing whitespace, and it is empty exactly when the input is all whitespace |
| Text.StripSlice | progress.py:146 | The stripped string is the input with a whitespace prefix and a whitespace suffix cut off |
| Text.StripStripped | progress.py:60 | A string without surrounding whitespace strips to itself |
| Text.StripIdempotent | progress.py:149 | Stripping twice is stripping once |
| Text.Split | progress.py:149 | `split` gives at least one piece, and no piece holds the separator |
| Text.JoinSplit | progress.py:149 | Joining the pieces of `split` with the separator gives back the string |
| Text.StrippedLines | progress.py:149 | The filtered task lines are stripped and non-empty, and there are no more of them than input lines |
| Text.StrippedLinesAppend | progress.py:149 | The line filter distributes over concatenation |
| Text.StrippedLinesStable | database_manager.py:45-48 | Lines that are already stripped and non-empty pass the filter unchanged, so `create_activity` stores the creator's lines as given |
| Text.StrippedLinesIdempotent | progress.py:149 | Filtering twice is filtering once |
| Text.NonBlankLineKept | progress.py:149 | A task text with one non-blank line gives a non-empty task list |
| Text.NoLinesIffBlank | progress.py:149 | `get_data` returns no tasks exactly when the whole task text is whitespace |
| Sqlite.LessIrreflexive | database_manager.py:70 | No text sorts before itself under the BINARY collation |
| Sqlite.LessTransitive | database_manager.py:70 | The BINARY collation is transitive |
| Sqlite.LessTotal | database_manager.py:70 | Two different texts are ordered one way or the other |
| Sqlite.LessAsymmetric | database_manager.py:70 | Two texts are never ordered both ways |
| Sqlite.LikeAnything | database_manager.py:65 | `LIKE '%'` matches every text |
| Sqlite.LikeAfterPercent | database_manager.py:65 | A leading `%` matches exactly when the rest of the pattern matches some suffix |
| Sqlite.LikePrefix | database_manager.py:65 | A wildcard-free prefix followed by `%` matches exactly the texts that start with it, ignoring ASCII case |
| Sqlite.LikeInfix | database_manager.py:65-69 | For a wildcard-free term, `LIKE '%term%'` holds exactly when the text contains the term, ignoring ASCII case |
| Sqlite.EmptyTermMatchesAll | database_manager.py:65 | The empty search term's pattern `%%` matches every text |
| Sqlite.Ascending | database_manager.py:98 | The scan order of a set of rowids is strictly increasing, has one entry per rowid, and holds exactly those rowids |
| Sqlite.IncreasingUnique | database_manager.py:98 | Two strictly increasing sequences with the same elements are equal |
| Sqlite.AscendingAddLargest | database_manager.py:109-112 | Adding a rowid above all others appends it to the scan order |
| Sqlite.NextRowid | database_manager.py:42-44 | A new row's rowid is not in use and is above every rowid in use; it is 1 for an empty table |
| Schema.CompletedIdsOf | database_manager.py:128 | The completed tasks are among the activity's tasks |
| Schema.CompletionRatio | database_manager.py:127-131 | The ratio is `NULL` exactly when the activity has no task; otherwise total > 0 and completed <= total |
| Ordering.RatioTrichotomy | database_manager.py:86 | Two completion ratios are ordered one way, the other way, or tied, and never ordered both ways |
| Ordering.RatioTransitive | database_manager.py:86 | `completion_ratio DESC` is transitive, through ties as well |
| Ordering.NameOrderFacts | database_manager.py:70 | `ORDER BY name` is irreflexive, transitive and total on distinct ids, and never puts a larger name first |
| Ordering.CategoryFacts | database_manager.py:76 | `ORDER BY category`, with `NULL` first, is a strict total order |
| Ordering.PrecedesIrreflexive | database_manager.py:66-87 | No row precedes itself under any sort key |
| Ordering.PrecedesTransitive | database_manager.py:66-87 | Every sort key's order is transitive |
| Ordering.PrecedesTotal | database_manager.py:66-87 | Rows with different ids are ordered one way or the other under every sort key |
| Ordering.InsertRow | database_manager.py:66-87 | Inserting a row into a sorted listing keeps it sorted and adds exactly that row |
| Ordering.SortRows | database_manager.py:66-87 | The sorted listing is sorted by the key and is a permutation of its input |
| Database.GetTasks | database_manager.py:96-99 | Each row is a task of the activity as stored, every such task has a row, the rows are in rowid order, and there is one row per task |
| Database.TasksListedAs | database_manager.py:96-99 | Any list in rowid order whose rows are exactly the activity's stored tasks is the result of `get_tasks` |
| Database.SameTasksListed | database_manager.py:96-99 | `get_tasks` depends only on the activity's own tasks |
| Database.GetActivity | database_manager.py:91-94 | No row exactly when the id is unknown; otherwise the stored name, category and image |
| Database.GetActivityCompletion | database_manager.py:125-132 | The completion is in [0, 1], is 0 for an activity without tasks, and times the task count equals the number of completed tasks |
| Database.MatchingRows | database_manager.py:68-69 | The `WHERE` clause keeps the rows of exactly the matching activities, as stored, each once |
| Database.GetActivities | database_manager.py:63-89 | The listing is sorted by the key `sort_by` selects, has distinct ids, and lists every matching activity as stored and no other |
| Database.ListingByName | database_manager.py:66-71 | Sorted by "name", names never decrease along the listing |
| Database.ListingByCategory | database_manager.py:72-77 | Sorted by "category", categories never decrease with `NULL` first, and names never decrease within one category |
| Database.FractionOrder | database_manager.py:81 | Cross-multiplying the counts compares the two completion fractions |
| Database.ListingByCompletion | database_manager.py:78-87 | By completion: activities with tasks come first, completion never increases, and ties are in name order |
| Database.EmptySearchListsAll | database_manager.py:63-65 | An empty search term lists every activity |
| Database.ListedMatches | database_manager.py:69 | Every listed id is an activity whose name or category matches the term |
| Database.SearchIsSubstring | database_manager.py:65-69 | For a term without wildcards, an activity is listed exactly when its name or category contains the term, ignoring ASCII case |
| Database.RemovedTask | database_manager.py:114-117 | `delete_task` removes exactly that id and leaves every other task as it was |
| Database.RemovedTasksOf | database_manager.py:121 | Deleting an activity's tasks keeps exactly the other activities' tasks, unchanged |
| Database.AddedTaskListed | database_manager.py:107-112 | `add_task` appends its new, uncompleted task to the activity's task list |
| Database.AddedTaskElsewhere | database_manager.py:107-112 | `add_task` leaves every other activity's task list as it was |
| Database.UpdatedTaskListed | database_manager.py:101-105 | `update_task` keeps the list's ids and order, and changes only the row with that id |
| Database.RemovedTaskListed | database_manager.py:114-117 | `delete_task` drops its row from the task list and keeps the rest in order |
| Database.RemoveTaskIdempotent | database_manager.py:114-117 | Deleting a task twice is deleting it once |
| Database.UpdateUnknownTask | database_manager.py:101-105 | `update_task` with an unknown id changes nothing |
| Database.RemovedTasksOfListed | database_manager.py:119-123 | After `delete_activity` the activity has no tasks, other activities' lists are unchanged, and a second call changes nothing more |
| Database.UpdatedActivityDetails | database_manager.py:52-61 | `update_activity` sets the name, category and modification date, keeps the creation date, and keeps the image exactly when it is given none. Other activities are unchanged, and an unknown id changes nothing |
| Database.InitialTasksListed | database_manager.py:45-48 | `create_activity` appends one uncompleted task per non-blank entry, stripped and in order |
| Database.InitialTasksElsewhere | database_manager.py:45-48 | `create_activity` leaves every other activity's tasks as they were |
| Database.DatabaseManager.constructor | database_manager.py:16-37 | Opening keeps whatever the tables hold |
| Database.DatabaseManager.CreateActivity | database_manager.py:39-50 | Returns the next rowid, adds the activity under it, created and modified `now`, and inserts its initial tasks |
| Database.DatabaseManager.UpdateActivity | database_manager.py:52-61 | The activities become `UpdatedActivity` of the old ones, and the tasks are unchanged |
| Database.DatabaseManager.UpdateTask | database_manager.py:101-105 | The tasks become `UpdatedTask` of the old ones, and the activities are unchanged |
| Database.DatabaseManager.AddTask | database_manager.py:107-112 | Returns a fresh rowid and adds the uncompleted task under it |
| Database.DatabaseManager.DeleteTask | database_manager.py:114-117 | The tasks lose that id, and the activities are unchanged |
| Database.DatabaseManager.DeleteActivity | database_manager.py:119-123 | The activity's tasks are removed, then the activity |
| TaskRows.Decide | activity_editor.py:108-115 | A row is added exactly when unsaved and not blank, skipped when unsaved and blank, updated when saved and not blank, and deleted when saved and blank. The stored text is stripped |
| TaskRows.UnsavedReconciled | activity_editor.py:109-110 | Saving unsaved rows inserts their texts the way `create_activity` inserts initial tasks |
| TaskRows.ImmediateSaveListed | activity_editor.py:107-115 | When the rows are shaped and carry exactly the activity's ids, the task list after a save is the kept rows, then one new task per non-blank unsaved row |
| TaskRows.DeferredSaveListed | progress.py:392-439 | The same, with blank rows' deletes deferred to the delete list and run after the row loop |
| TaskRows.LoadedRows | activity_editor.py:121-126 | One saved row per listed task, in the same order |
| TaskRows.LoadedInSync | activity_editor.py:121-126 | Freshly loaded rows are shaped and carry exactly the activity's task ids |
| TaskRows.LoadedKept | activity_editor.py:107-115 | Saving the loaded rows unedited keeps the task list and adds nothing |
| TaskRows.RemovedAt | progress.py:308 | `takeItem` removes exactly one row and keeps the order of the rest |
| TaskRows.RemovedAtShaped | progress.py:308 | Taking a row out keeps the rows shaped |
| TaskRows.RemovedAtSaved | progress.py:305-314 | Taking a row out of shaped rows removes exactly its id from the saved ids |
| TaskRows.RowsWithoutId | activity_editor.py:151 | Every kept row comes from the input with a different id, every input row with a different id is kept, and a single row is kept exactly when its id differs |
| TaskRows.RowsWithoutIdConcat | activity_editor.py:151 | The filter distributes over concatenation; with the single-row case this fixes the result as the rows with a different id, in their order, each once |
| TaskRows.EditedRowKept | activity_editor.py:132-138 | Changing a row's text or completed flag keeps the rows shaped and keeps the saved ids |
| TaskRows.WithoutIdShaped | activity_editor.py:151 | Filtering rows by id keeps them shaped |
| TaskRows.WithoutIdSaved | activity_editor.py:151-153 | Filtering out an id removes exactly that id from the saved ids |
| TaskRows.RemovedAll | progress.py:432-439 | The delete loop keeps exactly the tasks not on the list, unchanged |
| TaskRows.RemovedAllListed | progress.py:432-439 | After the delete loop, an activity's task list is its old list without the deleted ids, in the same order |
| Progress.FormData | progress.py:145-150 | Name and category are stripped, and empty exactly when blank. The task lines are stripped and non-empty, and there are none exactly when the text is blank. The image is passed through |
| Progress.Verdict | progress.py:152-174 | A blank name stops before the store is called. An error mentioning "already exists" keeps the dialog open, any other error rejects, and success accepts with the new id |
| Progress.CreatedTasksListed | progress.py:162 | The creator's lines are stored as tasks, in order, after any tasks that already name the new id |
| Progress.ActivityCreatorDialog.constructor | progress.py:73-124 | The form starts empty, with no image |
| Progress.ActivityCreatorDialog.Accept | progress.py:152-174 | The outcome is `Verdict` of the form data, and the store is unchanged unless the dialog accepts. On accept, the activity and its tasks are created under the new id |
| Progress.ActivityCreatorDialog.Create | progress.py:162 | Creates the activity under the next rowid with the form's data |
| Progress.CoerceTaskId | progress.py:266-270 | A row gets an id exactly when `add_task_item` received an integer id; a boolean becomes `None` |
| Progress.Truncated | progress.py:407 | `text[:20]`: a prefix of at most 20 characters, the whole text when it is short enough |
| Progress.ActionStep | progress.py:396-425 | One row of the row loop changes at most that row |
| Progress.RowsPass | progress.py:392-427 | The row loop writes only rows it has reached |
| Progress.DeletesPass | progress.py:432-439 | The delete loop makes one store call per id and leaves the rows and the delete list alone |
| Progress.ActionsReconciled | progress.py:392-427 | The rows' actions in order, deletes deferred, are the deferred save, and they delete exactly the blank rows' ids |
| Progress.RowsPassSucceeds | progress.py:392-427 | With every call succeeding, the row loop applies the rows' actions, reports nothing, and adds the blank rows' ids to the delete list |
| Progress.DeletesPassSucceeds | progress.py:432-439 | With every call succeeding, the delete loop deletes each listed id and reports nothing |
| Progress.SaveListed | progress.py:366-449 | When the dialog agrees with the store and every call succeeds, a save reports nothing, and the task list becomes the kept rows followed by the non-blank new rows |
| Progress.RowsPassReports | progress.py:392-427 | The row loop keeps its earlier errors and adds exactly one per failing call |
| Progress.DeletesPassReports | progress.py:432-439 | The delete loop keeps its earlier errors and adds exactly one per failing call |
| Progress.SaveReports | progress.py:386-446 | A save reports one error per failing task call, so it reports none exactly when all of them succeed |
| Progress.RowsPassNoDuplicates | progress.py:424-425 | The row loop only appends to the delete list, never an id already on it |
| Progress.UnsavedRowAgrees | progress.py:266-293 | Adding an unsaved row keeps the dialog in agreement with the store |
| Progress.LoadedAgrees | progress.py:245-264 | Freshly loaded rows and an empty delete list agree with the store |
| Progress.DeletedRowAgrees | progress.py:305-317 | Removing a row, and putting its id on the delete list unless it is already there, keeps the dialog in agreement with the store |
| Progress.ActivityEditorDialog.constructor | progress.py:181-243 | No new image. An unknown activity closes the dialog as rejected. Otherwise the fields show the stored name, category (`NULL` as empty) and image, the delete list is empty, and the dialog shows the loaded rows and agrees with the store |
| Progress.ActivityEditorDialog.LoadActivityData | progress.py:245-264 | An unknown activity rejects and changes nothing else. Otherwise the fields show the activity (a `NULL` category as empty), the delete list is emptied, and the rows are the loaded task list |
| Progress.ActivityEditorDialog.ShowDetails | progress.py:252-256 | The fields show the activity's details, and the delete list is empty |
| Progress.ActivityEditorDialog.LoadTaskItems | progress.py:258-264 | The rows become one saved row per listed task, in order |
| Progress.ActivityEditorDialog.AddTaskItem | progress.py:266-293 | Appends a row with the coerced id; a row without an id keeps the dialog in agreement with the store |
| Progress.ActivityEditorDialog.SetRowText | progress.py:41-44 | Editing a row's description changes only that row's text (a row not in the list changes nothing), and agreement with the store is kept |
| Progress.ActivityEditorDialog.SetRowCompleted | progress.py:37-39 | Ticking a row's check box changes only that row's completed flag (a row not in the list changes nothing), and agreement with the store is kept |
| Progress.ActivityEditorDialog.HandleTaskDeleteRequest | progress.py:295-317 | A row not in the list changes nothing. Otherwise the row is removed and a saved id goes on the delete list once. Agreement with the store is kept |
| Progress.ActivityEditorDialog.SaveChanges | progress.py:366-449 | Stops on a blank name, and stays open with nothing changed when `update_activity` fails. Otherwise it updates the details, runs `SavePass`, closes as accepted and reports its errors. When the dialog agreed with the store and every call succeeds, it reports nothing and the task list becomes the kept rows followed by the new ones |
| Progress.ActivityEditorDialog.Commit | progress.py:376-449 | Updates the details, saves the tasks as `SavePass` says, and closes as accepted |
| Progress.ActivityEditorDialog.SaveTasks | progress.py:385-440 | The row loop then the delete loop: store, rows, delete list and errors are those of `SavePass` |
| Progress.ActivityEditorDialog.SaveRows | progress.py:392-427 | The loop's store, rows, delete list, errors and call count are those of `RowsPass` over all rows |
| Progress.ActivityEditorDialog.SaveRow | progress.py:396-425 | One row of the loop does what `ActionStep` says |
| Progress.ActivityEditorDialog.RunDeletes | progress.py:432-439 | The delete loop's store, errors and call count are those of `DeletesPass` |
| Progress.ActivityEditorDialog.RemoveImage | progress.py:354-363 | With an image and confirmation, the new image becomes empty bytes, which a save then stores; otherwise nothing changes |
| Progress.ActivityDisplayWidget.constructor | progress.py:457-474 | Starts in "tiles" mode, sorted by "name", with no search term |
| Progress.ActivityDisplayWidget.Shown | progress.py:490-491 | The display shows the store's listing for the current settings: sorted, distinct, and exactly the matching activities |
| Progress.ActivityDisplayWidget.SetViewMode | progress.py:476-479 | A known mode is taken, any other is ignored, and the settings stay valid |
| Progress.ActivityDisplayWidget.SetSortBy | progress.py:481-484 | A known key is taken, any other is ignored, and the settings stay valid |
| Editor.ActivityEditor.constructor | activity_editor.py:10-15 | No image, and no rows |
| Editor.ActivityEditor.OpenActivity | activity_editor.py:17-80 | The entries show the activity, any new image is dropped, and the rows are the loaded task list, in sync with the store |
| Editor.ActivityEditor.LoadTasks | activity_editor.py:121-126 | The rows become one saved row per listed task, in sync with the store; nothing else changes |
| Editor.ActivityEditor.CreateTaskWidgets | activity_editor.py:128-144 | Appends exactly one row |
| Editor.ActivityEditor.AddTask | activity_editor.py:146-147 | Appends an empty, unsaved, unchecked row and keeps the rows in sync |
| Editor.ActivityEditor.SetRowText | activity_editor.py:136-138 | Editing a row's entry changes only that row's text (a row not in the list changes nothing), and the rows stay in sync |
| Editor.ActivityEditor.SetRowCompleted | activity_editor.py:132-134 | Ticking a row's check button changes only that row's completed flag (a row not in the list changes nothing), and the rows stay in sync |
| Editor.ActivityEditor.DeleteTask | activity_editor.py:149-153 | Drops the rows with that id and, for an id, deletes its task at once; the rows stay in sync |
| Editor.ActivityEditor.SaveChanges | activity_editor.py:96-119 | Nothing without a name. Otherwise it updates the details and saves the rows in order, deleting blank saved rows at once. When the rows were in sync, the task list becomes the kept rows followed by the new ones |

## Left out

- The widgets, layouts, message boxes, styling and image decoding are not part of this model;
  neither is the debug output.
- The file dialogs of `change_image` and `upload_image` (file I/O) are left out; a new image
  only enters the model as the dialogs' `newImage` / `imageData` field.
- `set_search_term` and the rendering in `update_display` are left out. Only what the display
  lists is modelled (`Shown`).
- `update_callback` and the `activity_saved` signal are left out.
- theme_manager.py, activity_tracker.py, activity_display.py and activity_creator.py are not
  part of this model.
- `ProjectTrackerApp` and `_delete_activity` in progress.py are not part of this model.
- The connection, its file path, `commit` and `close` are left out. Each statement is modelled
  as applied at once.
- The clock is a parameter: `now` stands for the formatted date.
- The rowid SQLite picks at random once the largest rowid is 2^63-1 is left out. The model
  always uses the largest rowid plus one.
- The completion ratio is kept as an exact fraction. Floating-point rounding of `CAST(... AS
  FLOAT)` is not modelled.
- The completion query returns a seventh column (`completion_ratio`). The model gives every
  listing the same six-column row.
- `ORDER BY` ties are broken by id in the model. The listing lemmas state only the key order,
  which is all SQL promises.
- progress.py unpacks `(id, error)` pairs from `create_activity` and `add_task`, and reads an
  error from the other calls. `DatabaseManager` returns no such values. The model gives each
  call an answer instead (success or a message). The unpacking itself is not modelled.
- An answer list shorter than the number of calls treats the later calls as successes. An
  empty error string, which Python treats as no error, is not told apart from other messages.
- The text of the message boxes, and the exact wording of `save_errors` entries, are left out.
  Each error is kept as a `SaveError` value with its task and message.
- The "already exists" case of `save_changes` only moves the focus: both of its branches leave
  the dialog open, which is all the model keeps.
- `handle_task_delete_request` receives a list item. The model receives its row index. An item
  with no widget, or a row index below 0, is modelled as an index outside the list.
- In the row loop, a row without an item widget is not modelled. Every row of the model has
  one.
- Editor.ActivityEditor.OpenActivity: requires the activity to exist. The source unpacks the
  result of `get_activity`, which fails for an unknown id.
- Editor.ActivityEditor.OpenActivity: shows a `NULL` category as an empty entry. The source
  (activity_editor.py:54) passes the fetched `None` to the entry's `insert` instead. Tkinter
  drops a `None` argument from a Tcl command, so the insert has no text and fails. The rest of
  `open_activity` (activity_editor.py:57-83) then never runs, and the window gets neither its
  task rows nor its Add Task and Save Changes buttons. The model does not capture this failure.
- Progress.ActivityEditorDialog.LoadActivityData: reads the stored name, category and image by
  field. The source indexes the fetched row by column name (progress.py:252-254). But
  `get_activity` returns a plain tuple (database_manager.py:91-94), and no row factory is set
  (database_manager.py:13), so as written that indexing fails for every existing activity.
  This is part of the same interface mismatch as the `(id, error)` pairs. The model reads the
  columns as the dialog evidently means to.
- The Tk creation path with a `None` category is not part of this model.
- `LIKE` is modelled with its wildcards. The listing lemmas about plain substring search
  require a term without `%` or `_`.
- The Qt task list is a `seq` of rows. The widgets behind it, and their aliasing, are not
  modelled.
