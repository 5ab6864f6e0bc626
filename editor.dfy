/**
 * The Tk activity editor (`ActivityEditor` in activity_editor.py): it shows an activity's
 * name, category, image and task rows, and writes every change to the store itself. Deleting
 * a row deletes its task at once; saving updates the activity and then walks the rows in
 * order, adding, updating or deleting one task per row.
 */
module Editor {
  import opened Common
  import opened Text
  import opened Schema
  import opened Database
  import opened TaskRows

  class ActivityEditor {
    const db: DatabaseManager
    var activityId: int
    var nameText: string
    var categoryText: string
    var rows: seq<Row>
    var currentImage: Option<Bytes>
    var newImage: Option<Bytes>

    /** The rows agree with the store: shaped, and their ids are the activity's tasks. */
    predicate InSync()
      reads this, db
    {
      Shaped(rows) && SavedIds(rows) == TaskIdsOf(db.tasks, activityId)
    }

    /** `__init__`: no image yet and, until an activity is opened, no rows. */
    constructor(db: DatabaseManager)
      ensures this.db == db && rows == [] && currentImage == None && newImage == None
    {
      this.db := db;
      activityId := 0;
      nameText := "";
      categoryText := "";
      rows := [];
      currentImage := None;
      newImage := None;
    }

    /**
     * `open_activity`: the activity's fields go into the entries, its image becomes the current
     * one, any new image is dropped, and the rows are loaded. The source unpacks the result of
     * `get_activity`, so the activity must exist.
     */
    method OpenActivity(activityId: int)
      requires activityId in db.activities
      modifies this
      ensures this.activityId == activityId
      ensures nameText == db.activities[activityId].name
      ensures categoryText == (if db.activities[activityId].category.Some? then db.activities[activityId].category.value else "")
      ensures currentImage == db.activities[activityId].image && newImage == None
      ensures rows == LoadedRows(GetTasks(db.tasks, activityId))
      ensures InSync()
    {
      var details := GetActivity(db.activities, activityId).value;
      this.activityId := activityId;
      currentImage := details.image;
      newImage := None;
      nameText := details.name;
      categoryText := if details.category.Some? then details.category.value else "";
      LoadTasks();
    }

    /** `load_tasks`: one row per stored task of the activity, in the store's order. */
    method LoadTasks()
      modifies this
      ensures rows == LoadedRows(GetTasks(db.tasks, activityId))
      ensures InSync()
      ensures activityId == old(activityId) && nameText == old(nameText) && categoryText == old(categoryText)
      ensures currentImage == old(currentImage) && newImage == old(newImage)
    {
      var tasks := GetTasks(db.tasks, activityId);
      rows := [];
      for i := 0 to |tasks|
        invariant rows == LoadedRows(tasks[..i])
        invariant activityId == old(activityId) && nameText == old(nameText) && categoryText == old(categoryText)
        invariant currentImage == old(currentImage) && newImage == old(newImage)
      {
        LoadedSnoc(tasks, i);
        CreateTaskWidgets(Some(tasks[i].id), tasks[i].description, tasks[i].completed);
      }
      assert tasks[..|tasks|] == tasks;
      LoadedInSync(db.tasks, activityId);
    }

    /** `create_task_widgets`: appends one row. */
    method CreateTaskWidgets(taskId: Option<int>, description: string, completed: bool)
      modifies this
      ensures rows == old(rows) + [Row(taskId, description, completed)]
      ensures activityId == old(activityId) && nameText == old(nameText) && categoryText == old(categoryText)
      ensures currentImage == old(currentImage) && newImage == old(newImage)
    {
      rows := rows + [Row(taskId, description, completed)];
    }

    /** `add_task`: appends one empty, unsaved, unchecked row; the rows stay in sync. */
    method AddTask()
      modifies this
      ensures rows == old(rows) + [Row(None, "", false)]
      ensures activityId == old(activityId) && nameText == old(nameText) && categoryText == old(categoryText)
      ensures currentImage == old(currentImage) && newImage == old(newImage)
      ensures old(InSync()) ==> InSync()
    {
      CreateTaskWidgets(None, "", false);
      if old(InSync()) {
        ShapedSnoc(old(rows), Row(None, "", false));
        SavedIdsAppend(old(rows), [Row(None, "", false)]);
        UnsavedIds([Row(None, "", false)]);
      }
    }

    /**
     * The user types into the entry of the row at `index` (a row not in the list changes
     * nothing). Its id and check box stay as they were, and the rows stay in sync.
     */
    method SetRowText(index: int, text: string)
      modifies this`rows
      ensures rows == if 0 <= index < |old(rows)|
        then old(rows)[index := Row(old(rows)[index].taskId, text, old(rows)[index].completed)]
        else old(rows)
      ensures old(InSync()) ==> InSync()
    {
      if 0 <= index < |rows| {
        EditedRowKept(rows, index, text, rows[index].completed);
        rows := rows[index := Row(rows[index].taskId, text, rows[index].completed)];
      }
    }

    /** The user ticks or clears the check button of the row at `index`; as `SetRowText`. */
    method SetRowCompleted(index: int, completed: bool)
      modifies this`rows
      ensures rows == if 0 <= index < |old(rows)|
        then old(rows)[index := Row(old(rows)[index].taskId, old(rows)[index].text, completed)]
        else old(rows)
      ensures old(InSync()) ==> InSync()
    {
      if 0 <= index < |rows| {
        EditedRowKept(rows, index, rows[index].text, completed);
        rows := rows[index := Row(rows[index].taskId, rows[index].text, completed)];
      }
    }

    /**
     * `delete_task`: drops every row with that id (for `None`, every unsaved row) and, for an
     * id, deletes its task from the store at once. The rows stay in sync.
     */
    method DeleteTask(taskId: Option<int>)
      modifies this, db
      ensures rows == RowsWithoutId(old(rows), taskId)
      ensures db.tasks == (if taskId.Some? then RemovedTask(old(db.tasks), taskId.value) else old(db.tasks))
      ensures db.activities == old(db.activities)
      ensures activityId == old(activityId) && nameText == old(nameText) && categoryText == old(categoryText)
      ensures currentImage == old(currentImage) && newImage == old(newImage)
      ensures old(InSync()) ==> InSync()
    {
      rows := RowsWithoutId(rows, taskId);
      if taskId.Some? {
        db.DeleteTask(taskId.value);
        RemovedTaskIds(old(db.tasks), activityId, taskId.value);
      }
      if old(InSync()) {
        WithoutIdShaped(old(rows), taskId);
        WithoutIdSaved(old(rows), taskId);
      }
    }

    /**
     * `save_changes`: nothing without a name (which is not stripped, so a blank name passes).
     * Otherwise the activity is updated with the entries and the new image if there is one,
     * else the current one, and each row is saved in order, blank saved rows being deleted at
     * once. When the rows were in sync, the activity's tasks are then the kept rows followed by
     * the non-blank unsaved rows as new tasks.
     */
    method SaveChanges(now: string) returns (saved: bool)
      modifies db
      ensures saved <==> nameText != []
      ensures !saved ==> db.activities == old(db.activities) && db.tasks == old(db.tasks)
      ensures saved ==> (db.activities
        == UpdatedActivity(old(db.activities), activityId, nameText, Some(categoryText), KeptImage(currentImage, newImage), now))
      ensures saved ==> db.tasks == Reconciled(old(db.tasks), activityId, rows, true)
      ensures saved && old(InSync()) ==>
        ExtendsWith(KeptRows(rows), GetTasks(db.tasks, activityId), NewDescriptions(rows))
    {
      if nameText == [] {
        return false;
      }
      var imageData := if newImage.Some? then newImage else currentImage;
      db.UpdateActivity(activityId, nameText, Some(categoryText), imageData, now);
      for i := 0 to |rows|
        invariant db.tasks == Reconciled(old(db.tasks), activityId, rows[..i], true)
        invariant db.activities
          == UpdatedActivity(old(db.activities), activityId, nameText, Some(categoryText), KeptImage(currentImage, newImage), now)
      {
        ReconciledSnoc(old(db.tasks), activityId, rows, i, true);
        var description := Strip(rows[i].text);
        if rows[i].taskId.None? && description != [] {
          var newId := db.AddTask(activityId, description);
        } else if rows[i].taskId.Some? {
          if description != [] {
            db.UpdateTask(rows[i].taskId.value, description, rows[i].completed);
          } else {
            db.DeleteTask(rows[i].taskId.value);
          }
        }
      }
      assert rows[..|rows|] == rows;
      if old(InSync()) {
        ImmediateSaveListed(old(db.tasks), activityId, rows);
      }
      return true;
    }
  }
}
