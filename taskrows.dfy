/**
 * The task rows of the two activity editors (the Qt `ActivityEditorDialog` in progress.py and
 * the Tk `ActivityEditor` in activity_editor.py) and the decision table both apply to each
 * row when saving: add it, skip it, update it or delete it.
 *
 * Both editors start from the activity's task list and append unsaved rows at the end, so the
 * rows they hold are "shaped": rows with an id first, in rowid order, then rows without one.
 * For shaped rows whose ids are the activity's tasks, the store's task list after a save is
 * the kept rows (stripped descriptions, existing ids) followed by one new task per non-blank
 * unsaved row.
 */
module TaskRows {
  import opened Common
  import opened Text
  import opened Sqlite
  import opened Schema
  import opened Database

  /** An edited row: its task id (`None` until saved), the text of its line edit, its check box. */
  datatype Row = Row(taskId: Option<int>, text: string, completed: bool)

  /** What saving does with one row. */
  datatype Action =
    | AddTask(description: string)
    | SkipRow
    | UpdateTask(id: int, description: string, completed: bool)
    | DeleteTask(id: int)

  /**
   * The decision table, on the stripped text: an unsaved row is added unless blank (then
   * skipped); a saved row is updated unless blank (then deleted).
   */
  function Decide(r: Row): (a: Action)
    ensures a.AddTask? <==> r.taskId.None? && !IsBlank(r.text)
    ensures a.SkipRow? <==> r.taskId.None? && IsBlank(r.text)
    ensures a.UpdateTask? <==> r.taskId.Some? && !IsBlank(r.text)
    ensures a.DeleteTask? <==> r.taskId.Some? && IsBlank(r.text)
    ensures (a.UpdateTask? || a.DeleteTask?) ==> r.taskId == Some(a.id)
    ensures (a.AddTask? || a.UpdateTask?) ==> a.description != [] && IsStripped(a.description)
    ensures a.UpdateTask? ==> a.completed == r.completed
  {
    var description := Strip(r.text);
    match r.taskId
    case None => if description != [] then AddTask(description) else SkipRow
    case Some(id) => if description != [] then UpdateTask(id, description, r.completed) else DeleteTask(id)
  }

  /**
   * The store statement for one action. `deleteNow` tells whether a delete runs at once (the
   * Tk editor) or is only recorded for later (the Qt dialog).
   */
  function Applied(tasks: Tasks, activityId: int, a: Action, deleteNow: bool): Tasks {
    match a
    case AddTask(d) => AddedTask(tasks, activityId, d)
    case SkipRow => tasks
    case UpdateTask(id, d, c) => UpdatedTask(tasks, id, d, c)
    case DeleteTask(id) => if deleteNow then RemovedTask(tasks, id) else tasks
  }

  /** The store after the rows are saved in order, every statement succeeding. */
  function Reconciled(tasks: Tasks, activityId: int, rows: seq<Row>, deleteNow: bool): Tasks
    decreases |rows|
  {
    if rows == [] then tasks
    else Applied(Reconciled(tasks, activityId, rows[..|rows| - 1], deleteNow), activityId, Decide(rows[|rows| - 1]), deleteNow)
  }

  // ----- the shape of the rows --------------------------------------------------------------

  /** Saved rows come first, in increasing id order; unsaved rows after them. */
  predicate Shaped(rows: seq<Row>) {
    forall i, j :: 0 <= i < j < |rows| && rows[j].taskId.Some? ==>
      rows[i].taskId.Some? && rows[i].taskId.value < rows[j].taskId.value
  }

  predicate AllSaved(rows: seq<Row>) {
    forall i :: 0 <= i < |rows| ==> rows[i].taskId.Some?
  }

  predicate AllUnsaved(rows: seq<Row>) {
    forall i :: 0 <= i < |rows| ==> rows[i].taskId.None?
  }

  /** The ids of the saved rows. */
  function SavedIds(rows: seq<Row>): set<int>
    decreases |rows|
  {
    if rows == [] then {}
    else
      var r := rows[|rows| - 1];
      SavedIds(rows[..|rows| - 1]) + (if r.taskId.Some? then {r.taskId.value} else {})
  }

  /** What saving does to the task with id `x`: the action of its row, or nothing. */
  function Fate(rows: seq<Row>, x: int): Action
    decreases |rows|
  {
    if rows == [] then SkipRow
    else if rows[|rows| - 1].taskId == Some(x) then Decide(rows[|rows| - 1])
    else Fate(rows[..|rows| - 1], x)
  }

  /** The rows saving keeps, as the store lists them: saved rows that are not blank. */
  function KeptRows(rows: seq<Row>): seq<TaskRow>
    decreases |rows|
  {
    if rows == [] then []
    else
      var a := Decide(rows[|rows| - 1]);
      KeptRows(rows[..|rows| - 1]) + (if a.UpdateTask? then [TaskRow(a.id, a.description, a.completed)] else [])
  }

  /** The descriptions of the tasks saving adds: unsaved rows that are not blank. */
  function NewDescriptions(rows: seq<Row>): seq<string>
    decreases |rows|
  {
    if rows == [] then []
    else
      var a := Decide(rows[|rows| - 1]);
      NewDescriptions(rows[..|rows| - 1]) + (if a.AddTask? then [a.description] else [])
  }

  /** The ids of the saved rows that are blank. */
  function BlankIds(rows: seq<Row>): set<int>
    decreases |rows|
  {
    if rows == [] then {}
    else
      var a := Decide(rows[|rows| - 1]);
      BlankIds(rows[..|rows| - 1]) + (if a.DeleteTask? then {a.id} else {})
  }

  function Texts(rows: seq<Row>): (r: seq<string>)
    ensures |r| == |rows| && forall i :: 0 <= i < |rows| ==> r[i] == rows[i].text
  {
    seq(|rows|, i requires 0 <= i < |rows| => rows[i].text)
  }

  /** The number of leading saved rows. */
  function SavedCount(rows: seq<Row>): (k: nat)
    ensures k <= |rows|
    ensures forall i :: 0 <= i < k ==> rows[i].taskId.Some?
    ensures k < |rows| ==> rows[k].taskId.None?
  {
    if rows == [] || rows[0].taskId.None? then 0
    else
      var k := SavedCount(rows[1..]);
      assert forall i :: 1 <= i < k + 1 ==> rows[i] == rows[1..][i - 1];
      k + 1
  }

  lemma ShapedInit(rows: seq<Row>)
    requires rows != [] && Shaped(rows)
    ensures Shaped(rows[..|rows| - 1])
  {
  }

  lemma SavedInit(rows: seq<Row>)
    requires rows != [] && AllSaved(rows)
    ensures AllSaved(rows[..|rows| - 1])
  {
  }

  lemma UnsavedInit(rows: seq<Row>)
    requires rows != [] && AllUnsaved(rows)
    ensures AllUnsaved(rows[..|rows| - 1])
  {
  }

  /** Every saved id is the id of one of the rows. */
  lemma {:induction false} SavedIdsAt(rows: seq<Row>, x: int)
    ensures x in SavedIds(rows) <==> exists i :: 0 <= i < |rows| && rows[i].taskId == Some(x)
    decreases |rows|
  {
    if rows != [] {
      var init := rows[..|rows| - 1];
      SavedIdsAt(init, x);
      if exists i :: 0 <= i < |rows| && rows[i].taskId == Some(x) {
        var i :| 0 <= i < |rows| && rows[i].taskId == Some(x);
        if i < |init| {
          assert init[i] == rows[i];
        }
      }
      if exists i :: 0 <= i < |init| && init[i].taskId == Some(x) {
        var i :| 0 <= i < |init| && init[i].taskId == Some(x);
        assert rows[i] == init[i];
      }
    }
  }

  /** In shaped rows, every saved id before the last row is below the last row's id. */
  lemma LastIdAbove(rows: seq<Row>, x: int)
    requires rows != [] && Shaped(rows) && rows[|rows| - 1].taskId.Some?
    requires x in SavedIds(rows[..|rows| - 1])
    ensures x < rows[|rows| - 1].taskId.value
  {
    var init := rows[..|rows| - 1];
    SavedIdsAt(init, x);
    var i :| 0 <= i < |init| && init[i].taskId == Some(x);
    assert rows[i] == init[i];
  }

  /** A task is left alone exactly when no row has its id; otherwise its row decides. */
  lemma {:induction false} FateSkip(rows: seq<Row>, x: int)
    ensures Fate(rows, x).SkipRow? <==> x !in SavedIds(rows)
    ensures !Fate(rows, x).AddTask?
    ensures (Fate(rows, x).UpdateTask? || Fate(rows, x).DeleteTask?) ==> Fate(rows, x).id == x
    decreases |rows|
  {
    if rows != [] {
      FateSkip(rows[..|rows| - 1], x);
    }
  }

  /** A blank saved row is what puts an id among the blank ids. */
  lemma {:induction false} FateBlank(rows: seq<Row>, x: int)
    requires Shaped(rows)
    ensures Fate(rows, x).DeleteTask? <==> x in BlankIds(rows)
    decreases |rows|
  {
    if rows != [] {
      var init := rows[..|rows| - 1];
      var r := rows[|rows| - 1];
      ShapedInit(rows);
      FateBlank(init, x);
      if r.taskId == Some(x) {
        BlankSaved(init, x);
        if x in SavedIds(init) {
          LastIdAbove(rows, x);
        }
      }
    }
  }

  lemma {:induction false} BlankSaved(rows: seq<Row>, x: int)
    ensures x in BlankIds(rows) ==> x in SavedIds(rows)
    decreases |rows|
  {
    if rows != [] {
      BlankSaved(rows[..|rows| - 1], x);
    }
  }

  // ----- saving saved rows ------------------------------------------------------------------

  /** An update or a delete touches only the task with its own id. */
  lemma AppliedElsewhere(tasks: Tasks, activityId: int, a: Action, x: int, deleteNow: bool)
    requires (a.UpdateTask? || a.DeleteTask?) && a.id != x
    ensures var t := Applied(tasks, activityId, a, deleteNow);
      (x in t <==> x in tasks) && (x in tasks ==> t[x] == tasks[x])
  {
  }

  /**
   * What saving saved rows does to the task with id `x`: an updated row's task gets the row's
   * description and state, a blank row's task is gone if deletes run at once, and every other
   * task is as it was.
   */
  lemma {:induction false} ReconciledAt(tasks: Tasks, activityId: int, rows: seq<Row>, x: int, deleteNow: bool)
    requires AllSaved(rows) && Shaped(rows)
    ensures var t, f := Reconciled(tasks, activityId, rows, deleteNow), Fate(rows, x);
      (f.SkipRow? || (f.DeleteTask? && !deleteNow) ==> (x in t <==> x in tasks) && (x in tasks ==> t[x] == tasks[x]))
      && (f.UpdateTask? ==>
            (x in t <==> x in tasks) && (x in tasks ==> t[x] == Task(tasks[x].activityId, f.description, f.completed)))
      && (f.DeleteTask? && deleteNow ==> x !in t)
    decreases |rows|
  {
    if rows != [] {
      var init, r := rows[..|rows| - 1], rows[|rows| - 1];
      SavedInit(rows);
      ShapedInit(rows);
      ReconciledAt(tasks, activityId, init, x, deleteNow);
      if r.taskId == Some(x) {
        FateSkip(init, x);
        if x in SavedIds(init) {
          LastIdAbove(rows, x);
        }
      } else {
        AppliedElsewhere(Reconciled(tasks, activityId, init, deleteNow), activityId, Decide(r), x, deleteNow);
      }
    }
  }

  /** The ids of the kept rows are saved ids. */
  lemma {:induction false} KeptIdsSaved(rows: seq<Row>)
    ensures forall i :: 0 <= i < |KeptRows(rows)| ==> KeptRows(rows)[i].id in SavedIds(rows)
    decreases |rows|
  {
    if rows != [] {
      KeptIdsSaved(rows[..|rows| - 1]);
    }
  }

  lemma AppendIncrease(rows: seq<TaskRow>, t: TaskRow)
    requires IdsIncrease(rows)
    requires forall i :: 0 <= i < |rows| ==> rows[i].id < t.id
    ensures IdsIncrease(rows + [t])
  {
    var r := rows + [t];
    forall i, j | 0 <= i < j < |r| ensures r[i].id < r[j].id {
      assert r[i] == rows[i];
      if j < |rows| {
        assert r[j] == rows[j];
      }
    }
  }

  /** The kept rows are in rowid order. */
  lemma {:induction false} KeptIncrease(rows: seq<Row>)
    requires Shaped(rows)
    ensures IdsIncrease(KeptRows(rows))
    decreases |rows|
  {
    if rows != [] {
      var init, r := rows[..|rows| - 1], rows[|rows| - 1];
      ShapedInit(rows);
      KeptIncrease(init);
      var a := Decide(r);
      if a.UpdateTask? {
        var k := KeptRows(init);
        KeptIdsSaved(init);
        forall i | 0 <= i < |k| ensures k[i].id < a.id {
          LastIdAbove(rows, k[i].id);
        }
        AppendIncrease(k, TaskRow(a.id, a.description, a.completed));
      }
    }
  }

  /** Each kept row is what its id's fate says. */
  lemma {:induction false} KeptFate(rows: seq<Row>, i: int)
    requires Shaped(rows) && 0 <= i < |KeptRows(rows)|
    ensures var k := KeptRows(rows)[i];
      Fate(rows, k.id) == UpdateTask(k.id, k.description, k.completed)
    decreases |rows|
  {
    var init, r := rows[..|rows| - 1], rows[|rows| - 1];
    var k := KeptRows(rows)[i];
    ShapedInit(rows);
    if i < |KeptRows(init)| {
      assert k == KeptRows(init)[i];
      KeptFate(init, i);
      KeptIdsSaved(init);
      if r.taskId == Some(k.id) {
        LastIdAbove(rows, k.id);
      }
    }
  }

  /** A task whose fate is an update has a kept row. */
  lemma {:induction false} FateKept(rows: seq<Row>, x: int)
    requires Fate(rows, x).UpdateTask?
    ensures x in Ids(KeptRows(rows))
    decreases |rows|
  {
    var init, r := rows[..|rows| - 1], rows[|rows| - 1];
    var k := KeptRows(init);
    FateSkip(rows, x);
    if r.taskId == Some(x) {
      assert Ids(KeptRows(rows))[|k|] == x;
    } else {
      FateKept(init, x);
      var j :| 0 <= j < |k| && Ids(k)[j] == x;
      assert Ids(KeptRows(rows))[j] == x;
    }
  }

  lemma KeptRowsOfTasks(tasks: Tasks, activityId: int, rows: seq<Row>)
    requires Shaped(rows)
    requires forall x :: Fate(rows, x).UpdateTask? ==>
      x in tasks && tasks[x] == Task(activityId, Fate(rows, x).description, Fate(rows, x).completed)
    ensures RowsOfTasks(tasks, activityId, KeptRows(rows))
  {
    var k := KeptRows(rows);
    forall i | 0 <= i < |k|
      ensures k[i].id in tasks && tasks[k[i].id] == Task(activityId, k[i].description, k[i].completed)
    {
      KeptFate(rows, i);
    }
  }

  lemma KeptCovers(tasks: Tasks, activityId: int, rows: seq<Row>)
    requires forall x :: x in TaskIdsOf(tasks, activityId) ==> Fate(rows, x).UpdateTask?
    ensures CoversTasks(tasks, activityId, KeptRows(rows))
  {
    forall x | x in TaskIdsOf(tasks, activityId) ensures x in Ids(KeptRows(rows)) {
      FateKept(rows, x);
    }
  }

  /**
   * A table whose tasks of the activity are exactly the updated rows' tasks, each with its
   * row's description and state, lists the kept rows.
   */
  lemma KeptListed(tasks: Tasks, activityId: int, rows: seq<Row>)
    requires Shaped(rows)
    requires forall x :: x in TaskIdsOf(tasks, activityId) ==> Fate(rows, x).UpdateTask?
    requires forall x :: Fate(rows, x).UpdateTask? ==>
      x in tasks && tasks[x] == Task(activityId, Fate(rows, x).description, Fate(rows, x).completed)
    ensures GetTasks(tasks, activityId) == KeptRows(rows)
  {
    KeptIncrease(rows);
    KeptRowsOfTasks(tasks, activityId, rows);
    KeptCovers(tasks, activityId, rows);
    TasksListedAs(tasks, activityId, KeptRows(rows));
  }

  // ----- splitting the rows into saved and unsaved ones -------------------------------------

  /** Shaped rows are their saved prefix followed by their unsaved suffix. */
  lemma SplitShaped(rows: seq<Row>)
    requires Shaped(rows)
    ensures var k := SavedCount(rows);
      rows == rows[..k] + rows[k..] && AllSaved(rows[..k]) && Shaped(rows[..k]) && AllUnsaved(rows[k..])
  {
    var k := SavedCount(rows);
    SplitAt(rows, k);
    SavedPrefix(rows, k);
    UnsavedSuffix(rows, k);
  }

  lemma SavedPrefix(rows: seq<Row>, k: int)
    requires Shaped(rows) && 0 <= k <= |rows|
    requires forall i :: 0 <= i < k ==> rows[i].taskId.Some?
    ensures AllSaved(rows[..k]) && Shaped(rows[..k])
  {
    var p := rows[..k];
    forall i, j | 0 <= i < j < |p| && p[j].taskId.Some?
      ensures p[i].taskId.Some? && p[i].taskId.value < p[j].taskId.value
    {
      assert p[i] == rows[i] && p[j] == rows[j];
    }
  }

  lemma UnsavedSuffix(rows: seq<Row>, k: int)
    requires Shaped(rows) && 0 <= k <= |rows|
    requires k < |rows| ==> rows[k].taskId.None?
    ensures AllUnsaved(rows[k..])
  {
    var q := rows[k..];
    forall i | 0 <= i < |q| ensures q[i].taskId.None? {
      assert q[i] == rows[k + i];
    }
  }

  lemma SplitAt<T>(s: seq<T>, k: int)
    requires 0 <= k <= |s|
    ensures s == s[..k] + s[k..]
  {
  }

  lemma AppendNil<T>(a: seq<T>, b: seq<T>)
    requires b == []
    ensures a + b == a
  {
  }

  lemma ReconciledLast(tasks: Tasks, activityId: int, rows: seq<Row>, deleteNow: bool)
    requires rows != []
    ensures Reconciled(tasks, activityId, rows, deleteNow)
      == Applied(Reconciled(tasks, activityId, rows[..|rows| - 1], deleteNow), activityId, Decide(rows[|rows| - 1]), deleteNow)
  {
  }

  lemma {:induction false} ReconciledAppend(tasks: Tasks, activityId: int, a: seq<Row>, b: seq<Row>, deleteNow: bool)
    ensures Reconciled(tasks, activityId, a + b, deleteNow)
      == Reconciled(Reconciled(tasks, activityId, a, deleteNow), activityId, b, deleteNow)
    decreases |b|
  {
    var ab := a + b;
    if b == [] {
      AppendNil(a, b);
    } else {
      var init := b[..|b| - 1];
      var mid := Reconciled(tasks, activityId, a, deleteNow);
      SnocParts(a, b);
      ReconciledLast(tasks, activityId, ab, deleteNow);
      ReconciledLast(mid, activityId, b, deleteNow);
      ReconciledAppend(tasks, activityId, a, init, deleteNow);
    }
  }

  lemma {:induction false} KeptRowsAppend(a: seq<Row>, b: seq<Row>)
    ensures KeptRows(a + b) == KeptRows(a) + KeptRows(b)
    decreases |b|
  {
    if b == [] {
      AppendNil(a, b);
    } else {
      SnocParts(a, b);
      KeptRowsAppend(a, b[..|b| - 1]);
    }
  }

  lemma {:induction false} NewDescriptionsAppend(a: seq<Row>, b: seq<Row>)
    ensures NewDescriptions(a + b) == NewDescriptions(a) + NewDescriptions(b)
    decreases |b|
  {
    if b == [] {
      AppendNil(a, b);
    } else {
      SnocParts(a, b);
      NewDescriptionsAppend(a, b[..|b| - 1]);
    }
  }

  lemma {:induction false} SavedIdsAppend(a: seq<Row>, b: seq<Row>)
    ensures SavedIds(a + b) == SavedIds(a) + SavedIds(b)
    decreases |b|
  {
    if b == [] {
      AppendNil(a, b);
    } else {
      SnocParts(a, b);
      SavedIdsAppend(a, b[..|b| - 1]);
    }
  }

  lemma {:induction false} BlankIdsAppend(a: seq<Row>, b: seq<Row>)
    ensures BlankIds(a + b) == BlankIds(a) + BlankIds(b)
    decreases |b|
  {
    if b == [] {
      AppendNil(a, b);
    } else {
      SnocParts(a, b);
      BlankIdsAppend(a, b[..|b| - 1]);
    }
  }

  /** Unsaved rows keep no row and have no ids. */
  lemma {:induction false} UnsavedIds(rows: seq<Row>)
    requires AllUnsaved(rows)
    ensures KeptRows(rows) == [] && SavedIds(rows) == {} && BlankIds(rows) == {}
    decreases |rows|
  {
    if rows != [] {
      UnsavedInit(rows);
      UnsavedIds(rows[..|rows| - 1]);
    }
  }

  /** Unsaved rows add their non-blank stripped texts. */
  lemma {:induction false} UnsavedAdded(rows: seq<Row>)
    requires AllUnsaved(rows)
    ensures NewDescriptions(rows) == StrippedLines(Texts(rows))
    decreases |rows|
  {
    if rows != [] {
      var init, e := rows[..|rows| - 1], Texts(rows);
      UnsavedInit(rows);
      UnsavedAdded(init);
      TextsInit(rows);
    }
  }

  /** Saved rows add nothing. */
  lemma {:induction false} SavedRowsAddNothing(rows: seq<Row>)
    requires AllSaved(rows)
    ensures NewDescriptions(rows) == []
    decreases |rows|
  {
    if rows != [] {
      SavedInit(rows);
      SavedRowsAddNothing(rows[..|rows| - 1]);
    }
  }

  lemma TextsInit(rows: seq<Row>)
    requires rows != []
    ensures var e := Texts(rows);
      e[..|e| - 1] == Texts(rows[..|rows| - 1]) && e[|e| - 1] == rows[|rows| - 1].text
  {
  }

  lemma AppliedUnsaved(tasks: Tasks, activityId: int, r: Row, deleteNow: bool)
    requires r.taskId.None?
    ensures Applied(tasks, activityId, Decide(r), deleteNow) == AddedEntry(tasks, activityId, r.text)
  {
    var d := Strip(r.text);
    if d != [] {
      assert Decide(r) == AddTask(d);
    } else {
      assert Decide(r) == SkipRow;
    }
  }

  lemma InitialTasksLast(tasks: Tasks, activityId: int, entries: seq<string>)
    requires entries != []
    ensures WithInitialTasks(tasks, activityId, entries)
      == AddedEntry(WithInitialTasks(tasks, activityId, entries[..|entries| - 1]), activityId, entries[|entries| - 1])
  {
  }

  /** Saving unsaved rows is `create_activity`'s insertion of initial tasks from their texts. */
  lemma {:induction false} UnsavedReconciled(tasks: Tasks, activityId: int, rows: seq<Row>, deleteNow: bool)
    requires AllUnsaved(rows)
    ensures Reconciled(tasks, activityId, rows, deleteNow) == WithInitialTasks(tasks, activityId, Texts(rows))
    decreases |rows|
  {
    if rows != [] {
      var init, e := rows[..|rows| - 1], Texts(rows);
      UnsavedInit(rows);
      UnsavedReconciled(tasks, activityId, init, deleteNow);
      ReconciledLast(tasks, activityId, rows, deleteNow);
      AppliedUnsaved(Reconciled(tasks, activityId, init, deleteNow), activityId, rows[|rows| - 1], deleteNow);
      TextsInit(rows);
      InitialTasksLast(tasks, activityId, e);
    }
  }

  // ----- the Tk editor: deletes run at once --------------------------------------------------

  /** After saving saved rows whose ids are the activity's tasks, one task's standing. */
  lemma SavedPhaseAt(tasks: Tasks, activityId: int, rows: seq<Row>, x: int)
    requires AllSaved(rows) && Shaped(rows) && SavedIds(rows) == TaskIdsOf(tasks, activityId)
    ensures var t, f := Reconciled(tasks, activityId, rows, true), Fate(rows, x);
      (x in TaskIdsOf(t, activityId) ==> f.UpdateTask?)
      && (f.UpdateTask? ==> x in t && t[x] == Task(activityId, f.description, f.completed))
  {
    ReconciledAt(tasks, activityId, rows, x, true);
    FateSkip(rows, x);
  }

  lemma SavedPhaseListed(tasks: Tasks, activityId: int, rows: seq<Row>)
    requires AllSaved(rows) && Shaped(rows) && SavedIds(rows) == TaskIdsOf(tasks, activityId)
    ensures GetTasks(Reconciled(tasks, activityId, rows, true), activityId) == KeptRows(rows)
  {
    var t := Reconciled(tasks, activityId, rows, true);
    forall x ensures (x in TaskIdsOf(t, activityId) ==> Fate(rows, x).UpdateTask?)
      && (Fate(rows, x).UpdateTask? ==> x in t && t[x] == Task(activityId, Fate(rows, x).description, Fate(rows, x).completed))
    {
      SavedPhaseAt(tasks, activityId, rows, x);
    }
    KeptListed(t, activityId, rows);
  }

  /** What the saved prefix and the unsaved suffix each contribute. */
  lemma SplitParts(p: seq<Row>, q: seq<Row>)
    requires AllSaved(p) && AllUnsaved(q)
    ensures KeptRows(p + q) == KeptRows(p)
    ensures NewDescriptions(p + q) == StrippedLines(Texts(q))
    ensures SavedIds(p + q) == SavedIds(p) && BlankIds(p + q) == BlankIds(p)
  {
    KeptRowsAppend(p, q);
    NewDescriptionsAppend(p, q);
    SavedIdsAppend(p, q);
    BlankIdsAppend(p, q);
    UnsavedIds(q);
    UnsavedAdded(q);
    SavedRowsAddNothing(p);
    assert KeptRows(p) + [] == KeptRows(p);
    assert [] + StrippedLines(Texts(q)) == StrippedLines(Texts(q));
  }

  lemma ImmediatePhases(tasks: Tasks, activityId: int, p: seq<Row>, q: seq<Row>)
    requires AllSaved(p) && Shaped(p) && AllUnsaved(q) && SavedIds(p) == TaskIdsOf(tasks, activityId)
    ensures var t1 := Reconciled(tasks, activityId, p, true);
      ExtendsWith(KeptRows(p), GetTasks(Reconciled(t1, activityId, q, true), activityId), StrippedLines(Texts(q)))
  {
    var t1 := Reconciled(tasks, activityId, p, true);
    SavedPhaseListed(tasks, activityId, p);
    UnsavedReconciled(t1, activityId, q, true);
    InitialTasksListed(t1, activityId, Texts(q));
  }

  /**
   * Saving shaped rows whose ids are the activity's tasks, deleting blank rows at once: the
   * activity's task list becomes the kept rows, then one new uncompleted task per non-blank
   * unsaved row, with its stripped text.
   */
  lemma ImmediateSaveListed(tasks: Tasks, activityId: int, rows: seq<Row>)
    requires Shaped(rows) && SavedIds(rows) == TaskIdsOf(tasks, activityId)
    ensures ExtendsWith(KeptRows(rows), GetTasks(Reconciled(tasks, activityId, rows, true), activityId),
                        NewDescriptions(rows))
  {
    var k := SavedCount(rows);
    var p, q := rows[..k], rows[k..];
    SplitShaped(rows);
    SplitParts(p, q);
    ReconciledAppend(tasks, activityId, p, q, true);
    ImmediatePhases(tasks, activityId, p, q);
  }

  // ----- the Qt dialog: deletes are collected and run after the rows -------------------------

  /** The store after `delete_task` on each id in turn. */
  function RemovedAll(tasks: Tasks, ids: seq<int>): (r: Tasks)
    ensures forall id :: id in r <==> id in tasks && id !in ids
    ensures forall id :: id in r ==> r[id] == tasks[id]
    decreases |ids|
  {
    if ids == [] then tasks
    else RemovedTask(RemovedAll(tasks, ids[..|ids| - 1]), ids[|ids| - 1])
  }

  /** The rows whose id is not in `ids`, in order. */
  function RowsNotIn(rows: seq<TaskRow>, ids: seq<int>): (r: seq<TaskRow>)
    ensures forall i :: 0 <= i < |r| ==> r[i] in rows && r[i].id !in ids
    ensures forall i :: 0 <= i < |rows| && rows[i].id !in ids ==> rows[i] in r
    decreases |rows|
  {
    if rows == [] then []
    else
      var init, last := rows[..|rows| - 1], rows[|rows| - 1];
      var k := RowsNotIn(init, ids);
      assert forall i :: 0 <= i < |init| ==> init[i] == rows[i];
      k + (if last.id in ids then [] else [last])
  }

  lemma RowsNotInLast(rows: seq<TaskRow>, ids: seq<int>)
    requires rows != []
    ensures RowsNotIn(rows, ids)
      == RowsNotIn(rows[..|rows| - 1], ids) + (if rows[|rows| - 1].id in ids then [] else [rows[|rows| - 1]])
  {
  }

  lemma FilteredBelow(rows: seq<TaskRow>, ids: seq<int>)
    requires rows != [] && IdsIncrease(rows)
    ensures var k := RowsNotIn(rows[..|rows| - 1], ids);
      forall i :: 0 <= i < |k| ==> k[i].id < rows[|rows| - 1].id
  {
    var init := rows[..|rows| - 1];
    var k := RowsNotIn(init, ids);
    forall i | 0 <= i < |k| ensures k[i].id < rows[|rows| - 1].id {
      var j :| 0 <= j < |init| && init[j] == k[i];
      assert rows[j] == init[j];
    }
  }

  lemma {:induction false} NotInIncrease(rows: seq<TaskRow>, ids: seq<int>)
    requires IdsIncrease(rows)
    ensures IdsIncrease(RowsNotIn(rows, ids))
    decreases |rows|
  {
    if rows != [] {
      var init, last := rows[..|rows| - 1], rows[|rows| - 1];
      NotInIncrease(init, ids);
      RowsNotInLast(rows, ids);
      if last.id !in ids {
        FilteredBelow(rows, ids);
        AppendIncrease(RowsNotIn(init, ids), last);
      }
    }
  }

  lemma NotInRowsOfTasks(tasks: Tasks, activityId: int, rows: seq<TaskRow>, ids: seq<int>)
    requires RowsOfTasks(tasks, activityId, rows)
    ensures RowsOfTasks(RemovedAll(tasks, ids), activityId, RowsNotIn(rows, ids))
  {
    var w := RowsNotIn(rows, ids);
    forall i | 0 <= i < |w|
      ensures w[i].id in tasks && tasks[w[i].id] == Task(activityId, w[i].description, w[i].completed)
    {
      var j :| 0 <= j < |rows| && rows[j] == w[i];
    }
  }

  lemma NotInCovers(tasks: Tasks, activityId: int, rows: seq<TaskRow>, ids: seq<int>)
    requires CoversTasks(tasks, activityId, rows)
    ensures CoversTasks(RemovedAll(tasks, ids), activityId, RowsNotIn(rows, ids))
  {
    var w := RowsNotIn(rows, ids);
    forall id | id in TaskIdsOf(RemovedAll(tasks, ids), activityId) ensures id in Ids(w) {
      assert id in TaskIdsOf(tasks, activityId);
      var j :| 0 <= j < |rows| && Ids(rows)[j] == id;
      var m :| 0 <= m < |w| && w[m] == rows[j];
      assert Ids(w)[m] == id;
    }
  }

  /** Deleting several tasks drops their rows from the activity's task list. */
  lemma RemovedAllListed(tasks: Tasks, activityId: int, ids: seq<int>)
    ensures GetTasks(RemovedAll(tasks, ids), activityId) == RowsNotIn(GetTasks(tasks, activityId), ids)
  {
    var b := GetTasks(tasks, activityId);
    NotInIncrease(b, ids);
    NotInRowsOfTasks(tasks, activityId, b, ids);
    NotInCovers(tasks, activityId, b, ids);
    TasksListedAs(RemovedAll(tasks, ids), activityId, RowsNotIn(b, ids));
  }

  lemma SnocSplit<T>(s: seq<T>)
    requires s != []
    ensures s[..|s| - 1] + [s[|s| - 1]] == s
  {
  }

  lemma SnocParts<T>(rows: seq<T>, tail: seq<T>)
    requires tail != []
    ensures var a := rows + tail;
      a[..|a| - 1] == rows + tail[..|tail| - 1] && a[|a| - 1] == tail[|tail| - 1]
  {
    var a := rows + tail;
    assert a[..|a| - 1] == rows + tail[..|tail| - 1];
  }

  lemma SnocAssoc<T>(front: seq<T>, tail: seq<T>)
    requires tail != []
    ensures front + tail[..|tail| - 1] + [tail[|tail| - 1]] == front + tail
  {
    assert tail[..|tail| - 1] + [tail[|tail| - 1]] == tail;
  }

  lemma {:induction false} NotInAppend(rows: seq<TaskRow>, tail: seq<TaskRow>, ids: seq<int>)
    requires forall i :: 0 <= i < |tail| ==> tail[i].id !in ids
    ensures RowsNotIn(rows + tail, ids) == RowsNotIn(rows, ids) + tail
    decreases |tail|
  {
    if tail == [] {
      assert rows + tail == rows;
    } else {
      var init := tail[..|tail| - 1];
      SnocParts(rows, tail);
      RowsNotInLast(rows + tail, ids);
      NotInAppend(rows, init, ids);
      SnocAssoc(RowsNotIn(rows, ids), tail);
    }
  }

  /** In rowid order, rows after a prefix have none of the prefix's ids. */
  lemma TailIdsFresh(rows: seq<TaskRow>, tail: seq<TaskRow>, ids: seq<int>)
    requires IdsIncrease(rows + tail)
    requires forall x :: x in ids ==> x in Ids(rows)
    ensures forall i :: 0 <= i < |tail| ==> tail[i].id !in ids
  {
    var a := rows + tail;
    forall i | 0 <= i < |tail| ensures tail[i].id !in ids {
      assert a[|rows| + i] == tail[i];
      forall j | 0 <= j < |rows| ensures Ids(rows)[j] != tail[i].id {
        assert a[j] == rows[j];
      }
    }
  }

  /** A list that extends one prefix with given rows extends any other prefix with them. */
  lemma ExtendsRebase(before: seq<TaskRow>, other: seq<TaskRow>, after: seq<TaskRow>, added: seq<string>)
    requires ExtendsWith(before, after, added)
    ensures after == before + after[|before|..]
    ensures ExtendsWith(other, other + after[|before|..], added)
  {
    var n := after[|before|..];
    assert after == after[..|before|] + n;
    var c := other + n;
    assert c[..|other|] == other;
    forall i | 0 <= i < |added| ensures c[|other| + i].description == added[i] && !c[|other| + i].completed {
      assert c[|other| + i] == n[i] == after[|before| + i];
    }
  }

  /** Recording deletes keeps every task and the activity it belongs to. */
  lemma DeferredKeepsIds(tasks: Tasks, activityId: int, rows: seq<Row>, x: int)
    requires AllSaved(rows) && Shaped(rows)
    requires x in TaskIdsOf(tasks, activityId)
    ensures x in TaskIdsOf(Reconciled(tasks, activityId, rows, false), activityId)
  {
    ReconciledAt(tasks, activityId, rows, x, false);
    FateSkip(rows, x);
  }

  lemma PendingListed(tasks: Tasks, activityId: int, rows: seq<Row>, pending: set<int>, deletes: seq<int>)
    requires AllSaved(rows) && Shaped(rows)
    requires TaskIdsOf(tasks, activityId) == SavedIds(rows) + pending
    requires forall y :: y in deletes <==> y in pending || y in BlankIds(rows)
    ensures forall x :: x in deletes ==> x in Ids(GetTasks(Reconciled(tasks, activityId, rows, false), activityId))
  {
    forall x | x in deletes ensures x in Ids(GetTasks(Reconciled(tasks, activityId, rows, false), activityId)) {
      BlankSaved(rows, x);
      DeferredKeepsIds(tasks, activityId, rows, x);
    }
  }

  /** After saving saved rows and running the collected deletes, one task's standing. */
  lemma DeferredPhaseAt(tasks: Tasks, activityId: int, rows: seq<Row>, pending: set<int>, deletes: seq<int>, x: int)
    requires AllSaved(rows) && Shaped(rows)
    requires TaskIdsOf(tasks, activityId) == SavedIds(rows) + pending && SavedIds(rows) !! pending
    requires forall y :: y in deletes <==> y in pending || y in BlankIds(rows)
    ensures var t, f := RemovedAll(Reconciled(tasks, activityId, rows, false), deletes), Fate(rows, x);
      (x in TaskIdsOf(t, activityId) ==> f.UpdateTask?)
      && (f.UpdateTask? ==> x in t && t[x] == Task(activityId, f.description, f.completed))
  {
    ReconciledAt(tasks, activityId, rows, x, false);
    FateSkip(rows, x);
    FateBlank(rows, x);
  }

  lemma DeferredKept(tasks: Tasks, activityId: int, rows: seq<Row>, pending: set<int>, deletes: seq<int>)
    requires AllSaved(rows) && Shaped(rows)
    requires TaskIdsOf(tasks, activityId) == SavedIds(rows) + pending && SavedIds(rows) !! pending
    requires forall y :: y in deletes <==> y in pending || y in BlankIds(rows)
    ensures GetTasks(RemovedAll(Reconciled(tasks, activityId, rows, false), deletes), activityId) == KeptRows(rows)
  {
    var t := RemovedAll(Reconciled(tasks, activityId, rows, false), deletes);
    forall x ensures (x in TaskIdsOf(t, activityId) ==> Fate(rows, x).UpdateTask?)
      && (Fate(rows, x).UpdateTask? ==> x in t && t[x] == Task(activityId, Fate(rows, x).description, Fate(rows, x).completed))
    {
      DeferredPhaseAt(tasks, activityId, rows, pending, deletes, x);
    }
    KeptListed(t, activityId, rows);
  }

  lemma DeferredPhases(tasks: Tasks, activityId: int, p: seq<Row>, q: seq<Row>, pending: set<int>, deletes: seq<int>)
    requires AllSaved(p) && Shaped(p) && AllUnsaved(q)
    requires TaskIdsOf(tasks, activityId) == SavedIds(p) + pending && SavedIds(p) !! pending
    requires forall y :: y in deletes <==> y in pending || y in BlankIds(p)
    ensures var t2 := Reconciled(Reconciled(tasks, activityId, p, false), activityId, q, false);
      ExtendsWith(KeptRows(p), GetTasks(RemovedAll(t2, deletes), activityId), StrippedLines(Texts(q)))
  {
    var t1 := Reconciled(tasks, activityId, p, false);
    var t2 := Reconciled(t1, activityId, q, false);
    var b1, a2 := GetTasks(t1, activityId), GetTasks(t2, activityId);
    UnsavedReconciled(t1, activityId, q, false);
    InitialTasksListed(t1, activityId, Texts(q));
    ExtendsRebase(b1, KeptRows(p), a2, StrippedLines(Texts(q)));
    var n := a2[|b1|..];
    PendingListed(tasks, activityId, p, pending, deletes);
    TailIdsFresh(b1, n, deletes);
    RemovedAllListed(t2, activityId, deletes);
    NotInAppend(b1, n, deletes);
    RemovedAllListed(t1, activityId, deletes);
    DeferredKept(tasks, activityId, p, pending, deletes);
  }

  /**
   * Saving shaped rows, where the activity's tasks are the rows' ids plus the ids already put
   * on the delete list, then running the delete list extended by the blank rows' ids: the
   * activity's task list becomes the kept rows, then one new uncompleted task per non-blank
   * unsaved row, with its stripped text.
   */
  lemma DeferredSaveListed(tasks: Tasks, activityId: int, rows: seq<Row>, pending: set<int>, deletes: seq<int>)
    requires Shaped(rows)
    requires TaskIdsOf(tasks, activityId) == SavedIds(rows) + pending && SavedIds(rows) !! pending
    requires forall y :: y in deletes <==> y in pending || y in BlankIds(rows)
    ensures ExtendsWith(KeptRows(rows), GetTasks(RemovedAll(Reconciled(tasks, activityId, rows, false), deletes), activityId),
                        NewDescriptions(rows))
  {
    var k := SavedCount(rows);
    var p, q := rows[..k], rows[k..];
    SplitShaped(rows);
    SplitParts(p, q);
    ReconciledAppend(tasks, activityId, p, q, false);
    DeferredPhases(tasks, activityId, p, q, pending, deletes);
  }

  // ----- the editors' row bookkeeping -------------------------------------------------------

  /** One step of the save loop: the rows saved so far, then the next row. */
  lemma ReconciledSnoc(tasks: Tasks, activityId: int, rows: seq<Row>, i: int, deleteNow: bool)
    requires 0 <= i < |rows|
    ensures Reconciled(tasks, activityId, rows[..i + 1], deleteNow)
      == Applied(Reconciled(tasks, activityId, rows[..i], deleteNow), activityId, Decide(rows[i]), deleteNow)
  {
    var e := rows[..i + 1];
    assert e[..|e| - 1] == rows[..i] && e[|e| - 1] == rows[i];
    ReconciledLast(tasks, activityId, e, deleteNow);
  }

  /** One step of the blank ids: the rows seen so far, then the next row. */
  lemma BlankIdsSnoc(rows: seq<Row>, i: int)
    requires 0 <= i < |rows|
    ensures BlankIds(rows[..i + 1])
      == BlankIds(rows[..i]) + (if Decide(rows[i]).DeleteTask? then {Decide(rows[i]).id} else {})
  {
    var e := rows[..i + 1];
    assert e[..|e| - 1] == rows[..i] && e[|e| - 1] == rows[i];
  }

  /** The rows without the one at `k`, as `takeItem` leaves a list. */
  function RemovedAt(rows: seq<Row>, k: int): (r: seq<Row>)
    requires 0 <= k < |rows|
    ensures |r| == |rows| - 1
    ensures forall i :: 0 <= i < k ==> r[i] == rows[i]
    ensures forall i :: k <= i < |r| ==> r[i] == rows[i + 1]
  {
    rows[..k] + rows[k + 1..]
  }

  /** Taking one row out keeps the rows shaped. */
  lemma RemovedAtShaped(rows: seq<Row>, k: int)
    requires 0 <= k < |rows| && Shaped(rows)
    ensures Shaped(RemovedAt(rows, k))
  {
    var r := RemovedAt(rows, k);
    forall i, j | 0 <= i < j < |r| && r[j].taskId.Some?
      ensures r[i].taskId.Some? && r[i].taskId.value < r[j].taskId.value
    {
      var i', j' := if i < k then i else i + 1, if j < k then j else j + 1;
      assert r[i] == rows[i'] && r[j] == rows[j'];
    }
  }

  lemma RemovedAtSavedFrom(rows: seq<Row>, k: int, x: int)
    requires 0 <= k < |rows| && Shaped(rows)
    requires x in SavedIds(RemovedAt(rows, k))
    ensures x in SavedIds(rows) && rows[k].taskId != Some(x)
  {
    var r := RemovedAt(rows, k);
    SavedIdsAt(r, x);
    SavedIdsAt(rows, x);
    var i :| 0 <= i < |r| && r[i].taskId == Some(x);
    if i < k {
      assert rows[i] == r[i];
      if rows[k].taskId.Some? {
        assert rows[i].taskId.value < rows[k].taskId.value;
      }
    } else {
      assert rows[i + 1] == r[i];
      assert rows[k].taskId.value < rows[i + 1].taskId.value;
    }
  }

  lemma RemovedAtSavedTo(rows: seq<Row>, k: int, x: int)
    requires 0 <= k < |rows|
    requires x in SavedIds(rows) && rows[k].taskId != Some(x)
    ensures x in SavedIds(RemovedAt(rows, k))
  {
    var r := RemovedAt(rows, k);
    SavedIdsAt(r, x);
    SavedIdsAt(rows, x);
    var j :| 0 <= j < |rows| && rows[j].taskId == Some(x);
    if j < k {
      assert r[j].taskId == Some(x);
    } else {
      assert r[j - 1].taskId == Some(x);
    }
  }

  /**
   * Taking one row out of shaped rows removes exactly its id from the saved ids (shaped rows
   * carry each id once).
   */
  lemma RemovedAtSaved(rows: seq<Row>, k: int)
    requires 0 <= k < |rows| && Shaped(rows)
    ensures SavedIds(RemovedAt(rows, k))
      == SavedIds(rows) - (if rows[k].taskId.Some? then {rows[k].taskId.value} else {})
  {
    forall x ensures x in SavedIds(RemovedAt(rows, k))
      <==> x in SavedIds(rows) - (if rows[k].taskId.Some? then {rows[k].taskId.value} else {})
    {
      if x in SavedIds(RemovedAt(rows, k)) {
        RemovedAtSavedFrom(rows, k, x);
      }
      if x in SavedIds(rows) && rows[k].taskId != Some(x) {
        RemovedAtSavedTo(rows, k, x);
      }
    }
  }

  /** The rows an editor shows for a task list: one saved row per task, in the same order. */
  function LoadedRows(tasks: seq<TaskRow>): (r: seq<Row>)
    ensures |r| == |tasks|
    ensures forall i :: 0 <= i < |tasks| ==>
      r[i] == Row(Some(tasks[i].id), tasks[i].description, tasks[i].completed)
  {
    seq(|tasks|, i requires 0 <= i < |tasks| => Row(Some(tasks[i].id), tasks[i].description, tasks[i].completed))
  }

  lemma LoadedInit(tasks: seq<TaskRow>)
    requires tasks != []
    ensures var r := LoadedRows(tasks);
      r[..|r| - 1] == LoadedRows(tasks[..|tasks| - 1]) && r[|r| - 1] == Row(Some(tasks[|tasks| - 1].id), tasks[|tasks| - 1].description, tasks[|tasks| - 1].completed)
  {
  }

  lemma LoadedSnoc(tasks: seq<TaskRow>, i: int)
    requires 0 <= i < |tasks|
    ensures LoadedRows(tasks[..i + 1]) == LoadedRows(tasks[..i]) + [Row(Some(tasks[i].id), tasks[i].description, tasks[i].completed)]
  {
  }

  lemma LoadedShaped(tasks: seq<TaskRow>)
    requires IdsIncrease(tasks)
    ensures Shaped(LoadedRows(tasks))
  {
  }

  lemma LoadedIds(tasks: seq<TaskRow>, x: int)
    ensures x in SavedIds(LoadedRows(tasks)) <==> x in Ids(tasks)
  {
    var r := LoadedRows(tasks);
    SavedIdsAt(r, x);
    if x in Ids(tasks) {
      var i :| 0 <= i < |tasks| && Ids(tasks)[i] == x;
      assert r[i].taskId == Some(x);
    }
  }

  /** The rows an editor loads for an activity are shaped and carry exactly its task ids. */
  lemma LoadedInSync(tasks: Tasks, activityId: int)
    ensures var r := LoadedRows(GetTasks(tasks, activityId));
      Shaped(r) && SavedIds(r) == TaskIdsOf(tasks, activityId)
  {
    var g := GetTasks(tasks, activityId);
    var r := LoadedRows(g);
    LoadedShaped(g);
    forall x ensures x in SavedIds(r) <==> x in TaskIdsOf(tasks, activityId) {
      LoadedIds(g, x);
      if x in Ids(g) {
        var i :| 0 <= i < |g| && Ids(g)[i] == x;
      }
    }
  }

  /** Every description is the kind the editors store: stripped and not empty. */
  predicate CleanDescriptions(tasks: seq<TaskRow>) {
    forall i :: 0 <= i < |tasks| ==> tasks[i].description != [] && IsStripped(tasks[i].description)
  }

  lemma DecideLoaded(t: TaskRow)
    requires t.description != [] && IsStripped(t.description)
    ensures Decide(Row(Some(t.id), t.description, t.completed)) == UpdateTask(t.id, t.description, t.completed)
  {
    StripStripped(t.description);
  }

  lemma CleanInit(tasks: seq<TaskRow>)
    requires tasks != [] && CleanDescriptions(tasks)
    ensures CleanDescriptions(tasks[..|tasks| - 1])
    ensures tasks[|tasks| - 1].description != [] && IsStripped(tasks[|tasks| - 1].description)
  {
    var init := tasks[..|tasks| - 1];
    assert forall i :: 0 <= i < |init| ==> init[i] == tasks[i];
  }

  lemma KeptRowsLast(rows: seq<Row>)
    requires rows != []
    ensures var a := Decide(rows[|rows| - 1]);
      KeptRows(rows) == KeptRows(rows[..|rows| - 1]) + (if a.UpdateTask? then [TaskRow(a.id, a.description, a.completed)] else [])
      && NewDescriptions(rows) == NewDescriptions(rows[..|rows| - 1]) + (if a.AddTask? then [a.description] else [])
  {
  }

  /** Saving the rows just loaded, unedited, keeps the task list and adds nothing. */
  lemma {:induction false} LoadedKept(tasks: seq<TaskRow>)
    requires CleanDescriptions(tasks)
    ensures KeptRows(LoadedRows(tasks)) == tasks
    ensures NewDescriptions(LoadedRows(tasks)) == []
    decreases |tasks|
  {
    if tasks != [] {
      var init, last := tasks[..|tasks| - 1], tasks[|tasks| - 1];
      LoadedInit(tasks);
      CleanInit(tasks);
      LoadedKept(init);
      DecideLoaded(last);
      KeptRowsLast(LoadedRows(tasks));
      SnocSplit(tasks);
    }
  }

  /** `[w for w in rows if w[0] != task_id]`. */
  function RowsWithoutId(rows: seq<Row>, taskId: Option<int>): (r: seq<Row>)
    ensures forall i :: 0 <= i < |r| ==> r[i] in rows && r[i].taskId != taskId
    ensures forall i :: 0 <= i < |rows| && rows[i].taskId != taskId ==> rows[i] in r
    ensures |rows| == 1 ==> r == (if rows[0].taskId == taskId then [] else rows)
    decreases |rows|
  {
    if rows == [] then []
    else
      var init, last := rows[..|rows| - 1], rows[|rows| - 1];
      var k := RowsWithoutId(init, taskId);
      assert forall i :: 0 <= i < |init| ==> init[i] == rows[i];
      k + (if last.taskId == taskId then [] else [last])
  }

  /** The filter works row by row, so it keeps the order of the rows it keeps and each once. */
  lemma {:induction false} RowsWithoutIdConcat(a: seq<Row>, b: seq<Row>, taskId: Option<int>)
    ensures RowsWithoutId(a + b, taskId) == RowsWithoutId(a, taskId) + RowsWithoutId(b, taskId)
    decreases |b|
  {
    if b == [] {
      assert a + b == a;
    } else {
      var init, last := b[..|b| - 1], b[|b| - 1];
      var tail := if last.taskId == taskId then [] else [last];
      ConcatLast(a, b, taskId);
      RowsWithoutIdLast(b, taskId);
      RowsWithoutIdConcat(a, init, taskId);
      JoinAssoc(RowsWithoutId(a + b, taskId), RowsWithoutId(b, taskId),
                RowsWithoutId(a, taskId), RowsWithoutId(init, taskId), tail);
    }
  }

  lemma ConcatLast(a: seq<Row>, b: seq<Row>, taskId: Option<int>)
    requires b != []
    ensures RowsWithoutId(a + b, taskId)
      == RowsWithoutId(a + b[..|b| - 1], taskId) + (if b[|b| - 1].taskId == taskId then [] else [b[|b| - 1]])
  {
    var ab := a + b;
    assert ab[..|ab| - 1] == a + b[..|b| - 1];
    RowsWithoutIdLast(ab, taskId);
  }

  lemma JoinAssoc<T>(whole: seq<T>, right: seq<T>, x: seq<T>, y: seq<T>, z: seq<T>)
    requires whole == (x + y) + z && right == y + z
    ensures whole == x + right
  {
  }

  /** Editing a row's text or check box keeps the rows shaped and their saved ids. */
  lemma EditedRowKept(rows: seq<Row>, i: int, text: string, completed: bool)
    requires 0 <= i < |rows|
    ensures var edited := rows[i := Row(rows[i].taskId, text, completed)];
      (Shaped(rows) ==> Shaped(edited)) && SavedIds(edited) == SavedIds(rows)
  {
    var edited := rows[i := Row(rows[i].taskId, text, completed)];
    assert forall j :: 0 <= j < |rows| ==> edited[j].taskId == rows[j].taskId;
    forall x ensures x in SavedIds(edited) <==> x in SavedIds(rows) {
      SavedIdsAt(rows, x);
      SavedIdsAt(edited, x);
    }
  }

  lemma RowsWithoutIdLast(rows: seq<Row>, taskId: Option<int>)
    requires rows != []
    ensures RowsWithoutId(rows, taskId)
      == RowsWithoutId(rows[..|rows| - 1], taskId) + (if rows[|rows| - 1].taskId == taskId then [] else [rows[|rows| - 1]])
  {
  }

  lemma ShapedSnoc(rows: seq<Row>, r: Row)
    requires Shaped(rows)
    requires r.taskId.Some? ==> forall i :: 0 <= i < |rows| ==> rows[i].taskId.Some? && rows[i].taskId.value < r.taskId.value
    ensures Shaped(rows + [r])
  {
    var a := rows + [r];
    forall i, j | 0 <= i < j < |a| && a[j].taskId.Some?
      ensures a[i].taskId.Some? && a[i].taskId.value < a[j].taskId.value
    {
      assert a[i] == rows[i];
      if j < |rows| {
        assert a[j] == rows[j];
      }
    }
  }

  lemma WithoutIdBelow(rows: seq<Row>, taskId: Option<int>)
    requires rows != [] && Shaped(rows) && rows[|rows| - 1].taskId.Some?
    ensures var k := RowsWithoutId(rows[..|rows| - 1], taskId);
      forall i :: 0 <= i < |k| ==> k[i].taskId.Some? && k[i].taskId.value < rows[|rows| - 1].taskId.value
  {
    var init := rows[..|rows| - 1];
    var k := RowsWithoutId(init, taskId);
    forall i | 0 <= i < |k| ensures k[i].taskId.Some? && k[i].taskId.value < rows[|rows| - 1].taskId.value {
      var j :| 0 <= j < |init| && init[j] == k[i];
      assert rows[j] == init[j];
    }
  }

  /** Dropping rows by id keeps the rows shaped. */
  lemma {:induction false} WithoutIdShaped(rows: seq<Row>, taskId: Option<int>)
    requires Shaped(rows)
    ensures Shaped(RowsWithoutId(rows, taskId))
    decreases |rows|
  {
    if rows != [] {
      var init, last := rows[..|rows| - 1], rows[|rows| - 1];
      ShapedInit(rows);
      WithoutIdShaped(init, taskId);
      RowsWithoutIdLast(rows, taskId);
      if last.taskId != taskId {
        if last.taskId.Some? {
          WithoutIdBelow(rows, taskId);
        }
        ShapedSnoc(RowsWithoutId(init, taskId), last);
      }
    }
  }

  lemma WithoutIdSavedAt(rows: seq<Row>, taskId: Option<int>, x: int)
    ensures x in SavedIds(RowsWithoutId(rows, taskId)) <==> x in SavedIds(rows) && taskId != Some(x)
  {
    var w := RowsWithoutId(rows, taskId);
    SavedIdsAt(w, x);
    SavedIdsAt(rows, x);
    if x in SavedIds(w) {
      var i :| 0 <= i < |w| && w[i].taskId == Some(x);
      assert w[i] in rows;
      var j :| 0 <= j < |rows| && rows[j] == w[i];
      assert rows[j].taskId == Some(x);
    }
    if x in SavedIds(rows) && taskId != Some(x) {
      var j :| 0 <= j < |rows| && rows[j].taskId == Some(x);
      assert rows[j] in w;
      var i :| 0 <= i < |w| && w[i] == rows[j];
      assert w[i].taskId == Some(x);
    }
  }

  /** Dropping the rows with a task id removes exactly that id from the saved ids. */
  lemma WithoutIdSaved(rows: seq<Row>, taskId: Option<int>)
    ensures SavedIds(RowsWithoutId(rows, taskId)) == SavedIds(rows) - (if taskId.Some? then {taskId.value} else {})
  {
    forall x ensures x in SavedIds(RowsWithoutId(rows, taskId)) <==> x in SavedIds(rows) - (if taskId.Some? then {taskId.value} else {}) {
      WithoutIdSavedAt(rows, taskId, x);
    }
  }

  /** Dropping the rows without an id leaves only saved rows. */
  lemma WithoutNoneSaved(rows: seq<Row>)
    ensures AllSaved(RowsWithoutId(rows, None))
  {
  }

  lemma RemovedTaskIds(tasks: Tasks, activityId: int, taskId: int)
    ensures TaskIdsOf(RemovedTask(tasks, taskId), activityId) == TaskIdsOf(tasks, activityId) - {taskId}
  {
  }
}
