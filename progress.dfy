/**
 * The Qt dialogs of progress.py that read and write the store: the activity creator, the
 * activity editor with its task list and deferred deletes, and the view and sort settings of
 * the activity display.
 *
 * progress.py expects the store's calls to return an error value (and `create_activity` and
 * `add_task` a pair of id and error); the `DatabaseManager` beside it returns neither. Each
 * store call the dialogs make is therefore given an answer from the caller: `None` for
 * success, which performs the call, or `Some(message)` for a failure, which changes nothing.
 */
module Progress {
  import opened Common
  import opened Text
  import opened Sqlite
  import opened Schema
  import opened Ordering
  import opened Database
  import opened TaskRows

  // ----- the activity creator --------------------------------------------------------------

  /** What `get_data` returns: name, category, initial task lines and image. */
  datatype CreatorData = CreatorData(name: string, category: string, tasks: seq<string>, image: Option<Bytes>)

  datatype AcceptOutcome =
    | AcceptNeedsName          // no name: a warning, the dialog stays open, no store call
    | KeptOpen(error: string)  // the store reported a duplicate name: the dialog stays open
    | Rejected(error: string)  // any other store error: the dialog is closed as rejected
    | Accepted(activityId: int)

  class ActivityCreatorDialog {
    const db: DatabaseManager
    var nameText: string
    var categoryText: string
    var tasksText: string
    var imageData: Option<Bytes>

    constructor(db: DatabaseManager)
      ensures this.db == db && nameText == [] && categoryText == [] && tasksText == [] && imageData == None
    {
      this.db := db;
      nameText := [];
      categoryText := [];
      tasksText := [];
      imageData := None;
    }

    /** `get_data`, on the dialog's current fields. */
    function GetData(): CreatorData
      reads this
    {
      FormData(nameText, categoryText, tasksText, imageData)
    }

    /**
     * `accept`: without a name nothing happens. Otherwise `create_activity` is called with the
     * form's data (an empty category is stored as an empty string, not NULL); what the dialog
     * does with the answer is `Verdict`.
     */
    method Accept(answer: Option<string>, now: string) returns (outcome: AcceptOutcome)
      modifies db
      ensures outcome == Verdict(old(GetData()), answer, NextRowid(old(db.activities).Keys))
      ensures !outcome.Accepted? ==> db.activities == old(db.activities) && db.tasks == old(db.tasks)
      ensures outcome.Accepted? ==>
        Created(old(db.activities), old(db.tasks), db.activities, db.tasks, outcome.activityId, old(GetData()), now)
    {
      var d := GetData();
      if d.name == [] || answer.Some? {
        return Verdict(d, answer, NextRowid(db.activities.Keys));
      }
      var id := Create(d, now);
      return Accepted(id);
    }

    /** The `create_activity` call of `accept`, for the form's data. */
    method Create(d: CreatorData, now: string) returns (id: int)
      requires AllStripped(d.tasks)
      modifies db
      ensures id == NextRowid(old(db.activities).Keys)
      ensures Created(old(db.activities), old(db.tasks), db.activities, db.tasks, id, d, now)
    {
      id := db.CreateActivity(d.name, Some(d.category), d.tasks, d.image, now);
      CreatedTasksListed(old(db.tasks), id, d.tasks);
    }
  }

  /**
   * What `get_data` returns for the form's fields: the stripped name and category, the
   * stripped non-blank lines of the task text, and the image read on upload.
   */
  function FormData(nameText: string, categoryText: string, tasksText: string, imageData: Option<Bytes>): (d: CreatorData)
    ensures IsStripped(d.name) && (d.name == [] <==> IsBlank(nameText))
    ensures IsStripped(d.category) && (d.category == [] <==> IsBlank(categoryText))
    ensures AllStripped(d.tasks) && (d.tasks == [] <==> IsBlank(tasksText))
    ensures d.image == imageData
  {
    NoLinesIffBlank(tasksText);
    CreatorData(Strip(nameText), Strip(categoryText), StrippedLines(Split(Strip(tasksText), '\n')), imageData)
  }

  /**
   * The store after `create_activity` for the form's data: the new row under `id`, an empty
   * category stored as an empty string, and the task lines listed in order after whatever tasks
   * already named `id`.
   */
  predicate Created(acts: Activities, tasks: Tasks, acts': Activities, tasks': Tasks, id: int, d: CreatorData, now: string) {
    && acts' == acts[id := Activity(d.name, Some(d.category), d.image, now, now)]
    && tasks' == WithInitialTasks(tasks, id, d.tasks)
    && ExtendsWith(GetTasks(tasks, id), GetTasks(tasks', id), d.tasks)
  }

  /**
   * What `accept` makes of the form and the store's answer: a blank name stops it before the
   * store is called; a reported error mentioning "already exists" keeps the dialog open, any
   * other error closes it as rejected; success closes it as accepted with the new row's id.
   */
  function Verdict(d: CreatorData, answer: Option<string>, newId: int): (r: AcceptOutcome)
    ensures r.AcceptNeedsName? <==> d.name == []
    ensures r.KeptOpen? <==> d.name != [] && answer.Some? && HasInfix(answer.value, "already exists")
    ensures r.Rejected? <==> d.name != [] && answer.Some? && !HasInfix(answer.value, "already exists")
    ensures r.Accepted? <==> d.name != [] && answer.None?
    ensures (r.KeptOpen? || r.Rejected?) ==> r.error == answer.value
    ensures r.Accepted? ==> r.activityId == newId
  {
    if d.name == [] then AcceptNeedsName
    else if answer.None? then Accepted(newId)
    else if HasInfix(answer.value, "already exists") then KeptOpen(answer.value)
    else Rejected(answer.value)
  }

  /**
   * The creator's lines are already stripped and non-blank, so `create_activity` stores each
   * of them, in order, after whatever tasks already name the new id.
   */
  lemma CreatedTasksListed(tasks: Tasks, activityId: int, lines: seq<string>)
    requires AllStripped(lines)
    ensures ExtendsWith(GetTasks(tasks, activityId), GetTasks(WithInitialTasks(tasks, activityId, lines), activityId), lines)
  {
    InitialTasksListed(tasks, activityId, lines);
    StrippedLinesStable(lines);
  }

  // ----- task ids on the rows ------------------------------------------------------------------

  /**
   * What `add_task_item` may receive as `task_id`: nothing, a stored id, or the `checked`
   * flag the button's `clicked` signal passes when "Add New Task" is pressed.
   */
  datatype RawTaskId = NoId | IntId(id: int) | BoolId(flag: bool)

  /** `add_task_item`'s coercion: a boolean becomes `None`, so a row holds `None` or an id. */
  function CoerceTaskId(raw: RawTaskId): (r: Option<int>)
    ensures r.Some? <==> raw.IntId?
    ensures raw.IntId? ==> r.value == raw.id
  {
    match raw
    case IntId(id) => Some(id)
    case _ => None
  }

  // ----- saving the editor dialog -----------------------------------------------------------

  /** How one store call of a save turns out: `None` for success, `Some(error)` for a failure. */
  type Answer = Option<string>

  /** The answer to the `k`-th store call of a save (counting from 0); later calls succeed. */
  function AnswerAt(answers: seq<Answer>, k: nat): Answer {
    if k < |answers| then answers[k] else None
  }

  predicate AllSucceed(answers: seq<Answer>) {
    forall k :: 0 <= k < |answers| ==> answers[k].None?
  }

  /** The number of failing answers among calls `lo` up to, not including, `hi`. */
  function Failures(answers: seq<Answer>, lo: nat, hi: nat): nat
    decreases hi
  {
    if hi <= lo then 0
    else Failures(answers, lo, hi - 1) + (if AnswerAt(answers, hi - 1).Some? then 1 else 0)
  }

  /** `text[:n]`. */
  function Truncated(text: string, n: nat): (r: string)
    ensures |r| <= n && r <= text
    ensures |text| <= n ==> r == text
  {
    if |text| <= n then text else text[..n]
  }

  /** An entry of `save_errors`: the failed operation, its task, and the store's message. */
  datatype SaveError =
    | AddFailed(description: string, error: string)
    | UpdateFailed(taskId: int, error: string)
    | DeleteFailed(taskId: int, error: string)

  /**
   * What a save carries from one step to the next: the store's tasks, the dialog's rows and
   * delete list, the errors collected so far and the number of store calls made.
   */
  datatype Pass = Pass(tasks: Tasks, rows: seq<Row>, toDelete: seq<int>, errors: seq<SaveError>, calls: nat)

  predicate NoDuplicates(ids: seq<int>) {
    forall i, j :: 0 <= i < j < |ids| ==> ids[i] != ids[j]
  }

  function Elements(ids: seq<int>): (r: set<int>)
    ensures forall x :: x in r <==> x in ids
  {
    set x | x in ids
  }

  /**
   * The row loop of `save_changes` on row `i`, for the row's action `a`: a new non-blank row
   * is added (and takes the new task's id) or, on failure, reported with its first 20
   * characters; a saved non-blank row is updated or reported; a saved blank row goes on the
   * delete list unless already there; a new blank row is skipped.
   */
  function ActionStep(p: Pass, activityId: int, answers: seq<Answer>, i: nat, a: Action): (q: Pass)
    requires i < |p.rows|
    ensures |q.rows| == |p.rows|
    ensures forall j :: 0 <= j < |p.rows| && j != i ==> q.rows[j] == p.rows[j]
  {
    match a
    case AddTask(d) =>
      (match AnswerAt(answers, p.calls)
       case Some(e) => p.(errors := p.errors + [AddFailed(Truncated(d, 20), e)], calls := p.calls + 1)
       case None =>
         p.(tasks := AddedTask(p.tasks, activityId, d),
            rows := p.rows[i := p.rows[i].(taskId := Some(NextRowid(p.tasks.Keys)))],
            calls := p.calls + 1))
    case SkipRow => p
    case UpdateTask(id, d, c) =>
      (match AnswerAt(answers, p.calls)
       case Some(e) => p.(errors := p.errors + [UpdateFailed(id, e)], calls := p.calls + 1)
       case None => p.(tasks := UpdatedTask(p.tasks, id, d, c), calls := p.calls + 1))
    case DeleteTask(id) =>
      if id in p.toDelete then p else p.(toDelete := p.toDelete + [id])
  }

  /** What the row loop does with each row, decided on the row before the loop reaches it. */
  function Actions(rows: seq<Row>): (r: seq<Action>)
    ensures |r| == |rows| && forall i :: 0 <= i < |rows| ==> r[i] == Decide(rows[i])
  {
    seq(|rows|, i requires 0 <= i < |rows| => Decide(rows[i]))
  }

  /**
   * The row loop over the first `n` rows, row `i` taking action `acts[i]`; it writes only
   * rows it has reached.
   */
  function RowsPass(p: Pass, activityId: int, answers: seq<Answer>, acts: seq<Action>, n: nat): (q: Pass)
    requires n <= |p.rows| && n <= |acts|
    ensures |q.rows| == |p.rows|
    ensures forall j :: n <= j < |p.rows| ==> q.rows[j] == p.rows[j]
    decreases n
  {
    if n == 0 then p
    else ActionStep(RowsPass(p, activityId, answers, acts, n - 1), activityId, answers, n - 1, acts[n - 1])
  }

  /** The delete loop of `save_changes` on one id. */
  function DeleteStep(p: Pass, answers: seq<Answer>, id: int): Pass {
    match AnswerAt(answers, p.calls)
    case Some(e) => p.(errors := p.errors + [DeleteFailed(id, e)], calls := p.calls + 1)
    case None => p.(tasks := RemovedTask(p.tasks, id), calls := p.calls + 1)
  }

  /** The delete loop over `ids`: one store call per id; rows and delete list untouched. */
  function DeletesPass(p: Pass, answers: seq<Answer>, ids: seq<int>): (q: Pass)
    ensures q.rows == p.rows && q.toDelete == p.toDelete && q.calls == p.calls + |ids|
    decreases |ids|
  {
    if ids == [] then p
    else DeleteStep(DeletesPass(p, answers, ids[..|ids| - 1]), answers, ids[|ids| - 1])
  }

  /**
   * `save_changes` after `update_activity` succeeded (call 0): the row loop over all rows,
   * then the delete loop over the delete list as the row loop left it.
   */
  function SavePass(tasks: Tasks, activityId: int, rows: seq<Row>, toDelete: seq<int>, answers: seq<Answer>): Pass {
    var r := RowsPass(Pass(tasks, rows, toDelete, [], 1), activityId, answers, Actions(rows), |rows|);
    DeletesPass(r, answers, r.toDelete)
  }

  lemma DeletesPassSnoc(p: Pass, answers: seq<Answer>, ids: seq<int>, j: int)
    requires 0 <= j < |ids|
    ensures DeletesPass(p, answers, ids[..j + 1]) == DeleteStep(DeletesPass(p, answers, ids[..j]), answers, ids[j])
  {
    var e := ids[..j + 1];
    assert e[..|e| - 1] == ids[..j] && e[|e| - 1] == ids[j];
  }

  // ----- what a save does when every call succeeds -------------------------------------------

  /** The store after the actions in order, every statement succeeding and deletes deferred. */
  function AppliedAll(tasks: Tasks, activityId: int, acts: seq<Action>): Tasks
    decreases |acts|
  {
    if acts == [] then tasks
    else Applied(AppliedAll(tasks, activityId, acts[..|acts| - 1]), activityId, acts[|acts| - 1], false)
  }

  /** The ids the actions delete. */
  function DeletedIds(acts: seq<Action>): set<int>
    decreases |acts|
  {
    if acts == [] then {}
    else
      var a := acts[|acts| - 1];
      DeletedIds(acts[..|acts| - 1]) + (if a.DeleteTask? then {a.id} else {})
  }

  lemma AllSnoc(tasks: Tasks, activityId: int, acts: seq<Action>, n: int)
    requires 0 <= n < |acts|
    ensures AppliedAll(tasks, activityId, acts[..n + 1]) == Applied(AppliedAll(tasks, activityId, acts[..n]), activityId, acts[n], false)
    ensures DeletedIds(acts[..n + 1]) == DeletedIds(acts[..n]) + (if acts[n].DeleteTask? then {acts[n].id} else {})
  {
    var e := acts[..n + 1];
    assert e[..|e| - 1] == acts[..n] && e[|e| - 1] == acts[n];
  }

  lemma ActionsInit(rows: seq<Row>)
    requires rows != []
    ensures var a := Actions(rows); a[..|a| - 1] == Actions(rows[..|rows| - 1])
  {
  }

  /** Taking the rows' actions in order is saving the rows with deferred deletes. */
  lemma {:induction false} ActionsReconciled(tasks: Tasks, activityId: int, rows: seq<Row>)
    ensures AppliedAll(tasks, activityId, Actions(rows)) == Reconciled(tasks, activityId, rows, false)
    ensures DeletedIds(Actions(rows)) == BlankIds(rows)
    decreases |rows|
  {
    if rows != [] {
      ActionsInit(rows);
      ActionsReconciled(tasks, activityId, rows[..|rows| - 1]);
      ReconciledLast(tasks, activityId, rows, false);
    }
  }

  lemma ElementsSnoc(ids: seq<int>, x: int)
    ensures Elements(ids + [x]) == Elements(ids) + {x}
  {
  }

  lemma ActionStepSucceeds(p: Pass, activityId: int, answers: seq<Answer>, i: nat, a: Action)
    requires i < |p.rows| && AllSucceed(answers)
    ensures var q := ActionStep(p, activityId, answers, i, a);
      q.tasks == Applied(p.tasks, activityId, a, false) && q.errors == p.errors
      && Elements(q.toDelete) == Elements(p.toDelete) + (if a.DeleteTask? then {a.id} else {})
  {
    assert AnswerAt(answers, p.calls).None?;
    if a.DeleteTask? {
      ElementsSnoc(p.toDelete, a.id);
    }
  }

  /**
   * With every call succeeding, the row loop does to the store what the actions do with
   * deletes deferred, reports nothing, and puts the deleted ids on the delete list.
   */
  lemma {:induction false} RowsPassSucceeds(p: Pass, activityId: int, answers: seq<Answer>, acts: seq<Action>, n: nat)
    requires n <= |p.rows| && n <= |acts| && AllSucceed(answers)
    ensures var q := RowsPass(p, activityId, answers, acts, n);
      q.tasks == AppliedAll(p.tasks, activityId, acts[..n]) && q.errors == p.errors
      && Elements(q.toDelete) == Elements(p.toDelete) + DeletedIds(acts[..n])
    decreases n
  {
    if n == 0 {
      assert acts[..0] == [];
    } else {
      var r, q := RowsPass(p, activityId, answers, acts, n - 1), RowsPass(p, activityId, answers, acts, n);
      RowsPassSucceeds(p, activityId, answers, acts, n - 1);
      assert q == ActionStep(r, activityId, answers, n - 1, acts[n - 1]);
      ActionStepSucceeds(r, activityId, answers, n - 1, acts[n - 1]);
      SucceedsSnoc(p.tasks, activityId, Elements(p.toDelete), acts, n, r, q);
    }
  }

  /** One more succeeding step extends what the earlier steps did by that step's action. */
  lemma SucceedsSnoc(tasks: Tasks, activityId: int, deleting: set<int>, acts: seq<Action>, n: nat, r: Pass, q: Pass)
    requires 0 < n <= |acts|
    requires r.tasks == AppliedAll(tasks, activityId, acts[..n - 1])
    requires Elements(r.toDelete) == deleting + DeletedIds(acts[..n - 1])
    requires q.tasks == Applied(r.tasks, activityId, acts[n - 1], false)
    requires Elements(q.toDelete) == Elements(r.toDelete) + (if acts[n - 1].DeleteTask? then {acts[n - 1].id} else {})
    ensures q.tasks == AppliedAll(tasks, activityId, acts[..n])
    ensures Elements(q.toDelete) == deleting + DeletedIds(acts[..n])
  {
    AllSnoc(tasks, activityId, acts, n - 1);
  }

  /** With every call succeeding, the delete loop deletes each id in turn and reports nothing. */
  lemma {:induction false} DeletesPassSucceeds(p: Pass, answers: seq<Answer>, ids: seq<int>)
    requires AllSucceed(answers)
    ensures var q := DeletesPass(p, answers, ids);
      q.tasks == RemovedAll(p.tasks, ids) && q.errors == p.errors
    decreases |ids|
  {
    if ids != [] {
      DeletesPassSucceeds(p, answers, ids[..|ids| - 1]);
      assert AnswerAt(answers, DeletesPass(p, answers, ids[..|ids| - 1]).calls).None?;
    }
  }

  /**
   * The Qt dialog's save theorem: when the rows are shaped, the activity's tasks are the rows'
   * ids plus the delete list, and every store call succeeds, the save reports no errors and the
   * activity's task list becomes the kept rows followed by one new task per non-blank unsaved
   * row, in order.
   */
  lemma SaveListed(tasks: Tasks, activityId: int, rows: seq<Row>, toDelete: seq<int>, answers: seq<Answer>)
    requires Shaped(rows)
    requires TaskIdsOf(tasks, activityId) == SavedIds(rows) + Elements(toDelete)
    requires SavedIds(rows) !! Elements(toDelete)
    requires AllSucceed(answers)
    ensures var s := SavePass(tasks, activityId, rows, toDelete, answers);
      s.errors == [] && ExtendsWith(KeptRows(rows), GetTasks(s.tasks, activityId), NewDescriptions(rows))
  {
    var p, acts := Pass(tasks, rows, toDelete, [], 1), Actions(rows);
    var r := RowsPass(p, activityId, answers, acts, |rows|);
    RowsPassSucceeds(p, activityId, answers, acts, |rows|);
    assert acts[..|rows|] == acts;
    ActionsReconciled(tasks, activityId, rows);
    DeletesPassSucceeds(r, answers, r.toDelete);
    DeferredSaveListed(tasks, activityId, rows, Elements(toDelete), r.toDelete);
  }

  // ----- what a save reports ------------------------------------------------------------------

  lemma {:induction false} FailuresSplit(answers: seq<Answer>, lo: nat, mid: nat, hi: nat)
    requires lo <= mid <= hi
    ensures Failures(answers, lo, hi) == Failures(answers, lo, mid) + Failures(answers, mid, hi)
    decreases hi
  {
    if hi > mid {
      FailuresSplit(answers, lo, mid, hi - 1);
    }
  }

  /** No failures in a range exactly when every answer in it succeeds. */
  lemma {:induction false} NoFailures(answers: seq<Answer>, lo: nat, hi: nat)
    ensures Failures(answers, lo, hi) == 0 <==> forall k :: lo <= k < hi ==> AnswerAt(answers, k).None?
    decreases hi
  {
    if hi > lo {
      NoFailures(answers, lo, hi - 1);
    }
  }

  /**
   * From `p` to `q` a save made calls `p.calls` up to `q.calls`, kept its errors and added
   * one per failing call.
   */
  predicate Reported(answers: seq<Answer>, p: Pass, q: Pass) {
    p.calls <= q.calls && |q.errors| == |p.errors| + Failures(answers, p.calls, q.calls)
    && q.errors[..|p.errors|] == p.errors
  }

  lemma ReportedChain(answers: seq<Answer>, p: Pass, r: Pass, q: Pass)
    requires Reported(answers, p, r) && Reported(answers, r, q)
    ensures Reported(answers, p, q)
  {
    FailuresSplit(answers, p.calls, r.calls, q.calls);
    assert q.errors[..|p.errors|] == q.errors[..|r.errors|][..|p.errors|];
  }

  lemma ActionStepReports(p: Pass, activityId: int, answers: seq<Answer>, i: nat, a: Action)
    requires i < |p.rows|
    ensures Reported(answers, p, ActionStep(p, activityId, answers, i, a))
  {
    assert Failures(answers, p.calls, p.calls) == 0;
  }

  /** The row loop appends one error per failing call and keeps the errors it has. */
  lemma {:induction false} RowsPassReports(p: Pass, activityId: int, answers: seq<Answer>, acts: seq<Action>, n: nat)
    requires n <= |p.rows| && n <= |acts|
    ensures Reported(answers, p, RowsPass(p, activityId, answers, acts, n))
    decreases n
  {
    if n == 0 {
      assert Failures(answers, p.calls, p.calls) == 0;
    } else {
      var r := RowsPass(p, activityId, answers, acts, n - 1);
      RowsPassReports(p, activityId, answers, acts, n - 1);
      ActionStepReports(r, activityId, answers, n - 1, acts[n - 1]);
      ReportedChain(answers, p, r, ActionStep(r, activityId, answers, n - 1, acts[n - 1]));
    }
  }

  /** The delete loop appends one error per failing call and keeps the errors it has. */
  lemma {:induction false} DeletesPassReports(p: Pass, answers: seq<Answer>, ids: seq<int>)
    ensures Reported(answers, p, DeletesPass(p, answers, ids))
    decreases |ids|
  {
    if ids == [] {
      assert Failures(answers, p.calls, p.calls) == 0;
    } else {
      var r := DeletesPass(p, answers, ids[..|ids| - 1]);
      var q := DeleteStep(r, answers, ids[|ids| - 1]);
      DeletesPassReports(p, answers, ids[..|ids| - 1]);
      assert Failures(answers, r.calls, r.calls) == 0;
      ReportedChain(answers, p, r, q);
    }
  }

  /**
   * A save reports one error per failing task call after `update_activity`, so it reports
   * none exactly when all of those calls succeed.
   */
  lemma SaveReports(tasks: Tasks, activityId: int, rows: seq<Row>, toDelete: seq<int>, answers: seq<Answer>)
    ensures var s := SavePass(tasks, activityId, rows, toDelete, answers);
      1 <= s.calls && |s.errors| == Failures(answers, 1, s.calls)
      && (s.errors == [] <==> forall k :: 1 <= k < s.calls ==> AnswerAt(answers, k).None?)
  {
    var p := Pass(tasks, rows, toDelete, [], 1);
    var r := RowsPass(p, activityId, answers, Actions(rows), |rows|);
    var s := DeletesPass(r, answers, r.toDelete);
    RowsPassReports(p, activityId, answers, Actions(rows), |rows|);
    DeletesPassReports(r, answers, r.toDelete);
    ReportedChain(answers, p, r, s);
    NoFailures(answers, 1, s.calls);
  }

  lemma ActionStepNoDuplicates(p: Pass, activityId: int, answers: seq<Answer>, i: nat, a: Action)
    requires i < |p.rows| && NoDuplicates(p.toDelete)
    ensures var q := ActionStep(p, activityId, answers, i, a);
      NoDuplicates(q.toDelete) && |p.toDelete| <= |q.toDelete| && q.toDelete[..|p.toDelete|] == p.toDelete
  {
    var q := ActionStep(p, activityId, answers, i, a);
    assert q.toDelete == p.toDelete || (a.DeleteTask? && a.id !in p.toDelete && q.toDelete == p.toDelete + [a.id]);
  }

  /** The row loop only appends to the delete list, and never an id it already holds. */
  lemma {:induction false} RowsPassNoDuplicates(p: Pass, activityId: int, answers: seq<Answer>, acts: seq<Action>, n: nat)
    requires n <= |p.rows| && n <= |acts| && NoDuplicates(p.toDelete)
    ensures var q := RowsPass(p, activityId, answers, acts, n);
      NoDuplicates(q.toDelete) && |p.toDelete| <= |q.toDelete| && q.toDelete[..|p.toDelete|] == p.toDelete
    decreases n
  {
    if n > 0 {
      var r := RowsPass(p, activityId, answers, acts, n - 1);
      var q := ActionStep(r, activityId, answers, n - 1, acts[n - 1]);
      RowsPassNoDuplicates(p, activityId, answers, acts, n - 1);
      ActionStepNoDuplicates(r, activityId, answers, n - 1, acts[n - 1]);
      assert q.toDelete[..|p.toDelete|] == q.toDelete[..|r.toDelete|][..|p.toDelete|];
    }
  }

  // ----- the editor dialog ---------------------------------------------------------------------

  datatype DialogState = Showing | ClosedAccepted | ClosedRejected

  datatype SaveOutcome =
    | SaveNeedsName                 // no name: a warning, no store call
    | DetailsFailed(error: string)  // `update_activity` failed: the dialog stays open
    | Saved(errors: seq<SaveError>) // the details were saved; the failed task operations

  /** Python's truth value of optional image bytes. */
  predicate HasImage(image: Option<Bytes>) {
    image.Some? && image.value != []
  }

  /**
   * The editor dialog's rows and delete list agree with the store: the rows are shaped, and
   * the activity's tasks are the rows' ids and, apart from them, the ids waiting on the delete
   * list, each listed once.
   */
  predicate Agrees(tasks: Tasks, activityId: int, rows: seq<Row>, toDelete: seq<int>) {
    && Shaped(rows)
    && TaskIdsOf(tasks, activityId) == SavedIds(rows) + Elements(toDelete)
    && SavedIds(rows) !! Elements(toDelete)
    && NoDuplicates(toDelete)
  }

  /** A new unsaved row keeps the dialog in agreement with the store. */
  lemma UnsavedRowAgrees(tasks: Tasks, activityId: int, rows: seq<Row>, toDelete: seq<int>, r: Row)
    requires Agrees(tasks, activityId, rows, toDelete) && r.taskId.None?
    ensures Agrees(tasks, activityId, rows + [r], toDelete)
  {
    ShapedSnoc(rows, r);
    SavedIdsAppend(rows, [r]);
    UnsavedIds([r]);
  }

  /** Freshly loaded rows with an empty delete list agree with the store. */
  lemma LoadedAgrees(tasks: Tasks, activityId: int)
    ensures Agrees(tasks, activityId, LoadedRows(GetTasks(tasks, activityId)), [])
  {
    LoadedInSync(tasks, activityId);
    NothingToDelete(tasks, activityId, LoadedRows(GetTasks(tasks, activityId)));
  }

  /** Shaped rows that carry exactly the activity's task ids agree with an empty delete list. */
  lemma NothingToDelete(tasks: Tasks, activityId: int, rows: seq<Row>)
    requires Shaped(rows) && SavedIds(rows) == TaskIdsOf(tasks, activityId)
    ensures Agrees(tasks, activityId, rows, [])
  {
    assert Elements([]) == {};
  }

  class ActivityEditorDialog {
    const db: DatabaseManager
    const activityId: int
    var nameText: string
    var categoryText: string
    var rows: seq<Row>
    var toDelete: seq<int>
    var currentImage: Option<Bytes>
    var newImage: Option<Bytes>
    var state: DialogState

    /** The dialog agrees with the store. */
    predicate Consistent()
      reads this, db
    {
      Agrees(db.tasks, activityId, rows, toDelete)
    }

    /** `__init__`: no images, an empty delete list, then `load_activity_data`. */
    constructor(activityId: int, db: DatabaseManager)
      ensures this.db == db && this.activityId == activityId && newImage == None
      ensures activityId !in db.activities ==> state == ClosedRejected
      ensures activityId in db.activities ==>
        state == Showing && Consistent() && rows == LoadedRows(GetTasks(db.tasks, activityId))
      ensures activityId in db.activities ==>
        var a := db.activities[activityId];
        && nameText == a.name && categoryText == (if a.category.Some? then a.category.value else "")
        && currentImage == a.image && toDelete == []
    {
      this.db := db;
      this.activityId := activityId;
      nameText := [];
      categoryText := [];
      rows := [];
      toDelete := [];
      currentImage := None;
      newImage := None;
      state := Showing;
      new;
      LoadActivityData();
      LoadedAgrees(db.tasks, activityId);
    }

    /**
     * `load_activity_data`: an activity the store does not have closes the dialog as rejected.
     * Otherwise its name, category (`None` shown as empty) and image fill the dialog, the
     * delete list is emptied and one row is added per stored task, in the store's order.
     */
    method LoadActivityData()
      modifies this
      ensures newImage == old(newImage)
      ensures activityId !in old(db.activities) ==>
        state == ClosedRejected && nameText == old(nameText) && categoryText == old(categoryText) && currentImage == old(currentImage)
        && rows == old(rows) && toDelete == old(toDelete)
      ensures activityId in old(db.activities) ==>
        var a := old(db.activities)[activityId];
        && state == old(state)
        && nameText == a.name && categoryText == (if a.category.Some? then a.category.value else "")
        && currentImage == a.image && toDelete == []
        && rows == LoadedRows(GetTasks(old(db.tasks), activityId))
    {
      var details := GetActivity(db.activities, activityId);
      if details.None? {
        state := ClosedRejected;
        return;
      }
      ShowDetails(details.value);
      LoadTaskItems();
    }

    /** The part of `load_activity_data` that fills the fields and empties the delete list. */
    method ShowDetails(a: ActivityDetails)
      modifies this`nameText, this`categoryText, this`currentImage, this`toDelete
      ensures nameText == a.name && categoryText == (if a.category.Some? then a.category.value else "")
      ensures currentImage == a.image && toDelete == []
    {
      nameText := a.name;
      categoryText := if a.category.Some? then a.category.value else "";
      currentImage := a.image;
      toDelete := [];
    }

    /** The task part of `load_activity_data`: the list is cleared, then one row per stored task. */
    method LoadTaskItems()
      modifies this`rows
      ensures rows == LoadedRows(GetTasks(old(db.tasks), activityId))
    {
      rows := [];
      var tasks := GetTasks(db.tasks, activityId);
      for i := 0 to |tasks|
        invariant rows == LoadedRows(tasks[..i])
      {
        LoadedSnoc(tasks, i);
        AddTaskItem(IntId(tasks[i].id), tasks[i].description, tasks[i].completed);
      }
      assert tasks[..|tasks|] == tasks;
    }

    /**
     * `add_task_item`: appends a row, its id coerced; the "Add New Task" button's row (no id,
     * or the `checked` flag) keeps the dialog consistent.
     */
    method AddTaskItem(raw: RawTaskId, description: string, completed: bool)
      modifies this`rows
      ensures rows == old(rows) + [Row(CoerceTaskId(raw), description, completed)]
      ensures !raw.IntId? && old(Consistent()) ==> Consistent()
    {
      var r := Row(CoerceTaskId(raw), description, completed);
      if !raw.IntId? && Consistent() {
        UnsavedRowAgrees(db.tasks, activityId, rows, toDelete, r);
      }
      rows := rows + [r];
    }

    /**
     * The user types into the description field of the row at `index` (a row not in the list
     * changes nothing). Its id and check box stay as they were, and so does the agreement with
     * the store.
     */
    method SetRowText(index: int, text: string)
      modifies this`rows
      ensures rows == if 0 <= index < |old(rows)|
        then old(rows)[index := Row(old(rows)[index].taskId, text, old(rows)[index].completed)]
        else old(rows)
      ensures old(Consistent()) ==> Consistent()
    {
      if 0 <= index < |rows| {
        EditedRowKept(rows, index, text, rows[index].completed);
        rows := rows[index := Row(rows[index].taskId, text, rows[index].completed)];
      }
    }

    /** The user ticks or clears the check box of the row at `index`; as `SetRowText`. */
    method SetRowCompleted(index: int, completed: bool)
      modifies this`rows
      ensures rows == if 0 <= index < |old(rows)|
        then old(rows)[index := Row(old(rows)[index].taskId, old(rows)[index].text, completed)]
        else old(rows)
      ensures old(Consistent()) ==> Consistent()
    {
      if 0 <= index < |rows| {
        EditedRowKept(rows, index, rows[index].text, completed);
        rows := rows[index := Row(rows[index].taskId, rows[index].text, completed)];
      }
    }

    /**
     * `handle_task_delete_request` for the row at `index`: a row not in the list changes
     * nothing; otherwise the row is taken out and a saved row's id goes on the delete list
     * unless it is already there. The dialog stays consistent.
     */
    method HandleTaskDeleteRequest(index: int)
      modifies this
      ensures !(0 <= index < |old(rows)|) ==> rows == old(rows) && toDelete == old(toDelete)
      ensures 0 <= index < |old(rows)| ==>
        var id := old(rows)[index].taskId;
        && rows == RemovedAt(old(rows), index)
        && toDelete == (if id.Some? && id.value !in old(toDelete) then old(toDelete) + [id.value] else old(toDelete))
      ensures nameText == old(nameText) && categoryText == old(categoryText)
      ensures currentImage == old(currentImage) && newImage == old(newImage) && state == old(state)
      ensures old(Consistent()) ==> Consistent()
    {
      if 0 <= index < |rows| {
        if Consistent() {
          DeletedRowAgrees(db.tasks, activityId, rows, toDelete, index);
        }
        var id := rows[index].taskId;
        rows := RemovedAt(rows, index);
        if id.Some? && id.value !in toDelete {
          toDelete := toDelete + [id.value];
        }
      }
    }

    /**
     * `save_changes`: nothing without a stripped name. Otherwise `update_activity` (call 0) is
     * given the stripped name and category and the new image if there is one, else the
     * current one; if it fails the dialog stays open with nothing else done. Then the rows
     * and the delete list are saved (`SavePass`) and the dialog closes as accepted, reporting
     * the failed task operations. When the dialog agreed with the store and every call
     * succeeds, nothing is reported and the activity's task list becomes the kept rows
     * followed by the non-blank new rows.
     */
    method SaveChanges(answers: seq<Answer>, now: string) returns (outcome: SaveOutcome)
      modifies this, db
      ensures outcome.SaveNeedsName? <==> IsBlank(old(nameText))
      ensures outcome.DetailsFailed? <==> !IsBlank(old(nameText)) && AnswerAt(answers, 0).Some?
      ensures outcome.DetailsFailed? ==> outcome.error == AnswerAt(answers, 0).value
      ensures !outcome.Saved? ==>
        && db.activities == old(db.activities) && db.tasks == old(db.tasks)
        && rows == old(rows) && toDelete == old(toDelete) && state == old(state)
      ensures outcome.Saved? ==>
        && state == ClosedAccepted
        && db.activities == UpdatedActivity(old(db.activities), activityId, Strip(old(nameText)), Some(Strip(old(categoryText))),
                                             KeptImage(old(currentImage), old(newImage)), now)
      ensures outcome.Saved? ==>
        var s := SavePass(old(db.tasks), activityId, old(rows), old(toDelete), answers);
        db.tasks == s.tasks && rows == s.rows && toDelete == s.toDelete && outcome.errors == s.errors
      ensures outcome.Saved? && Agrees(old(db.tasks), activityId, old(rows), old(toDelete)) && AllSucceed(answers) ==>
        outcome.errors == [] && ExtendsWith(KeptRows(old(rows)), GetTasks(db.tasks, activityId), NewDescriptions(old(rows)))
      ensures nameText == old(nameText) && categoryText == old(categoryText)
      ensures currentImage == old(currentImage) && newImage == old(newImage)
    {
      var name, category := Strip(nameText), Strip(categoryText);
      if name == [] {
        return SaveNeedsName;
      }
      var finalImage := if newImage.Some? then newImage else currentImage;
      var answer := AnswerAt(answers, 0);
      if answer.Some? {
        return DetailsFailed(answer.value);
      }
      var errors := Commit(name, category, finalImage, answers, now);
      outcome := Saved(errors);
    }

    /** The part of `save_changes` after `update_activity` has been accepted. */
    method Commit(name: string, category: string, image: Option<Bytes>, answers: seq<Answer>, now: string)
      returns (errors: seq<SaveError>)
      modifies this, db
      ensures state == ClosedAccepted
      ensures db.activities == UpdatedActivity(old(db.activities), activityId, name, Some(category), image, now)
      ensures var s := SavePass(old(db.tasks), activityId, old(rows), old(toDelete), answers);
        db.tasks == s.tasks && rows == s.rows && toDelete == s.toDelete && errors == s.errors
      ensures Agrees(old(db.tasks), activityId, old(rows), old(toDelete)) && AllSucceed(answers) ==>
        errors == [] && ExtendsWith(KeptRows(old(rows)), GetTasks(db.tasks, activityId), NewDescriptions(old(rows)))
      ensures nameText == old(nameText) && categoryText == old(categoryText)
      ensures currentImage == old(currentImage) && newImage == old(newImage)
    {
      db.UpdateActivity(activityId, name, Some(category), image, now);
      errors := SaveTasks(answers);
      state := ClosedAccepted;
    }

    /** The task part of `save_changes`: the row loop, then the delete loop. */
    method SaveTasks(answers: seq<Answer>) returns (errors: seq<SaveError>)
      modifies this, db
      ensures var s := SavePass(old(db.tasks), activityId, old(rows), old(toDelete), answers);
        db.tasks == s.tasks && rows == s.rows && toDelete == s.toDelete && errors == s.errors
      ensures Agrees(old(db.tasks), activityId, old(rows), old(toDelete)) && AllSucceed(answers) ==>
        errors == [] && ExtendsWith(KeptRows(old(rows)), GetTasks(db.tasks, activityId), NewDescriptions(old(rows)))
      ensures db.activities == old(db.activities)
      ensures nameText == old(nameText) && categoryText == old(categoryText)
      ensures currentImage == old(currentImage) && newImage == old(newImage) && state == old(state)
    {
      var calls;
      errors, calls := SaveRows(answers);
      errors, calls := RunDeletes(answers, errors, calls);
      if Agrees(old(db.tasks), activityId, old(rows), old(toDelete)) && AllSucceed(answers) {
        SaveListed(old(db.tasks), activityId, old(rows), old(toDelete), answers);
      }
    }

    /** The row loop of `save_changes`. */
    method SaveRows(answers: seq<Answer>) returns (errors: seq<SaveError>, calls: nat)
      modifies this, db
      ensures Pass(db.tasks, rows, toDelete, errors, calls)
        == RowsPass(Pass(old(db.tasks), old(rows), old(toDelete), [], 1), activityId, answers, Actions(old(rows)), |old(rows)|)
      ensures db.activities == old(db.activities)
      ensures nameText == old(nameText) && categoryText == old(categoryText)
      ensures currentImage == old(currentImage) && newImage == old(newImage) && state == old(state)
    {
      ghost var p, acts := Pass(db.tasks, rows, toDelete, [], 1), Actions(rows);
      errors, calls := [], 1;
      var n := |rows|;
      for i := 0 to n
        invariant Pass(db.tasks, rows, toDelete, errors, calls) == RowsPass(p, activityId, answers, acts, i)
        invariant db.activities == old(db.activities)
        invariant nameText == old(nameText) && categoryText == old(categoryText)
        invariant currentImage == old(currentImage) && newImage == old(newImage) && state == old(state)
      {
        errors, calls := SaveRow(answers, i, Decide(rows[i]), errors, calls);
      }
    }

    /** One row of the row loop, whose action is `a`. */
    method SaveRow(answers: seq<Answer>, i: nat, a: Action, errors0: seq<SaveError>, calls0: nat)
      returns (errors: seq<SaveError>, calls: nat)
      requires i < |rows|
      modifies this, db
      ensures Pass(db.tasks, rows, toDelete, errors, calls)
        == ActionStep(Pass(old(db.tasks), old(rows), old(toDelete), errors0, calls0), activityId, answers, i, a)
      ensures db.activities == old(db.activities)
      ensures nameText == old(nameText) && categoryText == old(categoryText)
      ensures currentImage == old(currentImage) && newImage == old(newImage) && state == old(state)
    {
      errors, calls := errors0, calls0;
      match a
      case AddTask(description) =>
        var answer := AnswerAt(answers, calls);
        if answer.Some? {
          errors := errors + [AddFailed(Truncated(description, 20), answer.value)];
        } else {
          var newId := db.AddTask(activityId, description);
          rows := rows[i := rows[i].(taskId := Some(newId))];
        }
        calls := calls + 1;
      case SkipRow =>
      case UpdateTask(id, description, completed) =>
        var answer := AnswerAt(answers, calls);
        if answer.Some? {
          errors := errors + [UpdateFailed(id, answer.value)];
        } else {
          db.UpdateTask(id, description, completed);
        }
        calls := calls + 1;
      case DeleteTask(id) =>
        if id !in toDelete {
          toDelete := toDelete + [id];
        }
    }

    /** The delete loop of `save_changes`: one `delete_task` per id on the delete list. */
    method RunDeletes(answers: seq<Answer>, errors0: seq<SaveError>, calls0: nat) returns (errors: seq<SaveError>, calls: nat)
      modifies db
      ensures Pass(db.tasks, rows, toDelete, errors, calls)
        == DeletesPass(Pass(old(db.tasks), rows, toDelete, errors0, calls0), answers, toDelete)
      ensures db.activities == old(db.activities)
    {
      ghost var p := Pass(db.tasks, rows, toDelete, errors0, calls0);
      errors, calls := errors0, calls0;
      for j := 0 to |toDelete|
        invariant Pass(db.tasks, rows, toDelete, errors, calls) == DeletesPass(p, answers, toDelete[..j])
        invariant db.activities == old(db.activities)
      {
        DeletesPassSnoc(p, answers, toDelete, j);
        var answer := AnswerAt(answers, calls);
        if answer.Some? {
          errors := errors + [DeleteFailed(toDelete[j], answer.value)];
        } else {
          db.DeleteTask(toDelete[j]);
        }
        calls := calls + 1;
      }
      assert toDelete[..|toDelete|] == toDelete;
    }

    /**
     * `remove_image`: when there is an image and the user confirms, the new image becomes
     * empty bytes, which a save stores in place of the image.
     */
    method RemoveImage(confirmed: bool)
      modifies this
      ensures newImage == (if (HasImage(old(currentImage)) || HasImage(old(newImage))) && confirmed then Some([]) else old(newImage))
      ensures newImage != old(newImage) ==> KeptImage(currentImage, newImage) == Some([])
      ensures nameText == old(nameText) && categoryText == old(categoryText) && rows == old(rows)
      ensures toDelete == old(toDelete) && currentImage == old(currentImage) && state == old(state)
    {
      if HasImage(currentImage) || HasImage(newImage) {
        if confirmed {
          newImage := Some([]);
        }
      }
    }
  }

  /**
   * Taking the row at `k` out and putting its id, if any, on the delete list unless already
   * there keeps the dialog in agreement with the store.
   */
  lemma DeletedRowAgrees(tasks: Tasks, activityId: int, rows: seq<Row>, toDelete: seq<int>, k: int)
    requires 0 <= k < |rows| && Agrees(tasks, activityId, rows, toDelete)
    ensures var id := rows[k].taskId;
      Agrees(tasks, activityId, RemovedAt(rows, k),
             if id.Some? && id.value !in toDelete then toDelete + [id.value] else toDelete)
  {
    var id := rows[k].taskId;
    RemovedAtShaped(rows, k);
    RemovedAtSaved(rows, k);
    if id.Some? {
      SavedIdsAt(rows, id.value);
      ElementsSnoc(toDelete, id.value);
    }
  }

  // ----- the display settings --------------------------------------------------------------

  const ViewModes: seq<string> := ["list", "tiles", "icons"]
  const SortKeys: seq<string> := ["name", "category", "completion"]

  class ActivityDisplayWidget {
    const db: DatabaseManager
    var viewMode: string
    var sortBy: string
    var searchTerm: string

    predicate Valid()
      reads this
    {
      viewMode in ViewModes && sortBy in SortKeys
    }

    constructor(db: DatabaseManager)
      ensures this.db == db && viewMode == "tiles" && sortBy == "name" && searchTerm == []
      ensures Valid()
    {
      this.db := db;
      viewMode := "tiles";
      sortBy := "name";
      searchTerm := [];
    }

    /** The activities `update_display` shows: the store's listing for the current settings. */
    function Shown(): (r: seq<ActivityRow>)
      reads this, db
      ensures SortedBy(KeyOf(sortBy), db.tasks, r) && DistinctIds(r)
      ensures ListsMatching(db.activities, searchTerm, r) && RowsAsStored(db.activities, searchTerm, r)
    {
      GetActivities(db.activities, db.tasks, searchTerm, sortBy)
    }

    /** `set_view_mode`: a mode outside the three known ones is ignored. */
    method SetViewMode(mode: string)
      modifies this
      ensures viewMode == (if mode in ViewModes then mode else old(viewMode))
      ensures sortBy == old(sortBy) && searchTerm == old(searchTerm)
      ensures old(Valid()) ==> Valid()
    {
      if mode in ViewModes {
        viewMode := mode;
      }
    }

    /** `set_sort_by`: a key outside the three known ones is ignored. */
    method SetSortBy(sortKey: string)
      modifies this
      ensures sortBy == (if sortKey in SortKeys then sortKey else old(sortBy))
      ensures viewMode == old(viewMode) && searchTerm == old(searchTerm)
      ensures old(Valid()) ==> Valid()
    {
      if sortKey in SortKeys {
        sortBy := sortKey;
      }
    }
  }
}
