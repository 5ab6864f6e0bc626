/**
 * The two tables of database_manager.py (`activities` and `tasks`), the rows its queries
 * return, and the per-activity aggregates its completion queries compute.
 */
module Schema {
  import opened Common

  /** A row of `activities`; the key (`id`) is the map key of `Activities`. */
  datatype Activity = Activity(
    name: string,
    category: Option<string>,
    image: Option<Bytes>,
    createdAt: string,
    modifiedAt: string)

  /**
   * A row of `tasks`. `activity_id` is declared as a foreign key, but SQLite does not enforce
   * foreign keys unless asked to, and the store never asks, so nothing ties it to `activities`.
   */
  datatype Task = Task(activityId: int, description: string, completed: bool)

  type Activities = map<int, Activity>
  type Tasks = map<int, Task>

  /** A row of `SELECT id, description, completed FROM tasks WHERE activity_id = ?`. */
  datatype TaskRow = TaskRow(id: int, description: string, completed: bool)

  /** A row of `SELECT name, category, image FROM activities WHERE id = ?`. */
  datatype ActivityDetails = ActivityDetails(name: string, category: Option<string>, image: Option<Bytes>)

  /** A row of `SELECT id, name, category, image, created_at, modified_at FROM activities`. */
  datatype ActivityRow = ActivityRow(
    id: int,
    name: string,
    category: Option<string>,
    image: Option<Bytes>,
    createdAt: string,
    modifiedAt: string)

  function RowOf(id: int, a: Activity): ActivityRow {
    ActivityRow(id, a.name, a.category, a.image, a.createdAt, a.modifiedAt)
  }

  /** The ids of the tasks whose `activity_id` is `activityId`. */
  function TaskIdsOf(tasks: Tasks, activityId: int): set<int> {
    set t | t in tasks && tasks[t].activityId == activityId
  }

  /** The ids of those tasks that are completed. */
  function CompletedIdsOf(tasks: Tasks, activityId: int): (r: set<int>)
    ensures r <= TaskIdsOf(tasks, activityId)
  {
    set t | t in tasks && tasks[t].activityId == activityId && tasks[t].completed
  }

  /** completed / total, kept as an exact fraction. */
  datatype Ratio = Ratio(completed: nat, total: nat)

  /**
   * `SUM(CASE WHEN completed THEN 1 ELSE 0 END) / COUNT(...)` over an activity's tasks: NULL
   * (`None`) when it has no task, since SQLite's division by zero yields NULL.
   */
  function CompletionRatio(tasks: Tasks, activityId: int): (r: Option<Ratio>)
    ensures r.None? <==> TaskIdsOf(tasks, activityId) == {}
    ensures r.Some? ==> 0 < r.value.total && r.value.completed <= r.value.total
  {
    var all := TaskIdsOf(tasks, activityId);
    var done := CompletedIdsOf(tasks, activityId);
    if all == {} then None
    else
      assert |done| <= |all| by { SubsetCard(done, all); }
      Some(Ratio(|done|, |all|))
  }

  lemma SubsetCard(a: set<int>, b: set<int>)
    requires a <= b
    ensures |a| <= |b|
  {
    assert b == a + (b - a);
  }
}
