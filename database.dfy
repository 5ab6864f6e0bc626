/**
 * database_manager.py: the store of activities and their tasks, kept in two SQLite tables.
 *
 * The read-only queries (`get_tasks`, `get_activity`, `get_activity_completion`,
 * `get_activities`) are functions of the two tables. The statements that change the tables
 * are functions from the old tables to the new ones, and the methods of `DatabaseManager`
 * apply them to its two fields.
 */
module Database {
  import opened Common
  import opened Text
  import opened Sqlite
  import opened Schema
  import opened Ordering

  // ----- task lists ----------------------------------------------------------------------

  /** The ids of a task list, in order. */
  function Ids(rows: seq<TaskRow>): (r: seq<int>)
    ensures |r| == |rows| && forall i :: 0 <= i < |rows| ==> r[i] == rows[i].id
  {
    seq(|rows|, i requires 0 <= i < |rows| => rows[i].id)
  }

  /** Every row is a task of the activity, with its stored description and state. */
  predicate RowsOfTasks(tasks: Tasks, activityId: int, rows: seq<TaskRow>) {
    forall i :: 0 <= i < |rows| ==>
      rows[i].id in tasks && tasks[rows[i].id] == Task(activityId, rows[i].description, rows[i].completed)
  }

  /** Every task of the activity has a row. */
  predicate CoversTasks(tasks: Tasks, activityId: int, rows: seq<TaskRow>) {
    forall id :: id in TaskIdsOf(tasks, activityId) ==> id in Ids(rows)
  }

  /** The rows are in rowid order. */
  predicate IdsIncrease(rows: seq<TaskRow>) {
    forall i, j :: 0 <= i < j < |rows| ==> rows[i].id < rows[j].id
  }

  function TaskRowsAt(tasks: Tasks, ids: seq<int>): (r: seq<TaskRow>)
    requires forall i :: 0 <= i < |ids| ==> ids[i] in tasks
    ensures |r| == |ids|
    ensures forall i :: 0 <= i < |ids| ==>
      r[i] == TaskRow(ids[i], tasks[ids[i]].description, tasks[ids[i]].completed)
  {
    seq(|ids|, i requires 0 <= i < |ids| => TaskRow(ids[i], tasks[ids[i]].description, tasks[ids[i]].completed))
  }

  lemma AscendingTaskIds(tasks: Tasks, activityId: int)
    ensures forall i :: 0 <= i < |Ascending(TaskIdsOf(tasks, activityId))| ==>
      Ascending(TaskIdsOf(tasks, activityId))[i] in tasks
      && tasks[Ascending(TaskIdsOf(tasks, activityId))[i]].activityId == activityId
  {
    AscendingIn(TaskIdsOf(tasks, activityId));
  }

  lemma RowsAtOfTasks(tasks: Tasks, activityId: int, ids: seq<int>)
    requires forall i :: 0 <= i < |ids| ==> ids[i] in tasks && tasks[ids[i]].activityId == activityId
    ensures RowsOfTasks(tasks, activityId, TaskRowsAt(tasks, ids))
  {
  }

  lemma IdsOfRowsAt(tasks: Tasks, ids: seq<int>)
    requires forall i :: 0 <= i < |ids| ==> ids[i] in tasks
    ensures Ids(TaskRowsAt(tasks, ids)) == ids
  {
  }

  lemma IncreasingIds(rows: seq<TaskRow>)
    ensures IdsIncrease(rows) <==> StrictlyIncreasing(Ids(rows))
  {
  }

  /**
   * `get_tasks(activity_id)`: a row for each task of the activity and for nothing else, in
   * rowid order (the statement has no ORDER BY; a full scan of a rowid table yields that order).
   */
  function GetTasks(tasks: Tasks, activityId: int): (r: seq<TaskRow>)
    ensures RowsOfTasks(tasks, activityId, r)
    ensures CoversTasks(tasks, activityId, r)
    ensures IdsIncrease(r)
    ensures |r| == |TaskIdsOf(tasks, activityId)|
  {
    var ids := Ascending(TaskIdsOf(tasks, activityId));
    AscendingTaskIds(tasks, activityId);
    RowsAtOfTasks(tasks, activityId, ids);
    IdsOfRowsAt(tasks, ids);
    IncreasingIds(TaskRowsAt(tasks, ids));
    TaskRowsAt(tasks, ids)
  }

  /** The ids a complete task list holds are exactly the activity's task ids. */
  lemma ListedIdsAre(tasks: Tasks, activityId: int, rows: seq<TaskRow>)
    requires RowsOfTasks(tasks, activityId, rows) && CoversTasks(tasks, activityId, rows)
    ensures forall x :: x in Ids(rows) <==> x in TaskIdsOf(tasks, activityId)
  {
    forall x | x in Ids(rows) ensures x in TaskIdsOf(tasks, activityId) {
      var i :| 0 <= i < |rows| && Ids(rows)[i] == x;
      assert rows[i].id == x;
    }
  }

  /** Two lists of the activity's tasks with the same ids are the same list. */
  lemma RowsFromIds(tasks: Tasks, activityId: int, a: seq<TaskRow>, b: seq<TaskRow>)
    requires RowsOfTasks(tasks, activityId, a) && RowsOfTasks(tasks, activityId, b)
    requires Ids(a) == Ids(b)
    ensures a == b
  {
    assert |a| == |b|;
    forall i | 0 <= i < |a| ensures a[i] == b[i] {
      assert Ids(a)[i] == Ids(b)[i];
    }
  }

  /**
   * `get_tasks` is determined by what it promises: a list in rowid order of rows that are the
   * activity's tasks, covering all of them, is the activity's task list.
   */
  lemma TasksListedAs(tasks: Tasks, activityId: int, want: seq<TaskRow>)
    requires IdsIncrease(want)
    requires RowsOfTasks(tasks, activityId, want)
    requires CoversTasks(tasks, activityId, want)
    ensures GetTasks(tasks, activityId) == want
  {
    var got := GetTasks(tasks, activityId);
    ListedIdsAre(tasks, activityId, got);
    ListedIdsAre(tasks, activityId, want);
    IncreasingIds(got);
    IncreasingIds(want);
    IncreasingUnique(Ids(got), Ids(want));
    RowsFromIds(tasks, activityId, got, want);
  }

  /** Rows at the same ids of two tables that agree on those ids. */
  lemma RowsAtAgree(t1: Tasks, t2: Tasks, ids: seq<int>)
    requires forall i :: 0 <= i < |ids| ==> ids[i] in t1 && ids[i] in t2 && t1[ids[i]] == t2[ids[i]]
    ensures TaskRowsAt(t1, ids) == TaskRowsAt(t2, ids)
  {
  }

  /** Two tables that agree on an activity's tasks list the same tasks for it. */
  lemma SameTasksListed(t1: Tasks, t2: Tasks, activityId: int)
    requires forall id :: id in t1 && t1[id].activityId == activityId ==> id in t2 && t2[id] == t1[id]
    requires forall id :: id in t2 && t2[id].activityId == activityId ==> id in t1 && t1[id] == t2[id]
    ensures GetTasks(t1, activityId) == GetTasks(t2, activityId)
  {
    var s := TaskIdsOf(t1, activityId);
    forall x ensures x in s <==> x in TaskIdsOf(t2, activityId) {
    }
    assert s == TaskIdsOf(t2, activityId);
    AscendingTaskIds(t1, activityId);
    RowsAtAgree(t1, t2, Ascending(s));
  }

  // ----- the other queries ------------------------------------------------------------------

  /** `get_activity(activity_id)`: the name, category and image of that activity, if any. */
  function GetActivity(activities: Activities, activityId: int): (r: Option<ActivityDetails>)
    ensures r.None? <==> activityId !in activities
    ensures r.Some? ==> (r.value.name == activities[activityId].name
      && r.value.category == activities[activityId].category
      && r.value.image == activities[activityId].image)
  {
    if activityId in activities then
      var a := activities[activityId];
      Some(ActivityDetails(a.name, a.category, a.image))
    else None
  }

  function Fraction(q: Ratio): real
    requires q.total > 0
  {
    q.completed as real / q.total as real
  }

  /**
   * `get_activity_completion(activity_id)`: the share of the activity's tasks that are
   * completed, a number in [0, 1]; 0 for an activity without tasks (`NULL or 0`).
   */
  function GetActivityCompletion(tasks: Tasks, activityId: int): (r: real)
    ensures 0.0 <= r <= 1.0
    ensures TaskIdsOf(tasks, activityId) == {} ==> r == 0.0
    ensures r * (|TaskIdsOf(tasks, activityId)| as real) == |CompletedIdsOf(tasks, activityId)| as real
  {
    match CompletionRatio(tasks, activityId)
    case None => 0.0
    case Some(q) => Fraction(q)
  }

  /** `name LIKE '%term%' OR category LIKE '%term%'`; a NULL category matches no pattern. */
  predicate Matches(a: Activity, term: string) {
    Like(a.name, Infix(term)) || (a.category.Some? && Like(a.category.value, Infix(term)))
  }

  function MatchingIds(activities: Activities, term: string): set<int> {
    set id | id in activities && Matches(activities[id], term)
  }

  /** The ids of a listing, in order. */
  function ListedIds(rows: seq<ActivityRow>): (r: seq<int>)
    ensures |r| == |rows| && forall i :: 0 <= i < |rows| ==> r[i] == rows[i].id
  {
    seq(|rows|, i requires 0 <= i < |rows| => rows[i].id)
  }

  /** The listing has a row for activity `id`. */
  predicate Lists(rows: seq<ActivityRow>, id: int) {
    id in ListedIds(rows)
  }

  /** Every row is a matching activity, as stored. */
  predicate RowsAsStored(activities: Activities, term: string, rows: seq<ActivityRow>) {
    forall i :: 0 <= i < |rows| ==>
      rows[i].id in activities && rows[i] == RowOf(rows[i].id, activities[rows[i].id])
      && Matches(activities[rows[i].id], term)
  }

  /** Every matching activity has a row. */
  predicate ListsMatching(activities: Activities, term: string, rows: seq<ActivityRow>) {
    forall id :: id in MatchingIds(activities, term) ==> Lists(rows, id)
  }

  function ActivityRowsAt(activities: Activities, ids: seq<int>): (r: seq<ActivityRow>)
    requires forall i :: 0 <= i < |ids| ==> ids[i] in activities
    ensures |r| == |ids|
    ensures forall i :: 0 <= i < |ids| ==> r[i] == RowOf(ids[i], activities[ids[i]])
  {
    seq(|ids|, i requires 0 <= i < |ids| => RowOf(ids[i], activities[ids[i]]))
  }

  lemma AscendingMatching(activities: Activities, term: string)
    ensures forall i :: 0 <= i < |Ascending(MatchingIds(activities, term))| ==>
      Ascending(MatchingIds(activities, term))[i] in activities
      && Matches(activities[Ascending(MatchingIds(activities, term))[i]], term)
  {
    AscendingIn(MatchingIds(activities, term));
  }

  lemma ActivityRowsAtIds(activities: Activities, ids: seq<int>)
    requires forall i :: 0 <= i < |ids| ==> ids[i] in activities
    ensures ListedIds(ActivityRowsAt(activities, ids)) == ids
  {
  }

  lemma ActivityRowsAtDistinct(activities: Activities, ids: seq<int>)
    requires StrictlyIncreasing(ids)
    requires forall i :: 0 <= i < |ids| ==> ids[i] in activities
    ensures DistinctIds(ActivityRowsAt(activities, ids))
  {
  }

  /** The rows of the activities that match `term`, in rowid order (before sorting). */
  function MatchingRows(activities: Activities, term: string): (rows: seq<ActivityRow>)
    ensures DistinctIds(rows)
    ensures RowsAsStored(activities, term, rows)
    ensures ListsMatching(activities, term, rows)
  {
    var ids := Ascending(MatchingIds(activities, term));
    AscendingMatching(activities, term);
    ActivityRowsAtIds(activities, ids);
    ActivityRowsAtDistinct(activities, ids);
    ActivityRowsAt(activities, ids)
  }

  /** Two sequences with the same multiset have the same elements. */
  lemma SameElements(r: seq<ActivityRow>, rows: seq<ActivityRow>)
    requires multiset(r) == multiset(rows)
    ensures forall x :: x in r <==> x in rows
  {
    forall x ensures x in r <==> x in rows {
      assert x in r <==> x in multiset(r);
      assert x in rows <==> x in multiset(rows);
    }
  }

  lemma ReorderedAsStored(activities: Activities, term: string, r: seq<ActivityRow>, rows: seq<ActivityRow>)
    requires forall x :: x in r ==> x in rows
    requires RowsAsStored(activities, term, rows)
    ensures RowsAsStored(activities, term, r)
  {
    forall i | 0 <= i < |r|
      ensures r[i].id in activities && r[i] == RowOf(r[i].id, activities[r[i].id])
        && Matches(activities[r[i].id], term)
    {
      assert r[i] in rows;
    }
  }

  lemma ReorderedListsMatching(activities: Activities, term: string, r: seq<ActivityRow>, rows: seq<ActivityRow>)
    requires forall x :: x in rows ==> x in r
    requires ListsMatching(activities, term, rows)
    ensures ListsMatching(activities, term, r)
  {
    forall id | id in MatchingIds(activities, term) ensures Lists(r, id) {
      assert id in ListedIds(rows);
      var k :| 0 <= k < |rows| && ListedIds(rows)[k] == id;
      assert rows[k] in r;
      var i :| 0 <= i < |r| && r[i] == rows[k];
      assert ListedIds(r)[i] == id;
    }
  }

  /** Rows as stored that are sorted have distinct ids: a row never precedes itself. */
  lemma SortedDistinct(key: SortKey, activities: Activities, tasks: Tasks, term: string, r: seq<ActivityRow>)
    requires SortedBy(key, tasks, r) && RowsAsStored(activities, term, r)
    ensures DistinctIds(r)
  {
    forall i, j | 0 <= i < j < |r| ensures r[i].id != r[j].id {
      PrecedesIrreflexive(key, tasks, r[i]);
    }
  }

  /**
   * `get_activities(search_term, sort_by)`: the rows of exactly the activities that match the
   * search term, each row as stored, sorted by the key `sort_by` selects.
   */
  function GetActivities(activities: Activities, tasks: Tasks, searchTerm: string, sortBy: string): (r: seq<ActivityRow>)
    ensures SortedBy(KeyOf(sortBy), tasks, r)
    ensures DistinctIds(r)
    ensures RowsAsStored(activities, searchTerm, r)
    ensures ListsMatching(activities, searchTerm, r)
  {
    var rows := MatchingRows(activities, searchTerm);
    var r := SortRows(KeyOf(sortBy), tasks, rows);
    SameElements(r, rows);
    ReorderedAsStored(activities, searchTerm, r, rows);
    ReorderedListsMatching(activities, searchTerm, r, rows);
    SortedDistinct(KeyOf(sortBy), activities, tasks, searchTerm, r);
    r
  }

  // ----- properties of the listing --------------------------------------------------------

  predicate NotAfter(a: string, b: string) {
    a == b || Less(a, b)
  }

  /** Sorted by "name": names never decrease along the listing. */
  lemma ListingByName(activities: Activities, tasks: Tasks, term: string, i: int, j: int)
    requires 0 <= i < j < |GetActivities(activities, tasks, term, "name")|
    ensures var r := GetActivities(activities, tasks, term, "name");
      NotAfter(r[i].name, r[j].name)
  {
    var r := GetActivities(activities, tasks, term, "name");
    assert Precedes(ByName, tasks, r[i], r[j]);
  }

  /**
   * Sorted by "category": categories never decrease (NULL first), and names never decrease
   * within one category.
   */
  lemma ListingByCategory(activities: Activities, tasks: Tasks, term: string, i: int, j: int)
    requires 0 <= i < j < |GetActivities(activities, tasks, term, "category")|
    ensures var r := GetActivities(activities, tasks, term, "category");
      (r[i].category == r[j].category || CategoryBefore(r[i].category, r[j].category))
      && (r[j].category.None? ==> r[i].category.None?)
      && (r[i].category == r[j].category ==> NotAfter(r[i].name, r[j].name))
  {
    var r := GetActivities(activities, tasks, term, "category");
    assert Precedes(ByCategory, tasks, r[i], r[j]);
    CategoryFacts(r[i].category, r[j].category, r[j].category);
  }

  /** A positive factor keeps the sign of a real number. */
  lemma RealSign(d: real, k: real)
    requires k > 0.0
    ensures d >= 0.0 <==> d * k >= 0.0
    ensures d == 0.0 <==> d * k == 0.0
  {
    if d < 0.0 {
      assert d * k < 0.0;
    } else if d > 0.0 {
      assert d * k > 0.0;
    }
  }

  /** Cross-multiplication compares the two fractions. */
  lemma FractionOrder(x: Ratio, y: Ratio)
    requires x.total > 0 && y.total > 0
    ensures Fraction(x) >= Fraction(y) <==> Cross(x, y) >= 0
    ensures Fraction(x) == Fraction(y) <==> Cross(x, y) == 0
  {
    var u, v := Fraction(x), Fraction(y);
    var a, b := x.total as real, y.total as real;
    assert u * a == x.completed as real;
    assert v * b == y.completed as real;
    assert Cross(x, y) as real == (u - v) * (a * b) by {
      calc {
        Cross(x, y) as real;
        x.completed as real * b - y.completed as real * a;
        u * a * b - v * b * a;
        (u - v) * (a * b);
      }
    }
    assert a * b > 0.0;
    RealSign(u - v, a * b);
  }

  /**
   * Sorted by anything else ("completion"): activities with tasks come first, by completion
   * from high to low; activities without tasks (a NULL ratio) come last; rows with equal ratio
   * are in name order.
   */
  lemma ListingByCompletion(activities: Activities, tasks: Tasks, term: string, sortBy: string, i: int, j: int)
    requires sortBy != "name" && sortBy != "category"
    requires 0 <= i < j < |GetActivities(activities, tasks, term, sortBy)|
    ensures var r := GetActivities(activities, tasks, term, sortBy);
      var a, b := r[i].id, r[j].id;
      (TaskIdsOf(tasks, b) != {} ==> TaskIdsOf(tasks, a) != {})
      && (TaskIdsOf(tasks, b) != {} ==> GetActivityCompletion(tasks, a) >= GetActivityCompletion(tasks, b))
      && ((TaskIdsOf(tasks, a) == {}) == (TaskIdsOf(tasks, b) == {})
          && GetActivityCompletion(tasks, a) == GetActivityCompletion(tasks, b)
          ==> NotAfter(r[i].name, r[j].name))
  {
    var r := GetActivities(activities, tasks, term, sortBy);
    assert Precedes(ByCompletion, tasks, r[i], r[j]);
    var p, q := CompletionRatio(tasks, r[i].id), CompletionRatio(tasks, r[j].id);
    if p.Some? && q.Some? {
      FractionOrder(p.value, q.value);
    }
  }

  /** The empty search term lists every activity. */
  lemma EmptySearchListsAll(activities: Activities, tasks: Tasks, sortBy: string, id: int)
    requires id in activities
    ensures Lists(GetActivities(activities, tasks, "", sortBy), id)
  {
    EmptyTermMatchesAll(activities[id].name);
    assert id in MatchingIds(activities, "");
  }

  /** A listed id is a matching activity. */
  lemma ListedMatches(activities: Activities, term: string, rows: seq<ActivityRow>, id: int)
    requires RowsAsStored(activities, term, rows) && Lists(rows, id)
    ensures id in activities && Matches(activities[id], term)
  {
    var k :| 0 <= k < |rows| && ListedIds(rows)[k] == id;
    assert rows[k].id == id;
  }

  /**
   * For a search term without `%` or `_`, an activity is listed exactly when its name or its
   * category contains the term, ignoring ASCII case.
   */
  lemma SearchIsSubstring(activities: Activities, tasks: Tasks, term: string, sortBy: string, id: int)
    requires NoWildcards(term) && id in activities
    ensures var a := activities[id];
      Lists(GetActivities(activities, tasks, term, sortBy), id)
      <==> ContainsIgnoringCase(a.name, term) || (a.category.Some? && ContainsIgnoringCase(a.category.value, term))
  {
    var a := activities[id];
    LikeInfix(a.name, term);
    if a.category.Some? {
      LikeInfix(a.category.value, term);
    }
    var r := GetActivities(activities, tasks, term, sortBy);
    if Lists(r, id) {
      ListedMatches(activities, term, r, id);
    }
    assert Matches(a, term) ==> id in MatchingIds(activities, term);
  }

  // ----- the statements that change the tables --------------------------------------------

  /** `add_task(activity_id, description)`: a new task under the next rowid, not completed. */
  function AddedTask(tasks: Tasks, activityId: int, description: string): Tasks {
    tasks[NextRowid(tasks.Keys) := Task(activityId, description, false)]
  }

  /** `update_task(task_id, description, completed)`; an unknown id changes nothing. */
  function UpdatedTask(tasks: Tasks, taskId: int, description: string, completed: bool): Tasks {
    if taskId in tasks then tasks[taskId := Task(tasks[taskId].activityId, description, completed)]
    else tasks
  }

  /** `delete_task(task_id)`. */
  function RemovedTask(tasks: Tasks, taskId: int): (r: Tasks)
    ensures taskId !in r
    ensures forall id :: id in r <==> id in tasks && id != taskId
    ensures forall id :: id in r ==> r[id] == tasks[id]
  {
    tasks - {taskId}
  }

  /** `DELETE FROM tasks WHERE activity_id = ?`. */
  function RemovedTasksOf(tasks: Tasks, activityId: int): (r: Tasks)
    ensures forall id :: id in r <==> id in tasks && tasks[id].activityId != activityId
    ensures forall id :: id in r ==> r[id] == tasks[id]
    ensures TaskIdsOf(r, activityId) == {}
  {
    map id | id in tasks && tasks[id].activityId != activityId :: tasks[id]
  }

  /** The image `update_activity` leaves: the given one, or the stored one for `None`. */
  function KeptImage(stored: Option<Bytes>, imageData: Option<Bytes>): Option<Bytes> {
    if imageData.Some? then imageData else stored
  }

  /** `update_activity(activity_id, name, category, image_data)`; an unknown id changes nothing. */
  function UpdatedActivity(activities: Activities, activityId: int, name: string, category: Option<string>,
                           imageData: Option<Bytes>, now: string): Activities
  {
    if activityId in activities then
      var a := activities[activityId];
      activities[activityId := Activity(name, category, KeptImage(a.image, imageData), a.createdAt, now)]
    else activities
  }

  /** One entry of `create_activity`'s initial tasks: stripped, and skipped when blank. */
  function AddedEntry(tasks: Tasks, activityId: int, entry: string): Tasks {
    var description := Strip(entry);
    if description != [] then AddedTask(tasks, activityId, description) else tasks
  }

  /** The tasks `create_activity` inserts: one per entry that is not blank, stripped, in order. */
  function WithInitialTasks(tasks: Tasks, activityId: int, entries: seq<string>): Tasks
    decreases |entries|
  {
    if entries == [] then tasks
    else AddedEntry(WithInitialTasks(tasks, activityId, entries[..|entries| - 1]), activityId, entries[|entries| - 1])
  }

  // ----- what the changes do to the task lists ---------------------------------------------

  lemma AddedTaskIds(tasks: Tasks, activityId: int, description: string)
    ensures TaskIdsOf(AddedTask(tasks, activityId, description), activityId)
      == TaskIdsOf(tasks, activityId) + {NextRowid(tasks.Keys)}
    ensures forall x :: x in TaskIdsOf(tasks, activityId) ==> x < NextRowid(tasks.Keys)
  {
  }

  lemma RowsAtExtend(tasks: Tasks, after: Tasks, ids: seq<int>, k: int)
    requires forall i :: 0 <= i < |ids| ==> ids[i] in tasks && ids[i] in after && after[ids[i]] == tasks[ids[i]]
    requires k in after
    ensures TaskRowsAt(after, ids + [k])
      == TaskRowsAt(tasks, ids) + [TaskRow(k, after[k].description, after[k].completed)]
  {
    var l, r := TaskRowsAt(after, ids + [k]), TaskRowsAt(tasks, ids) + [TaskRow(k, after[k].description, after[k].completed)];
    assert |l| == |r|;
    forall i | 0 <= i < |l| ensures l[i] == r[i] {
      if i < |ids| {
        assert (ids + [k])[i] == ids[i];
      }
    }
  }

  /**
   * `add_task` appends its task to the activity's task list, under a rowid above every rowid
   * in use.
   */
  lemma AddedTaskListed(tasks: Tasks, activityId: int, description: string)
    ensures GetTasks(AddedTask(tasks, activityId, description), activityId)
      == GetTasks(tasks, activityId) + [TaskRow(NextRowid(tasks.Keys), description, false)]
  {
    var k := NextRowid(tasks.Keys);
    var after := AddedTask(tasks, activityId, description);
    var s := TaskIdsOf(tasks, activityId);
    AddedTaskIds(tasks, activityId, description);
    AscendingAddLargest(s, k);
    AscendingTaskIds(tasks, activityId);
    RowsAtExtend(tasks, after, Ascending(s), k);
  }

  /** `add_task` leaves every other activity's task list as it was. */
  lemma AddedTaskElsewhere(tasks: Tasks, activityId: int, description: string, other: int)
    requires other != activityId
    ensures GetTasks(AddedTask(tasks, activityId, description), other) == GetTasks(tasks, other)
  {
    AddedTaskAgrees(tasks, activityId, description, other);
    SameTasksListed(AddedTask(tasks, activityId, description), tasks, other);
  }

  lemma AddedTaskAgrees(tasks: Tasks, activityId: int, description: string, other: int)
    requires other != activityId
    ensures var after := AddedTask(tasks, activityId, description);
      && (forall id :: id in after && after[id].activityId == other ==> id in tasks && tasks[id] == after[id])
      && (forall id :: id in tasks && tasks[id].activityId == other ==> id in after && after[id] == tasks[id])
  {
    var after := AddedTask(tasks, activityId, description);
    var k := NextRowid(tasks.Keys);
    forall id | id in after && after[id].activityId == other ensures id in tasks && tasks[id] == after[id] {
      assert id != k;
    }
    forall id | id in tasks && tasks[id].activityId == other ensures id in after && after[id] == tasks[id] {
      assert id != k;
    }
  }

  lemma UpdatedTaskIds(tasks: Tasks, taskId: int, description: string, completed: bool, activityId: int)
    ensures TaskIdsOf(UpdatedTask(tasks, taskId, description, completed), activityId) == TaskIdsOf(tasks, activityId)
  {
  }

  /**
   * `update_task` keeps every task list's ids and order, gives the row with `taskId` the new
   * description and state, and leaves every other row as it was.
   */
  lemma UpdatedTaskListed(tasks: Tasks, taskId: int, description: string, completed: bool, activityId: int)
    ensures var before, after := GetTasks(tasks, activityId), GetTasks(UpdatedTask(tasks, taskId, description, completed), activityId);
      |after| == |before|
      && forall i :: 0 <= i < |after| ==> (after[i].id == before[i].id
        && after[i] == (if after[i].id == taskId then TaskRow(taskId, description, completed) else before[i]))
  {
    UpdatedTaskIds(tasks, taskId, description, completed, activityId);
    AscendingTaskIds(tasks, activityId);
  }

  /** The rows of `rows` other than the one with id `taskId`, in order. */
  function RowsWithout(rows: seq<TaskRow>, taskId: int): (r: seq<TaskRow>)
    ensures forall i :: 0 <= i < |r| ==> r[i] in rows && r[i].id != taskId
    ensures forall i :: 0 <= i < |rows| && rows[i].id != taskId ==> rows[i] in r
  {
    if rows == [] then []
    else
      var rest := RowsWithout(rows[1..], taskId);
      assert forall i :: 0 <= i < |rest| ==> rest[i] in rows by {
        forall i | 0 <= i < |rest| ensures rest[i] in rows {
          var k :| 0 <= k < |rows[1..]| && rows[1..][k] == rest[i];
          assert rows[k + 1] == rest[i];
        }
      }
      assert forall i :: 1 <= i < |rows| ==> rows[i] == rows[1..][i - 1];
      if rows[0].id == taskId then rest else [rows[0]] + rest
  }

  lemma TailIncrease(rows: seq<TaskRow>)
    requires rows != [] && IdsIncrease(rows)
    ensures IdsIncrease(rows[1..])
  {
    var tail := rows[1..];
    forall i, j | 0 <= i < j < |tail| ensures tail[i].id < tail[j].id {
      assert tail[i] == rows[i + 1] && tail[j] == rows[j + 1];
    }
  }

  lemma HeadBelowRest(rows: seq<TaskRow>, taskId: int)
    requires rows != [] && IdsIncrease(rows)
    ensures forall k :: 0 <= k < |RowsWithout(rows[1..], taskId)| ==> rows[0].id < RowsWithout(rows[1..], taskId)[k].id
  {
    var tail := rows[1..];
    var rest := RowsWithout(tail, taskId);
    forall k | 0 <= k < |rest| ensures rows[0].id < rest[k].id {
      var m :| 0 <= m < |tail| && tail[m] == rest[k];
      assert rows[m + 1] == rest[k];
    }
  }

  lemma ConsIncrease(h: TaskRow, rest: seq<TaskRow>)
    requires IdsIncrease(rest)
    requires forall k :: 0 <= k < |rest| ==> h.id < rest[k].id
    ensures IdsIncrease([h] + rest)
  {
    var r := [h] + rest;
    forall i, j | 0 <= i < j < |r| ensures r[i].id < r[j].id {
      assert r[j] == rest[j - 1];
      if i > 0 {
        assert r[i] == rest[i - 1];
      }
    }
  }

  lemma {:induction false} RowsWithoutIds(rows: seq<TaskRow>, taskId: int)
    requires IdsIncrease(rows)
    ensures IdsIncrease(RowsWithout(rows, taskId))
  {
    if rows != [] {
      TailIncrease(rows);
      RowsWithoutIds(rows[1..], taskId);
      if rows[0].id != taskId {
        HeadBelowRest(rows, taskId);
        ConsIncrease(rows[0], RowsWithout(rows[1..], taskId));
      }
    }
  }

  lemma RowsWithoutOfTasks(tasks: Tasks, activityId: int, rows: seq<TaskRow>, taskId: int)
    requires RowsOfTasks(tasks, activityId, rows)
    ensures RowsOfTasks(RemovedTask(tasks, taskId), activityId, RowsWithout(rows, taskId))
  {
    var want := RowsWithout(rows, taskId);
    forall i | 0 <= i < |want|
      ensures want[i].id in tasks && tasks[want[i].id] == Task(activityId, want[i].description, want[i].completed)
    {
      var k :| 0 <= k < |rows| && rows[k] == want[i];
    }
  }

  lemma RowsWithoutCovers(tasks: Tasks, activityId: int, rows: seq<TaskRow>, taskId: int)
    requires CoversTasks(tasks, activityId, rows)
    ensures CoversTasks(RemovedTask(tasks, taskId), activityId, RowsWithout(rows, taskId))
  {
    var after := RemovedTask(tasks, taskId);
    var want := RowsWithout(rows, taskId);
    forall id | id in TaskIdsOf(after, activityId) ensures id in Ids(want) {
      assert id in TaskIdsOf(tasks, activityId);
      var k :| 0 <= k < |rows| && Ids(rows)[k] == id;
      assert rows[k] in want;
      var i :| 0 <= i < |want| && want[i] == rows[k];
      assert Ids(want)[i] == id;
    }
  }

  /** `delete_task` drops its row from its activity's task list and keeps the rest in order. */
  lemma RemovedTaskListed(tasks: Tasks, taskId: int, activityId: int)
    ensures GetTasks(RemovedTask(tasks, taskId), activityId) == RowsWithout(GetTasks(tasks, activityId), taskId)
  {
    var before := GetTasks(tasks, activityId);
    RowsWithoutIds(before, taskId);
    RowsWithoutOfTasks(tasks, activityId, before, taskId);
    RowsWithoutCovers(tasks, activityId, before, taskId);
    TasksListedAs(RemovedTask(tasks, taskId), activityId, RowsWithout(before, taskId));
  }

  /** Deleting a task twice is deleting it once. */
  lemma RemoveTaskIdempotent(tasks: Tasks, taskId: int)
    ensures RemovedTask(RemovedTask(tasks, taskId), taskId) == RemovedTask(tasks, taskId)
  {
  }

  /** `update_task` with an id no task has changes nothing. */
  lemma UpdateUnknownTask(tasks: Tasks, taskId: int, description: string, completed: bool)
    requires taskId !in tasks
    ensures UpdatedTask(tasks, taskId, description, completed) == tasks
  {
  }

  /**
   * `delete_activity` leaves the activity no tasks, leaves every other activity's task list
   * as it was, and a second call changes nothing more.
   */
  lemma RemovedTasksOfListed(tasks: Tasks, activityId: int, other: int)
    ensures GetTasks(RemovedTasksOf(tasks, activityId), activityId) == []
    ensures other != activityId ==> GetTasks(RemovedTasksOf(tasks, activityId), other) == GetTasks(tasks, other)
    ensures RemovedTasksOf(RemovedTasksOf(tasks, activityId), activityId) == RemovedTasksOf(tasks, activityId)
  {
    var after := RemovedTasksOf(tasks, activityId);
    if other != activityId {
      SameTasksListed(after, tasks, other);
    }
  }

  /**
   * `update_activity`: the activity gets the new name, category and modification date, keeps
   * its creation date, and keeps its image exactly when `imageData` is `None` (an empty byte
   * string replaces it like any other); every other activity is unchanged, and an unknown id
   * changes nothing.
   */
  lemma UpdatedActivityDetails(activities: Activities, activityId: int, name: string, category: Option<string>,
                               imageData: Option<Bytes>, now: string, other: int)
    ensures var after := UpdatedActivity(activities, activityId, name, category, imageData, now);
      after.Keys == activities.Keys
      && (other != activityId && other in activities ==> after[other] == activities[other])
      && (activityId in activities ==>
            GetActivity(after, activityId) == Some(ActivityDetails(name, category,
              if imageData.None? then activities[activityId].image else imageData))
            && after[activityId].modifiedAt == now
            && after[activityId].createdAt == activities[activityId].createdAt)
      && (activityId !in activities ==> after == activities)
  {
  }

  /** `WithInitialTasks` on a prefix one entry longer. */
  lemma InitialTasksSnoc(tasks: Tasks, activityId: int, entries: seq<string>, i: int)
    requires 0 <= i < |entries|
    ensures WithInitialTasks(tasks, activityId, entries[..i + 1])
      == AddedEntry(WithInitialTasks(tasks, activityId, entries[..i]), activityId, entries[i])
  {
    var e := entries[..i + 1];
    assert e[..|e| - 1] == entries[..i] && e[|e| - 1] == entries[i];
  }

  /** `after` is `before` followed by new rows with the descriptions `added`, none completed. */
  predicate ExtendsWith(before: seq<TaskRow>, after: seq<TaskRow>, added: seq<string>) {
    |after| == |before| + |added| && after[..|before|] == before
    && forall i :: 0 <= i < |added| ==> after[|before| + i].description == added[i] && !after[|before| + i].completed
  }

  lemma ExtendsWithStep(before: seq<TaskRow>, mid: seq<TaskRow>, added: seq<string>, row: TaskRow)
    requires ExtendsWith(before, mid, added) && !row.completed
    ensures ExtendsWith(before, mid + [row], added + [row.description])
  {
    var a, d := mid + [row], added + [row.description];
    assert a[..|before|] == mid[..|before|];
    forall i | 0 <= i < |d| ensures a[|before| + i].description == d[i] && !a[|before| + i].completed {
      if i < |added| {
        assert a[|before| + i] == mid[|before| + i] && d[i] == added[i];
      }
    }
  }

  /** One more entry: `create_activity`'s loop adds its task, if the entry is not blank. */
  lemma InitialTaskStep(tasks: Tasks, activityId: int, entries: seq<string>)
    requires entries != []
    ensures var init, d := entries[..|entries| - 1], Strip(entries[|entries| - 1]);
      var mid := WithInitialTasks(tasks, activityId, init);
      StrippedLines(entries) == StrippedLines(init) + (if d != [] then [d] else [])
      && GetTasks(WithInitialTasks(tasks, activityId, entries), activityId)
         == GetTasks(mid, activityId) + (if d != [] then [TaskRow(NextRowid(mid.Keys), d, false)] else [])
  {
    var init, d := entries[..|entries| - 1], Strip(entries[|entries| - 1]);
    var mid := WithInitialTasks(tasks, activityId, init);
    if d != [] {
      AddedTaskListed(mid, activityId, d);
    } else {
      assert GetTasks(mid, activityId) + [] == GetTasks(mid, activityId);
    }
  }

  lemma ExtendsWithNothing(before: seq<TaskRow>, after: seq<TaskRow>, added: seq<string>)
    requires ExtendsWith(before, after, added)
    ensures ExtendsWith(before, after + [], added + [])
  {
    assert after + [] == after && added + [] == added;
  }

  /**
   * `create_activity` adds the stripped non-blank entries, in order and not completed, after
   * the tasks the activity id already had.
   */
  lemma {:induction false} InitialTasksListed(tasks: Tasks, activityId: int, entries: seq<string>)
    ensures ExtendsWith(GetTasks(tasks, activityId), GetTasks(WithInitialTasks(tasks, activityId, entries), activityId),
                        StrippedLines(entries))
    decreases |entries|
  {
    var b := GetTasks(tasks, activityId);
    if entries == [] {
      assert b[..|b|] == b;
    } else {
      var init, d := entries[..|entries| - 1], Strip(entries[|entries| - 1]);
      InitialTasksListed(tasks, activityId, init);
      var mid := WithInitialTasks(tasks, activityId, init);
      InitialTaskStep(tasks, activityId, entries);
      if d != [] {
        ExtendsWithStep(b, GetTasks(mid, activityId), StrippedLines(init), TaskRow(NextRowid(mid.Keys), d, false));
      } else {
        ExtendsWithNothing(b, GetTasks(mid, activityId), StrippedLines(init));
      }
    }
  }

  /** `create_activity` leaves every other activity's tasks as they were. */
  lemma {:induction false} InitialTasksElsewhere(tasks: Tasks, activityId: int, entries: seq<string>, other: int)
    requires other != activityId
    ensures GetTasks(WithInitialTasks(tasks, activityId, entries), other) == GetTasks(tasks, other)
    decreases |entries|
  {
    if entries != [] {
      var init := entries[..|entries| - 1];
      InitialTasksElsewhere(tasks, activityId, init, other);
      var mid := WithInitialTasks(tasks, activityId, init);
      var description := Strip(entries[|entries| - 1]);
      if description != [] {
        AddedTaskElsewhere(mid, activityId, description, other);
      }
    }
  }

  // ----- the store ---------------------------------------------------------------------------

  /** `DatabaseManager`: the two tables of one open database. */
  class DatabaseManager {
    var activities: Activities
    var tasks: Tasks

    /**
     * Opening a database: `CREATE TABLE IF NOT EXISTS` keeps tables that exist (and creates
     * empty ones otherwise), so the store starts with whatever the file holds.
     */
    constructor(activities0: Activities, tasks0: Tasks)
      ensures activities == activities0 && tasks == tasks0
    {
      activities := activities0;
      tasks := tasks0;
    }

    /**
     * `create_activity`: a new activity under a fresh id, created and modified `now`, with its
     * initial tasks. Names are not required to be unique.
     */
    method CreateActivity(name: string, category: Option<string>, entries: seq<string>,
                          imageData: Option<Bytes>, now: string) returns (activityId: int)
      modifies this
      ensures activityId == NextRowid(old(activities).Keys) && activityId !in old(activities)
      ensures activities == old(activities)[activityId := Activity(name, category, imageData, now, now)]
      ensures tasks == WithInitialTasks(old(tasks), activityId, entries)
    {
      activityId := NextRowid(activities.Keys);
      activities := activities[activityId := Activity(name, category, imageData, now, now)];
      var i := 0;
      while i < |entries|
        invariant 0 <= i <= |entries|
        invariant activities == old(activities)[activityId := Activity(name, category, imageData, now, now)]
        invariant tasks == WithInitialTasks(old(tasks), activityId, entries[..i])
      {
        InitialTasksSnoc(old(tasks), activityId, entries, i);
        var description := Strip(entries[i]);
        if description != [] {
          var taskId := NextRowid(tasks.Keys);
          tasks := tasks[taskId := Task(activityId, description, false)];
        }
        i := i + 1;
      }
      assert entries[..|entries|] == entries;
    }

    /** `update_activity`. */
    method UpdateActivity(activityId: int, name: string, category: Option<string>, imageData: Option<Bytes>, now: string)
      modifies this
      ensures activities == UpdatedActivity(old(activities), activityId, name, category, imageData, now)
      ensures tasks == old(tasks)
    {
      if activityId in activities {
        var a := activities[activityId];
        var image := if imageData != None then imageData else a.image;
        activities := activities[activityId := Activity(name, category, image, a.createdAt, now)];
      }
    }

    /** `update_task`. */
    method UpdateTask(taskId: int, description: string, completed: bool)
      modifies this
      ensures tasks == UpdatedTask(old(tasks), taskId, description, completed)
      ensures activities == old(activities)
    {
      if taskId in tasks {
        tasks := tasks[taskId := Task(tasks[taskId].activityId, description, completed)];
      }
    }

    /**
     * `add_task`: returns the new task's id. Neither the description nor the activity id is
     * checked.
     */
    method AddTask(activityId: int, description: string) returns (taskId: int)
      modifies this
      ensures taskId == NextRowid(old(tasks).Keys) && taskId !in old(tasks)
      ensures tasks == AddedTask(old(tasks), activityId, description)
      ensures activities == old(activities)
    {
      taskId := NextRowid(tasks.Keys);
      tasks := tasks[taskId := Task(activityId, description, false)];
    }

    /** `delete_task`. */
    method DeleteTask(taskId: int)
      modifies this
      ensures tasks == RemovedTask(old(tasks), taskId)
      ensures activities == old(activities)
    {
      tasks := tasks - {taskId};
    }

    /** `delete_activity`: the activity's tasks first, then the activity. */
    method DeleteActivity(activityId: int)
      modifies this
      ensures tasks == RemovedTasksOf(old(tasks), activityId)
      ensures activities == old(activities) - {activityId}
    {
      tasks := map id | id in tasks && tasks[id].activityId != activityId :: tasks[id];
      activities := activities - {activityId};
    }
  }
}
