/**
 * The three ORDER BY clauses of `get_activities` (database_manager.py) as orders on result
 * rows, and an insertion sort that puts a sequence of rows in such an order.
 *
 * SQL leaves the order of rows with equal sort keys unspecified; the orders here break such
 * ties by id, which makes each of them a strict total order on rows with distinct ids.
 */
module Ordering {
  import opened Common
  import opened Sqlite
  import opened Schema

  datatype SortKey = ByName | ByCategory | ByCompletion

  /** The `sort_by` dispatch: anything other than "name" and "category" sorts by completion. */
  function KeyOf(sortBy: string): SortKey {
    if sortBy == "name" then ByName
    else if sortBy == "category" then ByCategory
    else ByCompletion
  }

  // ----- completion ratios, compared by cross-multiplication ---------------------------

  /** p.completed/p.total - q.completed/q.total, scaled by p.total * q.total. */
  function Cross(p: Ratio, q: Ratio): int {
    p.completed * q.total - q.completed * p.total
  }

  predicate Positive(p: Option<Ratio>) {
    p.Some? ==> p.value.total > 0
  }

  lemma CrossIdentity(p: Ratio, q: Ratio, r: Ratio)
    ensures Cross(p, q) * r.total + Cross(q, r) * p.total == Cross(p, r) * q.total
  {
    calc {
      Cross(p, q) * r.total + Cross(q, r) * p.total;
      (p.completed * q.total - q.completed * p.total) * r.total
        + (q.completed * r.total - r.completed * q.total) * p.total;
      p.completed * q.total * r.total - r.completed * q.total * p.total;
      (p.completed * r.total - r.completed * p.total) * q.total;
    }
  }

  lemma SignOfProduct(x: int, k: int)
    requires k > 0
    ensures x > 0 <==> x * k > 0
    ensures x == 0 <==> x * k == 0
    ensures x < 0 <==> x * k < 0
  {
  }

  /** `completion_ratio DESC`: a larger ratio first; NULL (no tasks) after every ratio. */
  predicate RatioBefore(p: Option<Ratio>, q: Option<Ratio>) {
    match p
    case None => false
    case Some(x) => q.None? || Cross(x, q.value) > 0
  }

  /** Equal as sort keys: both NULL, or the same fraction. */
  predicate RatioTie(p: Option<Ratio>, q: Option<Ratio>) {
    (p.None? && q.None?) || (p.Some? && q.Some? && Cross(p.value, q.value) == 0)
  }

  /** Exactly one of: p first, q first, a tie. */
  lemma RatioTrichotomy(p: Option<Ratio>, q: Option<Ratio>)
    ensures RatioBefore(p, q) || RatioBefore(q, p) || RatioTie(p, q)
    ensures !(RatioBefore(p, q) && RatioBefore(q, p))
    ensures RatioTie(p, q) ==> !RatioBefore(p, q) && !RatioBefore(q, p)
    ensures RatioTie(p, q) == RatioTie(q, p)
  {
    if p.Some? && q.Some? {
      assert Cross(q.value, p.value) == -Cross(p.value, q.value);
    }
  }

  lemma {:induction false} RatioTransitive(p: Option<Ratio>, q: Option<Ratio>, r: Option<Ratio>)
    requires Positive(p) && Positive(q) && Positive(r)
    ensures RatioBefore(p, q) && RatioBefore(q, r) ==> RatioBefore(p, r)
    ensures RatioBefore(p, q) && RatioTie(q, r) ==> RatioBefore(p, r)
    ensures RatioTie(p, q) && RatioBefore(q, r) ==> RatioBefore(p, r)
    ensures RatioTie(p, q) && RatioTie(q, r) ==> RatioTie(p, r)
  {
    if p.Some? && q.Some? && r.Some? {
      var x, y, z := p.value, q.value, r.value;
      CrossIdentity(x, y, z);
      var a, b, c := Cross(x, y), Cross(y, z), Cross(x, z);
      SignOfProduct(a, z.total);
      SignOfProduct(b, x.total);
      SignOfProduct(c, y.total);
      assert a * z.total + b * x.total == c * y.total;
    }
  }

  // ----- row orders ---------------------------------------------------------------------

  /** `ORDER BY name`, ties by id. */
  predicate NameOrder(a: ActivityRow, b: ActivityRow) {
    Less(a.name, b.name) || (a.name == b.name && a.id < b.id)
  }

  /** `ORDER BY category`: NULL before every text, texts by the BINARY collation. */
  predicate CategoryBefore(x: Option<string>, y: Option<string>) {
    match x
    case None => y.Some?
    case Some(c) => y.Some? && Less(c, y.value)
  }

  /** Row `a` comes before row `b` in the listing sorted by `key`. */
  predicate Precedes(key: SortKey, tasks: Tasks, a: ActivityRow, b: ActivityRow) {
    match key
    case ByName => NameOrder(a, b)
    case ByCategory => CategoryBefore(a.category, b.category) || (a.category == b.category && NameOrder(a, b))
    case ByCompletion =>
      var p, q := CompletionRatio(tasks, a.id), CompletionRatio(tasks, b.id);
      RatioBefore(p, q) || (RatioTie(p, q) && NameOrder(a, b))
  }

  lemma NameOrderFacts(a: ActivityRow, b: ActivityRow, c: ActivityRow)
    ensures !NameOrder(a, a)
    ensures NameOrder(a, b) && NameOrder(b, c) ==> NameOrder(a, c)
    ensures a.id != b.id ==> NameOrder(a, b) || NameOrder(b, a)
    ensures NameOrder(a, b) ==> !Less(b.name, a.name)
  {
    LessIrreflexive(a.name);
    if Less(a.name, b.name) && Less(b.name, c.name) {
      LessTransitive(a.name, b.name, c.name);
    }
    if a.name != b.name {
      LessTotal(a.name, b.name);
    }
    if Less(a.name, b.name) {
      LessAsymmetric(a.name, b.name);
    }
  }

  lemma CategoryFacts(x: Option<string>, y: Option<string>, z: Option<string>)
    ensures !CategoryBefore(x, x)
    ensures CategoryBefore(x, y) && CategoryBefore(y, z) ==> CategoryBefore(x, z)
    ensures x != y ==> CategoryBefore(x, y) || CategoryBefore(y, x)
    ensures CategoryBefore(x, y) ==> !CategoryBefore(y, x)
  {
    if x.Some? {
      LessIrreflexive(x.value);
      if y.Some? {
        if x.value != y.value { LessTotal(x.value, y.value); }
        if Less(x.value, y.value) { LessAsymmetric(x.value, y.value); }
        if z.Some? && Less(x.value, y.value) && Less(y.value, z.value) {
          LessTransitive(x.value, y.value, z.value);
        }
      }
    }
  }

  lemma PrecedesIrreflexive(key: SortKey, tasks: Tasks, a: ActivityRow)
    ensures !Precedes(key, tasks, a, a)
  {
    NameOrderFacts(a, a, a);
    CategoryFacts(a.category, a.category, a.category);
    var p := CompletionRatio(tasks, a.id);
    RatioTrichotomy(p, p);
  }

  lemma PrecedesTransitive(key: SortKey, tasks: Tasks, a: ActivityRow, b: ActivityRow, c: ActivityRow)
    requires Precedes(key, tasks, a, b) && Precedes(key, tasks, b, c)
    ensures Precedes(key, tasks, a, c)
  {
    NameOrderFacts(a, b, c);
    match key
    case ByName =>
    case ByCategory =>
      CategoryFacts(a.category, b.category, c.category);
    case ByCompletion =>
      var p, q, r := CompletionRatio(tasks, a.id), CompletionRatio(tasks, b.id), CompletionRatio(tasks, c.id);
      RatioTransitive(p, q, r);
  }

  /** Rows with different ids are always ordered one way or the other. */
  lemma PrecedesTotal(key: SortKey, tasks: Tasks, a: ActivityRow, b: ActivityRow)
    requires a.id != b.id
    ensures Precedes(key, tasks, a, b) || Precedes(key, tasks, b, a)
  {
    NameOrderFacts(a, b, a);
    match key
    case ByName =>
    case ByCategory =>
      CategoryFacts(a.category, b.category, a.category);
    case ByCompletion =>
      var p, q := CompletionRatio(tasks, a.id), CompletionRatio(tasks, b.id);
      RatioTrichotomy(p, q);
  }

  // ----- sorting --------------------------------------------------------------------------

  predicate SortedBy(key: SortKey, tasks: Tasks, s: seq<ActivityRow>) {
    forall i, j :: 0 <= i < j < |s| ==> Precedes(key, tasks, s[i], s[j])
  }

  predicate DistinctIds(s: seq<ActivityRow>) {
    forall i, j :: 0 <= i < j < |s| ==> s[i].id != s[j].id
  }

  lemma ConsSorted(key: SortKey, tasks: Tasks, h: ActivityRow, t: seq<ActivityRow>)
    requires SortedBy(key, tasks, t)
    requires forall y :: y in t ==> Precedes(key, tasks, h, y)
    ensures SortedBy(key, tasks, [h] + t)
  {
    var s := [h] + t;
    forall i, j | 0 <= i < j < |s| ensures Precedes(key, tasks, s[i], s[j]) {
      if i == 0 {
        assert s[j] == t[j - 1];
      } else {
        assert s[i] == t[i - 1] && s[j] == t[j - 1];
      }
    }
  }

  /** A row before the head of a sorted sequence is before all of it. */
  lemma BeforeAll(key: SortKey, tasks: Tasks, x: ActivityRow, s: seq<ActivityRow>)
    requires SortedBy(key, tasks, s) && s != [] && Precedes(key, tasks, x, s[0])
    ensures forall y :: y in s ==> Precedes(key, tasks, x, y)
  {
    forall y | y in s ensures Precedes(key, tasks, x, y) {
      var j :| 0 <= j < |s| && s[j] == y;
      if j > 0 { PrecedesTransitive(key, tasks, x, s[0], y); }
    }
  }

  /** The head of a sorted sequence is before every row of the rest with `x` inserted. */
  lemma HeadBeforeRest(key: SortKey, tasks: Tasks, x: ActivityRow, s: seq<ActivityRow>, rest: seq<ActivityRow>)
    requires SortedBy(key, tasks, s) && s != [] && Precedes(key, tasks, s[0], x)
    requires multiset(rest) == multiset(s[1..]) + multiset{x}
    ensures forall y :: y in rest ==> Precedes(key, tasks, s[0], y)
  {
    forall y | y in rest ensures Precedes(key, tasks, s[0], y) {
      assert y in multiset(rest);
      if y != x {
        assert y in s[1..];
        var j :| 1 <= j < |s| && s[j] == y;
      }
    }
  }

  /** Insert `x` into the sorted `s`, before the first row that `x` precedes. */
  function InsertRow(key: SortKey, tasks: Tasks, x: ActivityRow, s: seq<ActivityRow>): (r: seq<ActivityRow>)
    requires SortedBy(key, tasks, s)
    requires forall y :: y in s ==> y.id != x.id
    ensures SortedBy(key, tasks, r)
    ensures multiset(r) == multiset(s) + multiset{x}
    decreases |s|
  {
    if s == [] then [x]
    else if Precedes(key, tasks, x, s[0]) then
      BeforeAll(key, tasks, x, s);
      ConsSorted(key, tasks, x, s);
      [x] + s
    else
      TailSorted(key, tasks, s);
      var rest := InsertRow(key, tasks, x, s[1..]);
      assert s == [s[0]] + s[1..];
      PrecedesTotal(key, tasks, x, s[0]);
      HeadBeforeRest(key, tasks, x, s, rest);
      ConsSorted(key, tasks, s[0], rest);
      [s[0]] + rest
  }

  lemma TailSorted(key: SortKey, tasks: Tasks, s: seq<ActivityRow>)
    requires s != [] && SortedBy(key, tasks, s)
    ensures SortedBy(key, tasks, s[1..])
  {
    forall i, j | 0 <= i < j < |s| - 1 ensures Precedes(key, tasks, s[1..][i], s[1..][j]) {
      assert s[1..][i] == s[i + 1] && s[1..][j] == s[j + 1];
    }
  }

  lemma TailDistinct(s: seq<ActivityRow>)
    requires s != [] && DistinctIds(s)
    ensures DistinctIds(s[1..])
  {
    forall i, j | 0 <= i < j < |s| - 1 ensures s[1..][i].id != s[1..][j].id {
      assert s[1..][i] == s[i + 1] && s[1..][j] == s[j + 1];
    }
  }

  lemma HeadIdFresh(s: seq<ActivityRow>, rest: seq<ActivityRow>)
    requires s != [] && DistinctIds(s)
    requires multiset(rest) == multiset(s[1..])
    ensures forall y :: y in rest ==> y.id != s[0].id
  {
    forall y | y in rest ensures y.id != s[0].id {
      assert y in multiset(rest);
      var j :| 1 <= j < |s| && s[j] == y;
    }
  }

  /** The rows of `s` in the order `key` (insertion sort). */
  function SortRows(key: SortKey, tasks: Tasks, s: seq<ActivityRow>): (r: seq<ActivityRow>)
    requires DistinctIds(s)
    ensures SortedBy(key, tasks, r)
    ensures multiset(r) == multiset(s)
  {
    if s == [] then []
    else
      TailDistinct(s);
      var rest := SortRows(key, tasks, s[1..]);
      HeadIdFresh(s, rest);
      assert s == [s[0]] + s[1..];
      InsertRow(key, tasks, s[0], rest)
  }
}
