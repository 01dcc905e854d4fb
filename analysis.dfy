/**
 * The organizational analyzer: indexes a roster by id and by manager, flags
 * managers paid too little or too much relative to their direct reports, and
 * flags employees whose chain of managers up to the CEO is too long.
 */
module Analysis {
  import opened Wrappers
  import opened EmployeeModel
  import opened Seqs
  import CsvReader

  /** The longest acceptable number of managers between an employee and the CEO. */
  const MaxManagersToRoot: nat := 4

  datatype SalaryIssueKind = Underpaid | Overpaid {
    /** The `type` string an issue of this kind carries; each tag names one kind. */
    function Tag(): (r: string)
      ensures r == "UNDERPAID" <==> this == Underpaid
      ensures r == "OVERPAID" <==> this == Overpaid
    {
      match this
      case Underpaid => "UNDERPAID"
      case Overpaid => "OVERPAID"
    }
  }

  /** A manager whose salary is outside the band around the mean of their direct reports. */
  datatype ManagerSalaryIssue = ManagerSalaryIssue(
    manager: Employee,
    amount: real,
    kind: SalaryIssueKind,
    avgSubordinateSalary: real,
    subordinateCount: nat)

  /** An employee with too many managers between them and the CEO. */
  datatype ReportingLineIssue = ReportingLineIssue(
    employee: Employee,
    actualManagerCount: nat,
    excessManagerCount: nat)

  /** The structural failures of the depth query. */
  datatype StructuralError = NoCeo | CircularReporting(employee: Employee)

  // ---------------------------------------------------------------------
  // Indices
  // ---------------------------------------------------------------------

  /** The entry of `byId` under `k` agrees with `es`: present exactly for the ids of `es`, holding the employee with that id. */
  predicate IdEntry(byId: map<int, Employee>, es: seq<Employee>, k: int) {
    && (k in byId <==> k in IdSet(es))
    && (k in byId ==> byId[k] in es && byId[k].id == k)
  }

  /** `byId` is the id index of `es` (the `employeeMap`). */
  ghost predicate IsIdIndex(byId: map<int, Employee>, es: seq<Employee>) {
    forall k :: IdEntry(byId, es, k)
  }

  /** The id index of a roster with unique ids: each employee keyed by its id. */
  function ById(es: seq<Employee>): (byId: map<int, Employee>)
    requires UniqueIds(es)
    ensures IsIdIndex(byId, es)
  {
    assert forall x, y :: x in es && y in es && x.id == y.id ==> x == y by {
      forall x, y | x in es && y in es && x.id == y.id ensures x == y {
        UniqueIdsIdentify(es, x, y);
      }
    }
    var byId := map e | e in es :: e.id := e;
    assert forall k :: IdEntry(byId, es, k) by {
      forall k ensures IdEntry(byId, es, k) {
        if k in byId {
          var e :| e in es && e.id == k;
          forall x | x in es && x.id == k ensures x == e {
            UniqueIdsIdentify(es, x, e);
          }
        }
      }
    }
    byId
  }

  /** What the id index says about one id. */
  lemma IdIndexLookup(byId: map<int, Employee>, es: seq<Employee>, k: int)
    requires IsIdIndex(byId, es)
    ensures k in byId <==> k in IdSet(es)
    ensures k in byId ==> byId[k] in es && byId[k].id == k
  {
    assert IdEntry(byId, es, k);
  }

  /** With unique ids, the id index finds every employee of the roster under its id. */
  lemma IdIndexFinds(byId: map<int, Employee>, es: seq<Employee>, e: Employee)
    requires UniqueIds(es) && IsIdIndex(byId, es) && e in es
    ensures e.id in byId && byId[e.id] == e
  {
    IdIndexLookup(byId, es, e.id);
    UniqueIdsIdentify(es, e, byId[e.id]);
  }

  /** A roster has at most one id index. */
  lemma IdIndexUnique(a: map<int, Employee>, b: map<int, Employee>, es: seq<Employee>)
    requires UniqueIds(es) && IsIdIndex(a, es) && IsIdIndex(b, es)
    ensures a == b
  {
    forall k ensures (k in a <==> k in b) && (k in a ==> a[k] == b[k]) {
      IdIndexLookup(a, es, k);
      IdIndexLookup(b, es, k);
      if k in a {
        UniqueIdsIdentify(es, a[k], b[k]);
      }
    }
  }

  /** `Map.get`: the value stored under `k`, or nothing. */
  function Lookup<V>(m: map<int, V>, k: int): (r: Option<V>)
    ensures r.Some? <==> k in m
    ensures r.Some? ==> r.value == m[k]
  {
    if k in m then Some(m[k]) else None
  }

  /** The direct reports of manager id `m` among the first `n` employees of `es`, in roster order. */
  function ReportsAmong(es: seq<Employee>, m: int, n: nat): seq<Employee>
    requires n <= |es|
  {
    if n == 0 then []
    else ReportsAmong(es, m, n - 1) + (if es[n - 1].managerId == Some(m) then [es[n - 1]] else [])
  }

  /** The direct reports of manager id `m`, in roster order. */
  function DirectReports(es: seq<Employee>, m: int): seq<Employee>
  {
    ReportsAmong(es, m, |es|)
  }

  /** The reports among a prefix depend on that prefix only. */
  lemma {:induction false} ReportsAmongPrefix(es: seq<Employee>, es': seq<Employee>, m: int, n: nat)
    requires n <= |es| && n <= |es'| && es[..n] == es'[..n]
    ensures ReportsAmong(es, m, n) == ReportsAmong(es', m, n)
  {
    if n > 0 {
      assert es[n - 1] == es[..n][n - 1] == es'[n - 1];
      assert es[..n - 1] == es[..n][..n - 1];
      assert es'[..n - 1] == es'[..n][..n - 1];
      ReportsAmongPrefix(es, es', m, n - 1);
    }
  }

  /** Appending an employee appends it to its own manager's reports and to no other list. */
  lemma DirectReportsAppend(es: seq<Employee>, e: Employee, m: int)
    ensures DirectReports(es + [e], m) == DirectReports(es, m) + (if e.managerId == Some(m) then [e] else [])
  {
    assert (es + [e])[..|es|] == es[..|es|];
    ReportsAmongPrefix(es + [e], es, m, |es|);
  }

  /**
   * The lists of direct reports partition the non-CEO employees: an
   * employee occurs in the list of its own manager exactly as often as in
   * the roster and in no other list, so the CEO is in none.
   */
  lemma {:induction false} DirectReportsPartition(es: seq<Employee>, m: int, e: Employee)
    ensures multiset(DirectReports(es, m))[e] ==
      if e.managerId == Some(m) then multiset(es)[e] else 0
    ensures e.IsCEO() ==> e !in DirectReports(es, m)
  {
    if es != [] {
      var init, last := es[..|es| - 1], es[|es| - 1];
      DirectReportsPartition(init, m, e);
      assert es == init + [last];
      DirectReportsAppend(init, last, m);
    }
  }

  /** Each list of direct reports keeps the roster order. */
  lemma {:induction false} ReportsAmongInRosterOrder(es: seq<Employee>, m: int, n: nat)
    requires n <= |es|
    ensures IsSubsequence(ReportsAmong(es, m, n), es[..n])
  {
    if n > 0 {
      ReportsAmongInRosterOrder(es, m, n - 1);
      var before := ReportsAmong(es, m, n - 1);
      assert ReportsAmong(es, m, n) == before || ReportsAmong(es, m, n) == before + [es[n - 1]];
      SubsequenceStep(before, ReportsAmong(es, m, n), es, n);
    }
  }

  lemma DirectReportsInRosterOrder(es: seq<Employee>, m: int)
    ensures IsSubsequence(DirectReports(es, m), es)
  {
    ReportsAmongInRosterOrder(es, m, |es|);
    assert es[..|es|] == es;
  }

  /** In a roster with unique ids an employee occurs exactly once. */
  lemma {:induction false} UniqueIdsOccurOnce(es: seq<Employee>, e: Employee)
    requires UniqueIds(es) && e in es
    ensures multiset(es)[e] == 1
  {
    var init, last := es[..|es| - 1], es[|es| - 1];
    assert es == init + [last];
    if e == last {
      assert e !in init by {
        forall j | 0 <= j < |init| ensures init[j] != e {
          assert es[j] == init[j];
          assert IdsDifferAt(es, j, |es| - 1);
        }
      }
    } else {
      UniqueIdsAppend(init, last);
      UniqueIdsOccurOnce(init, e);
    }
  }

  /** With unique ids every non-CEO employee is listed exactly once, under its own manager. */
  lemma NonCeoListedOnce(es: seq<Employee>, e: Employee, m: int)
    requires UniqueIds(es) && e in es && !e.IsCEO()
    ensures multiset(DirectReports(es, m))[e] == if m == e.managerId.value then 1 else 0
  {
    UniqueIdsOccurOnce(es, e);
    DirectReportsPartition(es, m, e);
  }

  /** The entry of `index` under manager id `m` agrees with the roster `es`. */
  predicate IndexEntry(index: map<int, seq<Employee>>, es: seq<Employee>, m: int) {
    if m in index then index[m] == DirectReports(es, m) && index[m] != [] else DirectReports(es, m) == []
  }

  /** `index` is the manager-id to direct-reports index of `es` (the `subordinatesMap`). */
  ghost predicate IsSubordinatesIndex(index: map<int, seq<Employee>>, es: seq<Employee>) {
    forall m :: IndexEntry(index, es, m)
  }

  /** The reports of a manager: the index entry, or none when it has no entry. */
  lemma IndexLookup(index: map<int, seq<Employee>>, es: seq<Employee>, m: int)
    requires IsSubordinatesIndex(index, es)
    ensures (if m in index then index[m] else []) == DirectReports(es, m)
    ensures m in index ==> index[m] != []
  {
    assert IndexEntry(index, es, m);
  }

  /** Appending a non-CEO employee to its manager's entry keeps the index in step with the roster. */
  lemma IndexAppend(index: map<int, seq<Employee>>, es: seq<Employee>, e: Employee)
    requires IsSubordinatesIndex(index, es)
    ensures e.IsCEO() ==> IsSubordinatesIndex(index, es + [e])
    ensures !e.IsCEO() ==> IsSubordinatesIndex(
      index[e.managerId.value := (if e.managerId.value in index then index[e.managerId.value] else []) + [e]], es + [e])
  {
    var mid := if e.IsCEO() then 0 else e.managerId.value;
    var index' := if e.IsCEO() then index else index[mid := (if mid in index then index[mid] else []) + [e]];
    forall m ensures IndexEntry(index', es + [e], m) {
      assert IndexEntry(index, es, m);
      DirectReportsAppend(es, e, m);
    }
  }

  // ---------------------------------------------------------------------
  // Salary rules
  // ---------------------------------------------------------------------

  /** Sum of the salaries of `es`. */
  function SalarySum(es: seq<Employee>): real
  {
    SumOfFirst(es, |es|)
  }

  /** Sum of the salaries of the first `n` employees of `es`. */
  function SumOfFirst(es: seq<Employee>, n: nat): real
    requires n <= |es|
  {
    if n == 0 then 0.0 else SumOfFirst(es, n - 1) + es[n - 1].salary
  }

  /** Arithmetic mean salary of a non-empty list. */
  function Mean(es: seq<Employee>): real
    requires es != []
  {
    SalarySum(es) / |es| as real
  }

  /** The mean times the number of employees is their salary sum. */
  lemma MeanTimesCount(es: seq<Employee>)
    requires es != []
    ensures Mean(es) * |es| as real == SalarySum(es)
  {
  }

  lemma {:induction false} SumOfFirstNonNegative(es: seq<Employee>, n: nat)
    requires n <= |es| && forall e :: e in es ==> e.salary >= 0.0
    ensures SumOfFirst(es, n) >= 0.0
  {
    if n > 0 {
      SumOfFirstNonNegative(es, n - 1);
      assert es[n - 1] in es;
    }
  }

  /** The issue, if any, that a rule of the given kind raises for `manager` with these reports. */
  function SalaryIssue(kind: SalaryIssueKind, manager: Employee, reports: seq<Employee>): (r: Option<ManagerSalaryIssue>)
    ensures r.Some? <==> (reports != [] &&
      match kind
      case Underpaid => manager.salary < Mean(reports) * 1.20
      case Overpaid => manager.salary > Mean(reports) * 1.50)
    ensures r.Some? ==> && r.value.manager == manager && r.value.kind == kind
                        && r.value.subordinateCount == |reports| && r.value.amount > 0.0
  {
    if reports == [] then None
    else
      var avg := Mean(reports);
      match kind
      case Underpaid =>
        var minimumExpected := avg * 1.20;
        if manager.salary < minimumExpected
        then Some(ManagerSalaryIssue(manager, minimumExpected - manager.salary, Underpaid, avg, |reports|))
        else None
      case Overpaid =>
        var maximumExpected := avg * 1.50;
        if manager.salary > maximumExpected
        then Some(ManagerSalaryIssue(manager, manager.salary - maximumExpected, Overpaid, avg, |reports|))
        else None
  }

  /** The issues a salary rule raises, scanning the first `n` employees of roster `es` in order. */
  function SalaryIssues(kind: SalaryIssueKind, es: seq<Employee>, n: nat): seq<ManagerSalaryIssue>
    requires n <= |es|
  {
    if n == 0 then []
    else
      var m := es[n - 1];
      SalaryIssues(kind, es, n - 1) + IssueList(SalaryIssue(kind, m, DirectReports(es, m.id)))
  }

  /** The issue list contributed by one optional issue. */
  function IssueList(issue: Option<ManagerSalaryIssue>): (r: seq<ManagerSalaryIssue>)
    ensures |r| <= 1
  {
    match issue
    case None => []
    case Some(i) => [i]
  }

  /** The manager is paid under 120% of the mean of their direct reports, and has some. */
  predicate IsUnderpaid(es: seq<Employee>, m: Employee) {
    var reports := DirectReports(es, m.id);
    reports != [] && m.salary < Mean(reports) * 1.20
  }

  /** The manager is paid over 150% of the mean of their direct reports, and has some. */
  predicate IsOverpaid(es: seq<Employee>, m: Employee) {
    var reports := DirectReports(es, m.id);
    reports != [] && m.salary > Mean(reports) * 1.50
  }

  predicate Flagged(kind: SalaryIssueKind, es: seq<Employee>, m: Employee) {
    match kind
    case Underpaid => IsUnderpaid(es, m)
    case Overpaid => IsOverpaid(es, m)
  }

  /** The managers named by a list of salary issues, in list order. */
  function Managers(issues: seq<ManagerSalaryIssue>): (ms: seq<Employee>)
    ensures |ms| == |issues|
    ensures forall i :: 0 <= i < |issues| ==> ms[i] == issues[i].manager
  {
    if issues == [] then [] else Managers(issues[..|issues| - 1]) + [issues[|issues| - 1].manager]
  }

  /**
   * `issue` is exact for the rule `kind` on roster `es`: its manager has
   * direct reports and breaks the rule; it records the kind, the mean and
   * the number of reports; and its amount, the distance to the threshold,
   * is strictly positive.
   */
  predicate IsExactIssue(kind: SalaryIssueKind, es: seq<Employee>, issue: ManagerSalaryIssue) {
    var reports := DirectReports(es, issue.manager.id);
    && reports != []
    && Flagged(kind, es, issue.manager)
    && issue.kind == kind
    && issue.avgSubordinateSalary == Mean(reports)
    && issue.subordinateCount == |reports|
    && issue.amount > 0.0
    && (kind == Underpaid ==> issue.amount == Mean(reports) * 1.20 - issue.manager.salary)
    && (kind == Overpaid ==> issue.amount == issue.manager.salary - Mean(reports) * 1.50)
  }

  /** The issue the manager at position `n - 1` raises, if any, is exact. */
  lemma SalaryIssuesStepExact(kind: SalaryIssueKind, es: seq<Employee>, n: nat)
    requires 0 < n <= |es|
    ensures forall issue :: issue in SalaryIssues(kind, es, n) && issue !in SalaryIssues(kind, es, n - 1) ==>
      IsExactIssue(kind, es, issue)
  {
  }

  /** Every salary issue is exact. */
  lemma {:induction false} SalaryIssuesExact(kind: SalaryIssueKind, es: seq<Employee>, n: nat)
    requires n <= |es|
    ensures forall issue :: issue in SalaryIssues(kind, es, n) ==> IsExactIssue(kind, es, issue)
  {
    if n > 0 {
      SalaryIssuesExact(kind, es, n - 1);
      SalaryIssuesStepExact(kind, es, n);
    }
  }

  /** Every salary issue names one of the scanned employees. */
  lemma {:induction false} SalaryIssuesScanned(kind: SalaryIssueKind, es: seq<Employee>, n: nat)
    requires n <= |es|
    ensures forall issue :: issue in SalaryIssues(kind, es, n) ==> issue.manager in es[..n]
  {
    if n > 0 {
      SalaryIssuesScanned(kind, es, n - 1);
      var m := es[n - 1];
      var extra := IssueList(SalaryIssue(kind, m, DirectReports(es, m.id)));
      forall issue | issue in extra ensures issue.manager == m {
      }
      assert forall x :: x in es[..n - 1] ==> x in es[..n];
      assert m in es[..n];
      assert SalaryIssues(kind, es, n) == SalaryIssues(kind, es, n - 1) + extra;
    }
  }

  /** Every scanned manager that breaks the rule is reported. */
  lemma {:induction false} SalaryIssuesComplete(kind: SalaryIssueKind, es: seq<Employee>, n: nat, k: nat)
    requires k < n <= |es| && Flagged(kind, es, es[k])
    ensures exists issue :: issue in SalaryIssues(kind, es, n) && issue.manager == es[k]
  {
    if k == n - 1 {
      var issue := SalaryIssue(kind, es[k], DirectReports(es, es[k].id)).value;
      assert issue in SalaryIssues(kind, es, n);
    } else {
      SalaryIssuesComplete(kind, es, n - 1, k);
      var issue :| issue in SalaryIssues(kind, es, n - 1) && issue.manager == es[k];
      assert issue in SalaryIssues(kind, es, n);
    }
  }

  /** Scanning one more employee adds one issue naming that employee, or nothing. */
  lemma SalaryIssuesGrow(kind: SalaryIssueKind, es: seq<Employee>, n: nat)
    requires 0 < n <= |es|
    ensures var prefix, issues := SalaryIssues(kind, es, n - 1), SalaryIssues(kind, es, n);
      || issues == prefix
      || (|issues| == |prefix| + 1 && issues == prefix + [issues[|prefix|]] && issues[|prefix|].manager == es[n - 1])
  {
  }

  /** Scanning one more employee adds that employee to the flagged managers, or nobody. */
  lemma ManagersStep(kind: SalaryIssueKind, es: seq<Employee>, n: nat)
    requires 0 < n <= |es|
    ensures var before := Managers(SalaryIssues(kind, es, n - 1));
      var after := Managers(SalaryIssues(kind, es, n));
      after == before || after == before + [es[n - 1]]
  {
    SalaryIssuesGrow(kind, es, n);
    var prefix := SalaryIssues(kind, es, n - 1);
    var all := SalaryIssues(kind, es, n);
    if all != prefix {
      assert Managers(all) == Managers(prefix) + [es[n - 1]];
    }
  }

  /** Salary issues come in roster order. */
  lemma {:induction false} SalaryIssuesInOrder(kind: SalaryIssueKind, es: seq<Employee>, n: nat)
    requires n <= |es|
    ensures IsSubsequence(Managers(SalaryIssues(kind, es, n)), es[..n])
  {
    if n > 0 {
      SalaryIssuesInOrder(kind, es, n - 1);
      ManagersStep(kind, es, n);
      SubsequenceStep(Managers(SalaryIssues(kind, es, n - 1)), Managers(SalaryIssues(kind, es, n)), es, n);
    }
  }

  /** Deleting employees from a roster with unique ids leaves the ids unique. */
  lemma {:induction false} SubsequenceKeepsUniqueIds(xs: seq<Employee>, ys: seq<Employee>)
    requires IsSubsequence(xs, ys) && UniqueIds(ys)
    ensures UniqueIds(xs)
    decreases |ys|
  {
    if ys != [] {
      var ys', y := ys[..|ys| - 1], ys[|ys| - 1];
      assert ys == ys' + [y];
      UniqueIdsAppend(ys', y);
      if xs != [] && xs[|xs| - 1] == y && IsSubsequence(xs[..|xs| - 1], ys') {
        var xs' := xs[..|xs| - 1];
        SubsequenceKeepsUniqueIds(xs', ys');
        SubsequenceElements(xs', ys');
        assert y.id !in IdSet(xs');
        assert xs == xs' + [y];
        UniqueIdsAppend(xs', y);
      } else {
        SubsequenceKeepsUniqueIds(xs, ys');
      }
    }
  }

  /** On a roster with unique ids, no manager is reported twice. */
  lemma SalaryIssuesOncePerManager(kind: SalaryIssueKind, es: seq<Employee>, n: nat)
    requires n <= |es| && UniqueIds(es)
    ensures UniqueIds(Managers(SalaryIssues(kind, es, n)))
  {
    SalaryIssuesInOrder(kind, es, n);
    forall i, j ensures IdsDifferAt(es[..n], i, j) {
      assert IdsDifferAt(es, i, j);
    }
    SubsequenceKeepsUniqueIds(Managers(SalaryIssues(kind, es, n)), es[..n]);
  }

  /**
   * With non-negative salaries no manager is both underpaid and overpaid:
   * the band `[1.20 * mean, 1.50 * mean]` is never empty.
   */
  lemma UnderpaidAndOverpaidExclusive(es: seq<Employee>, m: Employee)
    requires forall e :: e in es ==> e.salary >= 0.0
    ensures !(IsUnderpaid(es, m) && IsOverpaid(es, m))
  {
    var reports := DirectReports(es, m.id);
    if reports != [] {
      forall e | e in reports ensures e.salary >= 0.0 {
        DirectReportsPartition(es, m.id, e);
        assert multiset(es)[e] > 0;
      }
      SumOfFirstNonNegative(reports, |reports|);
    }
  }

  /** Without non-negative salaries the two rules can both fire: a manager with one report at -10 paid -13. */
  lemma NegativeSalariesBreakExclusivity()
    ensures var report := Employee(2, "A", "B", -10.0, Some(1));
      var boss := Employee(1, "C", "D", -13.0, None);
      IsUnderpaid([boss, report], boss) && IsOverpaid([boss, report], boss)
  {
    var report := Employee(2, "A", "B", -10.0, Some(1));
    var boss := Employee(1, "C", "D", -13.0, None);
    assert ReportsAmong([boss, report], 1, 1) == [];
    assert DirectReports([boss, report], 1) == [report];
    assert SumOfFirst([report], 1) == -10.0;
  }

  /** No manager appears in both salary lists of a roster with unique ids and non-negative salaries. */
  lemma NoManagerInBothLists(es: seq<Employee>)
    requires UniqueIds(es)
    requires forall e :: e in es ==> e.salary >= 0.0
    ensures forall a, b :: a in SalaryIssues(Underpaid, es, |es|) && b in SalaryIssues(Overpaid, es, |es|) ==>
      a.manager.id != b.manager.id
  {
    SalaryIssuesExact(Underpaid, es, |es|);
    SalaryIssuesExact(Overpaid, es, |es|);
    SalaryIssuesScanned(Underpaid, es, |es|);
    SalaryIssuesScanned(Overpaid, es, |es|);
    assert es[..|es|] == es;
    forall a, b | a in SalaryIssues(Underpaid, es, |es|) && b in SalaryIssues(Overpaid, es, |es|)
      ensures a.manager.id != b.manager.id
    {
      UniqueIdsIdentify(es, a.manager, b.manager);
      UnderpaidAndOverpaidExclusive(es, a.manager);
    }
  }

  // ---------------------------------------------------------------------
  // Reporting-line depth
  // ---------------------------------------------------------------------

  /**
   * `d` managers stand between `cur` and the CEO: a CEO has 0; an employee
   * has one more than its manager; a manager id that is not in the index
   * still counts as one hop and ends the chain there.
   */
  ghost predicate ChainLength(byId: map<int, Employee>, cur: Option<Employee>, d: nat)
    decreases d
  {
    match cur
    case None => d == 0
    case Some(x) =>
      if x.IsCEO() then d == 0
      else d > 0 && ChainLength(byId, Lookup(byId, x.managerId.value), d - 1)
  }

  /** A chain has at most one length. */
  lemma {:induction false} ChainLengthUnique(byId: map<int, Employee>, cur: Option<Employee>, d1: nat, d2: nat)
    requires ChainLength(byId, cur, d1) && ChainLength(byId, cur, d2)
    ensures d1 == d2
    decreases d1
  {
    match cur
    case None =>
    case Some(x) =>
      if !x.IsCEO() {
        ChainLengthUnique(byId, Lookup(byId, x.managerId.value), d1 - 1, d2 - 1);
      }
  }

  /** The CEO has no managers above it; anyone else has one more than its manager. */
  lemma ChainLengthRecurrence(byId: map<int, Employee>, e: Employee, d: nat)
    ensures e.IsCEO() ==> (ChainLength(byId, Some(e), d) <==> d == 0)
    ensures !e.IsCEO() && e.managerId.value in byId ==>
      (ChainLength(byId, Some(e), d + 1) <==> ChainLength(byId, Some(byId[e.managerId.value]), d))
    ensures !e.IsCEO() && e.managerId.value !in byId ==> (ChainLength(byId, Some(e), d) <==> d == 1)
  {
  }

  /** `e` reaches the CEO (or a manager id outside the index) without a cycle. */
  ghost predicate ReachesRoot(byId: map<int, Employee>, e: Employee) {
    exists d: nat :: ChainLength(byId, Some(e), d)
  }

  /** The number of managers above `e`. */
  ghost function Depth(byId: map<int, Employee>, e: Employee): (d: nat)
    requires ReachesRoot(byId, e)
    ensures ChainLength(byId, Some(e), d)
  {
    var d: nat :| ChainLength(byId, Some(e), d); d
  }

  /** Every employee with a manager among the first `n` of `es` reaches the root. */
  ghost predicate AllReachRoot(byId: map<int, Employee>, es: seq<Employee>, n: nat)
    requires n <= |es|
  {
    forall k :: 0 <= k < n && !es[k].IsCEO() ==> ReachesRoot(byId, es[k])
  }

  /**
   * On a roster whose employees carry levels (CEO at level 0, everyone
   * else one level below an existing manager), the number of managers
   * above each employee is its level.
   */
  lemma {:induction false} LevelIsDepth(es: seq<Employee>, level: map<int, nat>, e: Employee)
    requires UniqueIds(es)
    requires forall x :: x in es ==> x.id in level
    requires forall x :: x in es && x.IsCEO() ==> level[x.id] == 0
    requires forall x :: x in es && !x.IsCEO() ==>
      x.managerId.value in IdSet(es) && x.managerId.value in level
      && level[x.id] == level[x.managerId.value] + 1
    requires e in es
    ensures ChainLength(ById(es), Some(e), level[e.id])
    decreases level[e.id]
  {
    if !e.IsCEO() {
      var byId := ById(es);
      IdIndexLookup(byId, es, e.managerId.value);
      var m := byId[e.managerId.value];
      LevelIsDepth(es, level, m);
      assert Lookup(byId, e.managerId.value) == Some(m);
    }
  }

  /** One instance of `HopsAbove`: the claim for the single length `d`. */
  ghost predicate HopsAboveAt(byId: map<int, Employee>, from: Option<Employee>, k: nat, to: Option<Employee>, d: nat) {
    ChainLength(byId, from, d) <==> d >= k && ChainLength(byId, to, d - k)
  }

  /** `to` stands `k` hops above `from`: `from` has `k` more managers above it than `to` has. */
  ghost predicate HopsAbove(byId: map<int, Employee>, from: Option<Employee>, k: nat, to: Option<Employee>) {
    forall d: nat :: HopsAboveAt(byId, from, k, to, d)
  }

  lemma HopsZero(byId: map<int, Employee>, a: Option<Employee>)
    ensures HopsAbove(byId, a, 0, a)
  {
    forall d: nat ensures HopsAboveAt(byId, a, 0, a, d) {
    }
  }

  /** A non-CEO's manager (or the missing manager) stands one hop above it. */
  lemma HopsOne(byId: map<int, Employee>, x: Employee)
    requires !x.IsCEO()
    ensures HopsAbove(byId, Some(x), 1, Lookup(byId, x.managerId.value))
  {
    forall d: nat ensures HopsAboveAt(byId, Some(x), 1, Lookup(byId, x.managerId.value), d) {
    }
  }

  lemma HopsTrans(byId: map<int, Employee>, a: Option<Employee>, k1: nat, b: Option<Employee>, k2: nat, c: Option<Employee>)
    requires HopsAbove(byId, a, k1, b) && HopsAbove(byId, b, k2, c)
    ensures HopsAbove(byId, a, k1 + k2, c)
  {
    var k := k1 + k2;
    forall d: nat ensures HopsAboveAt(byId, a, k, c, d) {
      assert HopsAboveAt(byId, a, k1, b, d);
      if d >= k1 {
        assert HopsAboveAt(byId, b, k2, c, d - k1);
      }
    }
  }

  /** The walk has reached the CEO, or a manager id outside the index, `k` hops above `a`. */
  lemma HopsToRoot(byId: map<int, Employee>, a: Option<Employee>, k: nat, cur: Option<Employee>)
    requires HopsAbove(byId, a, k, cur)
    requires cur.None? || cur.value.IsCEO()
    ensures ChainLength(byId, a, k)
  {
    assert HopsAboveAt(byId, a, k, cur, k);
  }

  /** A walk that comes back to `x` after `k >= 1` hops never reaches the root from `x`, nor from below `x`. */
  lemma HopsIntoCycle(byId: map<int, Employee>, a: Option<Employee>, j: nat, x: Employee, k: nat)
    requires k >= 1
    requires HopsAbove(byId, a, j, Some(x)) && HopsAbove(byId, Some(x), k, Some(x))
    ensures forall d: nat :: !ChainLength(byId, a, d)
  {
    forall d: nat ensures !ChainLength(byId, a, d) {
      assert HopsAboveAt(byId, a, j, Some(x), d);
      if d >= j && ChainLength(byId, Some(x), d - j) {
        assert HopsAboveAt(byId, Some(x), k, Some(x), d - j);
        ChainLengthUnique(byId, Some(x), d - j, d - j - k);
      }
    }
  }

  /** The walk so far: each employee left behind on `path` stands below `current` by its distance. */
  ghost predicate Walked(byId: map<int, Employee>, path: seq<Employee>, current: Option<Employee>) {
    forall i :: WalkedAt(byId, path, current, i)
  }

  /** Position `i` of the walk, when it is one, stands `|path| - i` hops below `current`. */
  ghost predicate WalkedAt(byId: map<int, Employee>, path: seq<Employee>, current: Option<Employee>, i: int) {
    0 <= i < |path| ==> HopsAbove(byId, Some(path[i]), |path| - i, current)
  }

  /** Taking one more hop up from `x` extends the walk. */
  lemma WalkedStep(byId: map<int, Employee>, path: seq<Employee>, x: Employee)
    requires !x.IsCEO() && Walked(byId, path, Some(x))
    ensures Walked(byId, path + [x], Lookup(byId, x.managerId.value))
  {
    var next := Lookup(byId, x.managerId.value);
    var path' := path + [x];
    HopsOne(byId, x);
    forall i ensures WalkedAt(byId, path', next, i) {
      if 0 <= i < |path| {
        assert WalkedAt(byId, path, Some(x), i);
        assert path'[i] == path[i];
        HopsTrans(byId, Some(path[i]), |path| - i, Some(x), 1, next);
      }
    }
  }

  /** Every employee on `path` is the one the id index holds under its id. */
  ghost predicate OnIndex(byId: map<int, Employee>, path: seq<Employee>) {
    forall k :: OnIndexAt(byId, path, k)
  }

  /** Position `k` of `path`, when it is one, holds the employee the index holds under its id. */
  predicate OnIndexAt(byId: map<int, Employee>, path: seq<Employee>, k: int) {
    0 <= k < |path| ==> path[k].id in byId && byId[path[k].id] == path[k]
  }

  lemma OnIndexAppend(byId: map<int, Employee>, path: seq<Employee>, x: Employee)
    requires OnIndex(byId, path) && x.id in byId && byId[x.id] == x
    ensures OnIndex(byId, path + [x])
  {
    forall k ensures OnIndexAt(byId, path + [x], k) {
      assert OnIndexAt(byId, path, k);
    }
  }

  /** `visited` holds exactly the ids of the employees on `path`. */
  ghost predicate Remembers(visited: set<int>, path: seq<Employee>) {
    forall k :: RemembersAt(visited, path, k)
  }

  /** Id `k` is in `visited` exactly when some employee on `path` has it. */
  predicate RemembersAt(visited: set<int>, path: seq<Employee>, k: int) {
    k in visited <==> k in IdSet(path)
  }

  lemma RemembersStep(visited: set<int>, path: seq<Employee>, x: Employee)
    requires Remembers(visited, path)
    ensures Remembers(visited + {x.id}, path + [x])
  {
    IdSetAppend(path, x);
    forall k ensures RemembersAt(visited + {x.id}, path + [x], k) {
      assert RemembersAt(visited, path, k);
    }
  }

  /** A walk that stands on an id it has already left behind is on a cycle. */
  lemma RevisitMeansCycle(byId: map<int, Employee>, start: Employee, path: seq<Employee>, x: Employee)
    requires OnIndex(byId, path)
    requires x.id in byId && byId[x.id] == x && x.id in IdSet(path)
    requires HopsAbove(byId, Some(start), |path|, Some(x)) && Walked(byId, path, Some(x))
    ensures !ReachesRoot(byId, start)
  {
    var y :| y in path && y.id == x.id;
    var i :| 0 <= i < |path| && path[i] == y;
    assert OnIndexAt(byId, path, i) && WalkedAt(byId, path, Some(x), i);
    HopsIntoCycle(byId, Some(start), |path|, x, |path| - i);
  }

  /**
   * The reporting-line issues among the first `n` employees of `es`, in
   * roster order: one for each employee with more than 4 managers above it.
   */
  ghost function ReportingLineIssues(byId: map<int, Employee>, es: seq<Employee>, n: nat): seq<ReportingLineIssue>
    requires n <= |es| && AllReachRoot(byId, es, n)
  {
    if n == 0 then []
    else
      var e := es[n - 1];
      ReportingLineIssues(byId, es, n - 1)
        + if !e.IsCEO() && Depth(byId, e) > MaxManagersToRoot
          then [ReportingLineIssue(e, Depth(byId, e), Depth(byId, e) - MaxManagersToRoot)]
          else []
  }

  /**
   * Scanning the employee at position `i`, once its walk has reached the
   * root after `d` managers, keeps every scanned employee reaching the root.
   */
  lemma ReachRootStep(byId: map<int, Employee>, es: seq<Employee>, i: nat, d: nat)
    requires i < |es| && AllReachRoot(byId, es, i)
    requires !es[i].IsCEO() ==> ChainLength(byId, Some(es[i]), d)
    ensures AllReachRoot(byId, es, i + 1)
  {
    forall k | 0 <= k < i + 1 && !es[k].IsCEO()
      ensures ReachesRoot(byId, es[k])
    {
      if k == i {
        assert ChainLength(byId, Some(es[k]), d);
      }
    }
  }

  /**
   * Scanning the employee at position `n - 1`, whose walk reached the root
   * after `d` managers, appends its issue when its reporting line is too long.
   */
  lemma ReportingScanStep(byId: map<int, Employee>, es: seq<Employee>, n: nat, d: nat)
    requires 0 < n <= |es| && AllReachRoot(byId, es, n - 1) && AllReachRoot(byId, es, n)
    requires !es[n - 1].IsCEO() ==> ChainLength(byId, Some(es[n - 1]), d)
    ensures ReportingLineIssues(byId, es, n) == ReportingLineIssues(byId, es, n - 1)
      + if !es[n - 1].IsCEO() && d > MaxManagersToRoot
        then [ReportingLineIssue(es[n - 1], d, d - MaxManagersToRoot)]
        else []
  {
    var e := es[n - 1];
    if !e.IsCEO() {
      var depth := Depth(byId, e);
      ChainLengthUnique(byId, Some(e), d, depth);
    }
  }

  /** Two employees that manage each other have no chain length at all. */
  lemma {:induction false} TwoCycleNoChain(byId: map<int, Employee>, x: Employee, y: Employee, d: nat)
    requires !x.IsCEO() && x.managerId.value in byId && byId[x.managerId.value] == y
    requires !y.IsCEO() && y.managerId.value in byId && byId[y.managerId.value] == x
    ensures !ChainLength(byId, Some(x), d) && !ChainLength(byId, Some(y), d)
    decreases d
  {
    if d > 0 {
      TwoCycleNoChain(byId, x, y, d - 1);
    }
  }

  /**
   * The reader's roster checks do not rule out a reporting cycle away from
   * the CEO: with employees 2 and 3 managing each other, the roster passes
   * every check, yet employee 2 never reaches the root, so the depth query
   * fails with its cycle error.
   */
  lemma AcceptedRosterMayHoldCycle()
    ensures var es := [Employee(1, "A", "B", 300.0, None),
                       Employee(2, "C", "D", 100.0, Some(3)),
                       Employee(3, "E", "F", 100.0, Some(2))];
      && CsvReader.Validation(es) == Pass
      && UniqueIds(es)
      && !ReachesRoot(ById(es), es[1])
  {
    var ceo, x, y := Employee(1, "A", "B", 300.0, None), Employee(2, "C", "D", 100.0, Some(3)), Employee(3, "E", "F", 100.0, Some(2));
    var es := [ceo, x, y];
    assert [ceo][..0] == [] && [ceo, x][..1] == [ceo] && es[..2] == [ceo, x];
    assert CsvReader.CeoCount([ceo]) == 1;
    assert CsvReader.CeoCount([ceo, x]) == 1;
    assert CsvReader.CeoCount(es) == 1;
    assert IdSet(es) == {1, 2, 3};
    assert |IdSet(es)| == 3;
    CsvReader.FirstManagerProblemNone(IdSet(es), es);
    assert CsvReader.Validation(es) == Pass;
    CsvReader.ValidationPassesExactlyValidRosters(es);
    var byId := ById(es);
    IdIndexFinds(byId, es, x);
    IdIndexFinds(byId, es, y);
    forall d: nat ensures !ChainLength(byId, Some(x), d) {
      TwoCycleNoChain(byId, x, y, d);
    }
  }

  /** The employees named by a list of reporting-line issues, in list order. */
  function Reported(issues: seq<ReportingLineIssue>): (es: seq<Employee>)
    ensures |es| == |issues|
    ensures forall i :: 0 <= i < |issues| ==> es[i] == issues[i].employee
  {
    if issues == [] then [] else Reported(issues[..|issues| - 1]) + [issues[|issues| - 1].employee]
  }

  /**
   * Every reporting-line issue is exact: a non-CEO employee among the
   * scanned ones with more than 4 managers above it, the actual count, and
   * the excess `count - 4`, which is positive.
   */
  lemma {:induction false} ReportingLineIssuesExact(byId: map<int, Employee>, es: seq<Employee>, n: nat)
    requires n <= |es| && AllReachRoot(byId, es, n)
    ensures forall issue :: issue in ReportingLineIssues(byId, es, n) ==>
      && issue.employee in es[..n]
      && !issue.employee.IsCEO()
      && ChainLength(byId, Some(issue.employee), issue.actualManagerCount)
      && issue.actualManagerCount > MaxManagersToRoot
      && issue.excessManagerCount == issue.actualManagerCount - MaxManagersToRoot
      && issue.excessManagerCount > 0
  {
    if n > 0 {
      assert forall x :: x in es[..n - 1] ==> x in es[..n];
      assert es[n - 1] in es[..n];
      ReportingLineIssuesExact(byId, es, n - 1);
    }
  }

  /** Every scanned non-CEO employee with more than 4 managers above it is reported. */
  lemma {:induction false} ReportingLineIssuesComplete(byId: map<int, Employee>, es: seq<Employee>, n: nat, k: nat, d: nat)
    requires n <= |es| && AllReachRoot(byId, es, n)
    requires k < n && !es[k].IsCEO() && ChainLength(byId, Some(es[k]), d) && d > MaxManagersToRoot
    ensures ReportingLineIssue(es[k], d, d - MaxManagersToRoot) in ReportingLineIssues(byId, es, n)
  {
    if k == n - 1 {
      ChainLengthUnique(byId, Some(es[k]), d, Depth(byId, es[k]));
    } else {
      ReportingLineIssuesComplete(byId, es, n - 1, k, d);
    }
  }

  /** Scanning one more employee adds that employee to the reported ones, or nobody. */
  lemma ReportedStep(byId: map<int, Employee>, es: seq<Employee>, n: nat)
    requires 0 < n <= |es| && AllReachRoot(byId, es, n)
    ensures var before := Reported(ReportingLineIssues(byId, es, n - 1));
      var after := Reported(ReportingLineIssues(byId, es, n));
      after == before || after == before + [es[n - 1]]
  {
    var prefix := ReportingLineIssues(byId, es, n - 1);
    var all := ReportingLineIssues(byId, es, n);
    if |all| != |prefix| {
      assert all == prefix + [all[|prefix|]] && all[|prefix|].employee == es[n - 1];
      assert Reported(all) == Reported(prefix) + [es[n - 1]];
    } else {
      assert all == prefix;
    }
  }

  /** Reporting-line issues come in roster order. */
  lemma {:induction false} ReportingLineIssuesInOrder(byId: map<int, Employee>, es: seq<Employee>, n: nat)
    requires n <= |es| && AllReachRoot(byId, es, n)
    ensures IsSubsequence(Reported(ReportingLineIssues(byId, es, n)), es[..n])
  {
    if n > 0 {
      ReportingLineIssuesInOrder(byId, es, n - 1);
      ReportedStep(byId, es, n);
      SubsequenceStep(Reported(ReportingLineIssues(byId, es, n - 1)), Reported(ReportingLineIssues(byId, es, n)), es, n);
    }
  }

  /** The first employee without a manager, if any. */
  function FindCeo(es: seq<Employee>): (r: Option<Employee>)
    ensures r.None? <==> forall e :: e in es ==> !e.IsCEO()
    ensures r.Some? ==> r.value in es && r.value.IsCEO()
  {
    if es == [] then None
    else if es[0].IsCEO() then Some(es[0])
    else FindCeo(es[1..])
  }

  // ---------------------------------------------------------------------
  // The service
  // ---------------------------------------------------------------------

  /**
   * The analysis service over one roster. Its indices are built once by the
   * constructor and never change.
   */
  class OrganizationalAnalysisService {
    const employees: seq<Employee>
    const employeeMap: map<int, Employee>
    const subordinatesMap: map<int, seq<Employee>>

    ghost predicate Valid() {
      && UniqueIds(employees)
      && IsIdIndex(employeeMap, employees)
      && IsSubordinatesIndex(subordinatesMap, employees)
    }

    /** Builds both indices; ids must be unique (building the id map rejects duplicates). */
    constructor (employees: seq<Employee>)
      requires UniqueIds(employees)
      ensures this.employees == employees
      ensures Valid()
    {
      this.employees := employees;
      this.employeeMap := ById(employees);
      var index := BuildSubordinatesMap(employees);
      this.subordinatesMap := index;
    }

    /** Groups the non-CEO employees under their manager id, keeping roster order. */
    static method BuildSubordinatesMap(employees: seq<Employee>) returns (index: map<int, seq<Employee>>)
      ensures IsSubordinatesIndex(index, employees)
    {
      index := map[];
      assert forall m :: IndexEntry(index, employees[..0], m);
      for i := 0 to |employees|
        invariant IsSubordinatesIndex(index, employees[..i])
      {
        var employee := employees[i];
        assert employees[..i + 1] == employees[..i] + [employee];
        IndexAppend(index, employees[..i], employee);
        if !employee.IsCEO() {
          var managerId := employee.managerId.value;
          var reports := if managerId in index then index[managerId] else [];
          index := index[managerId := reports + [employee]];
        }
      }
      assert employees[..|employees|] == employees;
    }

    /** Managers paid less than 120% of the mean salary of their direct reports, in roster order. */
    method FindManagersEarningTooLittle() returns (issues: seq<ManagerSalaryIssue>)
      requires Valid()
      ensures issues == SalaryIssues(Underpaid, employees, |employees|)
    {
      issues := [];
      for i := 0 to |employees|
        invariant issues == SalaryIssues(Underpaid, employees, i)
      {
        var manager := employees[i];
        var issue := CheckUnderpaid(manager);
        issues := issues + IssueList(issue);
      }
    }

    /** The underpaid rule applied to one manager: paid under 120% of the mean of their direct reports. */
    method CheckUnderpaid(manager: Employee) returns (issue: Option<ManagerSalaryIssue>)
      requires Valid()
      ensures issue == SalaryIssue(Underpaid, manager, DirectReports(employees, manager.id))
    {
      IndexLookup(subordinatesMap, employees, manager.id);
      issue := None;
      if manager.id in subordinatesMap && subordinatesMap[manager.id] != [] {
        var subordinates := subordinatesMap[manager.id];
        var avgSubordinateSalary := Mean(subordinates);
        var minimumExpectedSalary := avgSubordinateSalary * 1.20;
        if manager.salary < minimumExpectedSalary {
          var shortfall := minimumExpectedSalary - manager.salary;
          issue := Some(ManagerSalaryIssue(manager, shortfall, Underpaid, avgSubordinateSalary, |subordinates|));
        }
      }
    }

    /** Managers paid more than 150% of the mean salary of their direct reports, in roster order. */
    method FindManagersEarningTooMuch() returns (issues: seq<ManagerSalaryIssue>)
      requires Valid()
      ensures issues == SalaryIssues(Overpaid, employees, |employees|)
    {
      issues := [];
      for i := 0 to |employees|
        invariant issues == SalaryIssues(Overpaid, employees, i)
      {
        var manager := employees[i];
        var issue := CheckOverpaid(manager);
        issues := issues + IssueList(issue);
      }
    }

    /** The overpaid rule applied to one manager: paid over 150% of the mean of their direct reports. */
    method CheckOverpaid(manager: Employee) returns (issue: Option<ManagerSalaryIssue>)
      requires Valid()
      ensures issue == SalaryIssue(Overpaid, manager, DirectReports(employees, manager.id))
    {
      IndexLookup(subordinatesMap, employees, manager.id);
      issue := None;
      if manager.id in subordinatesMap && subordinatesMap[manager.id] != [] {
        var subordinates := subordinatesMap[manager.id];
        var avgSubordinateSalary := Mean(subordinates);
        var maximumExpectedSalary := avgSubordinateSalary * 1.50;
        if manager.salary > maximumExpectedSalary {
          var overpay := manager.salary - maximumExpectedSalary;
          issue := Some(ManagerSalaryIssue(manager, overpay, Overpaid, avgSubordinateSalary, |subordinates|));
        }
      }
    }

    /** The CEO of the roster: the first employee without a manager. */
    function FindCEO(): (r: Option<Employee>)
      ensures r.None? <==> forall e :: e in employees ==> !e.IsCEO()
      ensures r.Some? ==> r.value in employees && r.value.IsCEO()
    {
      FindCeo(employees)
    }

    /**
     * Walks up from `employee` through the id index, counting hops, until it
     * stands on the CEO or on a manager id the index lacks. A per-walk set
     * of visited ids stops the walk at the first revisit.
     */
    method CountManagersToRoot(employee: Employee) returns (r: Result<nat, StructuralError>)
      requires Valid() && employee in employees
      ensures r.Ok? ==> ChainLength(employeeMap, Some(employee), r.value)
      ensures r.Err? ==> r.error.CircularReporting? && !ReachesRoot(employeeMap, employee)
    {
      var count: nat := 0;
      var current: Option<Employee> := Some(employee);
      var visited: set<int> := {};
      ghost var path: seq<Employee> := [];
      IdIndexFinds(employeeMap, employees, employee);
      HopsZero(employeeMap, current);
      while current.Some? && !current.value.IsCEO()
        invariant |path| == count
        invariant Remembers(visited, path)
        invariant OnIndex(employeeMap, path)
        invariant current.Some? ==> current.value.id in employeeMap && employeeMap[current.value.id] == current.value
        invariant HopsAbove(employeeMap, Some(employee), count, current)
        invariant Walked(employeeMap, path, current)
        decreases |employeeMap.Keys - visited|
      {
        var x := current.value;
        if x.id in visited {
          assert RemembersAt(visited, path, x.id);
          RevisitMeansCycle(employeeMap, employee, path, x);
          return Err(CircularReporting(x));
        }
        ghost var unvisited := employeeMap.Keys - visited;
        assert unvisited == (employeeMap.Keys - (visited + {x.id})) + {x.id};
        RemembersStep(visited, path, x);
        visited := visited + {x.id};
        OnIndexAppend(employeeMap, path, x);
        WalkedStep(employeeMap, path, x);
        HopsOne(employeeMap, x);
        HopsTrans(employeeMap, Some(employee), count, current, 1, Lookup(employeeMap, x.managerId.value));
        IdIndexLookup(employeeMap, employees, x.managerId.value);
        path := path + [x];
        current := Lookup(employeeMap, x.managerId.value);
        count := count + 1;
      }
      HopsToRoot(employeeMap, Some(employee), count, current);
      return Ok(count);
    }

    /**
     * Employees with more than 4 managers between them and the CEO, in
     * roster order. Fails when the roster has no CEO, and when some walk
     * meets a cycle.
     */
    method FindEmployeesWithTooLongReportingLines() returns (r: Result<seq<ReportingLineIssue>, StructuralError>)
      requires Valid()
      ensures r == Err(NoCeo) <==> forall e :: e in employees ==> !e.IsCEO()
      ensures r.Ok? <==> (exists e :: e in employees && e.IsCEO()) && AllReachRoot(employeeMap, employees, |employees|)
      ensures r.Ok? ==> r.value == ReportingLineIssues(employeeMap, employees, |employees|)
    {
      var ceo := FindCEO();
      if ceo.None? {
        return Err(NoCeo);
      }
      var issues := [];
      for i := 0 to |employees|
        invariant AllReachRoot(employeeMap, employees, i)
        invariant issues == ReportingLineIssues(employeeMap, employees, i)
      {
        var employee := employees[i];
        if employee.IsCEO() {
          ReachRootStep(employeeMap, employees, i, 0);
          ReportingScanStep(employeeMap, employees, i + 1, 0);
        } else {
          var managersToRoot := CountManagersToRoot(employee);
          if managersToRoot.Err? {
            return Err(managersToRoot.error);
          }
          ReachRootStep(employeeMap, employees, i, managersToRoot.value);
          ReportingScanStep(employeeMap, employees, i + 1, managersToRoot.value);
          if managersToRoot.value > MaxManagersToRoot {
            var excess := managersToRoot.value - MaxManagersToRoot;
            issues := issues + [ReportingLineIssue(employee, managersToRoot.value, excess)];
          }
        }
      }
      return Ok(issues);
    }
  }
}
