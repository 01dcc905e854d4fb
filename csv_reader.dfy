/**
 * The roster reader: turns the lines of a CSV file into a validated list of
 * employees, or reports the first problem it meets.
 */
module CsvReader {
  import opened Wrappers
  import opened EmployeeModel
  import opened CsvText

  /** The only header line the reader accepts. */
  const Header: string := "Id,firstName,lastName,salary,managerId"

  /** Why one data row could not be turned into an employee. */
  datatype RowError =
    | WrongFieldCount(found: nat)
    | InvalidNumber(text: string)
    | EmptyFirstName
    | EmptyLastName
    | NegativeSalary

  /** Why a whole file was rejected; line numbers count every line from 1, blank ones included. */
  datatype CsvError =
    | InvalidHeader(lineNumber: nat, found: string)
    | ParseError(lineNumber: nat, line: string, cause: RowError)
    | NoEmployeeData
    | NoCeo
    | MultipleCeos
    | DuplicateIds
    | NonexistentManager(employee: Employee, managerId: int)
    | SelfManagement(employee: Employee)

  /** The header check: the first non-blank line must be exactly `Header`. */
  function ValidateHeader(line: string, lineNumber: nat): (r: Outcome<CsvError>)
    ensures r.Pass? <==> line == Header
    ensures r.Fail? ==> r.error == InvalidHeader(lineNumber, line)
  {
    if line == Header then Pass else Fail(InvalidHeader(lineNumber, line))
  }

  /**
   * One data row: five comma-separated fields (id, first name, last name,
   * salary, manager id). Any other field count is rejected before the
   * fields are looked at.
   */
  function ParseCsvLine(line: string): (r: Result<Employee, RowError>)
    ensures r.Ok? ==> r.value.firstName != [] && r.value.lastName != [] && r.value.salary >= 0.0
    ensures r.Err? && r.error.WrongFieldCount? ==> r.error.found != 5
  {
    var fields := Split(line);
    if |fields| != 5 then Err(WrongFieldCount(|fields|)) else ParseFields(fields)
  }

  /**
   * The five fields of a row, each trimmed. The checks run in field order;
   * an empty manager field makes the employee the CEO. A failure here is
   * never about the field count.
   */
  function ParseFields(fields: seq<string>): (r: Result<Employee, RowError>)
    requires |fields| == 5
    ensures r.Err? ==> !r.error.WrongFieldCount?
    ensures r.Ok? ==>
      var e := r.value;
      && ParseLong(Trim(fields[0])) == Some(e.id)
      && e.firstName == Trim(fields[1]) && e.firstName != []
      && e.lastName == Trim(fields[2]) && e.lastName != []
      && ParseDecimal(Trim(fields[3])) == Some(e.salary) && e.salary >= 0.0
      && (e.IsCEO() <==> Trim(fields[4]) == [])
      && (!e.IsCEO() ==> ParseLong(Trim(fields[4])) == e.managerId)
  {
    var idText := Trim(fields[0]);
    match ParseLong(idText)
    case None => Err(InvalidNumber(idText))
    case Some(id) =>
      var firstName, lastName := Trim(fields[1]), Trim(fields[2]);
      if firstName == [] then Err(EmptyFirstName)
      else if lastName == [] then Err(EmptyLastName)
      else
        var salaryText := Trim(fields[3]);
        match ParseDecimal(salaryText)
        case None => Err(InvalidNumber(salaryText))
        case Some(salary) =>
          if salary < 0.0 then Err(NegativeSalary)
          else
            var managerText := Trim(fields[4]);
            if managerText == [] then Ok(Employee(id, firstName, lastName, salary, None))
            else
              match ParseLong(managerText)
              case None => Err(InvalidNumber(managerText))
              case Some(managerId) => Ok(Employee(id, firstName, lastName, salary, Some(managerId)))
  }

  /** A row is rejected for its field count exactly when it does not have five fields. */
  lemma ParseCsvLineFieldCount(line: string)
    ensures var r := ParseCsvLine(line);
      && (|Split(line)| != 5 <==> r.Err? && r.error.WrongFieldCount?)
      && (r.Err? && r.error.WrongFieldCount? ==> r.error.found == |Split(line)|)
  {
  }

  /**
   * An accepted row gives an employee whose fields are the trimmed texts,
   * with non-empty names, a non-negative salary, and no manager exactly
   * when the manager field is blank.
   */
  lemma ParseCsvLineFields(line: string)
    ensures var r := ParseCsvLine(line);
      r.Ok? ==>
      var f, e := Split(line), r.value;
      && ParseLong(Trim(f[0])) == Some(e.id)
      && e.firstName == Trim(f[1]) && e.firstName != []
      && e.lastName == Trim(f[2]) && e.lastName != []
      && ParseDecimal(Trim(f[3])) == Some(e.salary) && e.salary >= 0.0
      && (e.IsCEO() <==> Trim(f[4]) == [])
      && (!e.IsCEO() ==> ParseLong(Trim(f[4])) == e.managerId)
  {
  }

  /** The CSV row that writes `e` out, for an employee whose salary is a whole number. */
  function FormatRow(e: Employee): string
    requires e.salary == e.salary.Floor as real
  {
    var manager := match e.managerId case None => "" case Some(m) => FormatInt(m);
    Join([FormatInt(e.id), e.firstName, e.lastName, FormatInt(e.salary.Floor), manager])
  }

  /**
   * Any employee the reader could have produced (trimmed, non-empty,
   * comma-free names and a whole, non-negative salary) is read back from
   * its row unchanged.
   */
  lemma ParseFormatRow(e: Employee)
    requires e.salary == e.salary.Floor as real && e.salary >= 0.0
    requires e.firstName != [] && Trim(e.firstName) == e.firstName && ',' !in e.firstName
    requires e.lastName != [] && Trim(e.lastName) == e.lastName && ',' !in e.lastName
    ensures ParseCsvLine(FormatRow(e)) == Ok(e)
  {
    var manager := match e.managerId case None => "" case Some(m) => FormatInt(m);
    var fields := [FormatInt(e.id), e.firstName, e.lastName, FormatInt(e.salary.Floor), manager];
    FormatIntIsTrimmedField(e.id);
    ParseFormatInt(e.id);
    FormatIntIsTrimmedField(e.salary.Floor);
    ParseFormatInt(e.salary.Floor);
    match e.managerId {
      case None =>
      case Some(m) =>
        FormatIntIsTrimmedField(m);
        ParseFormatInt(m);
    }
    forall f | f in fields ensures ',' !in f { }
    SplitJoin(fields);
  }

  /** Number of employees without a manager: none exactly when nobody is the CEO. */
  function CeoCount(es: seq<Employee>): (n: nat)
    ensures n <= |es|
    ensures n == 0 <==> forall e :: e in es ==> !e.IsCEO()
  {
    if es == [] then 0
    else
      var init, last := es[..|es| - 1], es[|es| - 1];
      assert es == init + [last];
      CeoCount(init) + (if last.IsCEO() then 1 else 0)
  }

  /** Position `i` holds a CEO, and no other position does. */
  predicate OnlyCeoAt(es: seq<Employee>, i: int) {
    && 0 <= i < |es| && es[i].IsCEO()
    && forall j :: 0 <= j < |es| && es[j].IsCEO() ==> j == i
  }

  /** Exactly one position of the roster holds a CEO. */
  ghost predicate ExactlyOneCeo(es: seq<Employee>) {
    exists i :: OnlyCeoAt(es, i)
  }

  /** The count of CEOs is one exactly when one position, and only that one, holds a CEO. */
  lemma {:induction false} CeoCountOne(es: seq<Employee>)
    ensures CeoCount(es) == 1 <==> ExactlyOneCeo(es)
  {
    if es != [] {
      var init, n := es[..|es| - 1], |es| - 1;
      CeoCountOne(init);
      if es[n].IsCEO() {
        if CeoCount(init) == 0 {
          forall j | 0 <= j < n ensures !es[j].IsCEO() {
            assert es[j] == init[j] && init[j] in init;
          }
          assert OnlyCeoAt(es, n);
        }
        if ExactlyOneCeo(es) {
          var i :| OnlyCeoAt(es, i);
          assert i == n;
          forall e | e in init ensures !e.IsCEO() {
            var j :| 0 <= j < n && init[j] == e;
            assert es[j] == e;
          }
        }
      } else {
        if ExactlyOneCeo(es) {
          var i :| OnlyCeoAt(es, i);
          assert i < n;
          forall j | 0 <= j < n && init[j].IsCEO() ensures j == i {
            assert es[j] == init[j];
          }
          assert OnlyCeoAt(init, i);
        }
        if ExactlyOneCeo(init) {
          var i :| OnlyCeoAt(init, i);
          forall j | 0 <= j < n && es[j].IsCEO() ensures j == i {
            assert es[j] == init[j];
          }
          assert OnlyCeoAt(es, i);
        }
      }
    }
  }

  /** Counting the distinct ids, as the source does, decides uniqueness. */
  lemma {:induction false} DistinctIdCount(es: seq<Employee>)
    ensures |IdSet(es)| <= |es|
    ensures |IdSet(es)| == |es| <==> UniqueIds(es)
  {
    if es != [] {
      var init, last := es[..|es| - 1], es[|es| - 1];
      DistinctIdCount(init);
      assert es == init + [last];
      IdSetAppend(init, last);
      UniqueIdsAppend(init, last);
      if last.id !in IdSet(init) {
        assert |IdSet(es)| == |IdSet(init)| + 1;
      }
    }
  }

  /**
   * The reference check of one employee: its manager must exist and must not
   * be itself. A missing manager is reported with the employee and its own
   * manager id; self-management with the employee.
   */
  function ManagerProblem(ids: set<int>, e: Employee): (r: Option<CsvError>)
    ensures r.None? <==> e.IsCEO() || (e.managerId.value in ids && e.managerId.value != e.id)
    ensures r.Some? ==> r.value.NonexistentManager? || r.value.SelfManagement?
    ensures r.Some? && r.value.NonexistentManager? ==>
      r.value.employee == e && e.managerId == Some(r.value.managerId) && r.value.managerId !in ids
    ensures r.Some? && r.value.SelfManagement? ==>
      r.value.employee == e && e.managerId == Some(e.id) && e.id in ids
  {
    match e.managerId
    case None => None
    case Some(m) =>
      if m !in ids then Some(NonexistentManager(e, m))
      else if m == e.id then Some(SelfManagement(e))
      else None
  }

  /** The problem of the first employee, in list order, whose manager reference is wrong. */
  function FirstManagerProblem(ids: set<int>, es: seq<Employee>): (r: Option<CsvError>)
    ensures r.Some? ==> r.value.NonexistentManager? || r.value.SelfManagement?
  {
    if es == [] then None
    else if ManagerProblem(ids, es[0]).Some? then ManagerProblem(ids, es[0])
    else FirstManagerProblem(ids, es[1..])
  }

  /**
   * A reported problem is the problem of the first employee, in list order,
   * whose manager reference is wrong.
   */
  lemma {:induction false} FirstManagerProblemIsFirst(ids: set<int>, es: seq<Employee>)
    ensures var r := FirstManagerProblem(ids, es);
      r.Some? ==> exists k ::
        && 0 <= k < |es| && r == ManagerProblem(ids, es[k])
        && forall j :: 0 <= j < k ==> ManagerProblem(ids, es[j]).None?
  {
    if es != [] && ManagerProblem(ids, es[0]).None? {
      var r := FirstManagerProblem(ids, es);
      FirstManagerProblemIsFirst(ids, es[1..]);
      if r.Some? {
        var k :| 0 <= k < |es| - 1 && r == ManagerProblem(ids, es[1..][k])
          && forall j :: 0 <= j < k ==> ManagerProblem(ids, es[1..][j]).None?;
        forall j | 0 <= j < k + 1 ensures ManagerProblem(ids, es[j]).None? {
          if j > 0 {
            assert es[j] == es[1..][j - 1];
          }
        }
        assert r == ManagerProblem(ids, es[k + 1]);
      }
    }
  }

  /** The whole-roster checks, in the order the source runs them. */
  function Validation(es: seq<Employee>): (r: Outcome<CsvError>)
    ensures r == Fail(NoCeo) <==> forall e :: e in es ==> !e.IsCEO()
  {
    var ceos := CeoCount(es);
    if ceos == 0 then Fail(NoCeo)
    else if ceos > 1 then Fail(MultipleCeos)
    else if |IdSet(es)| != |es| then Fail(DuplicateIds)
    else match FirstManagerProblem(IdSet(es), es)
      case Some(problem) => Fail(problem)
      case None => Pass
  }

  /** A roster the analyzer may rely on: one CEO, unique ids, every manager present and not oneself. */
  ghost predicate ValidRoster(es: seq<Employee>) {
    && ExactlyOneCeo(es)
    && UniqueIds(es)
    && forall e :: e in es && !e.IsCEO() ==>
         e.managerId.value in IdSet(es) && e.managerId.value != e.id
  }

  lemma {:induction false} FirstManagerProblemNone(ids: set<int>, es: seq<Employee>)
    ensures FirstManagerProblem(ids, es).None? <==>
      forall e :: e in es && !e.IsCEO() ==> e.managerId.value in ids && e.managerId.value != e.id
  {
    if es != [] {
      FirstManagerProblemNone(ids, es[1..]);
      assert forall e :: e in es <==> e == es[0] || e in es[1..];
    }
  }

  /**
   * Several CEOs are reported exactly when there is a CEO but not exactly one;
   * duplicate ids exactly when there is one CEO but the ids repeat.
   */
  lemma ValidationErrors(es: seq<Employee>)
    ensures Validation(es) == Fail(MultipleCeos) <==>
      (exists e :: e in es && e.IsCEO()) && !ExactlyOneCeo(es)
    ensures Validation(es) == Fail(DuplicateIds) <==> ExactlyOneCeo(es) && !UniqueIds(es)
  {
    CeoCountOne(es);
    DistinctIdCount(es);
  }

  /** The checks pass exactly on valid rosters. */
  lemma ValidationPassesExactlyValidRosters(es: seq<Employee>)
    ensures Validation(es).Pass? <==> ValidRoster(es)
  {
    CeoCountOne(es);
    DistinctIdCount(es);
    FirstManagerProblemNone(IdSet(es), es);
  }

  /**
   * The roster checks, in order: no CEO, several CEOs, duplicate ids, then
   * for each employee in list order a missing manager or self-management.
   */
  method ValidateEmployeeData(employees: seq<Employee>) returns (r: Outcome<CsvError>)
    ensures r == Validation(employees)
    ensures r.Pass? <==> ValidRoster(employees)
  {
    ValidationPassesExactlyValidRosters(employees);
    var ceoCount := CeoCount(employees);
    if ceoCount == 0 {
      return Fail(NoCeo);
    }
    if ceoCount > 1 {
      return Fail(MultipleCeos);
    }
    var allIds := IdSet(employees);
    if |allIds| != |employees| {
      return Fail(DuplicateIds);
    }
    var i := 0;
    while i < |employees|
      invariant 0 <= i <= |employees|
      invariant FirstManagerProblem(allIds, employees) == FirstManagerProblem(allIds, employees[i..])
    {
      var employee := employees[i];
      assert employees[i..][1..] == employees[i + 1..];
      if !employee.IsCEO() {
        var managerId := employee.managerId.value;
        if managerId !in allIds {
          return Fail(NonexistentManager(employee, managerId));
        }
        if managerId == employee.id {
          return Fail(SelfManagement(employee));
        }
      }
      i := i + 1;
    }
    return Pass;
  }

  /** A trimmed, non-blank line of the file with its 1-based line number. */
  datatype NumberedLine = NumberedLine(number: nat, text: string)

  /** The trimmed non-blank lines among the first `n` lines, in file order. */
  function NonBlankLines(lines: seq<string>, n: nat): (nb: seq<NumberedLine>)
    requires n <= |lines|
    ensures |nb| <= n
  {
    if n == 0 then []
    else
      var text := Trim(lines[n - 1]);
      NonBlankLines(lines, n - 1) + (if text != [] then [NumberedLine(n, text)] else [])
  }

  lemma NonBlankLinesStep(lines: seq<string>, n: nat)
    requires 0 < n <= |lines|
    ensures var text := Trim(lines[n - 1]);
      NonBlankLines(lines, n) ==
        NonBlankLines(lines, n - 1) + (if text != [] then [NumberedLine(n, text)] else [])
  {
  }

  /** Each listed line carries its 1-based number and its trimmed, non-blank text. */
  lemma {:induction false} NonBlankLinesEntries(lines: seq<string>, n: nat)
    requires n <= |lines|
    ensures var nb := NonBlankLines(lines, n);
      forall k :: 0 <= k < |nb| ==>
        1 <= nb[k].number <= n && nb[k].text == Trim(lines[nb[k].number - 1]) && nb[k].text != []
  {
    if n > 0 {
      NonBlankLinesEntries(lines, n - 1);
      var prev, nb := NonBlankLines(lines, n - 1), NonBlankLines(lines, n);
      NonBlankLinesStep(lines, n);
      forall k | 0 <= k < |nb|
        ensures 1 <= nb[k].number <= n && nb[k].text == Trim(lines[nb[k].number - 1]) && nb[k].text != []
      {
        if k < |prev| { assert nb[k] == prev[k]; }
      }
    }
  }

  /** The lines are listed in increasing line order. */
  lemma {:induction false} NonBlankLinesOrdered(lines: seq<string>, n: nat)
    requires n <= |lines|
    ensures var nb := NonBlankLines(lines, n);
      forall k, l :: 0 <= k < l < |nb| ==> nb[k].number < nb[l].number
  {
    if n > 0 {
      NonBlankLinesOrdered(lines, n - 1);
      NonBlankLinesEntries(lines, n - 1);
      var prev, nb := NonBlankLines(lines, n - 1), NonBlankLines(lines, n);
      NonBlankLinesStep(lines, n);
      forall k, l | 0 <= k < l < |nb| ensures nb[k].number < nb[l].number {
        assert nb[k] == prev[k];
        if l < |prev| { assert nb[l] == prev[l]; }
      }
    }
  }

  /** Every line that is not blank after trimming is listed, at position `k`. */
  lemma {:induction false} NonBlankLinesComplete(lines: seq<string>, n: nat, i: nat) returns (k: nat)
    requires i < n <= |lines| && Trim(lines[i]) != []
    ensures k < |NonBlankLines(lines, n)| && NonBlankLines(lines, n)[k].number == i + 1
  {
    var prev, nb := NonBlankLines(lines, n - 1), NonBlankLines(lines, n);
    NonBlankLinesStep(lines, n);
    if i < n - 1 {
      k := NonBlankLinesComplete(lines, n - 1, i);
      assert nb[k] == prev[k];
    } else {
      k := |nb| - 1;
    }
  }

  /** Reading more lines only appends to the non-blank lines already found. */
  lemma {:induction false} NonBlankLinesPrefix(lines: seq<string>, n: nat, m: nat)
    requires n <= m <= |lines|
    ensures |NonBlankLines(lines, n)| <= |NonBlankLines(lines, m)|
    ensures NonBlankLines(lines, m)[..|NonBlankLines(lines, n)|] == NonBlankLines(lines, n)
    decreases m - n
  {
    if n < m {
      NonBlankLinesPrefix(lines, n, m - 1);
      var a, b := NonBlankLines(lines, n), NonBlankLines(lines, m - 1);
      assert NonBlankLines(lines, m)[..|b|] == b;
      assert NonBlankLines(lines, m)[..|a|] == b[..|a|];
    }
  }

  /** Parses the data rows in order with `parse`; the first row that fails decides the error. */
  function ParseRowsWith(parse: string -> Result<Employee, RowError>, rows: seq<NumberedLine>): Result<seq<Employee>, CsvError>
  {
    if rows == [] then Ok([])
    else
      var last := rows[|rows| - 1];
      match ParseRowsWith(parse, rows[..|rows| - 1])
      case Err(e) => Err(e)
      case Ok(es) =>
        match parse(last.text)
        case Err(cause) => Err(ParseError(last.number, last.text, cause))
        case Ok(e) => Ok(es + [e])
  }

  /** Once a prefix of the rows fails, the rows after it cannot change the error. */
  lemma {:induction false} ParseRowsErrorSticks(parse: string -> Result<Employee, RowError>, rows: seq<NumberedLine>, k: nat)
    requires k <= |rows|
    requires ParseRowsWith(parse, rows[..k]).Err?
    ensures ParseRowsWith(parse, rows) == ParseRowsWith(parse, rows[..k])
    decreases |rows| - k
  {
    if k < |rows| {
      var init := rows[..|rows| - 1];
      assert init[..k] == rows[..k];
      ParseRowsErrorSticks(parse, init, k);
    } else {
      assert rows[..k] == rows;
    }
  }

  /** When every row parses, the employees are the parsed rows, one per row, in row order. */
  lemma {:induction false} ParseRowsOk(parse: string -> Result<Employee, RowError>, rows: seq<NumberedLine>)
    requires ParseRowsWith(parse, rows).Ok?
    ensures |ParseRowsWith(parse, rows).value| == |rows|
    ensures forall k :: 0 <= k < |rows| ==> parse(rows[k].text) == Ok(ParseRowsWith(parse, rows).value[k])
  {
    if rows != [] {
      var init, last := rows[..|rows| - 1], rows[|rows| - 1];
      ParseRowsOk(parse, init);
      var es := ParseRowsWith(parse, init).value;
      var e := parse(last.text).value;
      assert ParseRowsWith(parse, rows).value == es + [e];
      forall k | 0 <= k < |rows| ensures parse(rows[k].text) == Ok(ParseRowsWith(parse, rows).value[k]) {
        if k < |init| {
          assert rows[k] == init[k];
          assert ParseRowsWith(parse, rows).value[k] == es[k];
        }
      }
    }
  }

  /**
   * What reading a file means, for a given row parser: skip blank lines; the
   * first non-blank line is the header; every later non-blank line is a
   * row; at least one row; the roster must pass `Validation`.
   */
  function ReadSpecWith(parse: string -> Result<Employee, RowError>, lines: seq<string>): Result<seq<Employee>, CsvError>
  {
    var nb := NonBlankLines(lines, |lines|);
    if nb == [] then Err(NoEmployeeData)
    else if nb[0].text != Header then Err(InvalidHeader(nb[0].number, nb[0].text))
    else
      match ParseRowsWith(parse, nb[1..])
      case Err(e) => Err(e)
      case Ok(es) =>
        if es == [] then Err(NoEmployeeData)
        else match Validation(es)
          case Fail(e) => Err(e)
          case Pass => Ok(es)
  }

  /** What reading a roster file means, each row parsed as an employee line. */
  function ReadSpec(lines: seq<string>): Result<seq<Employee>, CsvError>
  {
    ReadSpecWith(ParseCsvLine, lines)
  }

  /**
   * An accepted file yields a non-empty valid roster holding exactly one
   * employee per non-blank line after the header, in line order; the header
   * itself never becomes an employee.
   */
  lemma ReadSpecAccepted(lines: seq<string>)
    requires ReadSpec(lines).Ok?
    ensures var nb, es := NonBlankLines(lines, |lines|), ReadSpec(lines).value;
      && nb != [] && nb[0].text == Header
      && es != [] && ValidRoster(es)
      && |es| == |nb| - 1
      && forall k :: 0 <= k < |es| ==> ParseCsvLine(nb[k + 1].text) == Ok(es[k])
  {
    var nb := NonBlankLines(lines, |lines|);
    ParseRowsOk(ParseCsvLine, nb[1..]);
    ValidationPassesExactlyValidRosters(ReadSpec(lines).value);
  }

  /** A file whose first non-blank line is not the header is rejected with that line. */
  lemma ReadSpecBadHeader(lines: seq<string>, i: nat)
    requires i < |lines| && Trim(lines[i]) != [] && Trim(lines[i]) != Header
    requires forall j :: 0 <= j < i ==> Trim(lines[j]) == []
    ensures ReadSpec(lines) == Err(InvalidHeader(i + 1, Trim(lines[i])))
  {
    var nb := NonBlankLines(lines, |lines|);
    var k := NonBlankLinesComplete(lines, |lines|, i);
    NonBlankLinesEntries(lines, |lines|);
    NonBlankLinesOrdered(lines, |lines|);
  }

  /** With any row parser, a header-line failure found after reading `n` lines is the failure of the whole file. */
  lemma ReadStopsAtBadHeader(parse: string -> Result<Employee, RowError>, lines: seq<string>, n: nat)
    requires 0 < n <= |lines| && NonBlankLines(lines, n - 1) == []
    requires Trim(lines[n - 1]) != [] && Trim(lines[n - 1]) != Header
    ensures ReadSpecWith(parse, lines) == Err(InvalidHeader(n, Trim(lines[n - 1])))
  {
    var nb, all := NonBlankLines(lines, n), NonBlankLines(lines, |lines|);
    NonBlankLinesStep(lines, n);
    assert nb == [NumberedLine(n, Trim(lines[n - 1]))];
    NonBlankLinesPrefix(lines, n, |lines|);
    assert all[..1] == nb;
    assert all[0] == nb[0];
  }

  /** With any row parser, a row failure found after reading `n` lines is the failure of the whole file. */
  lemma ReadStopsAtBadRow(parse: string -> Result<Employee, RowError>, lines: seq<string>, n: nat, cause: RowError)
    requires 0 < n <= |lines|
    requires var nb := NonBlankLines(lines, n - 1);
      nb != [] && nb[0].text == Header && ParseRowsWith(parse, nb[1..]).Ok?
    requires Trim(lines[n - 1]) != [] && parse(Trim(lines[n - 1])) == Err(cause)
    ensures ReadSpecWith(parse, lines) == Err(ParseError(n, Trim(lines[n - 1]), cause))
  {
    var prev, nb, all := NonBlankLines(lines, n - 1), NonBlankLines(lines, n), NonBlankLines(lines, |lines|);
    NonBlankLinesStep(lines, n);
    NonBlankLinesPrefix(lines, n, |lines|);
    assert nb[1..][..|nb| - 2] == prev[1..];
    assert ParseRowsWith(parse, nb[1..]) == Err(ParseError(n, Trim(lines[n - 1]), cause));
    assert all[1..][..|nb| - 1] == nb[1..];
    ParseRowsErrorSticks(parse, all[1..], |nb| - 1);
    assert all[0] == nb[0] == prev[0];
  }

  /** With any row parser, an accepted row read as line `n` is appended to the employees read so far. */
  lemma ReadAppendsRow(parse: string -> Result<Employee, RowError>, lines: seq<string>, n: nat, employees: seq<Employee>, e: Employee)
    requires 0 < n <= |lines|
    requires var nb := NonBlankLines(lines, n - 1);
      nb != [] && nb[0].text == Header && ParseRowsWith(parse, nb[1..]) == Ok(employees)
    requires Trim(lines[n - 1]) != [] && parse(Trim(lines[n - 1])) == Ok(e)
    ensures var nb := NonBlankLines(lines, n);
      nb != [] && nb[0].text == Header && ParseRowsWith(parse, nb[1..]) == Ok(employees + [e])
  {
    var prev, nb := NonBlankLines(lines, n - 1), NonBlankLines(lines, n);
    NonBlankLinesStep(lines, n);
    assert nb[1..][..|nb| - 2] == prev[1..];
  }

  /**
   * Reads the lines of a roster file. Blank lines are skipped, the first
   * non-blank line must be the header, every later one is parsed as an
   * employee; the first failing line stops the read.
   */
  method ReadEmployees(lines: seq<string>) returns (r: Result<seq<Employee>, CsvError>)
    ensures r == ReadSpec(lines)
  {
    r := ReadEmployeesWith(ParseCsvLine, lines);
  }

  /** The read loop of `ReadEmployees`, for a given row parser. */
  method ReadEmployeesWith(parse: string -> Result<Employee, RowError>, lines: seq<string>) returns (r: Result<seq<Employee>, CsvError>)
    ensures r == ReadSpecWith(parse, lines)
  {
    var employees: seq<Employee> := [];
    var isFirstLine := true;
    var lineNumber := 0;
    while lineNumber < |lines|
      invariant 0 <= lineNumber <= |lines|
      invariant isFirstLine <==> NonBlankLines(lines, lineNumber) == []
      invariant isFirstLine ==> employees == []
      invariant !isFirstLine ==> NonBlankLines(lines, lineNumber)[0].text == Header
      invariant !isFirstLine ==> ParseRowsWith(parse, NonBlankLines(lines, lineNumber)[1..]) == Ok(employees)
    {
      var line := Trim(lines[lineNumber]);
      lineNumber := lineNumber + 1;
      NonBlankLinesStep(lines, lineNumber);
      if line == [] {
        assert NonBlankLines(lines, lineNumber) == NonBlankLines(lines, lineNumber - 1);
        continue;
      }
      if isFirstLine {
        isFirstLine := false;
        if ValidateHeader(line, lineNumber).Fail? {
          ReadStopsAtBadHeader(parse, lines, lineNumber);
          return Err(InvalidHeader(lineNumber, line));
        }
        assert NonBlankLines(lines, lineNumber)[1..] == [];
        assert ParseRowsWith(parse, []) == Ok([]);
        continue;
      }
      var parsed := parse(line);
      if parsed.Err? {
        ReadStopsAtBadRow(parse, lines, lineNumber, parsed.error);
        return Err(ParseError(lineNumber, line, parsed.error));
      }
      ReadAppendsRow(parse, lines, lineNumber, employees, parsed.value);
      employees := employees + [parsed.value];
    }
    assert lines[..lineNumber] == lines;
    if employees == [] {
      return Err(NoEmployeeData);
    }
    var validation := ValidateEmployeeData(employees);
    if validation.Fail? {
      return Err(validation.error);
    }
    return Ok(employees);
  }
}
