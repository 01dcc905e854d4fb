# Organizational analysis: a verified model

This project models the core of a small organizational-analysis tool written
in Java. The tool reads a CSV roster of employees. Each row holds an id, a
first and last name, a salary and an optional manager id; the CEO is the one
employee without a manager. It then reports three kinds of problem:

- managers paid less than 120% of the mean salary of their direct reports;
- managers paid more than 150% of that mean;
- employees with more than 4 managers between them and the CEO.

The model has six modules, one per file:

- `Wrappers` (`wrappers.dfy`): `Option`, `Result` and `Outcome` values. They
  stand for Java's `null` and its exceptions.
- `Seqs` (`seqs.dfy`): subsequences, used to state "in roster order".
- `EmployeeModel` (`employee.dfy`): the immutable `Employee` record with
  `getFullName`, `isCEO`, `equals` and `hashCode`.
- `CsvText` (`csv_text.dfy`): the Java library behaviour the reader relies on:
  `String.trim`, `String.split(",", -1)`, `Long.parseLong` and the decimal
  form of `Double.parseDouble`.
- `CsvReader` (`csv_reader.dfy`): the reader.
  - `ReadEmployeesWith` is the line loop of `readEmployees`. It is written
    once for any row parser and proved equal to the declarative
    `ReadSpecWith` for that parser. `ReadEmployees` runs it with
    `ParseCsvLine`, so it equals `ReadSpec`.
  - `ParseCsvLine` and `ValidateHeader` check single lines.
  - `ValidateEmployeeData` checks the whole roster, proved equal to
    `Validation`.
- `Analysis` (`analysis.dfy`): the class `OrganizationalAnalysisService`.
  - Its fields are the source's three `final` fields: the roster, the id map
    and the manager-to-reports map. The constructor builds them once and no
    method changes them afterwards.
  - Each query is a method with the source's loop. It is proved equal to a
    specification function: `SalaryIssues` for the salary rules,
    `ReportingLineIssues` for reporting-line depth.
  - Lemmas prove what those specification functions promise: every issue is
    exact, every offender is reported, issues come in roster order, and no
    manager is reported twice.

The two issue records of the service are the datatypes `ManagerSalaryIssue`
(manager, amount, kind, mean salary of the direct reports, number of reports)
and `ReportingLineIssue` (employee, manager count, excess over 4). The
`type` string of a salary issue is the kind, whose `Tag` gives the string.

Salaries are exact rationals (`real`), so `1.20` and `1.50` are exact. Ids
are unbounded integers. The source's file input becomes a sequence of lines.

The reporting-line count is the number of upward hops from an employee until
the walk stands on the CEO. The CEO therefore counts as one of the managers:
an employee reporting directly to the CEO has count 1. This is what
`countManagersToRoot` computes and what the source's tests expect (the
employee five levels below the CEO is reported with count 5). Counting only
the managers strictly between the employee and the CEO would give that
employee 4, and it would then not be reported. `ChainLength` is the
specification of the count. A manager id missing from the id map ends the
walk, and that last hop still counts.

The reader's roster checks (one CEO, unique ids, every manager present and
not oneself) do not rule out a reporting cycle away from the CEO.
`AcceptedRosterMayHoldCycle` exhibits such a roster. For it, the depth query
returns its cycle error rather than a list of issues; the model keeps that
error path, as the code does.

## Model

| member | source | states |
|---|---|---|
| EmployeeModel.Employee.IsCEO | demo/src/main/java/com/bigcompany/analysis/model/Employee.java:50-52 | defined as having no manager id; it has no contract of its own, and the CEO rules of the reader and the service are stated through it |
| EmployeeModel.Employee.FullName | demo/src/main/java/com/bigcompany/analysis/model/Employee.java:46-48 | the full name is the first name, then one space, then the last name, position by position |
| EmployeeModel.FullNameSplitsBack | demo/src/main/java/com/bigcompany/analysis/model/Employee.java:46-48 | when the first name has no space, the first space of the full name splits it back into first and last name |
| EmployeeModel.FirstSpace | demo/src/main/java/com/bigcompany/analysis/model/Employee.java:46-48 | the result is the index of the first space, or the length when there is none |
| EmployeeModel.Employee.Equals | demo/src/main/java/com/bigcompany/analysis/model/Employee.java:54-60 | defined as comparing the ids alone; it has no contract of its own, and `EqualsIsEquivalence` states its properties |
| EmployeeModel.EqualsIsEquivalence | demo/src/main/java/com/bigcompany/analysis/model/Employee.java:54-60 | equality is reflexive, symmetric and transitive, and holds exactly when the ids are equal, whatever the other fields hold |
| EmployeeModel.Employee.HashCode | demo/src/main/java/com/bigcompany/analysis/model/Employee.java:62-65 | the hash code is a 32-bit Java `int` |
| EmployeeModel.EqualEmployeesHashAlike | demo/src/main/java/com/bigcompany/analysis/model/Employee.java:54-65 | employees that are equal have equal hash codes |
| EmployeeModel.ToInt32 | demo/src/main/java/com/bigcompany/analysis/model/Employee.java:62-65 | the result is in the `int` range and congruent to the input modulo 2^32 |
| EmployeeModel.LongHashCode | demo/src/main/java/com/bigcompany/analysis/model/Employee.java:62-65 | folding a 64-bit id gives a value in the `int` range |
| EmployeeModel.UniqueIdsIdentify | demo/src/main/java/com/bigcompany/analysis/model/Employee.java:54-60 | in a roster with unique ids, two members with the same id are the same employee |
| EmployeeModel.IdSetAppend | demo/src/main/java/com/bigcompany/analysis/service/CsvReader.java:150 | appending an employee adds exactly its id to the set of ids |
| EmployeeModel.UniqueIdsAppend | demo/src/main/java/com/bigcompany/analysis/service/CsvReader.java:150-153 | appending keeps the ids unique if and only if they were unique and the new id is fresh |
| CsvText.Trim | demo/src/main/java/com/bigcompany/analysis/service/CsvReader.java:46 | the result is no longer than the input, and when not empty it starts and ends with a non-blank |
| CsvText.TrimStartCuts | demo/src/main/java/com/bigcompany/analysis/service/CsvReader.java:46 | removing leading blanks leaves a suffix that starts with a non-blank, and everything removed is blank |
| CsvText.TrimEndCuts | demo/src/main/java/com/bigcompany/analysis/service/CsvReader.java:46 | removing trailing blanks leaves a prefix that ends with a non-blank, and everything removed is blank |
| CsvText.TrimIsBlankFreeInfix | demo/src/main/java/com/bigcompany/analysis/service/CsvReader.java:46 | `trim` returns an infix of its input that starts and ends with a non-blank, and everything cut off on either side is blank |
| CsvText.TrimIdempotent | demo/src/main/java/com/bigcompany/analysis/service/CsvReader.java:46 | trimming a trimmed line changes nothing |
| CsvText.Split | demo/src/main/java/com/bigcompany/analysis/service/CsvReader.java:94 | there is always at least one field, even for the empty text |
| CsvText.SplitCount | demo/src/main/java/com/bigcompany/analysis/service/CsvReader.java:94 | `split(",", -1)` gives one more field than there are commas, and no field holds a comma |
| CsvText.JoinSplit | demo/src/main/java/com/bigcompany/analysis/service/CsvReader.java:94 | putting the fields back together with commas gives the original line |
| CsvText.SplitJoin | demo/src/main/java/com/bigcompany/analysis/service/CsvReader.java:94 | splitting comma-free fields joined by commas gives the same fields back, empty trailing fields included |
| CsvText.ParseLong | demo/src/main/java/com/bigcompany/analysis/service/CsvReader.java:103 | a negative result comes only from a text that starts with `-` |
| CsvText.ParseDecimal | demo/src/main/java/com/bigcompany/analysis/service/CsvReader.java:117 | a negative salary comes only from a text that starts with `-` |
| CsvText.ParseUnsignedDecimal | demo/src/main/java/com/bigcompany/analysis/service/CsvReader.java:117 | an unsigned decimal never denotes a negative number |
| CsvText.ParseFormatInt | demo/src/main/java/com/bigcompany/analysis/service/CsvReader.java:103 | parsing the decimal notation of an integer gives that integer, both as a `long` and as a salary |
| CsvText.FormatIntIsTrimmedField | demo/src/main/java/com/bigcompany/analysis/service/CsvReader.java:103 | the decimal notation of an integer survives `trim` and holds no comma |
| CsvReader.ValidateHeader | demo/src/main/java/com/bigcompany/analysis/service/CsvReader.java:81-88 | the header passes if and only if it is exactly `Id,firstName,lastName,salary,managerId`; otherwise the error carries the line number and the line |
| CsvReader.ParseCsvLine | demo/src/main/java/com/bigcompany/analysis/service/CsvReader.java:93-134 | an accepted row has non-empty names and a non-negative salary; a field-count error never reports five fields |
| CsvReader.ParseFields | demo/src/main/java/com/bigcompany/analysis/service/CsvReader.java:101-134 | once there are five fields, a rejection is never about the field count; an accepted employee has the parsed id, the trimmed non-empty names, the parsed non-negative salary, and a manager exactly when the fifth field is not blank |
| CsvReader.ParseCsvLineFieldCount | demo/src/main/java/com/bigcompany/analysis/service/CsvReader.java:94-99 | a row is rejected for its field count if and only if it does not have five fields, and the error reports the count found |
| CsvReader.ParseCsvLineFields | demo/src/main/java/com/bigcompany/analysis/service/CsvReader.java:101-134 | an accepted row gives the parsed id, trimmed non-empty names, the parsed non-negative salary, and a manager id exactly when the fifth field is not blank |
| CsvReader.ParseFormatRow | demo/src/main/java/com/bigcompany/analysis/service/CsvReader.java:93-134 | any employee the reader could produce (with a whole salary) is read back unchanged from the row that writes it out |
| CsvReader.CeoCount | demo/src/main/java/com/bigcompany/analysis/service/CsvReader.java:141 | the number of CEOs is at most the roster size, and zero exactly when no employee lacks a manager |
| CsvReader.CeoCountOne | demo/src/main/java/com/bigcompany/analysis/service/CsvReader.java:141-147 | the number of CEOs is one exactly when one position of the roster, and no other, holds an employee without a manager |
| CsvReader.DistinctIdCount | demo/src/main/java/com/bigcompany/analysis/service/CsvReader.java:150-153 | the distinct-id count never exceeds the roster size, and equals it if and only if the ids are unique |
| CsvReader.ManagerProblem | demo/src/main/java/com/bigcompany/analysis/service/CsvReader.java:160-171 | an employee has a problem exactly when it has a manager id that is missing from the ids or equal to its own id; a missing manager is reported with the employee and its own manager id, self-management with the employee |
| CsvReader.FirstManagerProblem | demo/src/main/java/com/bigcompany/analysis/service/CsvReader.java:158-174 | the scan only ever reports a missing manager or a self-managing employee |
| CsvReader.FirstManagerProblemNone | demo/src/main/java/com/bigcompany/analysis/service/CsvReader.java:158-174 | the reference scan finds nothing if and only if every non-CEO's manager exists and is not the employee itself |
| CsvReader.FirstManagerProblemIsFirst | demo/src/main/java/com/bigcompany/analysis/service/CsvReader.java:158-174 | a reported problem is the problem of the first employee in list order whose manager reference is wrong |
| CsvReader.Validation | demo/src/main/java/com/bigcompany/analysis/service/CsvReader.java:139-175 | the checks fail with no-CEO exactly when no employee lacks a manager |
| CsvReader.ValidationErrors | demo/src/main/java/com/bigcompany/analysis/service/CsvReader.java:141-153 | several CEOs are reported exactly when there is a CEO but not exactly one, and duplicate ids exactly when there is one CEO but the ids repeat |
| CsvReader.ValidationPassesExactlyValidRosters | demo/src/main/java/com/bigcompany/analysis/service/CsvReader.java:139-175 | the roster checks pass if and only if exactly one position holds a CEO, the ids are unique, and every manager reference exists and is not self |
| CsvReader.ValidateEmployeeData | demo/src/main/java/com/bigcompany/analysis/service/CsvReader.java:139-175 | the loop reports the first failing check in the source's order, and passes exactly on valid rosters |
| CsvReader.NonBlankLines | demo/src/main/java/com/bigcompany/analysis/service/CsvReader.java:44-51 | there are never more non-blank lines than lines read |
| CsvReader.NonBlankLinesStep | demo/src/main/java/com/bigcompany/analysis/service/CsvReader.java:44-51 | reading one more line adds it, numbered and trimmed, exactly when it is not blank |
| CsvReader.NonBlankLinesEntries | demo/src/main/java/com/bigcompany/analysis/service/CsvReader.java:44-51 | each kept line has its 1-based line number and its trimmed text, which is not empty |
| CsvReader.NonBlankLinesOrdered | demo/src/main/java/com/bigcompany/analysis/service/CsvReader.java:44-51 | kept lines are in strictly increasing line order |
| CsvReader.NonBlankLinesComplete | demo/src/main/java/com/bigcompany/analysis/service/CsvReader.java:44-51 | every line that is not blank after trimming is kept, and its position is returned |
| CsvReader.NonBlankLinesPrefix | demo/src/main/java/com/bigcompany/analysis/service/CsvReader.java:44-51 | reading further lines only appends to the lines already kept |
| CsvReader.ParseRowsErrorSticks | demo/src/main/java/com/bigcompany/analysis/service/CsvReader.java:60-66 | once a row fails, later rows cannot change the error |
| CsvReader.ParseRowsOk | demo/src/main/java/com/bigcompany/analysis/service/CsvReader.java:60-66 | when every row parses, the roster has one employee per row, in row order, each the parse of its row |
| CsvReader.ReadSpecAccepted | demo/src/main/java/com/bigcompany/analysis/service/CsvReader.java:36-76 | an accepted file has the header as its first non-blank line and yields a non-empty valid roster with exactly one employee per later non-blank line, in file order |
| CsvReader.ReadSpecBadHeader | demo/src/main/java/com/bigcompany/analysis/service/CsvReader.java:53-57 | a file whose first non-blank line is not the header is rejected with that line and its number |
| CsvReader.ReadStopsAtBadHeader | demo/src/main/java/com/bigcompany/analysis/service/CsvReader.java:53-57 | with any row parser, a header failure found while reading is the failure of the whole file |
| CsvReader.ReadStopsAtBadRow | demo/src/main/java/com/bigcompany/analysis/service/CsvReader.java:60-66 | with any row parser, a row failure found while reading is the failure of the whole file, with the line number, the line and the cause |
| CsvReader.ReadAppendsRow | demo/src/main/java/com/bigcompany/analysis/service/CsvReader.java:60-62 | with any row parser, an accepted row is appended to the employees read so far |
| CsvReader.ReadEmployeesWith | demo/src/main/java/com/bigcompany/analysis/service/CsvReader.java:36-76 | for any row parser, the line loop returns exactly the file meaning `ReadSpecWith`: skip blanks, header first, stop at the first failing row, refuse an empty roster, then validate |
| CsvReader.ReadEmployees | demo/src/main/java/com/bigcompany/analysis/service/CsvReader.java:36-76 | reading with the source's row parser returns exactly `ReadSpec`, whose accepted and rejected files the two lemmas above describe |
| Analysis.ById | demo/src/main/java/com/bigcompany/analysis/service/OrganizationalAnalysisService.java:24-25 | for a roster with unique ids, the id map holds exactly the roster's ids, each under its own employee |
| Analysis.IdIndexLookup | demo/src/main/java/com/bigcompany/analysis/service/OrganizationalAnalysisService.java:24-25 | an id is a key of the id map if and only if some employee has it, and the entry is a roster member with that id |
| Analysis.IdIndexFinds | demo/src/main/java/com/bigcompany/analysis/service/OrganizationalAnalysisService.java:24-25 | with unique ids, every roster member is found under its own id |
| Analysis.IdIndexUnique | demo/src/main/java/com/bigcompany/analysis/service/OrganizationalAnalysisService.java:24-25 | a roster with unique ids has exactly one id map |
| Analysis.Lookup | demo/src/main/java/com/bigcompany/analysis/service/OrganizationalAnalysisService.java:147 | `Map.get` finds a value if and only if the key is present, and then it is the stored value |
| Analysis.DirectReportsAppend | demo/src/main/java/com/bigcompany/analysis/service/OrganizationalAnalysisService.java:35-40 | a new employee joins its own manager's reports, at the end, and no other list |
| Analysis.DirectReportsPartition | demo/src/main/java/com/bigcompany/analysis/service/OrganizationalAnalysisService.java:32-43 | an employee is in its manager's report list as often as in the roster and in no other list; the CEO is in none |
| Analysis.NonCeoListedOnce | demo/src/main/java/com/bigcompany/analysis/service/OrganizationalAnalysisService.java:32-43 | with unique ids, every non-CEO is listed exactly once, under its own manager |
| Analysis.DirectReportsInRosterOrder | demo/src/main/java/com/bigcompany/analysis/service/OrganizationalAnalysisService.java:35-40 | each report list keeps the roster order |
| Analysis.IndexLookup | demo/src/main/java/com/bigcompany/analysis/service/OrganizationalAnalysisService.java:52-53 | the reports map gives a manager's direct reports, and it has no entry for a manager without reports |
| Analysis.IndexAppend | demo/src/main/java/com/bigcompany/analysis/service/OrganizationalAnalysisService.java:36-39 | skipping a CEO, or appending an employee to its manager's entry (created when absent), keeps the map in step with the roster |
| Analysis.OrganizationalAnalysisService.constructor | demo/src/main/java/com/bigcompany/analysis/service/OrganizationalAnalysisService.java:22-27 | the service keeps the roster and builds a correct id map and reports map |
| Analysis.OrganizationalAnalysisService.BuildSubordinatesMap | demo/src/main/java/com/bigcompany/analysis/service/OrganizationalAnalysisService.java:32-43 | the loop builds the map from each manager id to its direct reports in roster order, with no entry for managers without reports |
| Analysis.Mean | demo/src/main/java/com/bigcompany/analysis/service/OrganizationalAnalysisService.java:54-57 | the salary sum divided by the count; it has no contract of its own, and `MeanTimesCount` states its property |
| Analysis.MeanTimesCount | demo/src/main/java/com/bigcompany/analysis/service/OrganizationalAnalysisService.java:54-57 | the mean times the number of reports is the sum of their salaries |
| Analysis.SalaryIssue | demo/src/main/java/com/bigcompany/analysis/service/OrganizationalAnalysisService.java:53-65 | an issue is raised exactly when there are reports and the salary is under 120% of their mean (overpaid rule, lines 80-92: over 150%); it names the manager, the kind and the number of reports, with a positive amount |
| Analysis.SalaryIssueKind.Tag | demo/src/main/java/com/bigcompany/analysis/service/OrganizationalAnalysisService.java:160 | the `type` string is `UNDERPAID` exactly for the underpaid rule and `OVERPAID` exactly for the overpaid rule |
| Analysis.OrganizationalAnalysisService.CheckUnderpaid | demo/src/main/java/com/bigcompany/analysis/service/OrganizationalAnalysisService.java:52-65 | one manager's check, read off the reports map, is the underpaid rule applied to its direct reports |
| Analysis.OrganizationalAnalysisService.FindManagersEarningTooLittle | demo/src/main/java/com/bigcompany/analysis/service/OrganizationalAnalysisService.java:48-70 | the loop returns exactly the underpaid issues of the roster scan `SalaryIssues` |
| Analysis.OrganizationalAnalysisService.CheckOverpaid | demo/src/main/java/com/bigcompany/analysis/service/OrganizationalAnalysisService.java:79-92 | one manager's check, read off the reports map, is the overpaid rule applied to its direct reports |
| Analysis.OrganizationalAnalysisService.FindManagersEarningTooMuch | demo/src/main/java/com/bigcompany/analysis/service/OrganizationalAnalysisService.java:75-97 | the loop returns exactly the overpaid issues of the roster scan `SalaryIssues` |
| Analysis.SalaryIssuesExact | demo/src/main/java/com/bigcompany/analysis/service/OrganizationalAnalysisService.java:51-66 | every issue names a manager with reports that breaks the rule, and records the kind, the mean, the number of reports and a positive amount equal to the distance to 120% (or from 150%) of the mean |
| Analysis.SalaryIssuesScanned | demo/src/main/java/com/bigcompany/analysis/service/OrganizationalAnalysisService.java:51 | every issue names a roster member |
| Analysis.SalaryIssuesComplete | demo/src/main/java/com/bigcompany/analysis/service/OrganizationalAnalysisService.java:51-66 | every manager that breaks the rule is reported |
| Analysis.SalaryIssuesGrow | demo/src/main/java/com/bigcompany/analysis/service/OrganizationalAnalysisService.java:51-66 | scanning one more employee adds at most one issue, naming that employee |
| Analysis.ManagersStep | demo/src/main/java/com/bigcompany/analysis/service/OrganizationalAnalysisService.java:51-66 | scanning one more employee adds that employee to the flagged managers, or nobody |
| Analysis.Managers | demo/src/main/java/com/bigcompany/analysis/service/OrganizationalAnalysisService.java:173 | the managers of an issue list are read off position by position |
| Analysis.SalaryIssuesInOrder | demo/src/main/java/com/bigcompany/analysis/service/OrganizationalAnalysisService.java:51-66 | salary issues come in roster order |
| Analysis.SubsequenceKeepsUniqueIds | demo/src/main/java/com/bigcompany/analysis/service/OrganizationalAnalysisService.java:51 | dropping employees from a roster with unique ids keeps the ids unique |
| Analysis.SalaryIssuesOncePerManager | demo/src/main/java/com/bigcompany/analysis/service/OrganizationalAnalysisService.java:51-66 | on a roster with unique ids, no manager is reported twice by the same rule |
| Analysis.UnderpaidAndOverpaidExclusive | demo/src/main/java/com/bigcompany/analysis/service/OrganizationalAnalysisService.java:59-88 | with non-negative salaries, no manager is both under 120% and over 150% of the mean |
| Analysis.NegativeSalariesBreakExclusivity | demo/src/main/java/com/bigcompany/analysis/service/OrganizationalAnalysisService.java:59-88 | without that assumption both rules can fire: a manager paid -13 with one report paid -10 |
| Analysis.NoManagerInBothLists | demo/src/main/java/com/bigcompany/analysis/service/OrganizationalAnalysisService.java:48-97 | with unique ids and non-negative salaries, no manager is in both issue lists |
| Analysis.FindCeo | demo/src/main/java/com/bigcompany/analysis/service/OrganizationalAnalysisService.java:126-131 | nothing is found if and only if no employee lacks a manager; otherwise the result is a roster member without a manager |
| Analysis.OrganizationalAnalysisService.FindCEO | demo/src/main/java/com/bigcompany/analysis/service/OrganizationalAnalysisService.java:126-131 | the same, for the service's roster |
| Analysis.ChainLength | demo/src/main/java/com/bigcompany/analysis/service/OrganizationalAnalysisService.java:141-148 | the number of hops from an employee until the walk stands on the CEO or on a missing manager; it has no contract of its own, and `ChainLengthRecurrence` and `ChainLengthUnique` state its properties |
| Analysis.ChainLengthUnique | demo/src/main/java/com/bigcompany/analysis/service/OrganizationalAnalysisService.java:136-152 | an employee's number of managers up to the CEO is unique when it exists |
| Analysis.ChainLengthRecurrence | demo/src/main/java/com/bigcompany/analysis/service/OrganizationalAnalysisService.java:141-148 | the CEO has count 0; anyone else has one more than its manager; a missing manager gives count 1 |
| Analysis.Depth | demo/src/main/java/com/bigcompany/analysis/service/OrganizationalAnalysisService.java:136-152 | the count of an employee that reaches the root is its chain length |
| Analysis.LevelIsDepth | demo/src/main/java/com/bigcompany/analysis/service/OrganizationalAnalysisService.java:136-152 | on a roster with levels (CEO at 0, everyone else one below its manager), the count of every employee is its level |
| Analysis.HopsZero | demo/src/main/java/com/bigcompany/analysis/service/OrganizationalAnalysisService.java:137-138 | before the walk starts, it stands zero hops above the employee |
| Analysis.HopsOne | demo/src/main/java/com/bigcompany/analysis/service/OrganizationalAnalysisService.java:147-148 | one step of the walk moves up one hop, to the manager found or to nothing |
| Analysis.HopsTrans | demo/src/main/java/com/bigcompany/analysis/service/OrganizationalAnalysisService.java:141-149 | hops add up along the walk |
| Analysis.HopsToRoot | demo/src/main/java/com/bigcompany/analysis/service/OrganizationalAnalysisService.java:141 | a walk that stops on the CEO, or on a missing manager, after `k` hops has counted the chain length |
| Analysis.HopsIntoCycle | demo/src/main/java/com/bigcompany/analysis/service/OrganizationalAnalysisService.java:142-143 | a walk that returns to an employee has no chain length at all |
| Analysis.TwoCycleNoChain | demo/src/main/java/com/bigcompany/analysis/service/OrganizationalAnalysisService.java:141-148 | two employees that manage each other have no manager count at all |
| Analysis.AcceptedRosterMayHoldCycle | demo/src/main/java/com/bigcompany/analysis/service/CsvReader.java:139-175 | a roster with a CEO and two employees managing each other passes every roster check, yet one of them never reaches the root |
| Analysis.WalkedStep | demo/src/main/java/com/bigcompany/analysis/service/OrganizationalAnalysisService.java:145-148 | one step keeps every employee left behind at its distance below the new position |
| Analysis.OnIndexAppend | demo/src/main/java/com/bigcompany/analysis/service/OrganizationalAnalysisService.java:147 | every employee the walk passes is the one the id map holds under its id |
| Analysis.RemembersStep | demo/src/main/java/com/bigcompany/analysis/service/OrganizationalAnalysisService.java:139-145 | the visited set holds exactly the ids of the employees the walk has left behind |
| Analysis.RevisitMeansCycle | demo/src/main/java/com/bigcompany/analysis/service/OrganizationalAnalysisService.java:142-143 | standing on a visited id means the starting employee never reaches the root |
| Analysis.OrganizationalAnalysisService.CountManagersToRoot | demo/src/main/java/com/bigcompany/analysis/service/OrganizationalAnalysisService.java:136-152 | the walk terminates; a count it returns is the employee's chain length, and a cycle error means there is none |
| Analysis.ReachRootStep | demo/src/main/java/com/bigcompany/analysis/service/OrganizationalAnalysisService.java:110-112 | scanning one employee whose walk succeeded keeps every scanned employee reaching the root |
| Analysis.ReportingScanStep | demo/src/main/java/com/bigcompany/analysis/service/OrganizationalAnalysisService.java:110-118 | scanning one employee whose walk succeeded appends its issue exactly when its count exceeds 4 |
| Analysis.Reported | demo/src/main/java/com/bigcompany/analysis/service/OrganizationalAnalysisService.java:194 | the employees of an issue list are read off position by position |
| Analysis.ReportingLineIssuesExact | demo/src/main/java/com/bigcompany/analysis/service/OrganizationalAnalysisService.java:110-118 | every issue names a non-CEO roster member whose count exceeds 4, and records that count and the positive excess `count - 4` |
| Analysis.ReportingLineIssuesComplete | demo/src/main/java/com/bigcompany/analysis/service/OrganizationalAnalysisService.java:110-118 | every non-CEO whose count exceeds 4 is reported, with that count and its excess |
| Analysis.ReportedStep | demo/src/main/java/com/bigcompany/analysis/service/OrganizationalAnalysisService.java:110-118 | scanning one more employee adds that employee to the reported ones, or nobody |
| Analysis.ReportingLineIssuesInOrder | demo/src/main/java/com/bigcompany/analysis/service/OrganizationalAnalysisService.java:110-118 | reporting-line issues come in roster order |
| Analysis.OrganizationalAnalysisService.FindEmployeesWithTooLongReportingLines | demo/src/main/java/com/bigcompany/analysis/service/OrganizationalAnalysisService.java:102-121 | fails with no-CEO if and only if no employee lacks a manager; succeeds if and only if there is a CEO and every walk reaches the root; on success returns exactly `ReportingLineIssues` |

## Left out

- Opening and reading the file: `BufferedReader`, `FileReader`, the `IOException` for a missing file, and splitting the file into lines. `ReadEmployees` takes the lines as a sequence of strings.
- The application class `OrganizationalAnalysisApplication` (argument checks, console report, `System.exit`) is not part of this model.
- Error messages are datatype values (`CsvError`, `RowError`, `StructuralError`) carrying the data the Java message formats in: line number, line text, employee, manager id. The exact message text, and the wrapping of a row's error into the `Error parsing line` exception, are not modelled.
- IEEE-754 doubles: salaries, means and thresholds are exact rationals, so the rounding of `average()` and of `mean * 1.20` is not modelled.
- CsvText.ParseDecimal: accepts the plain decimal notation (sign, digits, optional fraction). The further forms `Double.parseDouble` accepts (exponents, `NaN`, `Infinity`, hexadecimal, a trailing `d`/`f`) are rejected as number-format errors instead.
- CsvText.ParseLong: accepts only the ASCII digits `0`-`9`. `Long.parseLong` also reads the other Unicode decimal digits (Arabic-Indic, fullwidth and so on, through `Character.digit`), which the model rejects as number-format errors; the table of those digits depends on the Java version's Unicode data. It also does not model the range limit of `long`: out-of-range digit strings parse instead of failing.
- The row parser is a parameter of the read loop (`ReadEmployeesWith`), so the loop's proof holds for any parser. Only `ParseCsvLine` is ever passed to it.
- `Long`/`int` overflow generally: ids and counts are unbounded.
- Analysis.OrganizationalAnalysisService.constructor: requires unique ids instead of modelling the exception `Collectors.toMap` throws on a duplicate key.
- EmployeeModel.Employee.HashCode: the concrete value is computed, but the only property stated is that equal employees hash alike.
- `toString`, the getters and Java reference identity (`this == obj`, `getClass()`) are not modelled. Equality is by id, as in `equals`.
- The per-manager salary check of `findManagersEarningTooLittle` and `findManagersEarningTooMuch` is factored into the helper methods `CheckUnderpaid` and `CheckOverpaid`. Their result is an optional issue, which the loop appends when present.
- The Java constructor keeps the caller's mutable list by reference (OrganizationalAnalysisService.java:23), so later changes to that list would show through the service. The model stores the roster as a `seq` value, which cannot be aliased or changed from outside.
- Concurrency is not modelled: the service is built once and is read-only afterwards.
