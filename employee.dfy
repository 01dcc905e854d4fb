/**
 * The employee record: an immutable value identified by its id. A missing
 * manager id marks the CEO, the root of the reporting hierarchy.
 */
module EmployeeModel {
  import opened Wrappers

  /** Salaries are exact rationals here; the source stores them as IEEE doubles. */
  datatype Employee = Employee(
    id: int,
    firstName: string,
    lastName: string,
    salary: real,
    managerId: Option<int>)
  {
    /** The CEO is the one employee without a manager. */
    predicate IsCEO() {
      managerId.None?
    }

    /** The display name: first name, one space, last name. */
    function FullName(): (r: string)
      ensures |r| == |firstName| + 1 + |lastName|
      ensures r[..|firstName|] == firstName
      ensures r[|firstName|] == ' '
      ensures r[|firstName| + 1..] == lastName
    {
      firstName + " " + lastName
    }

    /** Java equality of employees: the id alone decides, every other field is ignored. */
    predicate Equals(other: Employee) {
      id == other.id
    }

    /**
     * The hash code: `Objects.hash(id)`, that is `31 + Long.hashCode(id)` in
     * 32-bit wrap-around arithmetic, where `Long.hashCode(v)` folds the two
     * 32-bit halves of `v` together with exclusive-or.
     */
    function HashCode(): (h: int)
      ensures -0x8000_0000 <= h < 0x8000_0000
    {
      ToInt32(31 + LongHashCode(id))
    }
  }

  /** Wraps an integer into Java's 32-bit `int` range. */
  function ToInt32(x: int): (r: int)
    ensures -0x8000_0000 <= r < 0x8000_0000
    ensures (r - x) % 0x1_0000_0000 == 0
  {
    var u := x % 0x1_0000_0000;
    if u < 0x8000_0000 then u else u - 0x1_0000_0000
  }

  /** `Long.hashCode(v)` for the 64-bit two's-complement value of `v`. */
  function LongHashCode(v: int): (r: int)
    ensures -0x8000_0000 <= r < 0x8000_0000
  {
    var bits := (v % 0x1_0000_0000_0000_0000) as bv64;
    var folded := bits ^ (bits >> 32);
    ToInt32((folded & 0xFFFF_FFFF) as int)
  }

  /** Equality by id is an equivalence relation, whatever the other fields hold. */
  lemma EqualsIsEquivalence(a: Employee, b: Employee, c: Employee)
    ensures a.Equals(a)
    ensures a.Equals(b) ==> b.Equals(a)
    ensures a.Equals(b) && b.Equals(c) ==> a.Equals(c)
    ensures a.Equals(b) <==> a.id == b.id
  {
  }

  /** Employees that are equal in the Java sense have equal hash codes. */
  lemma EqualEmployeesHashAlike(a: Employee, b: Employee)
    requires a.Equals(b)
    ensures a.HashCode() == b.HashCode()
  {
  }

  /** Index of the first space in `s`, or `|s|` when there is none. */
  function FirstSpace(s: string): (k: nat)
    ensures k <= |s|
    ensures forall j :: 0 <= j < k ==> s[j] != ' '
    ensures k < |s| ==> s[k] == ' '
  {
    if s == [] then 0
    else if s[0] == ' ' then 0
    else 1 + FirstSpace(s[1..])
  }

  /**
   * A full name determines its parts when the first name has no space: the
   * text before the first space is the first name, the text after it the
   * last name.
   */
  lemma FullNameSplitsBack(e: Employee)
    requires ' ' !in e.firstName
    ensures FirstSpace(e.FullName()) == |e.firstName|
    ensures e.FullName()[..FirstSpace(e.FullName())] == e.firstName
    ensures e.FullName()[FirstSpace(e.FullName()) + 1..] == e.lastName
  {
  }

  /** The ids occurring in a list of employees. */
  function IdSet(es: seq<Employee>): set<int>
  {
    set e | e in es :: e.id
  }

  /** Positions `i` and `j` (when `i < j` are both positions of the list) hold different ids. */
  predicate IdsDifferAt(es: seq<Employee>, i: int, j: int) {
    0 <= i < j < |es| ==> es[i].id != es[j].id
  }

  /** No two positions of the list hold the same id. */
  ghost predicate UniqueIds(es: seq<Employee>) {
    forall i, j :: IdsDifferAt(es, i, j)
  }

  /** In a list with unique ids, the id identifies the employee. */
  lemma UniqueIdsIdentify(es: seq<Employee>, x: Employee, y: Employee)
    requires UniqueIds(es) && x in es && y in es
    ensures x.id == y.id ==> x == y
  {
    var i :| 0 <= i < |es| && es[i] == x;
    var j :| 0 <= j < |es| && es[j] == y;
    assert IdsDifferAt(es, i, j) && IdsDifferAt(es, j, i);
  }

  lemma IdSetAppend(es: seq<Employee>, e: Employee)
    ensures IdSet(es + [e]) == IdSet(es) + {e.id}
  {
    assert forall x :: x in es + [e] <==> x in es || x == e;
  }

  /** Appending keeps the ids unique exactly when the new id is fresh. */
  lemma UniqueIdsAppend(es: seq<Employee>, e: Employee)
    ensures UniqueIds(es + [e]) <==> UniqueIds(es) && e.id !in IdSet(es)
  {
    var all := es + [e];
    if UniqueIds(all) {
      forall i, j ensures IdsDifferAt(es, i, j) {
        assert IdsDifferAt(all, i, j);
        if 0 <= i < j < |es| {
          assert all[i] == es[i] && all[j] == es[j];
        }
      }
      forall x | x in es ensures x.id != e.id {
        var i :| 0 <= i < |es| && es[i] == x;
        assert IdsDifferAt(all, i, |es|);
      }
    }
    if UniqueIds(es) && e.id !in IdSet(es) {
      forall i, j ensures IdsDifferAt(all, i, j) {
        if 0 <= i < j < |all| {
          if j == |es| {
            assert all[i] == es[i] && es[i] in es;
          } else {
            assert IdsDifferAt(es, i, j);
            assert all[i] == es[i] && all[j] == es[j];
          }
        }
      }
    }
  }
}
