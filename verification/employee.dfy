/** The `employees` table: the `Employee` record, its closed
    `EmployeeStatus` enum with its default, and the primary key. */
module EmployeeEntity {
  import opened Wrappers

  /** The closed set of statuses; the store's enum column accepts exactly
      their names. */
  datatype EmployeeStatus = Active | Absent | Quit

  /** The status given to an employee when none is supplied. */
  const DefaultStatus: EmployeeStatus := Active

  /** The text the enum column stores for each status. */
  function StatusName(s: EmployeeStatus): string {
    match s
    case Active => "active"
    case Absent => "absent"
    case Quit => "quitte"
  }

  /** The status whose name is exactly `s`; any other text is refused by
      the enum column. */
  function ParseStatus(s: string): (r: Option<EmployeeStatus>)
    ensures r.Some? ==> StatusName(r.value) == s
    ensures r.None? ==> forall st: EmployeeStatus :: StatusName(st) != s
  {
    if s == "active" then Some(Active)
    else if s == "absent" then Some(Absent)
    else if s == "quitte" then Some(Quit)
    else None
  }

  /** Status names and statuses correspond one to one. */
  lemma StatusNameRoundTrip(st: EmployeeStatus, s: string)
    ensures ParseStatus(StatusName(st)) == Some(st)
    ensures ParseStatus(s) == Some(st) <==> s == StatusName(st)
  {
  }

  /** A row of `employees`. `dateRecrutement` is a calendar date, here a
      day number; the timestamps are milliseconds. */
  datatype Employee = Employee(
    id: nat,
    prenom: string,
    nom: string,
    fonction: string,
    dateRecrutement: int,
    statut: EmployeeStatus,
    createdAt: int,
    updatedAt: int)

  /** The table: rows in insertion order and the next value of the
      generated primary key. */
  datatype EmployeeTable = EmployeeTable(rows: seq<Employee>, nextId: nat)

  /** `id` is a primary key below the sequence's next value. */
  ghost predicate ValidEmployees(t: EmployeeTable) {
    && (forall i :: 0 <= i < |t.rows| ==> t.rows[i].id < t.nextId)
    && (forall i, j :: 0 <= i < j < |t.rows| ==> t.rows[i].id != t.rows[j].id)
  }
}
