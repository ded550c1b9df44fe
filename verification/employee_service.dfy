/** The employee service: the listing, lookup, creation, partial update,
    deletion, status filter and search over the `employees` table. Every
    listing is ordered by `createdAt`, newest first. */
module EmployeeService {
  import opened Wrappers
  import opened Text
  import opened EmployeeEntity
  import Rows

  /** `NotFound` is the service's own error; `Rejected` is the store
      refusing to save a value (a status outside the enum, a date that
      does not parse). */
  datatype EmployeeError = NotFound | Rejected

  const NotFoundMessage: string := "Employé non trouvé"

  /** `order: { createdAt: 'DESC' }`: no row is older than one after it.
      Rows created at the same instant may come in either order. */
  ghost predicate NewestFirst(s: seq<Employee>) {
    forall i, j :: 0 <= i < j < |s| ==> s[i].createdAt >= s[j].createdAt
  }

  /** Inserts `e` into a newest-first sequence, before the first row that
      is not newer than it. */
  function InsertNewestFirst(e: Employee, s: seq<Employee>): (r: seq<Employee>)
    requires NewestFirst(s)
    ensures NewestFirst(r)
    ensures multiset(r) == multiset(s) + multiset{e}
    ensures |r| == |s| + 1
    ensures |s| > 0 ==> r[0] == e || r[0] == s[0]
  {
    if |s| == 0 then [e]
    else if e.createdAt >= s[0].createdAt then [e] + s
    else
      var rest := InsertNewestFirst(e, s[1..]);
      assert s == [s[0]] + s[1..];
      assert rest[0] == e || rest[0] == s[1];
      [s[0]] + rest
  }

  /** The rows of `s` ordered newest first. */
  function SortNewestFirst(s: seq<Employee>): (r: seq<Employee>)
    ensures NewestFirst(r)
    ensures multiset(r) == multiset(s)
  {
    if |s| == 0 then []
    else
      assert s == [s[0]] + s[1..];
      InsertNewestFirst(s[0], SortNewestFirst(s[1..]))
  }

  /** `getAllEmployees()`: every row, each exactly once, newest first. */
  function GetAllEmployees(t: EmployeeTable): (r: seq<Employee>)
    ensures NewestFirst(r)
    ensures multiset(r) == multiset(t.rows)
  {
    SortNewestFirst(t.rows)
  }

  /** `getEmployeeById(id)`: the row with that id, or "Employé non trouvé". */
  function GetEmployeeById(t: EmployeeTable, id: int): (r: Result<Employee, EmployeeError>)
    ensures r.Failure? <==> forall e :: e in t.rows ==> e.id != id
    ensures r.Failure? ==> r.error == NotFound
    ensures r.Success? ==> r.value in t.rows && r.value.id == id
  {
    match Rows.FindFirst(t.rows, (e: Employee) => e.id == id)
    case None => Failure(NotFound)
    case Some(i) => Success(t.rows[i])
  }

  /** In a valid table the lookup by id is determined by membership: it
      returns a row exactly when that row is stored with that id. */
  lemma GetEmployeeByIdFindsTheRow(t: EmployeeTable, id: int, e: Employee)
    requires ValidEmployees(t)
    ensures GetEmployeeById(t, id) == Success(e) <==> e in t.rows && e.id == id
  {
  }

  /** The data `createEmployee` receives. */
  datatype NewEmployee = NewEmployee(
    prenom: string,
    nom: string,
    fonction: string,
    dateRecrutement: string,
    statut: Option<string>)

  /** `statut || EmployeeStatus.ACTIVE`: a falsy status becomes the
      default, a truthy one must name an enum value. */
  function StatusOrDefault(statut: Option<string>): (r: Option<EmployeeStatus>)
    ensures !Truthy(statut) ==> r == Some(DefaultStatus)
    ensures Truthy(statut) ==> (r.Some? <==> statut.value in {"active", "absent", "quitte"})
    ensures Truthy(statut) && r.Some? ==> StatusName(r.value) == statut.value
  {
    if !Truthy(statut) then Some(DefaultStatus) else ParseStatus(statut.value)
  }

  /** A saved row and the table after the save. */
  datatype Saved = Saved(employee: Employee, table: EmployeeTable)

  /** `createEmployee(data)` at time `now`. `parseDate` stands for
      `new Date(...)`; a date it cannot read is refused by the store. */
  function CreateEmployee(t: EmployeeTable, parseDate: string -> Option<int>, data: NewEmployee, now: int)
    : (r: Result<Saved, EmployeeError>)
    requires ValidEmployees(t)
    ensures r.Failure? ==> r.error == Rejected
    ensures r.Success? <==> parseDate(data.dateRecrutement).Some? && StatusOrDefault(data.statut).Some?
    ensures r.Success? ==>
      var e := r.value.employee;
      && r.value.table.rows == t.rows + [e]
      && e.prenom == data.prenom && e.nom == data.nom && e.fonction == data.fonction
      && Some(e.dateRecrutement) == parseDate(data.dateRecrutement)
      && (!Truthy(data.statut) ==> e.statut == Active)
      && (Truthy(data.statut) ==> StatusName(e.statut) == data.statut.value)
      && e.createdAt == now
      && (forall prior :: prior in t.rows ==> prior.id != e.id)
      && ValidEmployees(r.value.table)
  {
    match parseDate(data.dateRecrutement)
    case None => Failure(Rejected)
    case Some(day) =>
      match StatusOrDefault(data.statut)
      case None => Failure(Rejected)
      case Some(st) =>
        var e := Employee(t.nextId, data.prenom, data.nom, data.fonction, day, st, now, now);
        Success(Saved(e, EmployeeTable(t.rows + [e], t.nextId + 1)))
  }

  /** The optional fields `updateEmployee` receives. */
  datatype EmployeeFields = EmployeeFields(
    prenom: Option<string>,
    nom: Option<string>,
    fonction: Option<string>,
    dateRecrutement: Option<string>,
    statut: Option<string>)

  /** The fields with no value at all. */
  const NoFields: EmployeeFields := EmployeeFields(None, None, None, None, None)

  /** The row after the `if (field) employee.field = field` assignments:
      a field changes only when it is supplied and truthy, and then takes
      the supplied value. None when the store would refuse a supplied
      date or status. */
  function Patch(e: Employee, fields: EmployeeFields, parseDate: string -> Option<int>): (r: Option<Employee>)
    ensures r.Some? <==>
      && (Truthy(fields.dateRecrutement) ==> parseDate(fields.dateRecrutement.value).Some?)
      && (Truthy(fields.statut) ==> ParseStatus(fields.statut.value).Some?)
    ensures r.Some? ==>
      var p := r.value;
      && p.id == e.id && p.createdAt == e.createdAt && p.updatedAt == e.updatedAt
      && (Truthy(fields.prenom) ==> p.prenom == fields.prenom.value)
      && (!Truthy(fields.prenom) ==> p.prenom == e.prenom)
      && (Truthy(fields.nom) ==> p.nom == fields.nom.value)
      && (!Truthy(fields.nom) ==> p.nom == e.nom)
      && (Truthy(fields.fonction) ==> p.fonction == fields.fonction.value)
      && (!Truthy(fields.fonction) ==> p.fonction == e.fonction)
      && (Truthy(fields.dateRecrutement) ==> Some(p.dateRecrutement) == parseDate(fields.dateRecrutement.value))
      && (!Truthy(fields.dateRecrutement) ==> p.dateRecrutement == e.dateRecrutement)
      && (Truthy(fields.statut) ==> StatusName(p.statut) == fields.statut.value)
      && (!Truthy(fields.statut) ==> p.statut == e.statut)
  {
    var day := if Truthy(fields.dateRecrutement) then parseDate(fields.dateRecrutement.value) else Some(e.dateRecrutement);
    var st := if Truthy(fields.statut) then ParseStatus(fields.statut.value) else Some(e.statut);
    if day.None? || st.None? then None
    else
      Some(e.(
        prenom := if Truthy(fields.prenom) then fields.prenom.value else e.prenom,
        nom := if Truthy(fields.nom) then fields.nom.value else e.nom,
        fonction := if Truthy(fields.fonction) then fields.fonction.value else e.fonction,
        dateRecrutement := day.value,
        statut := st.value))
  }

  /** Supplying no field changes nothing, and applying the same fields a
      second time changes nothing more. */
  lemma PatchIdempotent(e: Employee, fields: EmployeeFields, parseDate: string -> Option<int>)
    ensures Patch(e, NoFields, parseDate) == Some(e)
    ensures Patch(e, fields, parseDate).Some? ==>
              Patch(Patch(e, fields, parseDate).value, fields, parseDate) == Patch(e, fields, parseDate)
  {
  }

  /** A patch never empties `prenom`, `nom` or `fonction`: only truthy
      values overwrite them. */
  lemma PatchKeepsNamesNonEmpty(e: Employee, fields: EmployeeFields, parseDate: string -> Option<int>)
    requires e.prenom != "" && e.nom != "" && e.fonction != ""
    requires Patch(e, fields, parseDate).Some?
    ensures var p := Patch(e, fields, parseDate).value;
      p.prenom != "" && p.nom != "" && p.fonction != ""
  {
  }

  /** `updateEmployee(id, fields)` at time `now`: the row with that id is
      patched and saved in place; `updatedAt` moves only when the row
      changed. No other row changes. */
  function UpdateEmployee(t: EmployeeTable, parseDate: string -> Option<int>, id: int,
                          fields: EmployeeFields, now: int)
    : (r: Result<Saved, EmployeeError>)
    requires ValidEmployees(t)
    ensures GetEmployeeById(t, id).Failure? ==> r == Failure(NotFound)
    ensures GetEmployeeById(t, id).Success? ==>
              (r.Success? <==> Patch(GetEmployeeById(t, id).value, fields, parseDate).Some?)
    ensures r.Failure? ==> r.error in {NotFound, Rejected}
    ensures r.Success? ==>
      var before := GetEmployeeById(t, id).value;
      var patched := Patch(before, fields, parseDate).value;
      && r.value.employee.(updatedAt := before.updatedAt) == patched
      && (patched != before ==> r.value.employee.updatedAt == now)
      && (patched == before ==> r.value.employee == before)
      && |r.value.table.rows| == |t.rows|
      && r.value.table.nextId == t.nextId
      && (forall j :: 0 <= j < |t.rows| && t.rows[j].id == id ==> r.value.table.rows[j] == r.value.employee)
      && (forall j :: 0 <= j < |t.rows| && t.rows[j].id != id ==> r.value.table.rows[j] == t.rows[j])
      && ValidEmployees(r.value.table)
  {
    match Rows.FindFirst(t.rows, (e: Employee) => e.id == id)
    case None => Failure(NotFound)
    case Some(i) =>
      var before := t.rows[i];
      match Patch(before, fields, parseDate)
      case None => Failure(Rejected)
      case Some(patched) =>
        var saved := if patched == before then before else patched.(updatedAt := now);
        var rows := t.rows[i := saved];
        assert forall j :: 0 <= j < |t.rows| && t.rows[j].id == id ==> j == i;
        Success(Saved(saved, EmployeeTable(rows, t.nextId)))
  }

  /** `deleteEmployee(id)`: removes exactly the row with that id. */
  function DeleteEmployee(t: EmployeeTable, id: int): (r: Result<EmployeeTable, EmployeeError>)
    requires ValidEmployees(t)
    ensures r.Failure? <==> forall e :: e in t.rows ==> e.id != id
    ensures r.Failure? ==> r.error == NotFound
    ensures r.Success? ==> forall e :: e in r.value.rows <==> e in t.rows && e.id != id
    ensures r.Success? ==> |r.value.rows| == |t.rows| - 1
    ensures r.Success? ==> ValidEmployees(r.value)
  {
    match Rows.FindFirst(t.rows, (e: Employee) => e.id == id)
    case None => Failure(NotFound)
    case Some(i) =>
      var rows := Rows.RemoveAt(t.rows, i);
      RemovingTheRowWithId(t, i, id);
      Success(EmployeeTable(rows, t.nextId))
  }

  /** Taking out the only row with `id` leaves exactly the other rows. */
  lemma RemovingTheRowWithId(t: EmployeeTable, i: nat, id: int)
    requires ValidEmployees(t)
    requires i < |t.rows| && t.rows[i].id == id
    ensures var rows := Rows.RemoveAt(t.rows, i);
      && (forall e :: e in rows <==> e in t.rows && e.id != id)
      && ValidEmployees(EmployeeTable(rows, t.nextId))
  {
  }

  /** After a creation the new row is found under its id, and every other
      id is looked up as before. */
  lemma CreateThenGet(t: EmployeeTable, parseDate: string -> Option<int>, data: NewEmployee, now: int, id: int)
    requires ValidEmployees(t)
    requires CreateEmployee(t, parseDate, data, now).Success?
    ensures var saved := CreateEmployee(t, parseDate, data, now).value;
      && GetEmployeeById(saved.table, saved.employee.id) == Success(saved.employee)
      && (id != saved.employee.id ==> GetEmployeeById(saved.table, id) == GetEmployeeById(t, id))
  {
  }

  /** After an update the row is found under its id in its saved form, and
      every other id is looked up as before. */
  lemma UpdateThenGet(t: EmployeeTable, parseDate: string -> Option<int>, id: int,
                      fields: EmployeeFields, now: int, other: int)
    requires ValidEmployees(t)
    requires UpdateEmployee(t, parseDate, id, fields, now).Success?
    ensures var saved := UpdateEmployee(t, parseDate, id, fields, now).value;
      && GetEmployeeById(saved.table, id) == Success(saved.employee)
      && (other != id ==> GetEmployeeById(saved.table, other) == GetEmployeeById(t, other))
  {
  }

  /** After a deletion the id is no longer found, and every other id is
      looked up as before. */
  lemma DeleteThenGet(t: EmployeeTable, id: int, other: int)
    requires ValidEmployees(t)
    requires GetEmployeeById(t, id).Success?
    ensures GetEmployeeById(DeleteEmployee(t, id).value, id) == Failure(NotFound)
    ensures other != id ==> GetEmployeeById(DeleteEmployee(t, id).value, other) == GetEmployeeById(t, other)
  {
    var t' := DeleteEmployee(t, id).value;
    if other != id {
      match GetEmployeeById(t, other)
      case Success(e) =>
        GetEmployeeByIdFindsTheRow(t', other, e);
      case Failure(_) =>
    }
  }

  /** `getEmployeesByStatus(statut)`: exactly the rows with that status,
      newest first. */
  function GetEmployeesByStatus(t: EmployeeTable, statut: EmployeeStatus): (r: seq<Employee>)
    ensures NewestFirst(r)
    ensures forall e :: e in r <==> e in t.rows && e.statut == statut
    ensures multiset(r) == multiset(Rows.Filter(t.rows, (e: Employee) => e.statut == statut))
  {
    var matching := Rows.Filter(t.rows, (e: Employee) => e.statut == statut);
    var r := SortNewestFirst(matching);
    assert forall e :: e in r <==> e in matching by {
      forall e ensures e in r <==> e in matching {
        assert e in r <==> e in multiset(r);
      }
    }
    r
  }

  /** The search condition: the term occurs, ignoring ASCII case, in the
      first name, the last name or the job title. */
  predicate Matches(e: Employee, term: string) {
    || ContainsIgnoringCase(e.prenom, term)
    || ContainsIgnoringCase(e.nom, term)
    || ContainsIgnoringCase(e.fonction, term)
  }

  /** `searchEmployees(term)`: exactly the rows the term matches, newest
      first. */
  function SearchEmployees(t: EmployeeTable, term: string): (r: seq<Employee>)
    ensures NewestFirst(r)
    ensures forall e :: e in r <==>
      && e in t.rows
      && (|| OccursIn(Lower(term), Lower(e.prenom))
          || OccursIn(Lower(term), Lower(e.nom))
          || OccursIn(Lower(term), Lower(e.fonction)))
    ensures multiset(r) == multiset(Rows.Filter(t.rows, (e: Employee) => Matches(e, term)))
  {
    var matching := Rows.Filter(t.rows, (e: Employee) => Matches(e, term));
    var r := SortNewestFirst(matching);
    assert forall e :: e in r <==> e in matching by {
      forall e ensures e in r <==> e in matching {
        assert e in r <==> e in multiset(r);
      }
    }
    r
  }
}
