/** The employee controller: which service call a listing makes, the
    presence check on creation, and the mapping of service outcomes to
    responses. */
module EmployeeController {
  import opened Wrappers
  import opened Text
  import opened EmployeeEntity
  import opened Http
  import EmployeeService

  /** The query string of `GET /employees`. */
  datatype ListQuery = ListQuery(status: Option<string>, search: Option<string>)

  /** Which listing the controller asks the service for. */
  datatype Listing = Search(term: string) | ByStatus(statut: string) | All

  /** The dispatch order: a truthy `search` wins over a truthy `status`,
      and with neither every employee is listed. */
  function ListingFor(q: ListQuery): (l: Listing)
    ensures Truthy(q.search) ==> l == Search(q.search.value)
    ensures !Truthy(q.search) && Truthy(q.status) ==> l == ByStatus(q.status.value)
    ensures !Truthy(q.search) && !Truthy(q.status) ==> l == All
  {
    if Truthy(q.search) then Search(q.search.value)
    else if Truthy(q.status) then ByStatus(q.status.value)
    else All
  }

  const ListMessage: string := "Employés récupérés avec succès"
  const FoundMessage: string := "Employé récupéré avec succès"
  const FieldsRequired: string := "Prénom, nom, fonction et date de recrutement sont requis"
  const CreatedMessage: string := "Employé créé avec succès"
  const UpdatedMessage: string := "Employé mis à jour avec succès"
  const DeletedMessage: string := "Employé supprimé avec succès"

  /** The body carrying a service error's message. */
  function ErrorBody(e: EmployeeService.EmployeeError): Body {
    match e
    case NotFound => Message(EmployeeService.NotFoundMessage)
    case Rejected => StoreError
  }

  /** `getAllEmployees`: the chosen listing with its length as `count`; a
      status outside the enum makes the store's query fail, answered 500. */
  function GetAllEmployees(t: EmployeeTable, q: ListQuery): (r: Response)
    ensures r.status in {200, 500}
    ensures r.status == 200 ==> r.body.EmployeeList? && r.body.count == |r.body.employees|
    ensures r.status == 500 <==> ListingFor(q).ByStatus? && ParseStatus(ListingFor(q).statut).None?
    ensures ListingFor(q).Search? ==>
              r.body == EmployeeList(ListMessage, EmployeeService.SearchEmployees(t, ListingFor(q).term),
                                     |EmployeeService.SearchEmployees(t, ListingFor(q).term)|)
    ensures ListingFor(q).ByStatus? && ParseStatus(ListingFor(q).statut).Some? ==>
              r.body.employees == EmployeeService.GetEmployeesByStatus(t, ParseStatus(ListingFor(q).statut).value)
    ensures ListingFor(q).All? ==> r.body.employees == EmployeeService.GetAllEmployees(t)
  {
    var found := match ListingFor(q)
      case Search(term) => Success(EmployeeService.SearchEmployees(t, term))
      case ByStatus(text) =>
        (match ParseStatus(text)
         case None => Failure(EmployeeService.Rejected)
         case Some(st) => Success(EmployeeService.GetEmployeesByStatus(t, st)))
      case All => Success(EmployeeService.GetAllEmployees(t));
    match found
    case Success(employees) => Response(200, EmployeeList(ListMessage, employees, |employees|))
    case Failure(_) => Response(500, StoreError)
  }

  /** `getEmployeeById`: 200 with the row, 404 when there is none. */
  function GetEmployeeById(t: EmployeeTable, id: int): (r: Response)
    ensures r.status in {200, 404}
    ensures r.status == 404 <==> forall e :: e in t.rows ==> e.id != id
    ensures r.status == 404 ==> r.body == Message(EmployeeService.NotFoundMessage)
    ensures r.status == 200 ==> r.body.OneEmployee? && r.body.employee in t.rows && r.body.employee.id == id
  {
    match EmployeeService.GetEmployeeById(t, id)
    case Success(e) => Response(200, OneEmployee(FoundMessage, e))
    case Failure(err) => Response(404, ErrorBody(err))
  }

  /** The fields `createEmployee` and `updateEmployee` read from the body. */
  type EmployeeBody = EmployeeService.EmployeeFields

  /** `createEmployee`: 400 unless `prenom`, `nom`, `fonction` and
      `dateRecrutement` are all truthy (the table untouched), then 201
      with the saved row or 400 when the store refuses it. */
  function CreateEmployee(t: EmployeeTable, parseDate: string -> Option<int>, body: EmployeeBody, now: int)
    : (r: (Response, EmployeeTable))
    requires ValidEmployees(t)
    ensures !(Truthy(body.prenom) && Truthy(body.nom) && Truthy(body.fonction) && Truthy(body.dateRecrutement)) ==>
              r == (Response(400, Message(FieldsRequired)), t)
    ensures r.0.status in {201, 400}
    ensures r.0.status == 400 ==> r.1 == t
    ensures r.0.status == 201 ==>
      && r.0.body.OneEmployee?
      && r.1.rows == t.rows + [r.0.body.employee]
      && r.0.body.employee.prenom != "" && r.0.body.employee.nom != "" && r.0.body.employee.fonction != ""
      && ValidEmployees(r.1)
    ensures Truthy(body.prenom) && Truthy(body.nom) && Truthy(body.fonction) && Truthy(body.dateRecrutement) ==>
      var data := EmployeeService.NewEmployee(body.prenom.value, body.nom.value, body.fonction.value,
                                              body.dateRecrutement.value, body.statut);
      var s := EmployeeService.CreateEmployee(t, parseDate, data, now);
      && (s.Success? ==> r == (Response(201, OneEmployee(CreatedMessage, s.value.employee)), s.value.table))
      && (s.Failure? ==> r == (Response(400, StoreError), t))
  {
    if !(Truthy(body.prenom) && Truthy(body.nom) && Truthy(body.fonction) && Truthy(body.dateRecrutement)) then
      (Response(400, Message(FieldsRequired)), t)
    else
      var data := EmployeeService.NewEmployee(body.prenom.value, body.nom.value, body.fonction.value,
                                              body.dateRecrutement.value, body.statut);
      match EmployeeService.CreateEmployee(t, parseDate, data, now)
      case Success(saved) => (Response(201, OneEmployee(CreatedMessage, saved.employee)), saved.table)
      case Failure(e) => (Response(400, ErrorBody(e)), t)
  }

  /** `updateEmployee`: the five body fields go to the service as they
      are; 200 with the saved row, 400 on any service error (a missing id
      included). */
  function UpdateEmployee(t: EmployeeTable, parseDate: string -> Option<int>, id: int, body: EmployeeBody, now: int)
    : (r: (Response, EmployeeTable))
    requires ValidEmployees(t)
    ensures
      var s := EmployeeService.UpdateEmployee(t, parseDate, id, body, now);
      && (s.Success? ==> r == (Response(200, OneEmployee(UpdatedMessage, s.value.employee)), s.value.table))
      && (s.Failure? ==> r == (Response(400, ErrorBody(s.error)), t))
    ensures r.0.status in {200, 400}
    ensures (forall e :: e in t.rows ==> e.id != id) ==>
              r == (Response(400, Message(EmployeeService.NotFoundMessage)), t)
  {
    match EmployeeService.UpdateEmployee(t, parseDate, id, body, now)
    case Success(saved) => (Response(200, OneEmployee(UpdatedMessage, saved.employee)), saved.table)
    case Failure(e) => (Response(400, ErrorBody(e)), t)
  }

  /** `deleteEmployee`: 200 once the row is gone, 404 when there is none. */
  function DeleteEmployee(t: EmployeeTable, id: int): (r: (Response, EmployeeTable))
    requires ValidEmployees(t)
    ensures r.0.status in {200, 404}
    ensures r.0.status == 404 <==> forall e :: e in t.rows ==> e.id != id
    ensures r.0.status == 404 ==> r == (Response(404, Message(EmployeeService.NotFoundMessage)), t)
    ensures r.0.status == 200 ==>
      && r.0.body == Message(DeletedMessage)
      && (forall e :: e in r.1.rows <==> e in t.rows && e.id != id)
      && ValidEmployees(r.1)
  {
    match EmployeeService.DeleteEmployee(t, id)
    case Success(t') => (Response(200, Message(DeletedMessage)), t')
    case Failure(e) => (Response(404, ErrorBody(e)), t)
  }
}
