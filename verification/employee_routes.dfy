/** The `/employees` router: every route passes `authenticateToken`
    first; `PUT /:id` and `DELETE /:id` then pass `requireAdmin`; the
    remaining routes are open to any authenticated user. */
module EmployeeRoutes {
  import opened Wrappers
  import opened UserEntity
  import opened TokenBlacklistEntity
  import opened EmployeeEntity
  import opened Http
  import AuthMiddleware
  import EmployeeController
  import Jwt

  /** The five routes, with what each reads from the request. */
  datatype Endpoint =
    | List(query: EmployeeController.ListQuery)
    | Show(id: int)
    | Create(body: EmployeeController.EmployeeBody)
    | Update(id: int, body: EmployeeController.EmployeeBody)
    | Remove(id: int)

  datatype Verb = Get | Post | Put | Delete

  function VerbOf(e: Endpoint): Verb {
    match e
    case List(_) => Get
    case Show(_) => Get
    case Create(_) => Post
    case Update(_, _) => Put
    case Remove(_) => Delete
  }

  /** The access policy: the verbs that need the `admin` role. */
  predicate AdminOnly(v: Verb) {
    v == Put || v == Delete
  }

  /** The controller a route ends in, once its gates have let it through. */
  function Dispatch(t: EmployeeTable, parseDate: string -> Option<int>, nowMs: nat, e: Endpoint)
    : (r: (Response, EmployeeTable))
    requires ValidEmployees(t)
    ensures ValidEmployees(r.1)
    ensures VerbOf(e) == Get ==> r.1 == t
    ensures e.List? ==> r == (EmployeeController.GetAllEmployees(t, e.query), t)
    ensures e.Show? ==> r == (EmployeeController.GetEmployeeById(t, e.id), t)
    ensures e.Create? ==> r == EmployeeController.CreateEmployee(t, parseDate, e.body, nowMs)
    ensures e.Update? ==> r == EmployeeController.UpdateEmployee(t, parseDate, e.id, e.body, nowMs)
    ensures e.Remove? ==> r == EmployeeController.DeleteEmployee(t, e.id)
  {
    match e
    case List(q) => (EmployeeController.GetAllEmployees(t, q), t)
    case Show(id) => (EmployeeController.GetEmployeeById(t, id), t)
    case Create(body) => EmployeeController.CreateEmployee(t, parseDate, body, nowMs)
    case Update(id, body) => EmployeeController.UpdateEmployee(t, parseDate, id, body, nowMs)
    case Remove(id) => EmployeeController.DeleteEmployee(t, id)
  }

  /** A gate's rejection as a response. */
  function Rejection(g: AuthMiddleware.GateResult): Response
    requires g.Reject?
  {
    Response(g.status, Message(g.message))
  }

  /** A request to `/employees` at time `nowMs`, with its `Authorization`
      header, through the gates of its route and on to the controller. */
  function Handle(users: UserTable, blacklist: Blacklist, t: EmployeeTable, codec: Jwt.TokenCodec,
                  parseDate: string -> Option<int>, nowMs: nat, header: Option<string>, e: Endpoint)
    : (r: (Response, EmployeeTable))
    requires ValidEmployees(t)
    ensures ValidEmployees(r.1)
    ensures
      var gate := AuthMiddleware.AuthenticateToken(users, blacklist, codec, header, nowMs);
      && (gate.Reject? ==> r == (Rejection(gate), t))
      && (gate.Next? && AdminOnly(VerbOf(e)) && gate.user.role != Admin ==>
            r == (Response(403, Message(AuthMiddleware.AdminRequired)), t))
      && (gate.Next? && (!AdminOnly(VerbOf(e)) || gate.user.role == Admin) ==>
            r == Dispatch(t, parseDate, nowMs, e))
  {
    var gate := AuthMiddleware.AuthenticateToken(users, blacklist, codec, header, nowMs);
    if gate.Reject? then (Rejection(gate), t)
    else if AdminOnly(VerbOf(e)) && AuthMiddleware.RequireAdmin(Some(gate.user)).Reject? then
      (Rejection(AuthMiddleware.RequireAdmin(Some(gate.user))), t)
    else Dispatch(t, parseDate, nowMs, e)
  }

  /** Only an active user who passed authentication and, on `PUT` and
      `DELETE`, holds the `admin` role can change the table. */
  lemma OnlyAuthorizedRequestsChangeTheTable(users: UserTable, blacklist: Blacklist, t: EmployeeTable,
                                             codec: Jwt.TokenCodec, parseDate: string -> Option<int>,
                                             nowMs: nat, header: Option<string>, e: Endpoint)
    requires ValidEmployees(t)
    requires Handle(users, blacklist, t, codec, parseDate, nowMs, header, e).1 != t
    ensures
      var gate := AuthMiddleware.AuthenticateToken(users, blacklist, codec, header, nowMs);
      && gate.Next?
      && gate.user in users.rows && gate.user.isActive
      && VerbOf(e) != Get
      && (VerbOf(e) in {Put, Delete} ==> gate.user.role == Admin)
  {
  }

  /** A `staff` user who passes authentication may create an employee but
      is refused with 403 on updates and deletions. */
  lemma StaffMayCreateButNotModify(users: UserTable, blacklist: Blacklist, t: EmployeeTable,
                                   codec: Jwt.TokenCodec, parseDate: string -> Option<int>,
                                   nowMs: nat, header: Option<string>,
                                   id: int, body: EmployeeController.EmployeeBody)
    requires ValidEmployees(t)
    requires AuthMiddleware.AuthenticateToken(users, blacklist, codec, header, nowMs).Next?
    requires AuthMiddleware.AuthenticateToken(users, blacklist, codec, header, nowMs).user.role == Staff
    ensures Handle(users, blacklist, t, codec, parseDate, nowMs, header, Create(body))
         == EmployeeController.CreateEmployee(t, parseDate, body, nowMs)
    ensures Handle(users, blacklist, t, codec, parseDate, nowMs, header, Update(id, body)).0.status == 403
    ensures Handle(users, blacklist, t, codec, parseDate, nowMs, header, Remove(id)).0.status == 403
  {
  }
}
