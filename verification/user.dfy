/** The `users` table: the `User` record, its closed `UserRole` enum and
    the column defaults and uniqueness the store enforces. */
module UserEntity {
  import opened Wrappers
  import Rows

  /** The closed set of roles; the store's enum column accepts exactly
      their names. */
  datatype UserRole = Admin | Staff

  /** The role given to a user when none is supplied. */
  const DefaultRole: UserRole := Staff

  /** The text the enum column stores for each role. */
  function RoleName(role: UserRole): string {
    match role
    case Admin => "admin"
    case Staff => "staff"
  }

  /** The role whose name is exactly `s`; any other text is refused by the
      enum column (the comparison is case-sensitive). */
  function ParseRole(s: string): (r: Option<UserRole>)
    ensures r.Some? ==> RoleName(r.value) == s
    ensures r.None? ==> forall role: UserRole :: RoleName(role) != s
  {
    if s == "admin" then Some(Admin)
    else if s == "staff" then Some(Staff)
    else None
  }

  /** Role names and roles correspond one to one. */
  lemma RoleNameRoundTrip(role: UserRole, s: string)
    ensures ParseRole(RoleName(role)) == Some(role)
    ensures ParseRole(s) == Some(role) <==> s == RoleName(role)
  {
  }

  /** A row of `users`; `password` holds the bcrypt digest. Timestamps are
      milliseconds. */
  datatype User = User(
    id: nat,
    email: string,
    password: string,
    role: UserRole,
    isActive: bool,
    createdAt: int,
    updatedAt: int)

  /** What leaves the service: every column of a user except `password`. */
  datatype UserView = UserView(
    id: nat,
    email: string,
    role: UserRole,
    isActive: bool,
    createdAt: int,
    updatedAt: int)

  /** `const { password, ...rest } = user`. */
  function WithoutPassword(u: User): (v: UserView)
    ensures v.id == u.id && v.email == u.email && v.role == u.role
    ensures v.isActive == u.isActive
    ensures v.createdAt == u.createdAt && v.updatedAt == u.updatedAt
  {
    UserView(u.id, u.email, u.role, u.isActive, u.createdAt, u.updatedAt)
  }

  /** The `users` table: rows in insertion order and the next value of the
      generated primary key. */
  datatype UserTable = UserTable(rows: seq<User>, nextId: nat)

  /** The constraints the store keeps: `id` is a primary key below the
      sequence's next value and `email` is unique. */
  ghost predicate ValidUsers(t: UserTable) {
    && (forall i :: 0 <= i < |t.rows| ==> t.rows[i].id < t.nextId)
    && (forall i, j :: 0 <= i < j < |t.rows| ==> t.rows[i].id != t.rows[j].id)
    && (forall i, j :: 0 <= i < j < |t.rows| ==> t.rows[i].email != t.rows[j].email)
  }

  /** `findOne({ where: { email } })`. */
  function FindByEmail(t: UserTable, email: string): (r: Option<User>)
    ensures r.Some? ==> r.value in t.rows && r.value.email == email
    ensures r.None? <==> forall u :: u in t.rows ==> u.email != email
  {
    match Rows.FindFirst(t.rows, (u: User) => u.email == email)
    case None => None
    case Some(i) => Some(t.rows[i])
  }

  /** `findOne({ where: { id } })`. */
  function FindById(t: UserTable, id: int): (r: Option<User>)
    ensures r.Some? ==> r.value in t.rows && r.value.id == id
    ensures r.None? <==> forall u :: u in t.rows ==> u.id != id
  {
    match Rows.FindFirst(t.rows, (u: User) => u.id == id)
    case None => None
    case Some(i) => Some(t.rows[i])
  }

  /** In a valid table a row is the only one with its id and the only one
      with its email, so both lookups return it. */
  lemma LookupsFindTheRow(t: UserTable, u: User)
    requires ValidUsers(t)
    requires u in t.rows
    ensures FindById(t, u.id) == Some(u)
    ensures FindByEmail(t, u.email) == Some(u)
  {
  }

  /** `save` of a new user: the row gets the next id and the `isActive`
      default, and both timestamps are `now`. */
  function InsertUser(t: UserTable, email: string, password: string, role: UserRole, now: int): (r: (User, UserTable))
    requires ValidUsers(t)
    requires FindByEmail(t, email).None?
    ensures r.1.rows == t.rows + [r.0]
    ensures r.0.email == email && r.0.password == password && r.0.role == role
    ensures r.0.isActive
    ensures forall u :: u in t.rows ==> u.id != r.0.id
    ensures ValidUsers(r.1)
  {
    var u := User(t.nextId, email, password, role, true, now, now);
    (u, UserTable(t.rows + [u], t.nextId + 1))
  }
}
