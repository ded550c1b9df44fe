/** The JSON responses the controllers and gates send: a status code and
    one of the body shapes the core produces. */
module Http {
  import opened UserEntity
  import opened EmployeeEntity

  datatype Body =
    | Message(message: string)
      /** `{ message: error.message }` where the error comes from the store
          (a refused enum value or date); its text is not modelled. */
    | StoreError
    | UserCreated(message: string, user: UserView)
    | LoginSucceeded(message: string, user: UserView, token: string)
    | UserProfile(user: UserView)
    | EmployeeList(message: string, employees: seq<Employee>, count: nat)
    | OneEmployee(message: string, employee: Employee)

  datatype Response = Response(status: nat, body: Body)
}
