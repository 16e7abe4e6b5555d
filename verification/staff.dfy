/** Employee records and the employee-management page's own writes
    (app/employees/page.tsx:10-19, 55-71, 118-193). */
module Staff {
  import opened Wrappers
  import opened Positions

  /** A `pharmacy_users` row. */
  datatype Employee = Employee(
    id: string,
    name: string,
    position: Position,
    email: string,
    authId: Option<string>,
    hireDate: Option<string>)

  /** The page admits a signed-in user only when their employee row exists and holds an
      admin position; `current` is that row's position, if any. The page lets in exactly
      the positions the main page shows its link to. */
  function CanOpenEmployeesPage(current: Option<Position>): (b: bool)
    ensures b <==> current.Some? && ShowsEmployeesLink(current.value)
  {
    current.Some? && IsAdmin(current.value)
  }

  datatype NewEmployeeForm = NewEmployeeForm(
    name: string,
    email: string,
    password: string,
    position: Position,
    hireDate: string)

  datatype AddError =
    | MissingRequiredField       // name, email or password left empty
    | SignUpFailed(message: string)
    | InsertFailed(message: string)

  /** `handleAddEmployee`. The authentication sign-up and the row insert are external
      calls; their outcomes are parameters (`signUp` carries the new auth id, if any). */
  function AddEmployee(staff: seq<Employee>, form: NewEmployeeForm, signUp: Result<Option<string>, string>,
                       insertError: Option<string>, newId: string): (r: Result<seq<Employee>, AddError>)
    ensures r == Failure(MissingRequiredField) <==> form.name == "" || form.email == "" || form.password == ""
    ensures r.Success? <==> form.name != "" && form.email != "" && form.password != ""
                            && signUp.Success? && insertError.None?
    ensures r.Success? ==> |r.value| == |staff| + 1 && r.value[..|staff|] == staff
    ensures r.Success? ==> var e := r.value[|staff|];
              && e.id == newId && e.name == form.name && e.email == form.email
              && e.position == form.position && e.authId == signUp.value
              && (e.hireDate.None? <==> form.hireDate == "")
              && (e.hireDate.Some? ==> e.hireDate.value == form.hireDate)
  {
    if form.name == "" || form.email == "" || form.password == "" then Failure(MissingRequiredField)
    else if signUp.Failure? then Failure(SignUpFailed(signUp.error))
    else if insertError.Some? then Failure(InsertFailed(insertError.value))
    else
      var hire := if form.hireDate == "" then None else Some(form.hireDate);
      Success(staff + [Employee(newId, form.name, form.position, form.email, signUp.value, hire)])
  }

  /** `handleEditEmployee`: renames and re-ranks the chosen employee; does nothing when no
      employee is chosen or the new name is empty. */
  function EditEmployee(staff: seq<Employee>, target: Option<string>, name: string, position: Position): (r: seq<Employee>)
    ensures |r| == |staff|
    ensures target.None? || name == "" ==> r == staff
    ensures forall i :: 0 <= i < |r| ==> r[i].(name := staff[i].name, position := staff[i].position) == staff[i]
    ensures target.Some? && name != "" ==>
              forall i :: 0 <= i < |r| ==>
                if staff[i].id == target.value then r[i].name == name && r[i].position == position
                else r[i] == staff[i]
  {
    if target.None? || name == "" then staff
    else seq(|staff|, i requires 0 <= i < |staff| =>
           if staff[i].id == target.value then staff[i].(name := name, position := position) else staff[i])
  }

  /** `handleDeleteEmployee`: removes the chosen employee's row and nothing else. */
  function DeleteEmployee(staff: seq<Employee>, target: Option<string>): (r: seq<Employee>)
    ensures target.None? ==> r == staff
    ensures target.Some? ==> forall e :: e in r <==> e in staff && e.id != target.value
    decreases |staff|
  {
    if target.None? || |staff| == 0 then staff
    else if staff[0].id == target.value then DeleteEmployee(staff[1..], target)
    else [staff[0]] + DeleteEmployee(staff[1..], target)
  }
}
