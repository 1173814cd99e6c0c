/**
 * The login form's logic: the two field rules, the credential decision of
 * `onSubmit`, and form submission, which runs the rules and calls
 * `onSubmit` only when all of them pass.
 *
 * Calls out of the component are returned as values: `onLogin(user)`
 * becomes `Some(user)` in the outcome's `login`, and `setError` becomes the
 * outcome's error map.
 */
module Login {
  import opened Wrappers
  import opened EmailPattern

  /** The hard-coded credential pair. */
  const AdminEmail: string := "admin@example.com"
  const AdminPassword: string := "admin"

  const EmailRequiredMessage: string := "El correo electr\U{00F3}nico es requerido"
  const EmailPatternMessage: string := "Direcci\U{00F3}n de correo electr\U{00F3}nico inv\U{00E1}lida"
  const PasswordRequiredMessage: string := "La contrase\U{00F1}a es requerida"
  const InvalidCredentialsMessage: string := "Credenciales inv\U{00E1}lidas"

  /** The value handed to `onLogin`. */
  datatype User = User(firstName: string)

  const AdminUser: User := User("Admin")

  datatype Field = Email | Password

  /** Which rule produced an error; `setError` from the component is
      `Manual`. */
  datatype ErrorKind = Required | Pattern | Manual

  datatype FieldError = FieldError(kind: ErrorKind, message: string)

  /** The form's error state: at most one error per field. */
  type Errors = map<Field, FieldError>

  /** The submitted values; both fields default to "". */
  datatype FormData = FormData(email: string, password: string)

  /** What a submission leaves behind: the error state, and the argument
      of `onLogin` if it was called. */
  datatype Outcome = Outcome(errors: Errors, login: Option<User>)

  const InvalidCredentials: FieldError := FieldError(Manual, InvalidCredentialsMessage)

  /** The email field's rules: `required`, then the address pattern. */
  function EmailRule(v: string): (e: Option<FieldError>)
    ensures e.None? <==> v != "" && Accepts(v)
    ensures v == "" ==> e == Some(FieldError(Required, EmailRequiredMessage))
    ensures v != "" && !Accepts(v) ==> e == Some(FieldError(Pattern, EmailPatternMessage))
  {
    if v == "" then Some(FieldError(Required, EmailRequiredMessage))
    else if !Accepts(v) then Some(FieldError(Pattern, EmailPatternMessage))
    else None
  }

  /** The password field's only rule: `required`. */
  function PasswordRule(v: string): (e: Option<FieldError>)
    ensures e.None? <==> v != ""
    ensures e.Some? ==> e.value == FieldError(Required, PasswordRequiredMessage)
  {
    if v == "" then Some(FieldError(Required, PasswordRequiredMessage)) else None
  }

  /** The error state after running both fields' rules: one entry per
      failing field. */
  function Validate(data: FormData): (errs: Errors)
    ensures Email in errs <==> EmailRule(data.email).Some?
    ensures Password in errs <==> PasswordRule(data.password).Some?
    ensures Email in errs ==> errs[Email] == EmailRule(data.email).value
    ensures Password in errs ==> errs[Password] == PasswordRule(data.password).value
  {
    var e := if EmailRule(data.email).Some? then map[Email := EmailRule(data.email).value] else map[];
    if PasswordRule(data.password).Some? then e[Password := PasswordRule(data.password).value] else e
  }

  /** `onSubmit`: the credential decision, given the error state at the
      time it runs. */
  function OnSubmit(errors: Errors, data: FormData): (o: Outcome)
    ensures o.login.Some? <==> data.email == AdminEmail && data.password == AdminPassword
    ensures o.login.Some? ==> o.login.value == User("Admin") && o.errors == errors
    ensures o.login.None? ==> Password in o.errors && o.errors[Password] == FieldError(Manual, "Credenciales inv\U{00E1}lidas")
    ensures o.login.None? ==> o.errors.Keys == errors.Keys + {Password}
    ensures Email in o.errors <==> Email in errors
    ensures Email in errors ==> o.errors[Email] == errors[Email]
  {
    if data.email == AdminEmail && data.password == AdminPassword then
      Outcome(errors, Some(AdminUser))
    else
      Outcome(errors[Password := InvalidCredentials], None)
  }

  /** Submitting the form: the error state becomes the rules' verdict, and
      `onSubmit` runs, on a clean error state, only if no rule failed. */
  function Submit(data: FormData): (o: Outcome)
    ensures data.email == "" ==> o.login.None? && Email in o.errors && o.errors[Email].kind == Required
    ensures data.password == "" ==> o.login.None? && Password in o.errors && o.errors[Password].kind == Required
    ensures Validate(data) != map[] ==> o == Outcome(Validate(data), None)
    ensures Validate(data) == map[] ==> o == OnSubmit(map[], data)
  {
    var errs := Validate(data);
    if errs == map[] then OnSubmit(map[], data) else Outcome(errs, None)
  }

  /** The hard-coded credentials pass both fields' rules. */
  lemma AdminCredentialsPassRules()
    ensures Accepts(AdminEmail)
    ensures Validate(FormData(AdminEmail, AdminPassword)) == map[]
  {
    var s := AdminEmail;
    assert ShapeAt(s, 5, 13);
    AcceptedIffShape(s);
  }

  /** `onLogin` is called by a submission exactly when the hard-coded
      credentials are typed, and then with the fixed user whatever was
      typed; so the success branch is reachable. */
  lemma SubmitLogsInIffAdmin(data: FormData)
    ensures Submit(data).login.Some? <==> data == FormData(AdminEmail, AdminPassword)
    ensures Submit(data).login.Some? ==> Submit(data).login.value == AdminUser && Submit(data).errors == map[]
  {
    if data == FormData(AdminEmail, AdminPassword) {
      AdminCredentialsPassRules();
    }
  }

  /** A submission of well-formed but wrong credentials leaves exactly one
      error, the invalid-credentials error on the password field. */
  lemma WrongCredentialsBlamePassword(data: FormData)
    ensures Validate(data) == map[] && data != FormData(AdminEmail, AdminPassword) ==>
              Submit(data) == Outcome(map[Password := InvalidCredentials], None)
  {
  }
}
