/**
  The authentication screens as a pure state machine.

  The session holds the current page ("login", "signup" or "forgot") and,
  after a successful login, the user's public identity.  One `Step` handles
  one button press on the current page, with the text typed into that page's
  fields carried by the event.  It returns the new session, the table after
  any store call, the message shown and the store call made, if any, so that
  the order "validate first, then touch the store" can be stated.  A button
  that the current page does not show cannot be pressed; such an event leaves
  everything as it is.
 */
module Session {
  import opened Wrappers
  import opened Bcrypt
  import opened Users

  datatype Page = Login | Signup | Forgot

  datatype SessionState = SessionState(page: Page, user: Option<Identity>)

  /** A button press, with the page's field contents at that moment. */
  datatype Event =
    | LoginPressed(email: string, password: string)
    | CreateAccountPressed
    | ForgotPasswordPressed
    | SignUpPressed(name: string, email: string, password: string, confirm: string)
    | ResetPressed(email: string, newPassword: string, confirm: string)
    | BackToLoginPressed

  /** The kind of banner shown: success, warning or error. */
  datatype Level = Success | Warning | Error

  datatype Notice = Notice(level: Level, text: string)

  /** A call into the account operations, with its arguments. */
  datatype StoreCall =
    | VerifyCall(email: string, password: string)
    | CreateCall(name: string, email: string, password: string)
    | ResetCall(email: string, newPassword: string)

  /** What the environment supplies to a step: the hash salt and the clock. */
  datatype Env = Env(salt: Salt, now: Timestamp)

  datatype Outcome = Outcome(session: SessionState, table: Table, notice: Option<Notice>, call: Option<StoreCall>)

  const InvalidLogin := "Invalid email or password."
  const AllFieldsRequired := "All fields are required."
  const PasswordsDoNotMatch := "Passwords do not match."
  const AccountCreated := "Account created successfully! Please log in."
  const FillAllFields := "Please fill all fields."
  const PasswordResetDone := "Password reset successfully! Please log in."

  function Welcome(name: string): string
  {
    "Welcome " + name + "!"
  }

  /** A fresh session: the login page, nobody logged in. */
  function Initial(): (s: SessionState)
    ensures s.page == Login && s.user == None
  {
    SessionState(Login, None)
  }

  /** The buttons each page shows. */
  predicate Offered(page: Page, ev: Event)
  {
    match page
    case Login => ev.LoginPressed? || ev.CreateAccountPressed? || ev.ForgotPasswordPressed?
    case Signup => ev.SignUpPressed? || ev.BackToLoginPressed?
    case Forgot => ev.ResetPressed? || ev.BackToLoginPressed?
  }

  /** The sign-up form's validation: every field filled and the confirmation matching. */
  predicate SignUpValid(name: string, email: string, password: string, confirm: string)
  {
    name != "" && email != "" && password != "" && password == confirm
  }

  /** The reset form's validation. */
  predicate ResetValid(email: string, newPassword: string, confirm: string)
  {
    email != "" && newPassword != "" && newPassword == confirm
  }

  /** The effect of a store call on the table. */
  function Apply(t: Table, call: Option<StoreCall>, env: Env): Table
  {
    match call
    case None => t
    case Some(VerifyCall(_, _)) => t
    case Some(CreateCall(name, email, password)) => CreateUser(t, name, email, password, env.salt, env.now).table
    case Some(ResetCall(email, newPassword)) => ResetPassword(t, email, newPassword, env.salt)
  }

  /** One button press. */
  function Step(s: SessionState, t: Table, ev: Event, env: Env): Outcome
  {
    if !Offered(s.page, ev) then Outcome(s, t, None, None)
    else match ev
      case LoginPressed(email, password) =>
        var user := VerifyUser(t, email, password);
        if user.Some? then
          Outcome(s.(user := user), t, Some(Notice(Success, Welcome(user.value.name))), Some(VerifyCall(email, password)))
        else
          Outcome(s, t, Some(Notice(Error, InvalidLogin)), Some(VerifyCall(email, password)))
      case CreateAccountPressed =>
        Outcome(s.(page := Signup), t, None, None)
      case ForgotPasswordPressed =>
        Outcome(s.(page := Forgot), t, None, None)
      case SignUpPressed(name, email, password, confirm) =>
        if name == "" || email == "" || password == "" then
          Outcome(s, t, Some(Notice(Warning, AllFieldsRequired)), None)
        else if password != confirm then
          Outcome(s, t, Some(Notice(Error, PasswordsDoNotMatch)), None)
        else
          var c := CreateUser(t, name, email, password, env.salt, env.now);
          if c.ok then
            Outcome(s.(page := Login), c.table, Some(Notice(Success, AccountCreated)), Some(CreateCall(name, email, password)))
          else
            Outcome(s, c.table, Some(Notice(Error, c.msg.value)), Some(CreateCall(name, email, password)))
      case ResetPressed(email, newPassword, confirm) =>
        if email == "" || newPassword == "" then
          Outcome(s, t, Some(Notice(Warning, FillAllFields)), None)
        else if newPassword != confirm then
          Outcome(s, t, Some(Notice(Error, PasswordsDoNotMatch)), None)
        else
          Outcome(s.(page := Login), ResetPassword(t, email, newPassword, env.salt),
                  Some(Notice(Success, PasswordResetDone)), Some(ResetCall(email, newPassword)))
      case BackToLoginPressed =>
        Outcome(s.(page := Login), t, None, None)
  }

  /** A sequence of presses from a given state, one environment per press. */
  function Run(s: SessionState, t: Table, events: seq<Event>, envs: seq<Env>): (SessionState, Table)
    requires |envs| == |events|
    decreases |events|
  {
    if events == [] then (s, t)
    else
      var o := Step(s, t, events[0], envs[0]);
      Run(o.session, o.table, events[1..], envs[1..])
  }
}
