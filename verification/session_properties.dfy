/**
  What the authentication screens promise: where each button leads, that the
  form checks run before any store call, that the two kinds of failed login
  give the same session, table and message, and that the schema's
  constraints and the logged-in identity stay consistent along any sequence
  of presses.
 */
module SessionProperties {
  import opened Wrappers
  import opened Bcrypt
  import opened Users
  import opened Session

  /** The table changes only through the store call the step reports. */
  lemma StepStoreEffect(s: SessionState, t: Table, ev: Event, env: Env)
    ensures var o := Step(s, t, ev, env);
            o.table == Apply(t, o.call, env)
  {
  }

  /**
    Every store call comes from its page's button with that button's fields,
    and account creation and reset are called only once the form's checks
    pass.  The logged-in user changes only by a login that verified.
   */
  lemma GuardsBeforeStoreCalls(s: SessionState, t: Table, ev: Event, env: Env)
    ensures var o := Step(s, t, ev, env);
            o.call.Some? && o.call.value.VerifyCall? ==>
              s.page == Login && ev == LoginPressed(o.call.value.email, o.call.value.password)
    ensures var o := Step(s, t, ev, env);
            o.call.Some? && o.call.value.CreateCall? ==>
              && s.page == Signup && ev.SignUpPressed?
              && o.call.value == CreateCall(ev.name, ev.email, ev.password)
              && SignUpValid(ev.name, ev.email, ev.password, ev.confirm)
    ensures var o := Step(s, t, ev, env);
            o.call.Some? && o.call.value.ResetCall? ==>
              && s.page == Forgot && ev.ResetPressed?
              && o.call.value == ResetCall(ev.email, ev.newPassword)
              && ResetValid(ev.email, ev.newPassword, ev.confirm)
    ensures var o := Step(s, t, ev, env);
            o.session.user != s.user ==>
              ev.LoginPressed? && o.session.user == VerifyUser(t, ev.email, ev.password)
  {
  }

  /** A press the page does not offer, or a form that fails its checks, leaves the store untouched. */
  lemma RejectedFormsTouchNothing(s: SessionState, t: Table, ev: Event, env: Env)
    requires || !Offered(s.page, ev)
             || (ev.SignUpPressed? && !SignUpValid(ev.name, ev.email, ev.password, ev.confirm))
             || (ev.ResetPressed? && !ResetValid(ev.email, ev.newPassword, ev.confirm))
    ensures var o := Step(s, t, ev, env);
            o.call == None && o.table == t && o.session == s
  {
  }

  /** The login page's two links; neither calls the store or changes the user. */
  lemma LoginPageLinks(s: SessionState, t: Table, env: Env)
    requires s.page == Login
    ensures Step(s, t, CreateAccountPressed, env) == Outcome(SessionState(Signup, s.user), t, None, None)
    ensures Step(s, t, ForgotPasswordPressed, env) == Outcome(SessionState(Forgot, s.user), t, None, None)
  {
  }

  /** "Back to Login", shown on the sign-up and the reset page alike. */
  lemma BackToLogin(s: SessionState, t: Table, env: Env)
    requires s.page != Login
    ensures Step(s, t, BackToLoginPressed, env) == Outcome(SessionState(Login, s.user), t, None, None)
  {
  }

  /**
    Login: a verified identity becomes the session's user (the page selector
    stays on "login"; moving on to the next screen is presentation); a failed
    login changes nothing and shows the generic error.
   */
  lemma LoginOutcome(s: SessionState, t: Table, email: string, password: string, env: Env)
    requires s.page == Login
    ensures var o := Step(s, t, LoginPressed(email, password), env);
            var v := VerifyUser(t, email, password);
            && o.table == t
            && (v.Some? ==> o.session == SessionState(Login, v)
                            && o.notice == Some(Notice(Success, "Welcome " + v.value.name + "!")))
            && (v.None? ==> o.session == s && o.notice == Some(Notice(Error, "Invalid email or password.")))
  {
  }

  /**
    An unknown email and a known email with a wrong password lead to the very
    same session, table and message.
   */
  lemma LoginFailureUniform(s: SessionState, t: Table, unknown: Email, p1: string,
                            email: Email, wrong: string, env: Env, i: nat)
    requires s.page == Login && UniqueEmails(t.rows)
    requires !HasEmail(t.rows, unknown)
    requires i < |t.rows| && t.rows[i].email == email && !Verify(wrong, t.rows[i].passwordHash)
    ensures var o1 := Step(s, t, LoginPressed(unknown, p1), env);
            var o2 := Step(s, t, LoginPressed(email, wrong), env);
            o1.session == o2.session == s && o1.table == o2.table == t && o1.notice == o2.notice
  {
  }

  /**
    Sign-up: an empty field warns, a mismatched confirmation errs, both
    without a store call; otherwise the account is created and the page goes
    back to "login", or the duplicate-email message is shown on "signup".
   */
  lemma SignUpOutcome(s: SessionState, t: Table, name: string, email: string, password: string, confirm: string, env: Env)
    requires s.page == Signup
    ensures var o := Step(s, t, SignUpPressed(name, email, password, confirm), env);
            (name == "" || email == "" || password == "") ==>
              o == Outcome(s, t, Some(Notice(Warning, "All fields are required.")), None)
    ensures var o := Step(s, t, SignUpPressed(name, email, password, confirm), env);
            (name != "" && email != "" && password != "" && password != confirm) ==>
              o == Outcome(s, t, Some(Notice(Error, "Passwords do not match.")), None)
    ensures var o := Step(s, t, SignUpPressed(name, email, password, confirm), env);
            SignUpValid(name, email, password, confirm) && !HasEmail(t.rows, email) ==>
              && o.session == s.(page := Login)
              && o.table == CreateUser(t, name, email, password, env.salt, env.now).table
              && |o.table.rows| == |t.rows| + 1
              && o.notice == Some(Notice(Success, "Account created successfully! Please log in."))
    ensures var o := Step(s, t, SignUpPressed(name, email, password, confirm), env);
            SignUpValid(name, email, password, confirm) && HasEmail(t.rows, email) ==>
              o == Outcome(s, t, Some(Notice(Error, "Email already exists.")), Some(CreateCall(name, email, password)))
  {
  }

  /**
    Reset: an empty field warns, a mismatched confirmation errs, both without
    a store call; otherwise the reset runs (whether or not the email is
    registered) and the page goes back to "login".
   */
  lemma ResetOutcome(s: SessionState, t: Table, email: string, newPassword: string, confirm: string, env: Env)
    requires s.page == Forgot
    ensures var o := Step(s, t, ResetPressed(email, newPassword, confirm), env);
            (email == "" || newPassword == "") ==>
              o == Outcome(s, t, Some(Notice(Warning, "Please fill all fields.")), None)
    ensures var o := Step(s, t, ResetPressed(email, newPassword, confirm), env);
            (email != "" && newPassword != "" && newPassword != confirm) ==>
              o == Outcome(s, t, Some(Notice(Error, "Passwords do not match.")), None)
    ensures var o := Step(s, t, ResetPressed(email, newPassword, confirm), env);
            ResetValid(email, newPassword, confirm) ==>
              && o.session == s.(page := Login)
              && o.table == ResetPassword(t, email, newPassword, env.salt)
              && o.notice == Some(Notice(Success, "Password reset successfully! Please log in."))
  {
  }

  /** The logged-in identity, if any, is the public part of a stored account. */
  ghost predicate UserKnown(s: SessionState, t: Table)
  {
    s.user.Some? ==> exists i :: 0 <= i < |t.rows| && IdentityOf(t.rows[i]) == s.user.value
  }

  ghost predicate Invariant(s: SessionState, t: Table)
  {
    Valid(t) && UserKnown(s, t)
  }

  lemma StepPreservesInvariant(s: SessionState, t: Table, ev: Event, env: Env)
    requires Invariant(s, t)
    ensures var o := Step(s, t, ev, env);
            Invariant(o.session, o.table)
  {
  }

  /** Every state reached from a fresh session on a fresh database keeps the invariant. */
  lemma {:induction false} RunPreservesInvariant(s: SessionState, t: Table, events: seq<Event>, envs: seq<Env>)
    requires |envs| == |events|
    requires Invariant(s, t)
    ensures var (s', t') := Run(s, t, events, envs);
            Invariant(s', t')
    decreases |events|
  {
    if events != [] {
      StepPreservesInvariant(s, t, events[0], envs[0]);
      var o := Step(s, t, events[0], envs[0]);
      RunPreservesInvariant(o.session, o.table, events[1..], envs[1..]);
    }
  }

  lemma ReachableInvariant(events: seq<Event>, envs: seq<Env>)
    requires |envs| == |events|
    ensures var (s', t') := Run(Initial(), Empty(), events, envs);
            && UniqueEmails(t'.rows)
            && IdsIssued(t')
            && UserKnown(s', t')
  {
    RunPreservesInvariant(Initial(), Empty(), events, envs);
  }
}
