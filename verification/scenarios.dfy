/**
  A walk-through of the screens from a fresh session and database: Alice signs
  up, Bob's sign-up with her email is refused, Alice logs in, resets her
  password, and afterwards only the new password works.
 */
module Scenarios {
  import opened Wrappers
  import opened Users
  import opened Session
  import opened AuthProperties

  lemma AliceAndBob(env: Env)
    ensures var alice := "alice@x.com";
            var s0 := Initial();
            var o1 := Step(s0, Empty(), CreateAccountPressed, env);
            var o2 := Step(o1.session, o1.table, SignUpPressed("Alice", alice, "Secret123!", "Secret123!"), env);
            var o3 := Step(o2.session, o2.table, CreateAccountPressed, env);
            var o4 := Step(o3.session, o3.table, SignUpPressed("Bob", alice, "other", "other"), env);
            var o5 := Step(o4.session, o4.table, BackToLoginPressed, env);
            var o6 := Step(o5.session, o5.table, LoginPressed(alice, "Secret123!"), env);
            var o7 := Step(o6.session, o6.table, ForgotPasswordPressed, env);
            var o8 := Step(o7.session, o7.table, ResetPressed(alice, "NewPass1!", "NewPass1!"), env);
            var o9 := Step(o8.session, o8.table, LoginPressed(alice, "Secret123!"), env);
            var o10 := Step(o9.session, o9.table, LoginPressed(alice, "NewPass1!"), env);
            && o2.session.page == Login && o2.notice == Some(Notice(Success, AccountCreated))
            && o4.session.page == Signup && o4.notice == Some(Notice(Error, DuplicateEmailMessage))
            && o4.table == o2.table
            && o6.session.user == Some(Identity(1, "Alice", alice))
            && o8.session.page == Login && o8.notice == Some(Notice(Success, PasswordResetDone))
            && o9.notice == Some(Notice(Error, InvalidLogin))
            && o9.session.user == Some(Identity(1, "Alice", alice))
            && o10.notice == Some(Notice(Success, Welcome("Alice")))
  {
    var alice := "alice@x.com";
    var t0 := Empty();
    var o2 := Step(SessionState(Signup, None), t0, SignUpPressed("Alice", alice, "Secret123!", "Secret123!"), env);
    CreateThenVerify(t0, "Alice", alice, "Secret123!", "Secret123!", env.salt, env.now);
    var t1 := o2.table;
    assert t1.rows[0].email == alice;
    var o6 := Step(SessionState(Login, None), t1, LoginPressed(alice, "Secret123!"), env);
    ResetThenVerify(t1, alice, "NewPass1!", "Secret123!", env.salt, 0);
  }
}
