/**
  Properties that relate several calls of the account operations: what a
  later `verify_user` sees after `create_user` or `reset_password`.
 */
module AuthProperties {
  import opened Wrappers
  import opened Bcrypt
  import opened Users

  /** A new account can log in with its password, and with no other. */
  lemma CreateThenVerify(t: Table, name: string, email: Email, password: string, other: string,
                         salt: Salt, now: Timestamp)
    requires Valid(t) && !HasEmail(t.rows, email)
    ensures var t' := CreateUser(t, name, email, password, salt, now).table;
            && VerifyUser(t', email, password) == Some(Identity(t'.lastId, name, email))
            && (other != password ==> VerifyUser(t', email, other) == None)
  {
    var t' := CreateUser(t, name, email, password, salt, now).table;
    var n := |t.rows|;
    assert t'.rows[n] == Row(t.lastId + 1, name, email, Hash(password, salt), now);
    FindRowUnique(t'.rows, email, n);
    VerifyHash(other, password, salt);
  }

  /**
    Once an email is registered, a second creation with that email (any name,
    any password) fails with the duplicate message and the first account stays
    as it was.
   */
  lemma CreateTwiceRejected(t: Table, name: string, email: Email, password: string,
                            name2: string, password2: string, salt: Salt, salt2: Salt,
                            now: Timestamp, now2: Timestamp)
    requires Valid(t) && !HasEmail(t.rows, email)
    ensures CreateUser(t, name, email, password, salt, now).ok
    ensures var first := CreateUser(t, name, email, password, salt, now);
            var second := CreateUser(first.table, name2, email, password2, salt2, now2);
            && !second.ok
            && second.msg == Some(DuplicateEmailMessage)
            && second.table == first.table
            && VerifyUser(second.table, email, password) == Some(Identity(first.table.lastId, name, email))
  {
  }

  /**
    After a reset on a registered email the new password logs in, as the same
    identity as before, and every other password (the old one included) is
    refused.
   */
  lemma ResetThenVerify(t: Table, email: Email, newPassword: string, other: string, salt: Salt, i: nat)
    requires Valid(t)
    requires i < |t.rows| && t.rows[i].email == email
    ensures var t' := ResetPassword(t, email, newPassword, salt);
            && VerifyUser(t', email, newPassword) == Some(IdentityOf(t.rows[i]))
            && (other != newPassword ==> VerifyUser(t', email, other) == None)
  {
  }
}
