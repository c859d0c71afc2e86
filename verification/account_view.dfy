/**
  The credential store seen as a map from email to account.  `AccountsOf`
  reads the table's rows in order (a later row would win, but under the UNIQUE
  constraint there is none); the lemmas show that each account operation acts
  on this map as a single-key update, so the map is a faithful abstract view of
  the table.
 */
module AccountView {
  import opened Wrappers
  import opened Bcrypt
  import opened Users

  /** What the store keeps under an email. */
  datatype Account = Account(id: nat, name: string, passwordHash: PasswordHash, createdAt: Timestamp)

  function AccountOf(row: Row): Account
  {
    Account(row.id, row.name, row.passwordHash, row.createdAt)
  }

  function AccountsOf(rows: seq<Row>): map<Email, Account>
  {
    if rows == [] then map[]
    else AccountsOf(rows[..|rows| - 1])[rows[|rows| - 1].email := AccountOf(rows[|rows| - 1])]
  }

  /** The map's keys are exactly the emails that occur in the table. */
  lemma {:induction false} AccountsOfKeys(rows: seq<Row>, email: Email)
    ensures email in AccountsOf(rows) <==> HasEmail(rows, email)
  {
    if rows != [] {
      var init := rows[..|rows| - 1];
      AccountsOfKeys(init, email);
      if HasEmail(rows, email) && rows[|rows| - 1].email != email {
        var i :| 0 <= i < |rows| && rows[i].email == email;
        assert init[i] == rows[i];
      }
      if HasEmail(init, email) {
        var i :| 0 <= i < |init| && init[i].email == email;
        assert rows[i] == init[i];
      }
    }
  }

  /** Under UNIQUE(email), each row is what the map holds under its email. */
  lemma {:induction false} AccountsOfAt(rows: seq<Row>, i: nat)
    requires UniqueEmails(rows)
    requires i < |rows|
    ensures rows[i].email in AccountsOf(rows)
    ensures AccountsOf(rows)[rows[i].email] == AccountOf(rows[i])
  {
    var init := rows[..|rows| - 1];
    if i < |rows| - 1 {
      assert init[i] == rows[i];
      assert UniqueEmails(init) by {
        forall a, b | 0 <= a < b < |init| ensures init[a].email != init[b].email {
          assert init[a] == rows[a] && init[b] == rows[b];
        }
      }
      AccountsOfAt(init, i);
      assert rows[i].email != rows[|rows| - 1].email;
    }
  }

  /** `create_user` on a new email adds exactly that one key; on a known one it changes nothing. */
  lemma CreateUserView(t: Table, name: string, email: Email, password: string, salt: Salt, now: Timestamp)
    ensures var r := CreateUser(t, name, email, password, salt, now);
            AccountsOf(r.table.rows)
            == if r.ok then AccountsOf(t.rows)[email := Account(r.table.lastId, name, Hash(password, salt), now)]
               else AccountsOf(t.rows)
    ensures var r := CreateUser(t, name, email, password, salt, now);
            r.ok <==> email !in AccountsOf(t.rows)
  {
    var r := CreateUser(t, name, email, password, salt, now);
    AccountsOfKeys(t.rows, email);
    if r.ok {
      assert r.table.rows[..|r.table.rows| - 1] == t.rows;
    }
  }

  /** The map after `reset_password`: the hash under the email is replaced, if the email is a key. */
  function Rehashed(m: map<Email, Account>, email: Email, h: PasswordHash): map<Email, Account>
  {
    if email in m then m[email := m[email].(passwordHash := h)] else m
  }

  /** Rehashing commutes with adding a key, the key's own hash being rehashed if it is the email. */
  lemma RehashedUpdate(m: map<Email, Account>, key: Email, a: Account, email: Email, h: PasswordHash)
    ensures Rehashed(m[key := a], email, h)
            == Rehashed(m, email, h)[key := if key == email then a.(passwordHash := h) else a]
  {
  }

  lemma {:induction false} SetHashWhereView(rows: seq<Row>, email: Email, h: PasswordHash)
    ensures AccountsOf(SetHashWhere(rows, email, h)) == Rehashed(AccountsOf(rows), email, h)
  {
    if rows != [] {
      var n := |rows|;
      var init := rows[..n - 1];
      var last := rows[n - 1];
      var r := SetHashWhere(rows, email, h);
      var rinit := SetHashWhere(init, email, h);
      assert r[..n - 1] == rinit by {
        forall i | 0 <= i < n - 1 ensures r[..n - 1][i] == rinit[i] {
          assert init[i] == rows[i];
        }
      }
      var a := AccountOf(last);
      var a' := if last.email == email then a.(passwordHash := h) else a;
      assert AccountOf(r[n - 1]) == a';
      assert r[n - 1].email == last.email;
      calc {
        AccountsOf(r);
        AccountsOf(r[..n - 1])[last.email := a'];
        AccountsOf(rinit)[last.email := a'];
        { SetHashWhereView(init, email, h); }
        Rehashed(AccountsOf(init), email, h)[last.email := a'];
        { RehashedUpdate(AccountsOf(init), last.email, a, email, h); }
        Rehashed(AccountsOf(init)[last.email := a], email, h);
        Rehashed(AccountsOf(rows), email, h);
      }
    }
  }

  /** `reset_password` replaces one hash in the map and leaves every other key and field alone. */
  lemma ResetPasswordView(t: Table, email: Email, newPassword: string, salt: Salt)
    ensures AccountsOf(ResetPassword(t, email, newPassword, salt).rows)
            == Rehashed(AccountsOf(t.rows), email, Hash(newPassword, salt))
  {
    SetHashWhereView(t.rows, email, Hash(newPassword, salt));
  }

  /** `verify_user` is a map lookup followed by a password check. */
  lemma VerifyUserView(t: Table, email: Email, password: string)
    requires UniqueEmails(t.rows)
    ensures var m := AccountsOf(t.rows);
            VerifyUser(t, email, password)
            == if email in m && Verify(password, m[email].passwordHash)
               then Some(Identity(m[email].id, m[email].name, email))
               else None
  {
    AccountsOfKeys(t.rows, email);
    var k := FindRow(t.rows, email);
    if k.Some? {
      AccountsOfAt(t.rows, k.value);
    }
  }
}
