/** The store cases of test.py (TestDatabaseUsers and the ledger parts of
    TestDatabaseExpenses), stated about the abstract store. */
module LedgerCases {
  import opened Errors
  import opened Text
  import opened Validation
  import opened Ledger

  /** A name that starts with a letter and has no surrounding space or comma is valid. */
  lemma PlainName(s: string)
    requires IsTrimmedWord(s) && ',' !in s && 'a' <= s[0] <= 'z'
    ensures ValidateUsername(s) == Ok(s)
  {
    StripFixedPoint(s);
  }

  lemma User1Name()
    ensures ValidateUsername("user1") == Ok("user1")
  {
    var s := "user1";
    assert IsTrimmedWord(s) && ',' !in s && 'a' <= s[0] <= 'z' by {
      assert s[0] == 'u' && s[4] == '1';
      assert forall i :: 0 <= i < |s| ==> s[i] != ',';
    }
    PlainName(s);
  }

  /** test_insert_user and test_get_u_id: the first user of a fresh database gets id 1 and
      can be found under its name. */
  lemma FirstUser()
    ensures InsertUser(Init(), "user1").Ok?
    ensures var st := InsertUser(Init(), "user1").value;
      UserId(st, "user1") == Ok(1) && UserName(st, 1) == Ok("user1")
  {
    User1Name();
    assert !HasName(Init().users, "user1");
  }

  /** test_insert_user_twice: the same name a second time violates uniqueness. */
  lemma SameUserTwice()
    ensures InsertUser(Init(), "user1").Ok?
    ensures InsertUser(InsertUser(Init(), "user1").value, "user1") == Err(DuplicateUser)
  {
    FirstUser();
    var st := InsertUser(Init(), "user1").value;
    assert HasName(st.users, "user1") by {
      assert User(1, "user1") in st.users;
    }
  }

  lemma UserNames()
    ensures ValidateUsername("user2") == Ok("user2") && ValidateUsername("user3") == Ok("user3")
    ensures "user1" != "user2" && "user2" != "user3" && "user1" != "user3"
  {
    var s2, s3 := "user2", "user3";
    assert IsTrimmedWord(s2) && ',' !in s2 && 'a' <= s2[0] <= 'z' by {
      assert s2[0] == 'u' && s2[4] == '2';
      assert forall i :: 0 <= i < |s2| ==> s2[i] != ',';
    }
    assert IsTrimmedWord(s3) && ',' !in s3 && 'a' <= s3[0] <= 'z' by {
      assert s3[0] == 'u' && s3[4] == '3';
      assert forall i :: 0 <= i < |s3| ==> s3[i] != ',';
    }
    PlainName(s2);
    PlainName(s3);
    assert "user1"[4] != "user2"[4] && "user2"[4] != "user3"[4] && "user1"[4] != "user3"[4];
  }

  /** test_insert_user: two users inserted into a fresh database get ids 1 and 2, in
      insertion order. */
  function OneUser(): Store {
    Store([User(1, "user1")], [], [], 2, 1, 1, 1)
  }

  function TwoUsers(): Store {
    Store([User(1, "user1"), User(2, "user2")], [], [], 3, 1, 1, 1)
  }

  lemma InsertFirst()
    ensures InsertUser(Init(), "user1") == Ok(OneUser())
  {
    User1Name();
    assert Init().users + [User(1, "user1")] == OneUser().users;
  }

  lemma InsertSecond()
    ensures InsertUser(OneUser(), "user2") == Ok(TwoUsers())
  {
    UserNames();
    assert !HasName(OneUser().users, "user2");
    assert OneUser().users + [User(2, "user2")] == TwoUsers().users;
  }

  /** Renaming the second of two users to a fresh valid name keeps its id and leaves the
      first user alone. */
  lemma RenameOfTwo(a: string, b: string, c: string)
    requires ValidateUsername(c) == Ok(c)
    requires a != b && b != c && a != c
    ensures UpdateUser(Store([User(1, a), User(2, b)], [], [], 3, 1, 1, 1), b, c) ==
              Ok(Store([User(1, a), User(2, c)], [], [], 3, 1, 1, 1))
  {
    var users := [User(1, a), User(2, b)];
    assert HasName(users, b) by {
      assert users[1] in users;
    }
    var r := Rename(users, b, c);
    assert r[0] == User(1, a) && r[1] == User(2, c);
    assert r == [User(1, a), User(2, c)];
  }

  /** test_update_user: renaming user2 to user3 keeps its id 2 and leaves user1 alone. */
  lemma RenameSecond()
    ensures UpdateUser(TwoUsers(), "user2", "user3") ==
              Ok(Store([User(1, "user1"), User(2, "user3")], [], [], 3, 1, 1, 1))
  {
    UserNames();
    RenameOfTwo("user1", "user2", "user3");
  }

  /** test_update_user_that_does_not_exist: renaming a name nobody has is UserNotFound. */
  lemma RenameUnknown()
    ensures UpdateUser(Init(), "unknown user", "new name") == Err(UserNotFound)
  {
    var s := "new name";
    assert IsTrimmedWord(s) && ',' !in s && 'a' <= s[0] <= 'z' by {
      assert s[0] == 'n' && s[7] == 'e';
      assert forall i :: 0 <= i < |s| ==> s[i] != ',';
    }
    PlainName(s);
  }

  /** test_get_debtors_for_expense_that_does_not_exist and
      test_get_expense_that_does_not_exist on a fresh database. */
  lemma UnknownExpense(id: Id)
    ensures GetDebtors(Init(), id) == []
    ensures GetExpense(Init(), id) == Err(ExpenseNotFound)
  {
  }
}
