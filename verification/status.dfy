/** get_status_list: the netted matrix read out as a list of open debts, casher-major in user
    order, leaving out every pair whose netted amount is zero. */
module Status {
  import opened Netting

  /** `debtor` must pay `creditor` the amount `amount`. */
  datatype Debt = Debt(debtor: Name, creditor: Name, amount: real)

  /** The position of `u` in `users` (its first one), or `|users|` when it is absent. */
  function Pos(users: seq<Name>, u: Name): (i: nat)
    ensures i <= |users|
    ensures i < |users| <==> u in users
    ensures i < |users| ==> users[i] == u
  {
    if users == [] then 0
    else if users[0] == u then 0
    else 1 + Pos(users[1..], u)
  }

  /** The order in which the two nested loops meet the pairs: by creditor (the casher), then
      by debtor (the payer), both in user order. */
  predicate Precedes(users: seq<Name>, s: Debt, t: Debt) {
    || Pos(users, s.creditor) < Pos(users, t.creditor)
    || (Pos(users, s.creditor) == Pos(users, t.creditor) && Pos(users, s.debtor) < Pos(users, t.debtor))
  }

  predicate Ordered(users: seq<Name>, ds: seq<Debt>) {
    forall i, j :: 0 <= i < j < |ds| ==> Precedes(users, ds[i], ds[j])
  }

  /** The inner loop: casher `c` against the payers `users[j..]`. */
  function RowDebts(users: seq<Name>, m: Matrix, c: Name, j: nat): (ds: seq<Debt>)
    requires j <= |users|
    requires forall y :: y in users ==> (c, y) in m
    ensures forall t :: t in ds <==>
              && t.creditor == c && t.debtor in users[j..]
              && m[(c, t.debtor)] != 0.0 && t.amount == m[(c, t.debtor)]
    ensures NoDuplicates(users) ==> forall t :: t in ds ==> Pos(users, t.debtor) >= j
    ensures NoDuplicates(users) ==> Ordered(users, ds)
    decreases |users| - j
  {
    if j == |users| then []
    else
      var y := users[j];
      var rest := RowDebts(users, m, c, j + 1);
      assert users[j..] == [y] + users[j + 1..];
      var ds := if m[(c, y)] != 0.0 then [Debt(y, c, m[(c, y)])] + rest else rest;
      RowStep(users, c, j, rest, ds);
      ds
  }

  /** The bookkeeping of one step of the inner loop: positions only grow along the row. */
  lemma RowStep(users: seq<Name>, c: Name, j: nat, rest: seq<Debt>, ds: seq<Debt>)
    requires j < |users|
    requires forall t :: t in rest ==> t.creditor == c && t.debtor in users[j + 1..]
    requires NoDuplicates(users) ==> Ordered(users, rest)
    requires ds == rest || (|ds| > 0 && ds[0].debtor == users[j] && ds[0].creditor == c && ds[1..] == rest)
    ensures NoDuplicates(users) ==> forall t :: t in ds ==> Pos(users, t.debtor) >= j
    ensures NoDuplicates(users) ==> Ordered(users, ds)
  {
    if NoDuplicates(users) {
      LaterDebtors(users, j, rest);
      if ds != rest {
        PosAt(users, j);
        assert ds == [ds[0]] + rest;
        RowCons(users, c, j, ds[0], rest);
      }
    }
  }

  lemma LaterDebtors(users: seq<Name>, j: nat, rest: seq<Debt>)
    requires NoDuplicates(users) && j < |users|
    requires forall t :: t in rest ==> t.debtor in users[j + 1..]
    ensures forall t :: t in rest ==> Pos(users, t.debtor) > j
  {
    forall t | t in rest
      ensures Pos(users, t.debtor) > j
    {
      PosInSuffix(users, j + 1, t.debtor);
    }
  }

  /** A debt of casher `c` to the payer at position `j`, put before later payers' debts. */
  lemma RowCons(users: seq<Name>, c: Name, j: nat, head: Debt, rest: seq<Debt>)
    requires head.creditor == c && Pos(users, head.debtor) == j
    requires forall t :: t in rest ==> t.creditor == c && Pos(users, t.debtor) > j
    requires Ordered(users, rest)
    ensures forall t :: t in [head] + rest ==> Pos(users, t.debtor) >= j
    ensures Ordered(users, [head] + rest)
  {
    var ds := [head] + rest;
    forall a, b | 0 <= a < b < |ds|
      ensures Precedes(users, ds[a], ds[b])
    {
      assert ds[b] == rest[b - 1];
      if a > 0 {
        assert ds[a] == rest[a - 1];
      } else {
        assert rest[b - 1] in rest;
      }
    }
  }

  /** The outer loop: cashers `users[i..]`, each against every payer. */
  function Debts(users: seq<Name>, m: Matrix, i: nat): (ds: seq<Debt>)
    requires i <= |users|
    requires Square(users) <= m.Keys
    ensures forall t :: t in ds <==>
              && t.creditor in users[i..] && t.debtor in users
              && m[(t.creditor, t.debtor)] != 0.0 && t.amount == m[(t.creditor, t.debtor)]
    ensures NoDuplicates(users) ==> forall t :: t in ds ==> Pos(users, t.creditor) >= i
    ensures NoDuplicates(users) ==> Ordered(users, ds)
    decreases |users| - i
  {
    if i == |users| then []
    else
      var c := users[i];
      var row := RowDebts(users, m, c, 0);
      var rest := Debts(users, m, i + 1);
      assert users[i..] == [c] + users[i + 1..];
      assert users[0..] == users;
      ConcatStep(users, c, i, row, rest);
      row + rest
  }

  /** Appending the later cashers' debts after one casher's row keeps the order. */
  lemma ConcatStep(users: seq<Name>, c: Name, i: nat, row: seq<Debt>, rest: seq<Debt>)
    requires i < |users| && users[i] == c
    requires forall t :: t in row ==> t.creditor == c
    requires forall t :: t in rest ==> t.creditor in users[i + 1..]
    requires NoDuplicates(users) ==> Ordered(users, row) && Ordered(users, rest)
    ensures NoDuplicates(users) ==> forall t :: t in row + rest ==> Pos(users, t.creditor) >= i
    ensures NoDuplicates(users) ==> Ordered(users, row + rest)
  {
    if NoDuplicates(users) {
      PosAt(users, i);
      forall t | t in rest
        ensures Pos(users, t.creditor) > i
      {
        PosInSuffix(users, i + 1, t.creditor);
      }
      var ds := row + rest;
      forall a, b | 0 <= a < b < |ds|
        ensures Precedes(users, ds[a], ds[b])
      {
        if b < |row| {
          assert ds[a] == row[a] && ds[b] == row[b];
        } else if a >= |row| {
          assert ds[a] == rest[a - |row|] && ds[b] == rest[b - |row|];
        } else {
          assert ds[a] == row[a] && ds[b] == rest[b - |row|];
          assert ds[a] in row && ds[b] in rest;
        }
      }
    }
  }

  lemma PosAt(users: seq<Name>, i: nat)
    requires NoDuplicates(users) && i < |users|
    ensures Pos(users, users[i]) == i
  {
    var p := Pos(users, users[i]);
    assert users[p] == users[i];
  }

  lemma PosInSuffix(users: seq<Name>, j: nat, u: Name)
    requires NoDuplicates(users) && j <= |users| && u in users[j..]
    ensures j <= Pos(users, u) < |users|
  {
    var k :| j <= k < |users| && users[k] == u;
    PosAt(users, k);
  }

  /** get_status_list over the netted matrix `m`: exactly the non-zero entries, each as
      (payer, casher, amount), in loop order. */
  function StatusList(users: seq<Name>, m: Matrix): (ds: seq<Debt>)
    requires Square(users) <= m.Keys
    ensures forall t :: t in ds <==>
              && t.creditor in users && t.debtor in users
              && m[(t.creditor, t.debtor)] != 0.0 && t.amount == m[(t.creditor, t.debtor)]
    ensures NoDuplicates(users) ==> Ordered(users, ds)
  {
    assert users[0..] == users;
    Debts(users, m, 0)
  }

  /** On a netted matrix every listed debt is positive and between two different users, and
      no two users owe each other both ways. */
  lemma NettedDebts(users: seq<Name>, m: Matrix)
    requires m.Keys == Square(users) && IsNetted(m, users)
    ensures forall t :: t in StatusList(users, m) ==> t.amount > 0.0 && t.debtor != t.creditor
    ensures forall s, t :: s in StatusList(users, m) && t in StatusList(users, m) ==>
              !(s.debtor == t.creditor && s.creditor == t.debtor)
  {
  }

  /** The status of a set of expenses (get_status_list after get_status_dict): a debt is
      listed exactly when its net amount is not zero, that is when the debtor owes the
      creditor more than the other way round, and the amount is the difference. */
  function StatusOf(users: seq<Name>, expenses: seq<Expense>): (ds: seq<Debt>)
    requires WellFormed(users, expenses)
    ensures forall t :: t in ds <==>
              && t.creditor in users && t.debtor in users
              && NetOwed(expenses, t.creditor, t.debtor) != 0.0
              && t.amount == NetOwed(expenses, t.creditor, t.debtor)
    ensures NoDuplicates(users) ==> Ordered(users, ds)
  {
    StatusList(users, StatusDict(users, expenses))
  }

  /** The same membership in terms of the gross amounts each way. */
  lemma StatusOfOwed(users: seq<Name>, expenses: seq<Expense>, t: Debt)
    requires WellFormed(users, expenses)
    ensures t in StatusOf(users, expenses) <==>
              && t.creditor in users && t.debtor in users
              && Owed(expenses, t.creditor, t.debtor) > Owed(expenses, t.debtor, t.creditor)
              && t.amount == Owed(expenses, t.creditor, t.debtor) - Owed(expenses, t.debtor, t.creditor)
  {
    NetOwedOpen(expenses, t.creditor, t.debtor);
  }

  /** The status list is pinned down by the net amounts: any ordered list holding exactly the
      non-zero net debts, each with its amount, is the status list. */
  lemma StatusOfIs(users: seq<Name>, expenses: seq<Expense>, expected: seq<Debt>)
    requires WellFormed(users, expenses) && NoDuplicates(users) && Ordered(users, expected)
    requires forall t :: t in expected ==>
               && t.creditor in users && t.debtor in users
               && t.amount == NetOwed(expenses, t.creditor, t.debtor) && t.amount != 0.0
    requires forall x, y :: x in users && y in users && NetOwed(expenses, x, y) != 0.0 ==>
               Debt(y, x, NetOwed(expenses, x, y)) in expected
    ensures StatusOf(users, expenses) == expected
  {
    var m := StatusDict(users, expenses);
    ListIs(users, m, expected);
  }

  lemma ListIs(users: seq<Name>, m: Matrix, expected: seq<Debt>)
    requires Square(users) <= m.Keys && NoDuplicates(users) && Ordered(users, expected)
    requires forall t :: t in expected ==>
               t.creditor in users && t.debtor in users && t.amount == m[(t.creditor, t.debtor)] && t.amount != 0.0
    requires forall x, y :: x in users && y in users && m[(x, y)] != 0.0 ==> Debt(y, x, m[(x, y)]) in expected
    ensures StatusList(users, m) == expected
  {
    var ds := StatusList(users, m);
    forall t
      ensures t in ds <==> t in expected
    {
      if t in ds {
        assert Debt(t.debtor, t.creditor, m[(t.creditor, t.debtor)]) == t;
      }
    }
    OrderedUnique(users, ds, expected);
  }

  /** With no expenses nobody owes anybody anything. */
  lemma NoExpensesNoDebts(users: seq<Name>)
    ensures StatusOf(users, []) == []
  {
    var m := StatusDict(users, []);
    forall x, y | x in users && y in users
      ensures m[(x, y)] == 0.0
    {
      assert m[(x, y)] == NetOwed([], x, y);
    }
    assert users[0..] == users;
    DebtsOfZero(users, m, 0);
  }

  /** A matrix with no open entry lists no debts. */
  lemma {:induction false} DebtsOfZero(users: seq<Name>, m: Matrix, i: nat)
    requires i <= |users| && Square(users) <= m.Keys
    requires forall x, y :: x in users && y in users ==> m[(x, y)] == 0.0
    ensures Debts(users, m, i) == []
    decreases |users| - i
  {
    if i < |users| {
      RowOfZero(users, m, users[i], 0);
      DebtsOfZero(users, m, i + 1);
    }
  }

  lemma {:induction false} RowOfZero(users: seq<Name>, m: Matrix, c: Name, j: nat)
    requires j <= |users| && forall y :: y in users ==> (c, y) in m && m[(c, y)] == 0.0
    ensures RowDebts(users, m, c, j) == []
    decreases |users| - j
  {
    if j < |users| {
      RowOfZero(users, m, c, j + 1);
    }
  }

  /** The loop order pins the list down: two ordered lists with the same members are equal,
      so the status list is determined by which debts are open. */
  lemma {:induction false} OrderedUnique(users: seq<Name>, xs: seq<Debt>, ys: seq<Debt>)
    requires Ordered(users, xs) && Ordered(users, ys)
    requires forall t :: t in xs <==> t in ys
    ensures xs == ys
  {
    if xs != [] && ys != [] {
      assert ys[0] in ys && xs[0] in xs;
      var j :| 0 <= j < |xs| && xs[j] == ys[0];
      var k :| 0 <= k < |ys| && ys[k] == xs[0];
      assert xs[0] == ys[0];
      assert xs == [xs[0]] + xs[1..] && ys == [ys[0]] + ys[1..];
      forall t
        ensures t in xs[1..] <==> t in ys[1..]
      {
        if t in xs[1..] {
          var a :| 0 <= a < |xs[1..]| && xs[1..][a] == t;
          assert Precedes(users, xs[0], xs[a + 1]);
          assert t in ys;
        }
        if t in ys[1..] {
          var b :| 0 <= b < |ys[1..]| && ys[1..][b] == t;
          assert Precedes(users, ys[0], ys[b + 1]);
          assert t in xs;
        }
      }
      OrderedUnique(users, xs[1..], ys[1..]);
    } else if xs != [] {
      HeadIsMember(xs);
      assert false;
    } else if ys != [] {
      HeadIsMember(ys);
      assert false;
    }
  }

  lemma HeadIsMember(s: seq<Debt>)
    ensures s != [] ==> s[0] in s
  {
  }
}
