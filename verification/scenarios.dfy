/** The status cases of test.py (test_get_status_list and test_get_status_dict), stated about
    the netting engine with users named user1, user2 and user3. */
module Scenarios {
  import opened Netting
  import opened Status

  const U1: Name := "user1"
  const U2: Name := "user2"
  const U3: Name := "user3"

  lemma DistinctUsers()
    ensures U1 != U2 && U1 != U3 && U2 != U3
    ensures NoDuplicates([U1, U2]) && NoDuplicates([U1, U2, U3])
  {
    assert U1[4] != U2[4] && U1[4] != U3[4] && U2[4] != U3[4];
  }

  /** An expense split between user1 and user2, as most of the test expenses are. */
  function Half(payer: Name, cost: real): Expense {
    Expense(payer, cost, [U1, U2])
  }

  /** An expense split between all three users. */
  function Third(payer: Name, cost: real): Expense {
    Expense(payer, cost, [U1, U2, U3])
  }

  /** The first three expenses of the status test. */
  function FirstThree(): seq<Expense> {
    [Half(U1, 20.0)] + [Half(U1, 30.0)] + [Half(U2, 40.0)]
  }

  /** The next three, before user3 joins. */
  function NextThree(): seq<Expense> {
    [Half(U2, 40.0)] + [Half(U2, 40.0)] + [Half(U1, 5.0)]
  }

  /** The two expenses user3 pays. */
  function LastTwo(): seq<Expense> {
    [Half(U3, 105.0)] + [Third(U3, 210.0)]
  }

  function FirstSix(): seq<Expense> {
    FirstThree() + NextThree()
  }

  function AllEight(): seq<Expense> {
    FirstSix() + LastTwo()
  }

  lemma WellFormedAppend(users: seq<Name>, a: seq<Expense>, b: seq<Expense>)
    requires WellFormed(users, a) && WellFormed(users, b)
    ensures WellFormed(users, a + b)
  {
  }

  lemma BlocksWellFormed(users: seq<Name>)
    requires U1 in users && U2 in users
    ensures WellFormed(users, FirstThree()) && WellFormed(users, FirstSix())
  {
    assert forall p, c :: p in users ==> WellFormed(users, [Half(p, c)]);
    WellFormedAppend(users, [Half(U1, 20.0)], [Half(U1, 30.0)]);
    WellFormedAppend(users, [Half(U1, 20.0)] + [Half(U1, 30.0)], [Half(U2, 40.0)]);
    WellFormedAppend(users, [Half(U2, 40.0)], [Half(U2, 40.0)]);
    WellFormedAppend(users, [Half(U2, 40.0)] + [Half(U2, 40.0)], [Half(U1, 5.0)]);
    WellFormedAppend(users, FirstThree(), NextThree());
  }

  lemma EightWellFormed()
    ensures WellFormed([U1, U2], FirstThree()) && WellFormed([U1, U2], FirstSix())
    ensures WellFormed([U1, U2, U3], AllEight())
  {
    var users := [U1, U2, U3];
    BlocksWellFormed([U1, U2]);
    BlocksWellFormed(users);
    assert WellFormed(users, [Half(U3, 105.0)]);
    assert WellFormed(users, [Third(U3, 210.0)]);
    WellFormedAppend(users, [Half(U3, 105.0)], [Third(U3, 210.0)]);
    WellFormedAppend(users, FirstSix(), LastTwo());
  }

  // ---------------------------------------------------------------- what each expense leaves

  lemma HalfOwed(payer: Name, cost: real, x: Name, y: Name)
    requires y in [U1, U2, U3]
    ensures Owed([Half(payer, cost)], x, y) == if x == payer && y != U3 then cost / 2.0 else 0.0
  {
    DistinctUsers();
    var e := Half(payer, cost);
    OwedSingle(e, x, y);
    if y == U3 {
      CountAbsent(e.debtors, y);
    } else {
      CountOfMember(e.debtors, y);
    }
  }

  lemma ThirdOwed(payer: Name, cost: real, x: Name, y: Name)
    requires y in [U1, U2, U3]
    ensures Owed([Third(payer, cost)], x, y) == if x == payer then cost / 3.0 else 0.0
  {
    DistinctUsers();
    var e := Third(payer, cost);
    OwedSingle(e, x, y);
    CountOfMember(e.debtors, y);
  }

  lemma OwedOfThree(a: Expense, b: Expense, c: Expense, x: Name, y: Name)
    requires |a.debtors| > 0 && |b.debtors| > 0 && |c.debtors| > 0
    ensures Owed([a] + [b] + [c], x, y) == Owed([a], x, y) + Owed([b], x, y) + Owed([c], x, y)
  {
    OwedAppend([a] + [b], [c], x, y);
    OwedAppend([a], [b], x, y);
  }

  // ---------------------------------------------------------------- what each block leaves

  lemma FirstThreeOwed(x: Name, y: Name)
    requires x in [U1, U2, U3] && y in [U1, U2, U3]
    ensures Owed(FirstThree(), x, y) ==
              (if x == U1 && y != U3 then 25.0 else 0.0) + (if x == U2 && y != U3 then 20.0 else 0.0)
  {
    OwedOfThree(Half(U1, 20.0), Half(U1, 30.0), Half(U2, 40.0), x, y);
    HalfOwed(U1, 20.0, x, y);
    HalfOwed(U1, 30.0, x, y);
    HalfOwed(U2, 40.0, x, y);
  }

  lemma NextThreeOwed(x: Name, y: Name)
    requires x in [U1, U2, U3] && y in [U1, U2, U3]
    ensures Owed(NextThree(), x, y) ==
              (if x == U2 && y != U3 then 40.0 else 0.0) + (if x == U1 && y != U3 then 2.5 else 0.0)
  {
    OwedOfThree(Half(U2, 40.0), Half(U2, 40.0), Half(U1, 5.0), x, y);
    HalfOwed(U2, 40.0, x, y);
    HalfOwed(U1, 5.0, x, y);
  }

  lemma LastTwoOwed(x: Name, y: Name)
    requires x in [U1, U2, U3] && y in [U1, U2, U3]
    ensures Owed(LastTwo(), x, y) ==
              (if x == U3 && y != U3 then 52.5 else 0.0) + (if x == U3 then 70.0 else 0.0)
  {
    OwedAppend([Half(U3, 105.0)], [Third(U3, 210.0)], x, y);
    HalfOwed(U3, 105.0, x, y);
    ThirdOwed(U3, 210.0, x, y);
  }

  lemma FirstSixOwed()
    ensures Owed(FirstThree(), U1, U2) == 25.0 && Owed(FirstThree(), U2, U1) == 20.0
    ensures Owed(FirstSix(), U1, U2) == 27.5 && Owed(FirstSix(), U2, U1) == 60.0
  {
    DistinctUsers();
    FirstThreeOwed(U1, U2);
    FirstThreeOwed(U2, U1);
    NextThreeOwed(U1, U2);
    NextThreeOwed(U2, U1);
    OwedAppend(FirstThree(), NextThree(), U1, U2);
    OwedAppend(FirstThree(), NextThree(), U2, U1);
  }

  lemma AllEightOwed(x: Name, y: Name)
    requires x in [U1, U2, U3] && y in [U1, U2, U3]
    ensures Owed(AllEight(), x, y) == Owed(FirstThree(), x, y) + Owed(NextThree(), x, y) + Owed(LastTwo(), x, y)
  {
    OwedAppend(FirstThree(), NextThree(), x, y);
    OwedAppend(FirstSix(), LastTwo(), x, y);
  }

  /** Adding up the three blocks for one pair. */
  lemma AllEightPair(x: Name, y: Name)
    requires x in [U1, U2, U3] && y in [U1, U2, U3]
    ensures Owed(AllEight(), x, y) ==
              (if x == U1 && y != U3 then 27.5 else 0.0) + (if x == U2 && y != U3 then 60.0 else 0.0)
              + (if x == U3 && y != U3 then 52.5 else 0.0) + (if x == U3 then 70.0 else 0.0)
  {
    AllEightOwed(x, y);
    FirstThreeOwed(x, y);
    NextThreeOwed(x, y);
    LastTwoOwed(x, y);
  }

  lemma AllEightTotals()
    ensures Owed(AllEight(), U1, U2) == 27.5 && Owed(AllEight(), U2, U1) == 60.0
    ensures Owed(AllEight(), U3, U1) == 122.5 && Owed(AllEight(), U1, U3) == 0.0
    ensures Owed(AllEight(), U3, U2) == 122.5 && Owed(AllEight(), U2, U3) == 0.0
  {
    DistinctUsers();
    AllEightPair(U1, U2);
    AllEightPair(U2, U1);
    AllEightPair(U3, U1);
    AllEightPair(U1, U3);
    AllEightPair(U3, U2);
    AllEightPair(U2, U3);
  }

  // ---------------------------------------------------------------- the status lists

  /** When one pair alone has a net amount, the status list is that one debt. */
  lemma SingleDebtStatus(users: seq<Name>, es: seq<Expense>, x: Name, y: Name)
    requires WellFormed(users, es) && NoDuplicates(users) && x in users && y in users
    requires NetOwed(es, x, y) != 0.0
    requires forall p, q :: p in users && q in users && NetOwed(es, p, q) != 0.0 ==> p == x && q == y
    ensures StatusOf(users, es) == [Debt(y, x, NetOwed(es, x, y))]
  {
    StatusOfIs(users, es, [Debt(y, x, NetOwed(es, x, y))]);
  }

  /** Of the pairs two users make, only the one with the surplus has a net amount. */
  lemma OnlyPair(es: seq<Expense>, c: Name, d: Name, p: Name, q: Name)
    requires forall e :: e in es ==> |e.debtors| > 0
    requires Owed(es, c, d) > Owed(es, d, c)
    requires p == q || (p, q) == (c, d) || (p, q) == (d, c)
    requires NetOwed(es, p, q) != 0.0
    ensures p == c && q == d
  {
    NetOwedOpen(es, p, q);
  }

  /** Between two users the status list is the one debt in the direction of the surplus. */
  lemma TwoUserStatus(a: Name, b: Name, c: Name, d: Name, es: seq<Expense>)
    requires a != b && WellFormed([a, b], es)
    requires (c, d) == (a, b) || (c, d) == (b, a)
    requires Owed(es, c, d) > Owed(es, d, c)
    ensures StatusOf([a, b], es) == [Debt(d, c, Owed(es, c, d) - Owed(es, d, c))]
  {
    TwoUserPairs(a, b, c, d, es);
    SingleDebtStatus([a, b], es, c, d);
    assert Debt(d, c, NetOwed(es, c, d)) == Debt(d, c, Owed(es, c, d) - Owed(es, d, c));
  }

  /** Between two users only the pair from the creditor to the debtor has a net amount. */
  lemma TwoUserPairs(a: Name, b: Name, c: Name, d: Name, es: seq<Expense>)
    requires forall e :: e in es ==> |e.debtors| > 0
    requires (c, d) == (a, b) || (c, d) == (b, a)
    requires Owed(es, c, d) > Owed(es, d, c)
    ensures c in [a, b] && d in [a, b] && NetOwed(es, c, d) != 0.0
    ensures NetOwed(es, c, d) == Owed(es, c, d) - Owed(es, d, c)
    ensures forall p, q :: p in [a, b] && q in [a, b] && NetOwed(es, p, q) != 0.0 ==> p == c && q == d
  {
    NetOwedOpen(es, c, d);
    forall p, q | p in [a, b] && q in [a, b] && NetOwed(es, p, q) != 0.0
      ensures p == c && q == d
    {
      OnlyPair(es, c, d, p, q);
    }
  }

  /** test_get_status_list, first check: user2 owes user1 5. */
  lemma FirstStatus()
    ensures StatusOf([U1, U2], FirstThree()) == [Debt(U2, U1, 5.0)]
  {
    DistinctUsers();
    FirstSixOwed();
    EightWellFormed();
    TwoUserStatus(U1, U2, U1, U2, FirstThree());
  }

  /** test_get_status_list, second check: after three more expenses user1 owes user2 32.5. */
  lemma SecondStatus()
    ensures StatusOf([U1, U2], FirstSix()) == [Debt(U1, U2, 32.5)]
  {
    DistinctUsers();
    FirstSixOwed();
    EightWellFormed();
    TwoUserStatus(U1, U2, U2, U1, FirstSix());
  }

  /** The three debts of the last check, in the order the status loops meet them. */
  function ThreeDebts(): seq<Debt> {
    [Debt(U1, U2, 32.5), Debt(U1, U3, 122.5), Debt(U2, U3, 122.5)]
  }

  /** The net amounts once user3 has paid: user1 owes user2 32.5, and both owe user3 122.5. */
  lemma ThreeNet(es: seq<Expense>)
    requires forall e :: e in es ==> |e.debtors| > 0
    requires Owed(es, U1, U2) == 27.5 && Owed(es, U2, U1) == 60.0
    requires Owed(es, U3, U1) == 122.5 && Owed(es, U1, U3) == 0.0
    requires Owed(es, U3, U2) == 122.5 && Owed(es, U2, U3) == 0.0
    ensures NetOwed(es, U2, U1) == 32.5 && NetOwed(es, U3, U1) == 122.5 && NetOwed(es, U3, U2) == 122.5
    ensures NetOwed(es, U1, U2) == 0.0 && NetOwed(es, U1, U3) == 0.0 && NetOwed(es, U2, U3) == 0.0
    ensures forall x :: NetOwed(es, x, x) == 0.0
    ensures forall x, y :: x in [U1, U2, U3] && y in [U1, U2, U3] ==> NetOwed(es, x, y) == ExpectedDict(x, y)
  {
    DistinctUsers();
  }

  /** Among three users where the first owes the second, and both owe the third, and
      nothing runs the other way, the status list is those three debts in loop order. */
  lemma ThreeUserStatus(a: Name, b: Name, c: Name, es: seq<Expense>)
    requires NoDuplicates([a, b, c]) && WellFormed([a, b, c], es)
    requires NetOwed(es, b, a) != 0.0 && NetOwed(es, c, a) != 0.0 && NetOwed(es, c, b) != 0.0
    requires NetOwed(es, a, b) == 0.0 && NetOwed(es, a, c) == 0.0 && NetOwed(es, b, c) == 0.0
    ensures StatusOf([a, b, c], es) ==
              [Debt(a, b, NetOwed(es, b, a)), Debt(a, c, NetOwed(es, c, a)), Debt(b, c, NetOwed(es, c, b))]
  {
    var users := [a, b, c];
    var ds := [Debt(a, b, NetOwed(es, b, a)), Debt(a, c, NetOwed(es, c, a)), Debt(b, c, NetOwed(es, c, b))];
    assert Pos(users, a) == 0 && Pos(users, b) == 1 && Pos(users, c) == 2;
    assert NetOwed(es, a, a) == 0.0 && NetOwed(es, b, b) == 0.0 && NetOwed(es, c, c) == 0.0;
    StatusOfIs(users, es, ds);
  }

  /** test_get_status_list, last check: user3 has paid 105 for user1 and user2 and 210 for
      everybody. */
  lemma ThirdStatus()
    ensures StatusOf([U1, U2, U3], AllEight()) == ThreeDebts()
  {
    DistinctUsers();
    AllEightTotals();
    EightWellFormed();
    ThreeNet(AllEight());
    ThreeUserStatus(U1, U2, U3, AllEight());
  }

  /** One entry of the netted matrix is the net amount of that pair. */
  lemma DictEntry(users: seq<Name>, es: seq<Expense>, x: Name, y: Name)
    requires WellFormed(users, es) && x in users && y in users
    ensures StatusDict(users, es)[(x, y)] == NetOwed(es, x, y)
  {
  }

  /** The netted matrix the dict test expects: user1 owes user2 32.5 and both owe user3
      122.5; every other entry, the diagonal included, is zero. */
  function ExpectedDict(x: Name, y: Name): real {
    if x == U2 && y == U1 then 32.5
    else if x == U3 && y != U3 then 122.5
    else 0.0
  }

  /** test_get_status_dict: the netted matrix of the same eight expenses, entry by entry. */
  lemma ThreeUserDict()
    ensures forall x, y :: x in [U1, U2, U3] && y in [U1, U2, U3] ==>
              StatusDict([U1, U2, U3], AllEight())[(x, y)] == ExpectedDict(x, y)
  {
    var users, es := [U1, U2, U3], AllEight();
    DistinctUsers();
    AllEightTotals();
    EightWellFormed();
    ThreeNet(es);
    forall x, y | x in users && y in users
      ensures StatusDict(users, es)[(x, y)] == ExpectedDict(x, y)
    {
      DictEntry(users, es, x, y);
    }
  }
}
