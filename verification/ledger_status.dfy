/** get_status_list over the stored ledger: the users in table order, and every live
    expense read with its payer and debtors as user names, as get_expenses and get_debtors
    return them with u_name=True. */
module LedgerStatus {
  import opened Errors
  import opened Ledger
  import Netting
  import Status

  /** The user names in table order: the order both status loops go through them. */
  function Names(users: seq<User>): (ns: seq<string>)
    ensures |ns| == |users|
    ensures forall i :: 0 <= i < |users| ==> ns[i] == users[i].name
  {
    if users == [] then [] else [users[0].name] + Names(users[1..])
  }

  lemma NamesAreUsers(users: seq<User>, n: string)
    ensures n in Names(users) <==> HasName(users, n)
  {
    var ns := Names(users);
    if n in ns {
      var i :| 0 <= i < |ns| && ns[i] == n;
      assert users[i] in users;
    }
    if HasName(users, n) {
      var u :| u in users && u.name == n;
      var i :| 0 <= i < |users| && users[i] == u;
      assert ns[i] == n;
    }
  }

  lemma NamesUnique(users: seq<User>)
    requires UniqueUsers(users)
    ensures Netting.NoDuplicates(Names(users))
  {
  }

  /** The debtor ids of one expense as names. */
  function NamesOf(users: seq<User>, ids: seq<Id>): (ns: seq<string>)
    requires forall d :: d in ids ==> HasUser(users, d)
    ensures |ns| == |ids|
    ensures forall i :: 0 <= i < |ids| ==> User(ids[i], ns[i]) in users
  {
    if ids == [] then [] else [NameOf(users, ids[0]).value] + NamesOf(users, ids[1..])
  }

  /** One expense row as the netting engine reads it. */
  function Entry(users: seq<User>, e: Expense): (x: Netting.Expense)
    requires GoodExpense(users, e)
    ensures User(e.payer, x.payer) in users
    ensures x.cost == e.cost && |x.debtors| == |e.debtors|
  {
    Netting.Expense(NameOf(users, e.payer).value, e.cost, NamesOf(users, e.debtors))
  }

  function Entries(users: seq<User>, es: seq<Expense>): (r: seq<Netting.Expense>)
    requires forall e :: e in es ==> GoodExpense(users, e)
    ensures |r| == |es|
    ensures forall i :: 0 <= i < |es| ==> r[i] == Entry(users, es[i])
  {
    if es == [] then [] else [Entry(users, es[0])] + Entries(users, es[1..])
  }

  /** Entries of expenses with debtors are what the netting engine accepts. */
  lemma EntriesWellFormed(users: seq<User>, es: seq<Expense>)
    requires forall e :: e in es ==> GoodExpense(users, e) && e.debtors != []
    ensures Netting.WellFormed(Names(users), Entries(users, es))
  {
    var xs := Entries(users, es);
    forall x | x in xs
      ensures x.payer in Names(users) && |x.debtors| > 0
      ensures forall d :: d in x.debtors ==> d in Names(users)
    {
      var i :| 0 <= i < |xs| && xs[i] == x;
      assert es[i] in es;
      EntryWellFormed(users, es[i]);
    }
  }

  lemma EntryWellFormed(users: seq<User>, e: Expense)
    requires GoodExpense(users, e) && e.debtors != []
    ensures var x := Entry(users, e);
      x.payer in Names(users) && |x.debtors| > 0 && forall d :: d in x.debtors ==> d in Names(users)
  {
    var x := Entry(users, e);
    NamesAreUsers(users, x.payer);
    forall d | d in x.debtors
      ensures d in Names(users)
    {
      var k :| 0 <= k < |x.debtors| && x.debtors[k] == d;
      assert User(e.debtors[k], d) in users;
      NamesAreUsers(users, d);
    }
  }

  /** `t` is an open debt among `users` over `es`: both are users, and the creditor is owed a
      non-zero net amount by the debtor, which is `t`'s amount. */
  predicate OpenDebt(users: seq<string>, es: seq<Netting.Expense>, t: Status.Debt) {
    && (forall e :: e in es ==> |e.debtors| > 0)
    && t.creditor in users && t.debtor in users
    && Netting.NetOwed(es, t.creditor, t.debtor) != 0.0
    && t.amount == Netting.NetOwed(es, t.creditor, t.debtor)
  }

  /** get_status_list on the store: no result when a live expense has no debt rows (the
      share is a division by zero), otherwise the open debts between users by name: a debt
      is listed exactly when its net amount over the live expenses is not zero, and the
      amount is that net amount. */
  function LiveStatus(st: Store): (r: Option<seq<Status.Debt>>)
    requires Valid(st)
    ensures r.None? <==> exists e :: e in st.expenses && e.debtors == []
    ensures r.Some? ==> forall t :: t in r.value ==>
              && t.amount > 0.0 && t.debtor != t.creditor
              && HasName(st.users, t.debtor) && HasName(st.users, t.creditor)
    ensures r.Some? ==> Status.Ordered(Names(st.users), r.value)
    ensures r.Some? ==> forall t :: t in r.value <==> OpenDebt(Names(st.users), Entries(st.users, st.expenses), t)
  {
    if exists e :: e in st.expenses && e.debtors == [] then None
    else
      EntriesWellFormed(st.users, st.expenses);
      NamesUnique(st.users);
      var ds := Status.StatusOf(Names(st.users), Entries(st.users, st.expenses));
      LiveDebtsNamed(st.users, ds);
      Some(ds)
  }

  /** The live status is pinned down by its debts: any list in loop order holding exactly the
      open debts of the stored expenses is the status. */
  lemma LiveStatusIs(st: Store, expected: seq<Status.Debt>)
    requires Valid(st) && forall e :: e in st.expenses ==> e.debtors != []
    requires Status.Ordered(Names(st.users), expected)
    requires forall t :: t in expected <==> OpenDebt(Names(st.users), Entries(st.users, st.expenses), t)
    ensures LiveStatus(st) == Some(expected)
  {
    var r := LiveStatus(st);
    Status.OrderedUnique(Names(st.users), r.value, expected);
  }

  lemma LiveDebtsNamed(users: seq<User>, ds: seq<Status.Debt>)
    requires forall t :: t in ds ==> t.debtor in Names(users) && t.creditor in Names(users)
    ensures forall t :: t in ds ==> HasName(users, t.debtor) && HasName(users, t.creditor)
  {
    forall t | t in ds
      ensures HasName(users, t.debtor) && HasName(users, t.creditor)
    {
      NamesAreUsers(users, t.debtor);
      NamesAreUsers(users, t.creditor);
    }
  }

  /** Right after a settle nobody owes anybody anything. */
  lemma SettleClearsStatus(st: Store, stamp: string)
    requires Valid(st)
    ensures LiveStatus(Settle(st, stamp)) == Some([])
  {
    var r := Settle(st, stamp);
    assert Entries(r.users, r.expenses) == [];
    Status.NoExpensesNoDebts(Names(r.users));
  }
}
