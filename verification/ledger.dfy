/** The ledger as an abstract store: the users table, the live expenses with their debt rows,
    and the settlement archives. Every operation returns either an error kind or the new
    store; on an error the caller keeps the store it had. Fresh row ids are the next unused
    number of each table, as SQLite's AUTOINCREMENT hands them out. */
module Ledger {
  import opened Errors
  import opened Validation

  type Id = nat

  datatype User = User(id: Id, name: string)

  /** A live (or archived) expense together with its debt rows, one debtor id per row. */
  datatype Expense = Expense(id: Id, title: string, cost: real, date: string, payer: Id, debtors: seq<Id>)

  /** One settle: its id, its timestamp and the expenses it archived. */
  datatype Settlement = Settlement(id: Id, stamp: string, expenses: seq<Expense>)

  datatype Store = Store(
    users: seq<User>,
    expenses: seq<Expense>,
    settlements: seq<Settlement>,
    nextUser: Id,
    nextExpense: Id,
    nextSettlement: Id,
    nextArchived: Id)

  /** A freshly created database: empty tables, every counter at 1. */
  function Init(): (st: Store)
    ensures Valid(st)
  {
    Store([], [], [], 1, 1, 1, 1)
  }

  // ---------------------------------------------------------------- lookups

  predicate HasUser(users: seq<User>, id: Id) {
    exists u :: u in users && u.id == id
  }

  predicate HasName(users: seq<User>, name: string) {
    exists u :: u in users && u.name == name
  }

  predicate HasExpense(es: seq<Expense>, id: Id) {
    exists e :: e in es && e.id == id
  }

  /** get_u_name's query: the name of the user with id `id`. */
  function NameOf(users: seq<User>, id: Id): (r: Option<string>)
    ensures r.Some? <==> HasUser(users, id)
    ensures r.Some? ==> User(id, r.value) in users
  {
    if users == [] then None
    else if users[0].id == id then Some(users[0].name)
    else
      var r := NameOf(users[1..], id);
      assert forall u :: u in users ==> u == users[0] || u in users[1..];
      r
  }

  /** get_u_id's query: the id of the user called `name`. */
  function IdOf(users: seq<User>, name: string): (r: Option<Id>)
    ensures r.Some? <==> HasName(users, name)
    ensures r.Some? ==> User(r.value, name) in users
  {
    if users == [] then None
    else if users[0].name == name then Some(users[0].id)
    else
      var r := IdOf(users[1..], name);
      assert forall u :: u in users ==> u == users[0] || u in users[1..];
      r
  }

  /** The expense row with id `id`. */
  function FindExpense(es: seq<Expense>, id: Id): (r: Option<Expense>)
    ensures r.Some? <==> HasExpense(es, id)
    ensures r.Some? ==> r.value in es && r.value.id == id
  {
    if es == [] then None
    else if es[0].id == id then Some(es[0])
    else
      var r := FindExpense(es[1..], id);
      assert forall e :: e in es ==> e == es[0] || e in es[1..];
      r
  }

  function UserName(st: Store, id: Id): (r: Result<string>)
    ensures r.Ok? <==> HasUser(st.users, id)
    ensures r.Ok? ==> User(id, r.value) in st.users
    ensures r.Err? ==> r.error == UserNotFound
  {
    match NameOf(st.users, id)
    case Some(name) => Ok(name)
    case None => Err(UserNotFound)
  }

  function UserId(st: Store, name: string): (r: Result<Id>)
    ensures r.Ok? <==> HasName(st.users, name)
    ensures r.Ok? ==> User(r.value, name) in st.users
    ensures r.Err? ==> r.error == UserNotFound
  {
    match IdOf(st.users, name)
    case Some(id) => Ok(id)
    case None => Err(UserNotFound)
  }

  /** get_expense: the expense row with id `id`, or ExpenseNotFound. */
  function GetExpense(st: Store, id: Id): (r: Result<Expense>)
    ensures r.Ok? <==> HasExpense(st.expenses, id)
    ensures r.Ok? ==> r.value in st.expenses && r.value.id == id
    ensures r.Err? ==> r.error == ExpenseNotFound
  {
    match FindExpense(st.expenses, id)
    case Some(e) => Ok(e)
    case None => Err(ExpenseNotFound)
  }

  /** get_debtors: the debt rows of expense `id`; an unknown id simply has none. */
  function GetDebtors(st: Store, id: Id): (ds: seq<Id>)
    ensures HasExpense(st.expenses, id) ==> ds == GetExpense(st, id).value.debtors
    ensures !HasExpense(st.expenses, id) ==> ds == []
  {
    match FindExpense(st.expenses, id)
    case Some(e) => e.debtors
    case None => []
  }

  /** validate_user_id: `id` back when the user exists. */
  function ValidateUserId(st: Store, id: Id): (r: Result<Id>)
    ensures r.Ok? <==> HasUser(st.users, id)
    ensures r.Ok? ==> r.value == id
    ensures r.Err? ==> r.error == UserNotFound
  {
    var _ :- UserName(st, id);
    Ok(id)
  }

  /** The debtor list of insert_expense and update_expense, every entry checked in turn. */
  function ValidateUserIds(st: Store, ids: seq<Id>): (r: Result<seq<Id>>)
    ensures r.Ok? <==> forall d :: d in ids ==> HasUser(st.users, d)
    ensures r.Ok? ==> r.value == ids
    ensures r.Err? ==> r.error == UserNotFound
  {
    if ids == [] then Ok([])
    else
      var d :- ValidateUserId(st, ids[0]);
      var rest :- ValidateUserIds(st, ids[1..]);
      assert ids == [d] + rest;
      Ok([d] + rest)
  }

  /** validate_expense_id: `id` back when the expense exists. */
  function ValidateExpenseId(st: Store, id: Id): (r: Result<Id>)
    ensures r.Ok? <==> HasExpense(st.expenses, id)
    ensures r.Ok? ==> r.value == id
    ensures r.Err? ==> r.error == ExpenseNotFound
  {
    var _ :- GetExpense(st, id);
    Ok(id)
  }

  // ---------------------------------------------------------------- the store invariant

  predicate UniqueUsers(users: seq<User>) {
    forall i, j :: 0 <= i < j < |users| ==> users[i].id != users[j].id && users[i].name != users[j].name
  }

  predicate UniqueExpenses(es: seq<Expense>) {
    forall i, j :: 0 <= i < j < |es| ==> es[i].id != es[j].id
  }

  predicate UniqueSettlements(ss: seq<Settlement>) {
    forall i, j :: 0 <= i < j < |ss| ==> ss[i].id != ss[j].id
  }

  /** An expense row as the validators let it through: a proper title, a positive cost, a
      payer and debtors that are users. */
  predicate GoodExpense(users: seq<User>, e: Expense) {
    && IsTrimmedWord(e.title)
    && e.cost > 0.0
    && HasUser(users, e.payer)
    && forall d :: d in e.debtors ==> HasUser(users, d)
  }

  /** The parts of a valid user name the store relies on: no surrounding whitespace, not
      empty, no comma. */
  predicate GoodName(name: string) {
    IsTrimmedWord(name) && ',' !in name
  }

  /** Users have unique ids below the counter and unique, valid names. */
  predicate UsersOk(users: seq<User>, next: Id) {
    && 1 <= next
    && UniqueUsers(users)
    && forall u :: u in users ==> 1 <= u.id < next && GoodName(u.name)
  }

  predicate ExpensesOk(users: seq<User>, es: seq<Expense>, next: Id) {
    && 1 <= next
    && UniqueExpenses(es)
    && forall e :: e in es ==> 1 <= e.id < next && GoodExpense(users, e)
  }

  predicate ArchiveOk(users: seq<User>, ss: seq<Settlement>, nextSettlement: Id, nextArchived: Id) {
    && 1 <= nextSettlement && 1 <= nextArchived
    && UniqueSettlements(ss)
    && (forall s :: s in ss ==> 1 <= s.id < nextSettlement)
    && (forall s, e :: s in ss && e in s.expenses ==> 1 <= e.id < nextArchived && GoodExpense(users, e))
  }

  /** What every reachable store satisfies: unique ids and names below the counters, names
      and expenses as the validators allow them, and references to existing users only. */
  predicate Valid(st: Store) {
    && UsersOk(st.users, st.nextUser)
    && ExpensesOk(st.users, st.expenses, st.nextExpense)
    && ArchiveOk(st.users, st.settlements, st.nextSettlement, st.nextArchived)
  }

  /** References stay good when no user id disappears. */
  lemma ReferencesKept(users: seq<User>, users': seq<User>, st: Store)
    requires forall id :: HasUser(users, id) ==> HasUser(users', id)
    requires ExpensesOk(users, st.expenses, st.nextExpense)
    requires ArchiveOk(users, st.settlements, st.nextSettlement, st.nextArchived)
    ensures ExpensesOk(users', st.expenses, st.nextExpense)
    ensures ArchiveOk(users', st.settlements, st.nextSettlement, st.nextArchived)
  {
    forall e | GoodExpense(users, e)
      ensures GoodExpense(users', e)
    {
      assert HasUser(users, e.payer);
    }
  }

  // ---------------------------------------------------------------- users

  /** insert_user: the name is validated first; a name already in the table then violates
      the UNIQUE constraint; otherwise the user gets the next id. */
  function InsertUser(st: Store, name: string): (r: Result<Store>)
    ensures r.Ok? <==> ValidateUsername(name).Ok? && !HasName(st.users, name)
    ensures ValidateUsername(name).Err? ==> r == Err(ValidateUsername(name).error)
    ensures ValidateUsername(name).Ok? && HasName(st.users, name) ==> r == Err(DuplicateUser)
    ensures r.Ok? ==> r.value.expenses == st.expenses && r.value.settlements == st.settlements
    ensures r.Ok? ==> r.value == st.(users := r.value.users, nextUser := st.nextUser + 1)
    ensures r.Ok? ==> forall id :: id != st.nextUser ==> NameOf(r.value.users, id) == NameOf(st.users, id)
    ensures r.Ok? && Valid(st) ==> UserName(r.value, st.nextUser) == Ok(name)
    ensures r.Ok? && Valid(st) ==> UserId(r.value, name) == Ok(st.nextUser)
    ensures r.Ok? && Valid(st) ==> Valid(r.value)
  {
    var n :- ValidateUsername(name);
    if HasName(st.users, n) then Err(DuplicateUser)
    else
      var u := User(st.nextUser, n);
      AddedUser(st, u);
      Ok(st.(users := st.users + [u], nextUser := st.nextUser + 1))
  }

  /** What appending a user with a fresh, valid name under the next id does to the lookups. */
  lemma AddedUser(st: Store, u: User)
    requires u.id == st.nextUser && GoodName(u.name) && !HasName(st.users, u.name)
    ensures var r := st.(users := st.users + [u], nextUser := st.nextUser + 1);
      && (forall id :: id != st.nextUser ==> NameOf(r.users, id) == NameOf(st.users, id))
      && (Valid(st) ==> UserName(r, st.nextUser) == Ok(u.name))
      && (Valid(st) ==> UserId(r, u.name) == Ok(st.nextUser))
      && (Valid(st) ==> Valid(r))
  {
    NameOfAppend(st.users, u);
    IdOfAppend(st.users, u);
    AddUserValid(st, u);
    if Valid(st) {
      assert !HasUser(st.users, st.nextUser);
    }
  }

  lemma {:induction false} NameOfAppend(users: seq<User>, u: User)
    ensures forall id :: NameOf(users + [u], id) ==
              if HasUser(users, id) then NameOf(users, id) else if u.id == id then Some(u.name) else None
  {
    if users != [] {
      NameOfAppend(users[1..], u);
      assert users + [u] == [users[0]] + (users[1..] + [u]);
    }
  }

  lemma {:induction false} IdOfAppend(users: seq<User>, u: User)
    ensures forall name :: IdOf(users + [u], name) ==
              if HasName(users, name) then IdOf(users, name) else if u.name == name then Some(u.id) else None
  {
    if users != [] {
      IdOfAppend(users[1..], u);
      assert users + [u] == [users[0]] + (users[1..] + [u]);
    }
  }

  /** Adding a user with a valid, fresh name under the next id keeps the store valid. */
  lemma AddUserValid(st: Store, u: User)
    requires u.id == st.nextUser && GoodName(u.name) && !HasName(st.users, u.name)
    ensures Valid(st) ==> Valid(st.(users := st.users + [u], nextUser := st.nextUser + 1))
  {
    if Valid(st) {
      var users := st.users + [u];
      forall id | HasUser(st.users, id)
        ensures HasUser(users, id)
      {
        var w :| w in st.users && w.id == id;
        assert w in users;
      }
      ReferencesKept(st.users, users, st);
      forall w | w in users
        ensures 1 <= w.id < st.nextUser + 1 && GoodName(w.name)
      {
        if w != u {
          assert w in st.users;
        }
      }
      forall i, j | 0 <= i < j < |users|
        ensures users[i].id != users[j].id && users[i].name != users[j].name
      {
        assert users[i] in st.users;
        if j < |st.users| {
          assert users[j] in st.users;
        }
      }
    }
  }

  /** The users table after `UPDATE users SET u_name = newName WHERE u_name = oldName`. */
  function Rename(users: seq<User>, oldName: string, newName: string): (r: seq<User>)
    ensures |r| == |users|
    ensures forall i :: 0 <= i < |users| ==> r[i].id == users[i].id
    ensures forall i :: 0 <= i < |users| ==>
              r[i].name == if users[i].name == oldName then newName else users[i].name
  {
    if users == [] then []
    else
      [users[0].(name := if users[0].name == oldName then newName else users[0].name)]
      + Rename(users[1..], oldName, newName)
  }

  /** update_user: the new name is validated first; renaming a name nobody has touches no
      row (UserNotFound); taking a name another user has violates the UNIQUE constraint;
      renaming a user to its own name succeeds. */
  function UpdateUser(st: Store, oldName: string, newName: string): (r: Result<Store>)
    ensures r.Ok? <==>
              && ValidateUsername(newName).Ok? && HasName(st.users, oldName)
              && (newName == oldName || !HasName(st.users, newName))
    ensures ValidateUsername(newName).Err? ==> r == Err(ValidateUsername(newName).error)
    ensures ValidateUsername(newName).Ok? && !HasName(st.users, oldName) ==> r == Err(UserNotFound)
    ensures (&& ValidateUsername(newName).Ok? && HasName(st.users, oldName)
             && newName != oldName && HasName(st.users, newName)) ==> r == Err(DuplicateUser)
    ensures r.Ok? ==> r.value == st.(users := r.value.users)
    ensures r.Ok? ==> IdOf(r.value.users, newName) == IdOf(st.users, oldName)
    ensures r.Ok? ==> forall id :: NameOf(r.value.users, id) == (if NameOf(st.users, id) == Some(oldName) then Some(newName) else NameOf(st.users, id))
    ensures r.Ok? && Valid(st) ==> Valid(r.value)
  {
    var n :- ValidateUsername(newName);
    if !HasName(st.users, oldName) then Err(UserNotFound)
    else if n != oldName && HasName(st.users, n) then Err(DuplicateUser)
    else
      var st' := st.(users := Rename(st.users, oldName, n));
      IdOfRename(st.users, oldName, n);
      NameOfRename(st.users, oldName, n);
      RenameValid(st, oldName, n);
      Ok(st')
  }

  lemma {:induction false} IdOfRename(users: seq<User>, oldName: string, newName: string)
    requires newName == oldName || !HasName(users, newName)
    ensures IdOf(Rename(users, oldName, newName), newName) == IdOf(users, oldName)
  {
    if users != [] {
      assert Rename(users, oldName, newName)[1..] == Rename(users[1..], oldName, newName);
      if users[0].name != oldName {
        if newName != oldName {
          forall w | w in users[1..]
            ensures w.name != newName
          {
            assert w in users;
          }
        }
        IdOfRename(users[1..], oldName, newName);
      }
    }
  }

  lemma {:induction false} NameOfRename(users: seq<User>, oldName: string, newName: string)
    ensures forall id :: NameOf(Rename(users, oldName, newName), id) ==
              (if NameOf(users, id) == Some(oldName) then Some(newName) else NameOf(users, id))
  {
    if users != [] {
      NameOfRename(users[1..], oldName, newName);
      assert Rename(users, oldName, newName)[1..] == Rename(users[1..], oldName, newName);
    }
  }

  lemma HasUserRename(users: seq<User>, oldName: string, newName: string, id: Id)
    ensures HasUser(Rename(users, oldName, newName), id) <==> HasUser(users, id)
  {
    var r := Rename(users, oldName, newName);
    HasUserAt(users, id);
    HasUserAt(r, id);
    if HasUser(users, id) {
      var i :| 0 <= i < |users| && users[i].id == id;
      assert r[i].id == id;
    }
  }

  lemma HasUserAt(users: seq<User>, id: Id)
    ensures HasUser(users, id) <==> exists i :: 0 <= i < |users| && users[i].id == id
  {
    if HasUser(users, id) {
      var w :| w in users && w.id == id;
      var i :| 0 <= i < |users| && users[i] == w;
    }
  }

  /** Renaming to a valid name nobody else has keeps the store valid. */
  lemma RenameValid(st: Store, oldName: string, newName: string)
    requires GoodName(newName)
    requires newName == oldName || !HasName(st.users, newName)
    ensures Valid(st) ==> Valid(st.(users := Rename(st.users, oldName, newName)))
  {
    if Valid(st) {
      var users := st.users;
      var r := Rename(users, oldName, newName);
      forall id | HasUser(users, id)
        ensures HasUser(r, id)
      {
        HasUserRename(users, oldName, newName, id);
      }
      ReferencesKept(users, r, st);
      RenameUsersOk(users, st.nextUser, oldName, newName);
    }
  }

  lemma RenameUsersOk(users: seq<User>, next: Id, oldName: string, newName: string)
    requires UsersOk(users, next) && GoodName(newName)
    requires newName == oldName || !HasName(users, newName)
    ensures UsersOk(Rename(users, oldName, newName), next)
  {
    RenameUnique(users, oldName, newName);
    var r := Rename(users, oldName, newName);
    forall i | 0 <= i < |r|
      ensures 1 <= r[i].id < next && GoodName(r[i].name)
    {
      assert users[i] in users;
      if users[i].name != oldName {
        assert r[i].name == users[i].name;
      }
    }
    forall w | w in r
      ensures 1 <= w.id < next && GoodName(w.name)
    {
      var i :| 0 <= i < |r| && r[i] == w;
    }
  }

  lemma RenameUnique(users: seq<User>, oldName: string, newName: string)
    requires UniqueUsers(users)
    requires newName == oldName || !HasName(users, newName)
    ensures UniqueUsers(Rename(users, oldName, newName))
  {
    var r := Rename(users, oldName, newName);
    forall i, j | 0 <= i < j < |r|
      ensures r[i].id != r[j].id && r[i].name != r[j].name
    {
      RenamedPair(users[i], users[j], oldName, newName, r[i], r[j]);
    }
  }

  lemma RenamedPair(a: User, b: User, oldName: string, newName: string, a': User, b': User)
    requires a.id != b.id && a.name != b.name
    requires newName == oldName || (a.name != newName && b.name != newName)
    requires a'.id == a.id && a'.name == if a.name == oldName then newName else a.name
    requires b'.id == b.id && b'.name == if b.name == oldName then newName else b.name
    ensures a'.id != b'.id && a'.name != b'.name
  {
  }

  // ---------------------------------------------------------------- expenses

  /** Title, cost and date pass their validators. */
  predicate FieldsOk(title: string, cost: string, date: string, today: Date) {
    && ValidateExpenseTitle(title).Ok?
    && ValidateExpenseCost(cost).Ok?
    && ValidateExpenseDate(date, today).Ok?
  }

  /** Every check insert_expense and update_expense make on their arguments passes. */
  predicate Admissible(st: Store, title: string, cost: string, date: string, payer: Id, debtors: seq<Id>, today: Date) {
    && FieldsOk(title, cost, date, today)
    && HasUser(st.users, payer)
    && forall d :: d in debtors ==> HasUser(st.users, d)
  }

  /** Title, cost (as parsed) and date of an expense, once validated. */
  datatype Fields = Fields(title: string, cost: real, date: string)

  /** The three field validators in the order insert_expense and update_expense call them:
      the first failing one decides the error. */
  function CheckFields(title: string, cost: string, date: string, today: Date): (r: Result<Fields>)
    ensures r.Ok? <==> FieldsOk(title, cost, date, today)
    ensures r.Ok? ==> r.value == Fields(title, ValidateExpenseCost(cost).value, date)
    ensures ValidateExpenseTitle(title).Err? ==> r == Err(ValidateExpenseTitle(title).error)
    ensures ValidateExpenseTitle(title).Ok? && ValidateExpenseCost(cost).Err? ==>
              r == Err(ValidateExpenseCost(cost).error)
    ensures (&& ValidateExpenseTitle(title).Ok? && ValidateExpenseCost(cost).Ok?
             && ValidateExpenseDate(date, today).Err?) ==> r == Err(ValidateExpenseDate(date, today).error)
  {
    var t := ValidateExpenseTitle(title);
    var c := ValidateExpenseCost(cost);
    var d := ValidateExpenseDate(date, today);
    if t.Err? then Err(t.error)
    else if c.Err? then Err(c.error)
    else if d.Err? then Err(d.error)
    else Ok(Fields(t.value, c.value, d.value))
  }

  /** Every check of insert_expense and update_expense on their arguments, in order, and the
      row they write once all have passed: the cost as parsed, everything else as given. */
  function Checked(st: Store, id: Id, title: string, cost: string, date: string, payer: Id, debtors: seq<Id>, today: Date): (r: Result<Expense>)
    ensures r.Ok? <==> Admissible(st, title, cost, date, payer, debtors, today)
    ensures r.Ok? ==> r.value == Expense(id, title, ValidateExpenseCost(cost).value, date, payer, debtors)
    ensures r.Ok? ==> GoodExpense(st.users, r.value)
    ensures CheckFields(title, cost, date, today).Err? ==> r == Err(CheckFields(title, cost, date, today).error)
    ensures CheckFields(title, cost, date, today).Ok? && r.Err? ==> r.error == UserNotFound
  {
    var f :- CheckFields(title, cost, date, today);
    var p :- ValidateUserId(st, payer);
    var ds :- ValidateUserIds(st, debtors);
    Ok(Expense(id, f.title, f.cost, f.date, p, ds))
  }

  /** insert_expense: every check runs before anything is written; then the expense gets the
      next id, and one debt row per entry of `debtors`, duplicates included. */
  function InsertExpense(st: Store, title: string, cost: string, date: string, payer: Id, debtors: seq<Id>, today: Date): (r: Result<Store>)
    ensures r.Ok? <==> Admissible(st, title, cost, date, payer, debtors, today)
    ensures r.Err? ==> r.error == Checked(st, st.nextExpense, title, cost, date, payer, debtors, today).error
    ensures r.Ok? ==> r.value == st.(expenses := r.value.expenses, nextExpense := st.nextExpense + 1)
    ensures r.Ok? && Valid(st) ==>
              GetExpense(r.value, st.nextExpense)
              == Ok(Expense(st.nextExpense, title, ValidateExpenseCost(cost).value, date, payer, debtors))
    ensures r.Ok? && Valid(st) ==> GetDebtors(r.value, st.nextExpense) == debtors
    ensures r.Ok? ==> forall id :: id != st.nextExpense ==> FindExpense(r.value.expenses, id) == FindExpense(st.expenses, id)
    ensures r.Ok? && Valid(st) ==> Valid(r.value)
  {
    var e :- Checked(st, st.nextExpense, title, cost, date, payer, debtors, today);
    AddedExpense(st, e);
    Ok(st.(expenses := st.expenses + [e], nextExpense := st.nextExpense + 1))
  }

  /** What appending a good expense under the next id does to the lookups. */
  lemma AddedExpense(st: Store, e: Expense)
    requires e.id == st.nextExpense && GoodExpense(st.users, e)
    ensures var r := st.(expenses := st.expenses + [e], nextExpense := st.nextExpense + 1);
      && (forall id :: id != st.nextExpense ==> FindExpense(r.expenses, id) == FindExpense(st.expenses, id))
      && (Valid(st) ==> GetExpense(r, e.id) == Ok(e) && GetDebtors(r, e.id) == e.debtors)
      && (Valid(st) ==> Valid(r))
  {
    FindAppend(st.expenses, e);
    AddExpenseValid(st, e);
    if Valid(st) {
      assert !HasExpense(st.expenses, e.id);
    }
  }

  lemma {:induction false} FindAppend(es: seq<Expense>, e: Expense)
    ensures forall id :: FindExpense(es + [e], id) ==
              if HasExpense(es, id) then FindExpense(es, id) else if e.id == id then Some(e) else None
  {
    if es != [] {
      FindAppend(es[1..], e);
      assert es + [e] == [es[0]] + (es[1..] + [e]);
    }
  }

  lemma AddExpenseValid(st: Store, e: Expense)
    requires e.id == st.nextExpense && GoodExpense(st.users, e)
    ensures Valid(st) ==> Valid(st.(expenses := st.expenses + [e], nextExpense := st.nextExpense + 1))
  {
    if Valid(st) {
      var es := st.expenses + [e];
      forall x | x in es
        ensures 1 <= x.id < st.nextExpense + 1 && GoodExpense(st.users, x)
      {
        if x != e {
          assert x in st.expenses;
        }
      }
      forall i, j | 0 <= i < j < |es|
        ensures es[i].id != es[j].id
      {
        assert es[i] in st.expenses;
        if j < |st.expenses| {
          assert es[j] in st.expenses;
        }
      }
    }
  }

  /** The live expenses after rewriting the row with `e`'s id to `e`. */
  function Replace(es: seq<Expense>, e: Expense): (r: seq<Expense>)
    ensures |r| == |es|
    ensures forall i :: 0 <= i < |es| ==> r[i] == if es[i].id == e.id then e else es[i]
  {
    if es == [] then []
    else [if es[0].id == e.id then e else es[0]] + Replace(es[1..], e)
  }

  /** update_expense: the expense id is checked first, then the same checks as
      insert_expense, all before anything is written; then the row's title, cost, date and
      payer are overwritten and its debt rows replaced by `debtors`. */
  function UpdateExpense(st: Store, id: Id, title: string, cost: string, date: string, payer: Id, debtors: seq<Id>, today: Date): (r: Result<Store>)
    ensures r.Ok? <==> HasExpense(st.expenses, id) && Admissible(st, title, cost, date, payer, debtors, today)
    ensures !HasExpense(st.expenses, id) ==> r == Err(ExpenseNotFound)
    ensures HasExpense(st.expenses, id) && r.Err? ==>
              r.error == Checked(st, id, title, cost, date, payer, debtors, today).error
    ensures r.Ok? ==> r.value == st.(expenses := r.value.expenses)
    ensures r.Ok? ==> |r.value.expenses| == |st.expenses|
    ensures r.Ok? ==>
              GetExpense(r.value, id) == Ok(Expense(id, title, ValidateExpenseCost(cost).value, date, payer, debtors))
    ensures r.Ok? ==> GetDebtors(r.value, id) == debtors
    ensures r.Ok? ==> forall other :: other != id ==> FindExpense(r.value.expenses, other) == FindExpense(st.expenses, other)
    ensures r.Ok? && Valid(st) ==> Valid(r.value)
  {
    var _ :- ValidateExpenseId(st, id);
    var e :- Checked(st, id, title, cost, date, payer, debtors, today);
    var st' := st.(expenses := Replace(st.expenses, e));
    FindReplace(st.expenses, e);
    ReplaceValid(st, e);
    Ok(st')
  }

  lemma {:induction false} FindReplace(es: seq<Expense>, e: Expense)
    ensures forall id :: FindExpense(Replace(es, e), id) ==
              if id != e.id then FindExpense(es, id) else if HasExpense(es, id) then Some(e) else None
  {
    if es != [] {
      FindReplace(es[1..], e);
      assert Replace(es, e)[1..] == Replace(es[1..], e);
    }
  }

  lemma ReplaceValid(st: Store, e: Expense)
    requires GoodExpense(st.users, e)
    ensures Valid(st) ==> Valid(st.(expenses := Replace(st.expenses, e)))
  {
    if Valid(st) {
      ReplaceUnique(st.expenses, e);
      ReplaceGood(st.users, st.expenses, e, st.nextExpense);
    }
  }

  lemma ReplaceUnique(es: seq<Expense>, e: Expense)
    requires UniqueExpenses(es)
    ensures UniqueExpenses(Replace(es, e))
  {
    var r := Replace(es, e);
    assert forall i :: 0 <= i < |es| ==> r[i].id == es[i].id;
  }

  lemma ReplaceGood(users: seq<User>, es: seq<Expense>, e: Expense, next: Id)
    requires GoodExpense(users, e)
    requires forall x :: x in es ==> 1 <= x.id < next && GoodExpense(users, x)
    ensures forall x :: x in Replace(es, e) ==> 1 <= x.id < next && GoodExpense(users, x)
  {
    var r := Replace(es, e);
    forall x | x in r
      ensures 1 <= x.id < next && GoodExpense(users, x)
    {
      var i :| 0 <= i < |r| && r[i] == x;
      assert es[i] in es;
    }
  }

  // ---------------------------------------------------------------- settling

  /** Two expense rows with the same contents, ids aside. */
  predicate SameContent(a: Expense, b: Expense) {
    a.title == b.title && a.cost == b.cost && a.date == b.date && a.payer == b.payer && a.debtors == b.debtors
  }

  /** The archived copies of `es`, numbered from `next` on in table order. */
  function Archive(es: seq<Expense>, next: Id): (r: seq<Expense>)
    ensures |r| == |es|
    ensures forall i :: 0 <= i < |es| ==> SameContent(r[i], es[i]) && r[i].id == next + i
  {
    if es == [] then []
    else [es[0].(id := next)] + Archive(es[1..], next + 1)
  }

  /** settle_expenses: one new settlement with the next settle id and the timestamp `stamp`;
      every live expense copied, with its debt rows, into the archive under that settlement;
      the live expense and debt tables emptied. */
  function Settle(st: Store, stamp: string): (r: Store)
    ensures r.users == st.users && r.expenses == []
    ensures |r.settlements| == |st.settlements| + 1
    ensures r.settlements[..|st.settlements|] == st.settlements
    ensures r.settlements[|st.settlements|].id == st.nextSettlement
    ensures r.settlements[|st.settlements|].stamp == stamp
    ensures |r.settlements[|st.settlements|].expenses| == |st.expenses|
    ensures forall i :: 0 <= i < |st.expenses| ==>
              SameContent(r.settlements[|st.settlements|].expenses[i], st.expenses[i])
    ensures forall i :: 0 <= i < |st.expenses| ==>
              r.settlements[|st.settlements|].expenses[i].id == st.nextArchived + i
    ensures r == st.(expenses := [], settlements := r.settlements,
                     nextSettlement := st.nextSettlement + 1,
                     nextArchived := st.nextArchived + |st.expenses|)
    ensures forall id :: GetExpense(r, id) == Err(ExpenseNotFound) && GetDebtors(r, id) == []
    ensures Valid(st) ==> forall s :: s in st.settlements ==> s.id != st.nextSettlement
    ensures Valid(st) ==> Valid(r)
  {
    var archived := Archive(st.expenses, st.nextArchived);
    var s := Settlement(st.nextSettlement, stamp, archived);
    var r := st.(
      expenses := [],
      settlements := st.settlements + [s],
      nextSettlement := st.nextSettlement + 1,
      nextArchived := st.nextArchived + |st.expenses|);
    assert r.settlements[..|st.settlements|] == st.settlements;
    SettleValid(st, s, r);
    r
  }

  lemma SettleValid(st: Store, s: Settlement, r: Store)
    requires s == Settlement(st.nextSettlement, s.stamp, Archive(st.expenses, st.nextArchived))
    requires r == st.(
      expenses := [],
      settlements := st.settlements + [s],
      nextSettlement := st.nextSettlement + 1,
      nextArchived := st.nextArchived + |st.expenses|)
    ensures Valid(st) ==> Valid(r)
  {
    if Valid(st) {
      ArchivedGood(st.users, st.expenses, st.settlements, s, st.nextArchived);
      NewSettlementId(st.settlements, s, st.nextSettlement);
    }
  }

  /** The archive, with the copies of the live expenses added, still holds only good rows
      numbered below the archive counter. */
  lemma ArchivedGood(users: seq<User>, es: seq<Expense>, ss: seq<Settlement>, s: Settlement, next: Id)
    requires 1 <= next && s.expenses == Archive(es, next)
    requires forall e :: e in es ==> GoodExpense(users, e)
    requires forall t, e :: t in ss && e in t.expenses ==> 1 <= e.id < next && GoodExpense(users, e)
    ensures forall t, e :: t in ss + [s] && e in t.expenses ==>
              1 <= e.id < next + |es| && GoodExpense(users, e)
  {
    CopiesGood(users, es, next);
    forall t, e | t in ss + [s] && e in t.expenses
      ensures 1 <= e.id < next + |es| && GoodExpense(users, e)
    {
      if t != s {
        assert t in ss;
      }
    }
  }

  lemma CopiesGood(users: seq<User>, es: seq<Expense>, next: Id)
    requires forall e :: e in es ==> GoodExpense(users, e)
    ensures forall e :: e in Archive(es, next) ==> next <= e.id < next + |es| && GoodExpense(users, e)
  {
    var a := Archive(es, next);
    forall e | e in a
      ensures next <= e.id < next + |es| && GoodExpense(users, e)
    {
      var i :| 0 <= i < |a| && a[i] == e;
      assert es[i] in es;
    }
  }

  /** A settlement numbered by the counter keeps settlement ids unique and below the
      incremented counter. */
  lemma NewSettlementId(ss: seq<Settlement>, s: Settlement, next: Id)
    requires UniqueSettlements(ss) && (forall t :: t in ss ==> 1 <= t.id < next)
    requires 1 <= next && s.id == next
    ensures UniqueSettlements(ss + [s])
    ensures forall t :: t in ss + [s] ==> 1 <= t.id < next + 1
  {
    var ss' := ss + [s];
    forall i, j | 0 <= i < j < |ss'|
      ensures ss'[i].id != ss'[j].id
    {
      assert ss'[i] in ss;
      if j < |ss| {
        assert ss'[j] in ss;
      }
    }
  }
}
