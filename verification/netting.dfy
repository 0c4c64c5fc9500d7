/** The netting engine of get_status_dict: a gross user-by-user matrix accumulated from the
    expenses, then reduced pair by pair so that between two users at most one direction keeps
    a positive amount. `m[(c, p)]` is what user `p` must pay user `c`. */
module Netting {

  /** Users are identified by their (unique) user name, as the source's dictionaries are. */
  type Name = string

  /** One live expense as the engine reads it: who paid, how much, and one entry per debt row
      (a debtor listed twice owes two shares). */
  datatype Expense = Expense(payer: Name, cost: real, debtors: seq<Name>)

  type Matrix = map<(Name, Name), real>

  /** Every ordered pair of users, the self-pairs included. */
  function Square(users: seq<Name>): (sq: set<(Name, Name)>)
    ensures forall x, y :: x in users && y in users ==> (x, y) in sq
    ensures forall x, y :: (x, y) in sq ==> x in users && y in users
  {
    set x, y | x in users && y in users :: (x, y)
  }

  /** Payers and debtors are users, and no debtor list is empty (the share would divide
      by zero). */
  predicate WellFormed(users: seq<Name>, expenses: seq<Expense>) {
    forall e :: e in expenses ==>
      e.payer in users && |e.debtors| > 0 && forall d :: d in e.debtors ==> d in users
  }

  function Share(e: Expense): real
    requires |e.debtors| > 0
  {
    e.cost / |e.debtors| as real
  }

  /** How many times `u` occurs in `s`. */
  function Count(s: seq<Name>, u: Name): nat {
    if s == [] then 0 else (if s[0] == u then 1 else 0) + Count(s[1..], u)
  }

  /** Reference definition of the gross matrix: what `y` owes `x` summed over the expenses
      `x` paid, one share for every time `y` is listed. */
  function Owed(expenses: seq<Expense>, x: Name, y: Name): real
    requires forall e :: e in expenses ==> |e.debtors| > 0
  {
    if expenses == [] then 0.0
    else
      var e := expenses[0];
      (if e.payer == x then Portion(Count(e.debtors, y), Share(e)) else 0.0)
      + Owed(expenses[1..], x, y)
  }

  /** `n` shares of `share` each. */
  function Portion(n: nat, share: real): real {
    n as real * share
  }

  lemma PortionSucc(n: nat, share: real)
    ensures Portion(n + 1, share) == Portion(n, share) + share
  {
    var x := n as real;
    assert (n + 1) as real == x + 1.0;
    assert (x + 1.0) * share == x * share + share;
  }

  // ---------------------------------------------------------------- gross accumulation

  function Zero(users: seq<Name>): (m: Matrix)
    ensures m.Keys == Square(users)
    ensures forall k :: k in m ==> m[k] == 0.0
  {
    map k | k in Square(users) :: 0.0
  }

  /** Adds `share` to `m[(payer, d)]` once for every entry `d` of `debtors`. */
  function AddShares(m: Matrix, payer: Name, share: real, debtors: seq<Name>): (r: Matrix)
    requires forall d :: d in debtors ==> (payer, d) in m
    ensures r.Keys == m.Keys
    ensures forall k :: k in m ==>
              r[k] == m[k] + (if k.0 == payer then Portion(Count(debtors, k.1), share) else 0.0)
  {
    if debtors == [] then m
    else
      var k := (payer, debtors[0]);
      var m1 := m[k := m[k] + share];
      var r := AddShares(m1, payer, share, debtors[1..]);
      AddSharesStep(m, m1, r, payer, share, debtors);
      r
  }

  lemma AddSharesStep(m: Matrix, m1: Matrix, r: Matrix, payer: Name, share: real, debtors: seq<Name>)
    requires debtors != [] && (payer, debtors[0]) in m
    requires m1 == m[(payer, debtors[0]) := m[(payer, debtors[0])] + share]
    requires r.Keys == m1.Keys
    requires forall k :: k in m1 ==>
               r[k] == m1[k] + (if k.0 == payer then Portion(Count(debtors[1..], k.1), share) else 0.0)
    ensures r.Keys == m.Keys
    ensures forall k :: k in m ==>
              r[k] == m[k] + (if k.0 == payer then Portion(Count(debtors, k.1), share) else 0.0)
  {
    forall k | k in m
      ensures r[k] == m[k] + (if k.0 == payer then Portion(Count(debtors, k.1), share) else 0.0)
    {
      var c := Count(debtors[1..], k.1);
      assert k in m1;
      if k == (payer, debtors[0]) {
        assert Count(debtors, k.1) == c + 1;
        PortionSucc(c, share);
      } else {
        assert m1[k] == m[k];
      }
    }
  }

  /** The expense loop of get_status_dict, from a given starting matrix. */
  function Accumulate(m: Matrix, expenses: seq<Expense>): (r: Matrix)
    requires forall e :: e in expenses ==>
               |e.debtors| > 0 && forall d :: d in e.debtors ==> (e.payer, d) in m
    ensures r.Keys == m.Keys
    ensures forall k :: k in m ==> r[k] == m[k] + Owed(expenses, k.0, k.1)
  {
    if expenses == [] then m
    else
      var e := expenses[0];
      var m1 := AddShares(m, e.payer, Share(e), e.debtors);
      assert forall e' :: e' in expenses[1..] ==> e' in expenses;
      var r := Accumulate(m1, expenses[1..]);
      assert forall k :: k in m ==> r[k] == m[k] + Owed(expenses, k.0, k.1) by {
        forall k | k in m
          ensures r[k] == m[k] + Owed(expenses, k.0, k.1)
        {
          assert k in m1;
        }
      }
      r
  }

  /** The gross matrix: over every pair of users, exactly the reference amount `Owed`. */
  function Gross(users: seq<Name>, expenses: seq<Expense>): (g: Matrix)
    requires WellFormed(users, expenses)
    ensures g.Keys == Square(users)
    ensures forall x, y :: x in users && y in users ==> g[(x, y)] == Owed(expenses, x, y)
  {
    Accumulate(Zero(users), expenses)
  }

  // ---------------------------------------------------------------- netting pass

  /** The positive part of `v`. */
  function Positive(v: real): real {
    if v > 0.0 then v else 0.0
  }

  function Abs(v: real): real {
    if v < 0.0 then -v else v
  }

  /** One iteration of the netting loop, for casher `x` and payer `y`. */
  function NetStep(m: Matrix, x: Name, y: Name): (r: Matrix)
    requires (x, y) in m && (y, x) in m
    ensures r.Keys == m.Keys
  {
    var a := m[(x, y)];
    var b := m[(y, x)];
    var c := Abs(a - b);
    if a > b then m[(x, y) := c][(y, x) := 0.0]
    else if a == b then m[(x, y) := 0.0][(y, x) := 0.0]
    else m
  }

  /** The netting loop over a sequence of ordered pairs, in order. */
  function Net(m: Matrix, pairs: seq<(Name, Name)>): (r: Matrix)
    requires forall x, y :: (x, y) in pairs ==> (x, y) in m && (y, x) in m
    ensures r.Keys == m.Keys
  {
    if pairs == [] then m
    else Net(NetStep(m, pairs[0].0, pairs[0].1), pairs[1..])
  }

  /** The inner loop's pairs: casher `x` with every user of `users`, in order. */
  function Row(x: Name, users: seq<Name>): (ps: seq<(Name, Name)>)
    ensures forall a, b :: (a, b) in ps ==> a == x && b in users
    ensures forall y :: y in users ==> (x, y) in ps
  {
    if users == [] then [] else [(x, users[0])] + Row(x, users[1..])
  }

  /** The ordered pairs the two nested loops visit: casher-major, both in user order. */
  function Pairs(cashers: seq<Name>, users: seq<Name>): (ps: seq<(Name, Name)>)
    ensures forall x, y :: (x, y) in ps ==> x in cashers && y in users
    ensures forall x, y :: x in cashers && y in users ==> (x, y) in ps
  {
    if cashers == [] then [] else Row(cashers[0], users) + Pairs(cashers[1..], users)
  }

  /** Reference definition of a netted entry: what is left of `y`'s debt to `x` once the
      debt the other way has been cancelled against it. */
  function NetEntry(g: Matrix, x: Name, y: Name): real
    requires (x, y) in g && (y, x) in g
  {
    if g[(x, y)] > g[(y, x)] then g[(x, y)] - g[(y, x)] else 0.0
  }

  /** The result shape the netting pass promises for users `users`. */
  predicate IsNetted(m: Matrix, users: seq<Name>)
    requires Square(users) <= m.Keys
  {
    forall x, y :: x in users && y in users ==>
      && m[(x, y)] >= 0.0
      && (x == y ==> m[(x, y)] == 0.0)
      && (m[(x, y)] == 0.0 || m[(y, x)] == 0.0)
  }

  /** Netting keeps, for every pair, the difference between the two directions. */
  predicate KeepsDifferences(g: Matrix, m: Matrix, users: seq<Name>)
    requires Square(users) <= g.Keys && Square(users) <= m.Keys
  {
    forall x, y :: x in users && y in users ==> m[(x, y)] - m[(y, x)] == g[(x, y)] - g[(y, x)]
  }

  /** The netting pass of get_status_dict over all ordered pairs of `users`. */
  function Netting(g: Matrix, users: seq<Name>): (r: Matrix)
    requires g.Keys == Square(users)
    ensures r.Keys == g.Keys
    ensures forall x, y :: x in users && y in users ==> r[(x, y)] == NetEntry(g, x, y)
    ensures IsNetted(r, users)
    ensures KeepsDifferences(g, r, users)
  {
    var r := Net(g, Pairs(users, users));
    NetAllPairs(g, users);
    NetEntryShape(g, r, users);
    r
  }

  /** Any matrix whose entries are the reference netted entries has the promised shape. */
  lemma NetEntryShape(g: Matrix, r: Matrix, users: seq<Name>)
    requires g.Keys == Square(users) && r.Keys == Square(users)
    requires forall x, y :: x in users && y in users ==> r[(x, y)] == NetEntry(g, x, y)
    ensures IsNetted(r, users)
    ensures KeepsDifferences(g, r, users)
  {
  }

  // ---------------------------------------------------------------- proof of the netting pass

  /** The state of the pair `{x, y}` once the ordered pairs in `done` have been visited:
      untouched while neither direction has been visited, netted once both have, and after
      only `(x, y)` either netted or still gross because `x` was owed less than `y`. */
  ghost predicate PairInv(g: Matrix, m: Matrix, done: set<(Name, Name)>, x: Name, y: Name)
    requires (x, y) in g && (y, x) in g && (x, y) in m && (y, x) in m
  {
    var xy := (x, y) in done;
    var yx := (y, x) in done;
    var gross := m[(x, y)] == g[(x, y)] && m[(y, x)] == g[(y, x)];
    var netted := m[(x, y)] == NetEntry(g, x, y) && m[(y, x)] == NetEntry(g, y, x);
    && (!xy && !yx ==> gross)
    && (xy && yx ==> netted)
    && (xy && !yx ==> netted || (gross && g[(x, y)] < g[(y, x)]))
  }

  ghost predicate Inv(g: Matrix, m: Matrix, users: seq<Name>, done: set<(Name, Name)>)
    requires g.Keys == Square(users) && m.Keys == Square(users)
  {
    forall x, y :: x in users && y in users ==> PairInv(g, m, done, x, y)
  }

  /** Visiting `(x, y)` moves the pair `{x, y}` one step along `PairInv`. */
  lemma StepPair(g: Matrix, m: Matrix, done: set<(Name, Name)>, x: Name, y: Name)
    requires (x, y) in g && (y, x) in g && (x, y) in m && (y, x) in m
    requires PairInv(g, m, done, x, y) && PairInv(g, m, done, y, x)
    ensures PairInv(g, NetStep(m, x, y), done + {(x, y)}, x, y)
    ensures PairInv(g, NetStep(m, x, y), done + {(x, y)}, y, x)
  {
  }

  /** Visiting `(x, y)` leaves every other pair as it was. */
  lemma StepOther(g: Matrix, m: Matrix, done: set<(Name, Name)>, x: Name, y: Name, a: Name, b: Name)
    requires (x, y) in m && (y, x) in m && (a, b) in g && (b, a) in g && (a, b) in m && (b, a) in m
    requires (a, b) != (x, y) && (a, b) != (y, x)
    requires PairInv(g, m, done, a, b)
    ensures PairInv(g, NetStep(m, x, y), done + {(x, y)}, a, b)
  {
    var m' := NetStep(m, x, y);
    assert m'[(a, b)] == m[(a, b)] && m'[(b, a)] == m[(b, a)];
  }

  lemma {:induction false} NetPairs(g: Matrix, m: Matrix, users: seq<Name>, done: set<(Name, Name)>, ps: seq<(Name, Name)>)
    requires g.Keys == Square(users) && m.Keys == Square(users)
    requires forall x, y :: (x, y) in ps ==> x in users && y in users
    requires Inv(g, m, users, done)
    ensures Net(m, ps).Keys == Square(users)
    ensures Inv(g, Net(m, ps), users, done + (set p | p in ps))
    decreases |ps|
  {
    if ps != [] {
      var (x, y) := ps[0];
      var m' := NetStep(m, x, y);
      var done' := done + {(x, y)};
      forall a, b | a in users && b in users
        ensures PairInv(g, m', done', a, b)
      {
        if (a, b) == (x, y) {
          StepPair(g, m, done, x, y);
        } else if (a, b) == (y, x) {
          StepPair(g, m, done, x, y);
        } else {
          StepOther(g, m, done, x, y, a, b);
        }
      }
      NetPairs(g, m', users, done', ps[1..]);
      assert done' + (set p | p in ps[1..]) == done + (set p | p in ps);
    } else {
      assert done + (set p | p in ps) == done;
    }
  }

  /** After visiting every ordered pair, every entry is its reference netted value. */
  lemma NetAllPairs(g: Matrix, users: seq<Name>)
    requires g.Keys == Square(users)
    ensures forall x, y :: x in users && y in users ==>
              Net(g, Pairs(users, users))[(x, y)] == NetEntry(g, x, y)
  {
    var ps := Pairs(users, users);
    NetPairs(g, g, users, {}, ps);
    var r := Net(g, ps);
    var done := {} + (set p | p in ps);
    forall x, y | x in users && y in users
      ensures r[(x, y)] == NetEntry(g, x, y)
    {
      assert (x, y) in done && (y, x) in done;
      PairDone(g, r, done, x, y);
    }
  }

  lemma PairDone(g: Matrix, m: Matrix, done: set<(Name, Name)>, x: Name, y: Name)
    requires (x, y) in g && (y, x) in g && (x, y) in m && (y, x) in m
    requires PairInv(g, m, done, x, y) && (x, y) in done && (y, x) in done
    ensures m[(x, y)] == NetEntry(g, x, y)
  {
  }

  // ---------------------------------------------------------------- the whole of get_status_dict

  /** get_status_dict: gross accumulation followed by the netting pass. Between every two users
      at most one direction is left, never negative, and it is the difference of what each
      owes the other over all expenses: each entry is the positive part of what `y` owes `x`
      net. */
  function StatusDict(users: seq<Name>, expenses: seq<Expense>): (r: Matrix)
    requires WellFormed(users, expenses)
    ensures r.Keys == Square(users)
    ensures IsNetted(r, users)
    ensures forall x, y :: x in users && y in users ==> r[(x, y)] == NetOwed(expenses, x, y)
  {
    var g := Gross(users, expenses);
    var r := Netting(g, users);
    forall x, y | x in users && y in users
      ensures r[(x, y)] == NetOwed(expenses, x, y)
    {
      assert r[(x, y)] == NetEntry(g, x, y);
    }
    r
  }

  /** Reference definition of a status entry: what `y` owes `x` net of what `x` owes `y`,
      when that is positive, and nothing otherwise. */
  function NetOwed(expenses: seq<Expense>, x: Name, y: Name): real
    requires forall e :: e in expenses ==> |e.debtors| > 0
  {
    Positive(Owed(expenses, x, y) - Owed(expenses, y, x))
  }

  /** A net amount is open exactly when `y` owes `x` more than the other way round, and it is
      then the difference. */
  lemma NetOwedOpen(expenses: seq<Expense>, x: Name, y: Name)
    requires forall e :: e in expenses ==> |e.debtors| > 0
    ensures NetOwed(expenses, x, y) != 0.0 <==> Owed(expenses, x, y) > Owed(expenses, y, x)
    ensures NetOwed(expenses, x, y) != 0.0 ==>
              NetOwed(expenses, x, y) == Owed(expenses, x, y) - Owed(expenses, y, x)
  {
  }

  /** In a netted matrix an entry is the positive part of the difference of the two
      directions. */
  lemma NettedValue(m: Matrix, users: seq<Name>, x: Name, y: Name)
    requires Square(users) <= m.Keys && IsNetted(m, users) && x in users && y in users
    ensures var d := m[(x, y)] - m[(y, x)]; m[(x, y)] == if d > 0.0 then d else 0.0
  {
    assert m[(x, y)] >= 0.0 && m[(y, x)] >= 0.0 && (m[(x, y)] == 0.0 || m[(y, x)] == 0.0);
  }

  // ---------------------------------------------------------------- the reference amounts

  /** Expenses contribute independently: splitting the list splits what is owed. */
  lemma {:induction false} OwedAppend(a: seq<Expense>, b: seq<Expense>, x: Name, y: Name)
    requires forall e :: e in a + b ==> |e.debtors| > 0
    ensures Owed(a + b, x, y) == Owed(a, x, y) + Owed(b, x, y)
  {
    if a != [] {
      assert (a + b)[1..] == a[1..] + b;
      OwedAppend(a[1..], b, x, y);
    } else {
      assert a + b == b;
    }
  }

  /** Nobody owes a user who paid none of the expenses. */
  lemma {:induction false} OwedNotPayer(expenses: seq<Expense>, x: Name, y: Name)
    requires forall e :: e in expenses ==> |e.debtors| > 0 && e.payer != x
    ensures Owed(expenses, x, y) == 0.0
  {
    if expenses != [] {
      assert expenses[0] in expenses;
      OwedNotPayer(expenses[1..], x, y);
    }
  }

  /** A user listed in none of the debtor lists owes nothing. */
  lemma {:induction false} OwedNotDebtor(expenses: seq<Expense>, x: Name, y: Name)
    requires forall e :: e in expenses ==> |e.debtors| > 0 && y !in e.debtors
    ensures Owed(expenses, x, y) == 0.0
  {
    if expenses != [] {
      assert expenses[0] in expenses;
      CountAbsent(expenses[0].debtors, y);
      OwedNotDebtor(expenses[1..], x, y);
    }
  }

  /** What one expense leaves: nothing unless `x` paid it, otherwise one share per listing
      of `y`. */
  lemma OwedSingle(e: Expense, x: Name, y: Name)
    requires |e.debtors| > 0
    ensures Owed([e], x, y) == if e.payer == x then Portion(Count(e.debtors, y), Share(e)) else 0.0
  {
    assert [e][1..] == [];
  }

  /** Re-running the netting pass on its own result changes nothing. */
  lemma NettingIdempotent(g: Matrix, users: seq<Name>)
    requires g.Keys == Square(users)
    ensures Netting(Netting(g, users), users) == Netting(g, users)
  {
    NettingOfNetted(Netting(g, users), users);
  }

  /** A matrix already in netted shape is a fixed point of the netting pass. */
  lemma NettingOfNetted(m: Matrix, users: seq<Name>)
    requires m.Keys == Square(users) && IsNetted(m, users)
    ensures Netting(m, users) == m
  {
    NetEntriesOfNetted(m, Netting(m, users), users);
  }

  lemma NetEntriesOfNetted(m: Matrix, r: Matrix, users: seq<Name>)
    requires m.Keys == Square(users) && IsNetted(m, users) && r.Keys == m.Keys
    requires forall x, y :: x in users && y in users ==> r[(x, y)] == NetEntry(m, x, y)
    ensures r == m
  {
    forall k | k in m
      ensures r[k] == m[k]
    {
      var (x, y) := k;
      assert x in users && y in users;
      NettedValue(m, users, x, y);
    }
  }

  /** The pair step on an already netted pair leaves it unchanged. */
  lemma NetStepIdempotent(m: Matrix, x: Name, y: Name)
    requires (x, y) in m && (y, x) in m
    ensures NetStep(NetStep(m, x, y), x, y) == NetStep(m, x, y)
  {
  }

  // ---------------------------------------------------------------- one expense sums to its cost

  predicate NoDuplicates(s: seq<Name>) {
    forall i, j :: 0 <= i < j < |s| ==> s[i] != s[j]
  }

  /** What the users of `ys` together owe `x`, in the reference amounts. */
  function OwedTo(expenses: seq<Expense>, x: Name, ys: seq<Name>): real
    requires forall e :: e in expenses ==> |e.debtors| > 0
  {
    if ys == [] then 0.0 else Owed(expenses, x, ys[0]) + OwedTo(expenses, x, ys[1..])
  }

  /** The number of entries of `ds` that belong to `ys`, counted user by user. */
  function CountAll(ds: seq<Name>, ys: seq<Name>): nat {
    if ys == [] then 0 else Count(ds, ys[0]) + CountAll(ds, ys[1..])
  }

  lemma PortionAdd(a: nat, b: nat, share: real)
    ensures Portion(a, share) + Portion(b, share) == Portion(a + b, share)
  {
    var x := a as real;
    var y := b as real;
    assert (a + b) as real == x + y;
    assert x * share + y * share == (x + y) * share;
  }

  lemma PortionWhole(n: nat, cost: real)
    requires n > 0
    ensures Portion(n, cost / n as real) == cost
  {
  }

  lemma {:induction false} CountOfMember(ys: seq<Name>, a: Name)
    requires NoDuplicates(ys) && a in ys
    ensures Count(ys, a) == 1
  {
    if ys[0] == a {
      assert a !in ys[1..];
      CountAbsent(ys[1..], a);
    } else {
      CountOfMember(ys[1..], a);
    }
  }

  lemma {:induction false} CountAbsent(ys: seq<Name>, a: Name)
    requires a !in ys
    ensures Count(ys, a) == 0
  {
    if ys != [] {
      CountAbsent(ys[1..], a);
    }
  }

  /** Summing one debtor list's counts over all users: the head of the list is counted once. */
  lemma {:induction false} CountAllCons(ds: seq<Name>, ys: seq<Name>)
    requires ds != []
    ensures CountAll(ds, ys) == Count(ys, ds[0]) + CountAll(ds[1..], ys)
  {
    if ys != [] {
      CountAllCons(ds, ys[1..]);
    }
  }

  /** Every entry of a debtor list drawn from `ys` is counted exactly once over `ys`. */
  lemma {:induction false} CountAllIsLength(ds: seq<Name>, ys: seq<Name>)
    requires NoDuplicates(ys)
    requires forall d :: d in ds ==> d in ys
    ensures CountAll(ds, ys) == |ds|
  {
    if ds == [] {
      CountAllEmpty(ys);
    } else {
      CountAllCons(ds, ys);
      CountOfMember(ys, ds[0]);
      CountAllIsLength(ds[1..], ys);
    }
  }

  lemma {:induction false} CountAllEmpty(ys: seq<Name>)
    ensures CountAll([], ys) == 0
  {
    if ys != [] {
      CountAllEmpty(ys[1..]);
    }
  }

  /** What one expense's debtors owe its payer, user by user, is that many shares. */
  lemma {:induction false} OwedToSingle(e: Expense, ys: seq<Name>)
    requires |e.debtors| > 0
    ensures OwedTo([e], e.payer, ys) == Portion(CountAll(e.debtors, ys), Share(e))
  {
    if ys != [] {
      OwedToSingle(e, ys[1..]);
      assert [e][1..] == [];
      assert Owed([e], e.payer, ys[0]) == Portion(Count(e.debtors, ys[0]), Share(e)) + Owed([], e.payer, ys[0]);
      PortionAdd(Count(e.debtors, ys[0]), CountAll(e.debtors, ys[1..]), Share(e));
    }
  }

  /** The shares of one expense add up to its cost: summed over all users, what they owe the
      payer for it is exactly what the payer spent (duplicates included). */
  lemma SharesSumToCost(users: seq<Name>, e: Expense)
    requires NoDuplicates(users) && WellFormed(users, [e])
    ensures OwedTo([e], e.payer, users) == e.cost
  {
    assert e in [e];
    OwedToSingle(e, users);
    CountAllIsLength(e.debtors, users);
    PortionWhole(|e.debtors|, e.cost);
  }
}
