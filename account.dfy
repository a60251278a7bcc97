/** Accounts: mutable balance cells, and the all-or-nothing update of several of them at once. */
module Accounts {
  import opened Errors
  import opened Monetary

  /* ---------------- String.compareTo, the order the locks are taken in ---------------- */

  /** Lexicographic comparison as `String.compareTo` does it: the difference of the first
      differing characters, or else the difference of the lengths. */
  function CompareTo(a: string, b: string): int
    decreases |a|
  {
    if |a| == 0 || |b| == 0 then |a| - |b|
    else if a[0] != b[0] then a[0] as int - b[0] as int
    else CompareTo(a[1..], b[1..])
  }

  /** Two strings compare as equal exactly when they are equal. */
  lemma {:induction false} CompareToZero(a: string, b: string)
    ensures CompareTo(a, b) == 0 <==> a == b
    decreases |a|
  {
    if |a| != 0 && |b| != 0 && a[0] == b[0] {
      CompareToZero(a[1..], b[1..]);
      assert a == [a[0]] + a[1..] && b == [b[0]] + b[1..];
    }
  }

  /** Swapping the arguments negates the comparison. */
  lemma {:induction false} CompareToFlip(a: string, b: string)
    ensures CompareTo(b, a) == -CompareTo(a, b)
    decreases |a|
  {
    if |a| != 0 && |b| != 0 && a[0] == b[0] {
      CompareToFlip(a[1..], b[1..]);
    }
  }

  /** The comparison is transitive, so sorting by it is well defined. */
  lemma {:induction false} CompareToTransitive(a: string, b: string, c: string)
    requires CompareTo(a, b) <= 0 && CompareTo(b, c) <= 0
    ensures CompareTo(a, c) <= 0
    decreases |a|
  {
    if |a| != 0 && |b| != 0 && |c| != 0 && a[0] == b[0] == c[0] {
      CompareToTransitive(a[1..], b[1..], c[1..]);
    }
  }

  /* ---------------- Verifying a delta ---------------- */

  /** Checks that `diff` may be added to `balance`: the currencies agree and the sum is not
      negative. A mismatch fails with 412 and the mismatch message, a negative sum with 412
      "insufficient balance"; the two failures are distinct. */
  function Check(balance: Money, diff: Money): (o: Outcome)
    ensures o.Pass? <==> diff.currency == balance.currency && balance.amount + diff.amount >= 0
    ensures diff.currency != balance.currency ==>
              o == Fail(ClientError(PreconditionFailed, CurrencyMismatch(balance.currency, diff.currency)))
    ensures diff.currency == balance.currency && balance.amount + diff.amount < 0 ==>
              o == Fail(ClientError(PreconditionFailed, "insufficient balance"))
  {
    match balance.Plus(diff)
    case None => Fail(ClientError(PreconditionFailed, CurrencyMismatch(balance.currency, diff.currency)))
    case Some(sum) => if sum.IsNegative() then Fail(ClientError(PreconditionFailed, "insufficient balance")) else Pass
  }

  /* ---------------- The account ---------------- */

  class Account {
    const id: string
    const currency: Currency
    var balance: Money

    /** The balance is kept in the account's own currency and never drops below zero. */
    ghost predicate Valid()
      reads this
    {
      balance.currency == currency && !balance.IsNegative()
    }

    constructor (id: string, currency: Currency)
      ensures this.id == id && this.currency == currency
      ensures balance == Zero(currency) && Valid()
    {
      this.id := id;
      this.currency := currency;
      balance := Zero(currency);
    }

    /** Adds the delta; only ever called once `verify` (`Check`) has passed for it. */
    method Execute(diff: Money)
      requires Check(balance, diff).Pass?
      modifies this
      ensures balance == Money(old(balance.currency), old(balance.amount) + diff.amount)
    {
      balance := balance.Plus(diff).value;
    }

    /** Account identity is the pair (id, currency); `null` equals nothing. Equal accounts
        have equal hash codes, so they may share a hash map. */
    predicate Equals(that: Account?)
      ensures that != null && Equals(that) ==> HashCode() == that.HashCode()
    {
      that != null && id == that.id && currency == that.currency
    }

    /** `Objects.hash(id, currency)`: `31 * (31 + h(id)) + h(currency)` in 32-bit arithmetic,
        where a currency hashes as its code. */
    function HashCode(): (h: int)
      ensures -0x8000_0000 <= h < 0x8000_0000
    {
      Int32(31 * (31 + StringHash(id)) + StringHash(currency.code))
    }
  }

  /** Reduces an integer to Java's `int` range, wrapping around as Java arithmetic does. */
  function Int32(x: int): (r: int)
    ensures -0x8000_0000 <= r < 0x8000_0000
    ensures (r - x) % 0x1_0000_0000 == 0
  {
    var m := x % 0x1_0000_0000;
    if m < 0x8000_0000 then m else m - 0x1_0000_0000
  }

  /** `String.hashCode`: `s[0]*31^(n-1) + ... + s[n-1]` in 32-bit arithmetic. */
  function StringHash(s: string): int
  {
    if s == [] then 0 else Int32(31 * StringHash(s[..|s| - 1]) + s[|s| - 1] as int)
  }

  /** `equals` is an equivalence on accounts, and equal accounts have equal hash codes. */
  lemma EqualsIsIdentity(a: Account, b: Account, c: Account)
    ensures a.Equals(a)
    ensures a.Equals(b) <==> b.Equals(a)
    ensures a.Equals(b) && b.Equals(c) ==> a.Equals(c)
    ensures a.Equals(b) ==> a.HashCode() == b.HashCode()
  {
  }

  /* ---------------- Lock order ---------------- */

  /** Each account's id is no greater than the next one's. */
  ghost predicate AdjacentSorted(s: seq<Account>) {
    forall i | 0 <= i < |s| - 1 :: CompareTo(s[i].id, s[i + 1].id) <= 0
  }

  /** The ids never decrease along the sequence. */
  ghost predicate SortedById(s: seq<Account>) {
    forall i, j | 0 <= i < j < |s| :: CompareTo(s[i].id, s[j].id) <= 0
  }

  /** The ids strictly increase along the sequence. */
  ghost predicate StrictlyAscendingById(s: seq<Account>) {
    forall i, j | 0 <= i < j < |s| :: CompareTo(s[i].id, s[j].id) < 0
  }

  ghost predicate DistinctIds(accounts: set<Account>) {
    forall a, b | a in accounts && b in accounts && a != b :: a.id != b.id
  }

  /** Inserts `a` after every account whose id is smaller. */
  function InsertById(s: seq<Account>, a: Account): (r: seq<Account>)
    ensures multiset(r) == multiset(s) + multiset{a}
  {
    if s == [] || CompareTo(a.id, s[0].id) <= 0 then [a] + s
    else
      assert s == [s[0]] + s[1..];
      [s[0]] + InsertById(s[1..], a)
  }

  /** Inserting into a sorted sequence keeps it sorted. */
  lemma {:induction false} InsertByIdSorted(s: seq<Account>, a: Account)
    requires AdjacentSorted(s)
    ensures AdjacentSorted(InsertById(s, a))
    ensures InsertById(s, a)[0] == a || InsertById(s, a)[0] == s[0]
  {
    if s != [] && CompareTo(a.id, s[0].id) > 0 {
      CompareToFlip(a.id, s[0].id);
      InsertByIdSorted(s[1..], a);
    }
  }

  /** By transitivity, neighbouring order gives order between any two positions. */
  lemma {:induction false} AdjacentSortedIsSorted(s: seq<Account>)
    requires AdjacentSorted(s)
    ensures SortedById(s)
  {
    if |s| > 1 {
      AdjacentSortedIsSorted(s[1..]);
      forall j | 1 < j < |s|
        ensures CompareTo(s[0].id, s[j].id) <= 0
      {
        assert CompareTo(s[1].id, s[j].id) <= 0 by { assert s[1..][0] == s[1] && s[1..][j - 1] == s[j]; }
        CompareToTransitive(s[0].id, s[1].id, s[j].id);
      }
      forall i, j | 0 < i < j < |s|
        ensures CompareTo(s[i].id, s[j].id) <= 0
      {
        assert s[1..][i - 1] == s[i] && s[1..][j - 1] == s[j];
      }
    }
  }

  /** `order` lists every account of `accounts` exactly once, sorted by id, and strictly
      ascending when the ids are distinct. */
  ghost predicate IsLockOrder(order: seq<Account>, accounts: set<Account>) {
    && |order| == |accounts|
    && (forall a | a in order :: a in accounts) && (forall a | a in accounts :: a in order)
    && (forall i, j | 0 <= i < j < |order| :: order[i] != order[j])
    && SortedById(order)
    && (DistinctIds(accounts) ==> StrictlyAscendingById(order))
  }

  /** The lock order: the participating accounts sorted by id, each exactly once. */
  method LockOrder(accounts: set<Account>) returns (order: seq<Account>)
    ensures IsLockOrder(order, accounts)
  {
    order := [];
    var rest := accounts;
    while rest != {}
      invariant rest <= accounts
      invariant multiset(order) == multiset(accounts - rest)
      invariant AdjacentSorted(order)
      decreases rest
    {
      var a :| a in rest;
      InsertByIdSorted(order, a);
      order := InsertById(order, a);
      rest := rest - {a};
    }
    assert multiset(order) == multiset(accounts);
    AdjacentSortedIsSorted(order);
    DistinctByMultiset(order, accounts);
    if DistinctIds(accounts) {
      forall i, j | 0 <= i < j < |order|
        ensures CompareTo(order[i].id, order[j].id) < 0
      {
        assert order[i] in multiset(order) && order[j] in multiset(order);
        CompareToZero(order[i].id, order[j].id);
      }
    }
  }

  /** A sequence holding a set's elements once each has no repetition. */
  lemma DistinctByMultiset(s: seq<Account>, accounts: set<Account>)
    requires multiset(s) == multiset(accounts)
    ensures |s| == |accounts| && forall a :: a in s <==> a in accounts
    ensures forall i, j | 0 <= i < j < |s| :: s[i] != s[j]
  {
    assert |s| == |multiset(s)| == |multiset(accounts)| == |accounts|;
    forall a
      ensures a in s <==> a in accounts
    {
      assert a in s <==> a in multiset(s);
    }
    forall i, j | 0 <= i < j < |s|
      ensures s[i] != s[j]
    {
      var x := s[i];
      assert s == s[..j] + s[j..];
      assert x in multiset(s[..j]) by { assert s[..j][i] == x; }
      assert multiset(s)[x] == multiset(s[..j])[x] + multiset(s[j..])[x];
      assert multiset(s)[x] <= 1;
      assert s[j] in multiset(s[j..]) by { assert s[j..][0] == s[j]; }
    }
  }

  /* ---------------- The all-or-nothing update ---------------- */

  /** Every account in the map accepts its delta. */
  ghost predicate AllVerify(diff: map<Account, Money>)
    reads diff.Keys
  {
    forall a | a in diff :: Check(a.balance, diff[a]).Pass?
  }

  /** The balances of the given accounts. */
  function Balances(accounts: set<Account>): map<Account, Money>
    reads accounts
  {
    map a | a in accounts :: a.balance
  }

  /** What one `update` call does to the accounts of `diff`, whose balances were `before`:
      if every delta verifies, `r` is `Pass` and each balance grew by its delta; otherwise
      `r` is the verification failure of some account, and no balance changed. */
  ghost predicate UpdatedBy(diff: map<Account, Money>, before: map<Account, Money>, r: Outcome)
    requires diff.Keys <= before.Keys
    reads diff.Keys
  {
    && (r.Pass? <==> forall a | a in diff :: Check(before[a], diff[a]).Pass?)
    && (r.Pass? ==> forall a | a in diff ::
          a.balance == Money(before[a].currency, before[a].amount + diff[a].amount))
    && (r.Fail? ==> (exists a | a in diff :: r == Check(before[a], diff[a]))
                    && forall a | a in diff :: a.balance == before[a])
  }

  /** Verifies every delta, in the map's iteration order, and stops at the first failure. */
  method VerifyAll(diff: map<Account, Money>) returns (r: Outcome)
    ensures r.Pass? <==> AllVerify(diff)
    ensures r.Fail? ==> exists a | a in diff :: Check(a.balance, diff[a]) == r
  {
    var rest := diff.Keys;
    while rest != {}
      invariant rest <= diff.Keys
      invariant forall a | a in diff.Keys - rest :: Check(a.balance, diff[a]).Pass?
      decreases rest
    {
      var a :| a in rest;
      var o := Check(a.balance, diff[a]);
      if o.Fail? {
        return o;
      }
      rest := rest - {a};
    }
    return Pass;
  }

  /** Adds every delta, once all of them have verified. */
  method ExecuteAll(diff: map<Account, Money>)
    requires AllVerify(diff)
    requires forall a | a in diff :: a.Valid()
    modifies diff.Keys
    ensures forall a | a in diff :: a.Valid()
    ensures forall a | a in diff ::
              a.balance == Money(old(a.balance.currency), old(a.balance.amount) + diff[a].amount)
  {
    var rest := diff.Keys;
    while rest != {}
      invariant rest <= diff.Keys
      invariant forall a | a in rest :: a.balance == old(a.balance)
      invariant forall a | a in diff.Keys - rest ::
                  a.balance == Money(old(a.balance.currency), old(a.balance.amount) + diff[a].amount)
      decreases rest
    {
      var a :| a in rest;
      a.Execute(diff[a]);
      rest := rest - {a};
    }
  }

  /** Holds the locks of `held`, takes those of `pending` one by one (each nested inside the
      previous one), and once all are held verifies every delta and, if all pass, executes them.
      `locks` is the order in which the locks were taken. */
  method UpdateLocked(diff: map<Account, Money>, pending: seq<Account>, held: seq<Account>,
                      ghost before: map<Account, Money>)
    returns (r: Outcome, locks: seq<Account>)
    requires forall a | a in diff :: a.Valid()
    requires before == Balances(diff.Keys)
    modifies diff.Keys
    ensures locks == held + pending
    ensures forall a | a in diff :: a.Valid()
    ensures UpdatedBy(diff, before, r)
    decreases |pending|
  {
    if pending != [] {
      r, locks := UpdateLocked(diff, pending[1..], held + [pending[0]], before);
      assert held + [pending[0]] + pending[1..] == held + pending;
    } else {
      locks := held;
      r := VerifyAll(diff);
      if r.Pass? {
        ExecuteAll(diff);
      }
    }
  }

  /** Applies all deltas of `diff` or none of them. The locks are taken in ascending order of
      id, each participating account exactly once. */
  method Update(diff: map<Account, Money>) returns (r: Outcome, locks: seq<Account>)
    requires forall a | a in diff :: a.Valid()
    modifies diff.Keys
    ensures forall a | a in diff :: a.Valid()
    ensures UpdatedBy(diff, old(Balances(diff.Keys)), r)
    ensures IsLockOrder(locks, diff.Keys)
  {
    ghost var before := Balances(diff.Keys);
    var order := LockOrder(diff.Keys);
    r, locks := UpdateLocked(diff, order, [], before);
    assert locks == order;
  }

  /* ---------------- Conservation ---------------- */

  /** The sum, in minor units, of the amounts in currency `c` that `b` holds for the accounts
      of `s`. */
  function TotalIn(s: seq<Account>, b: map<Account, Money>, c: Currency): int
    requires forall a | a in s :: a in b
  {
    if s == [] then 0
    else (if b[s[0]].currency == c then b[s[0]].amount else 0) + TotalIn(s[1..], b, c)
  }

  /** Where every balance grew by a delta of its own currency, the total in each currency grew
      by the total of the deltas in that currency. */
  lemma {:induction false} PointwiseShiftsTotal(s: seq<Account>, diff: map<Account, Money>,
                                                before: map<Account, Money>, after: map<Account, Money>,
                                                c: Currency)
    requires forall a | a in s :: a in diff && a in before && a in after
    requires forall a | a in s :: diff[a].currency == before[a].currency
    requires forall a | a in s :: after[a] == Money(before[a].currency, before[a].amount + diff[a].amount)
    ensures TotalIn(s, after, c) == TotalIn(s, before, c) + TotalIn(s, diff, c)
  {
    if s != [] {
      PointwiseShiftsTotal(s[1..], diff, before, after, c);
    }
  }

  /** A successful update moves the total balance of its accounts in every currency (summed
      along the lock order, which lists each of them once) by the total of the deltas in that
      currency; so a transfer whose deltas sum to zero in every currency moves no money in or
      out. A failed one moves nothing. */
  lemma UpdateConservesTotal(diff: map<Account, Money>, before: map<Account, Money>, r: Outcome,
                             locks: seq<Account>)
    requires diff.Keys <= before.Keys && UpdatedBy(diff, before, r)
    requires IsLockOrder(locks, diff.Keys)
    ensures r.Pass? ==> forall c :: TotalIn(locks, Balances(diff.Keys), c) == TotalIn(locks, before, c) + TotalIn(locks, diff, c)
    ensures r.Pass? && (forall c :: TotalIn(locks, diff, c) == 0) ==>
              forall c :: TotalIn(locks, Balances(diff.Keys), c) == TotalIn(locks, before, c)
    ensures r.Fail? ==> Balances(diff.Keys) == map a | a in diff.Keys :: before[a]
  {
    if r.Pass? {
      forall c
        ensures TotalIn(locks, Balances(diff.Keys), c) == TotalIn(locks, before, c) + TotalIn(locks, diff, c)
      {
        PointwiseShiftsTotal(locks, diff, before, Balances(diff.Keys), c);
      }
    }
  }
}
