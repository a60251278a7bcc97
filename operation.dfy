/** Operations: named, idempotent multi-account requests, applied at most once. */
module Operations {
  import opened Errors
  import opened Monetary
  import opened Accounts

  /** The two-way map comparison the source writes out by hand: every entry of `src` is in
      `dst` and every entry of `dst` is in `src`. It holds exactly when the maps are equal. */
  function MapEquals<K, V(==)>(dst: map<K, V>, src: map<K, V>): (r: bool)
    ensures r <==> dst == src
  {
    var r := (forall k | k in src :: k in dst && src[k] == dst[k])
             && (forall k | k in dst :: k in src && dst[k] == src[k]);
    assert r ==> dst.Keys == src.Keys;
    r
  }

  /** A resolver that may be used to apply `diff`: an account it returns for a key carries
      that key as its id (so distinct keys give distinct accounts) and is in a valid state. */
  ghost predicate ResolvesById(resolve: string -> Result<Account>, diff: map<string, string>)
    reads set k | k in diff && resolve(k).Ok? :: resolve(k).value
  {
    forall k | k in diff && resolve(k).Ok? :: resolve(k).value.id == k && resolve(k).value.Valid()
  }

  /** The accounts an operation can touch. */
  function Targets(resolve: string -> Result<Account>, diff: map<string, string>): set<Account> {
    set k | k in diff && resolve(k).Ok? :: resolve(k).value
  }

  /** The entry for `k` throws while being collected: its id does not resolve, or its amount
      does not parse (the id is resolved first). */
  predicate EntryFails(resolve: string -> Result<Account>, parse: string -> Result<Money>,
                       diff: map<string, string>, k: string)
    requires k in diff
  {
    resolve(k).Err? || parse(diff[k]).Err?
  }

  function EntryError(resolve: string -> Result<Account>, parse: string -> Result<Money>,
                      diff: map<string, string>, k: string): Error
    requires k in diff && EntryFails(resolve, parse, diff, k)
  {
    if resolve(k).Err? then resolve(k).error else parse(diff[k]).error
  }

  /** Every entry resolves and parses. */
  predicate Collectable(resolve: string -> Result<Account>, parse: string -> Result<Money>,
                        diff: map<string, string>)
  {
    forall k | k in diff :: !EntryFails(resolve, parse, diff, k)
  }

  /** What the first `apply` of `diff` does, given the balances `before` it ran. If some entry
      cannot be collected, `r` is the failure of one such entry and no balance changes;
      otherwise `r` is the outcome of the account update: `Pass` with every resolved balance
      grown by its parsed delta when all deltas verify, or else the verification failure of
      one entry with no balance changed. */
  ghost predicate AppliedOnce(resolve: string -> Result<Account>, parse: string -> Result<Money>,
                              diff: map<string, string>, before: map<Account, Money>, r: Outcome)
    requires Targets(resolve, diff) <= before.Keys
    reads Targets(resolve, diff)
  {
    if !Collectable(resolve, parse, diff) then
      && r.Fail?
      && (exists k | k in diff :: EntryFails(resolve, parse, diff, k) && r.error == EntryError(resolve, parse, diff, k))
      && forall a | a in Targets(resolve, diff) :: a.balance == before[a]
    else
      && (r.Pass? <==> forall k | k in diff :: Check(before[resolve(k).value], parse(diff[k]).value).Pass?)
      && (r.Pass? ==> forall k | k in diff ::
            resolve(k).value.balance ==
              Money(before[resolve(k).value].currency, before[resolve(k).value].amount + parse(diff[k]).value.amount))
      && (r.Fail? ==> (exists k | k in diff :: r == Check(before[resolve(k).value], parse(diff[k]).value))
                      && forall a | a in Targets(resolve, diff) :: a.balance == before[a])
  }

  /** The account update run on the collected map is the first application of `diff`. */
  lemma AppliedOnceFromUpdate(resolve: string -> Result<Account>, parse: string -> Result<Money>,
                              diff: map<string, string>, m: map<Account, Money>,
                              before: map<Account, Money>, r: Outcome)
    requires forall k | k in diff && resolve(k).Ok? :: resolve(k).value.id == k
    requires Collectable(resolve, parse, diff)
    requires m.Keys == Targets(resolve, diff) == before.Keys
    requires forall k | k in diff :: m[resolve(k).value] == parse(diff[k]).value
    requires UpdatedBy(m, before, r)
    ensures AppliedOnce(resolve, parse, diff, before, r)
  {
    assert forall k | k in diff :: resolve(k).value in m;
    if r.Pass? {
      forall k | k in diff
        ensures Check(before[resolve(k).value], parse(diff[k]).value).Pass?
      {
        assert Check(before[resolve(k).value], m[resolve(k).value]).Pass?;
      }
    } else {
      var a :| a in m && r == Check(before[a], m[a]);
      var k :| k in diff && resolve(k).Ok? && resolve(k).value == a;
      assert r == Check(before[resolve(k).value], parse(diff[k]).value);
    }
  }

  class Operation {
    const id: string
    const diff: map<string, string>
    var done: bool
    var error: Option<Error>

    /** An error is recorded only once the operation has run. */
    ghost predicate Valid()
      reads this
    {
      !done ==> error == None
    }

    constructor (id: string, diff: map<string, string>)
      ensures this.id == id && this.diff == diff
      ensures !done && error == None && Valid()
      ensures Status() == "not started"
    {
      this.id := id;
      this.diff := diff;
      done := false;
      error := None;
    }

    /** Same id and pointwise-equal diffs; `null` equals nothing. */
    predicate Equals(that: Operation?)
      ensures Equals(that) <==> that != null && id == that.id && diff == that.diff
    {
      that != null && id == that.id && MapEquals(diff, that.diff)
    }

    /** The outcome a finished operation reports on every `apply`: its recorded error, if any. */
    function Recorded(): Outcome
      reads this
    {
      if error.Some? then Fail(error.value) else Pass
    }

    /** The status shown by `toString`. */
    function Status(): string
      reads this
      requires Valid()
    {
      if done then (if error == None then "done" else error.value.message) else "not started"
    }

    /** Builds the account-to-delta map in the diff's iteration order: for each entry the id
        is resolved, then the amount parsed; the first exception ends the collection. */
    method Collect(resolve: string -> Result<Account>, parse: string -> Result<Money>)
      returns (res: Result<map<Account, Money>>)
      requires forall k | k in diff && resolve(k).Ok? :: resolve(k).value.id == k
      ensures res.Ok? <==> Collectable(resolve, parse, diff)
      ensures res.Ok? ==> res.value.Keys == Targets(resolve, diff)
      ensures res.Ok? ==> forall k | k in diff :: res.value[resolve(k).value] == parse(diff[k]).value
      ensures res.Err? ==> exists k | k in diff :: EntryFails(resolve, parse, diff, k)
                                                  && res.error == EntryError(resolve, parse, diff, k)
    {
      var m: map<Account, Money> := map[];
      var rest := diff.Keys;
      while rest != {}
        invariant rest <= diff.Keys
        invariant forall k | k in diff.Keys - rest :: !EntryFails(resolve, parse, diff, k)
        invariant forall k | k in diff.Keys - rest :: resolve(k).value in m && m[resolve(k).value] == parse(diff[k]).value
        invariant forall a | a in m :: a.id in diff.Keys - rest && resolve(a.id) == Ok(a)
        decreases rest
      {
        var k :| k in rest;
        var account := resolve(k);
        if account.Err? {
          return Err(account.error);
        }
        var amount := parse(diff[k]);
        if amount.Err? {
          return Err(amount.error);
        }
        m := m[account.value := amount.value];
        rest := rest - {k};
      }
      assert m.Keys == Targets(resolve, diff) by {
        forall a | a in Targets(resolve, diff) ensures a in m {
          var k :| k in diff && resolve(k).Ok? && resolve(k).value == a;
        }
      }
      return Ok(m);
    }

    /** The body of the first `apply`: collect the account-to-delta map, then update the
        accounts all-or-nothing; any exception becomes the failed outcome. */
    method Run(resolve: string -> Result<Account>, parse: string -> Result<Money>) returns (r: Outcome)
      requires ResolvesById(resolve, diff)
      requires forall k | k in diff :: allocated(resolve(k))
      modifies Targets(resolve, diff)
      ensures forall a | a in Targets(resolve, diff) :: a.Valid()
      ensures AppliedOnce(resolve, parse, diff, old(Balances(Targets(resolve, diff))), r)
    {
      ghost var before := Balances(Targets(resolve, diff));
      var collected := Collect(resolve, parse);
      if collected.Err? {
        return Fail(collected.error);
      }
      var m := collected.value;
      var locks;
      assert before.Keys == m.Keys;
      r, locks := Update(m);
      AppliedOnceFromUpdate(resolve, parse, diff, m, before, r);
    }

    /** Runs the operation the first time it is applied and records how that ended; every
        later call changes nothing and reports the recorded outcome again. */
    method Apply(resolve: string -> Result<Account>, parse: string -> Result<Money>) returns (r: Outcome)
      requires Valid() && ResolvesById(resolve, diff)
      requires forall k | k in diff :: allocated(resolve(k))
      modifies this, Targets(resolve, diff)
      ensures Valid() && done
      ensures r == Recorded()
      ensures Status() == (if r.Pass? then "done" else r.error.message)
      ensures forall a | a in Targets(resolve, diff) :: a.Valid()
      ensures old(done) ==> error == old(error) && unchanged(Targets(resolve, diff))
      ensures !old(done) ==> AppliedOnce(resolve, parse, diff, old(Balances(Targets(resolve, diff))), r)
    {
      if !done {
        r := RunAndRecord(resolve, parse);
      } else {
        r := Recorded();
      }
    }

    /** The first `apply`: runs the operation and records how that ended. */
    method RunAndRecord(resolve: string -> Result<Account>, parse: string -> Result<Money>) returns (r: Outcome)
      requires !done && Valid() && ResolvesById(resolve, diff)
      requires forall k | k in diff :: allocated(resolve(k))
      modifies this, Targets(resolve, diff)
      ensures Valid() && done && r == Recorded()
      ensures forall a | a in Targets(resolve, diff) :: a.Valid()
      ensures AppliedOnce(resolve, parse, diff, old(Balances(Targets(resolve, diff))), r)
    {
      r := Run(resolve, parse);
      assert forall a: object | a in Targets(resolve, diff) :: a != this;
      if r.Fail? {
        error := Some(r.error);
      }
      done := true;
    }
  }

  /** Exactly-once application: a second `apply` of the same operation reports the outcome of
      the first again, and moves no balance (the balances at the end are those the first
      `apply` left). */
  method ApplyTwice(op: Operation, resolve: string -> Result<Account>, parse: string -> Result<Money>)
    returns (first: Outcome, second: Outcome)
    requires op.Valid() && ResolvesById(resolve, op.diff)
    requires forall k | k in op.diff :: allocated(resolve(k))
    modifies op, Targets(resolve, op.diff)
    ensures op.done && second == first && second == op.Recorded()
    ensures old(op.done) ==> forall a | a in Targets(resolve, op.diff) :: a.balance == old(a.balance)
    ensures !old(op.done) ==> AppliedOnce(resolve, parse, op.diff, old(Balances(Targets(resolve, op.diff))), first)
  {
    first := op.Apply(resolve, parse);
    second := op.Apply(resolve, parse);
  }
}
