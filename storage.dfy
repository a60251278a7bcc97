/** The ledger: the registry of accounts and operations, and the three calls it offers. */
module Ledger {
  import opened Errors
  import opened Monetary
  import opened Accounts
  import opened Operations

  /** `get` on a fixed account table, as the resolver handed to `apply`: the stored account,
      or 404 "account not found: <id>". */
  function GetIn(accounts: map<string, Account>): string -> Result<Account> {
    id => if id in accounts then Ok(accounts[id]) else Err(ClientError(NotFound, "account not found: " + id))
  }

  class Storage {
    var accounts: map<string, Account>
    var operations: map<string, Operation>

    /** Every entry is stored under its own id, and every stored account and operation is valid. */
    ghost predicate Valid()
      reads this, accounts.Values, operations.Values
    {
      && (forall id | id in accounts :: accounts[id].id == id && accounts[id].Valid())
      && (forall id | id in operations :: operations[id].id == id && operations[id].Valid())
    }

    constructor ()
      ensures Valid() && accounts == map[] && operations == map[]
    {
      accounts := map[];
      operations := map[];
    }

    /** Opens account `id` in `currency` unless it exists: creating an existing account in the
        same currency is a no-op, in another currency a conflict. Nothing is ever replaced. */
    method Create(id: string, currency: Currency) returns (r: Outcome)
      requires Valid()
      modifies this
      ensures Valid() && operations == old(operations)
      ensures old(accounts).Keys <= accounts.Keys
      ensures forall k | k in old(accounts) :: accounts[k] == old(accounts[k])
                                                && accounts[k].balance == old(accounts[k].balance)
      ensures id == [] ==> r == Fail(ClientError(BadRequest, "account id is missing")) && accounts == old(accounts)
      ensures id != [] && id !in old(accounts) ==>
                && r == Pass
                && accounts.Keys == old(accounts).Keys + {id}
                && fresh(accounts[id])
                && accounts[id].currency == currency
                && accounts[id].balance == Zero(currency)
      ensures id != [] && id in old(accounts) ==> accounts == old(accounts)
      ensures id != [] && id in old(accounts) ==>
                r == if old(accounts[id].currency) == currency then Pass
                     else Fail(ClientError(Conflict, "account already exists with different currency"))
    {
      if id == [] {
        return Fail(ClientError(BadRequest, "account id is missing"));
      }
      var account := new Account(id, currency);
      if id !in accounts {
        accounts := accounts[id := account];
      }
      if !account.Equals(accounts[id]) {
        return Fail(ClientError(Conflict, "account already exists with different currency"));
      }
      return Pass;
    }

    /** The account stored under `id`, or 404 "account not found: <id>". */
    function Get(id: string): (r: Result<Account>)
      reads this, accounts.Values, operations.Values
      requires Valid()
      ensures r.Ok? <==> id in accounts
      ensures r.Ok? ==> r.value == accounts[id] && r.value.id == id && r.value.Valid()
      ensures r.Err? ==> r.error == ClientError(NotFound, "account not found: " + id)
    {
      GetIn(accounts)(id)
    }

    /** Applies operation `id` with `diff`. The operation is registered on first use; a later
        request with the same id must carry the same diff. The operation then runs at most once,
        with `get` resolving its account ids, and every call reports its recorded outcome. */
    method Update(id: string, diff: map<string, string>, parse: string -> Result<Money>) returns (r: Outcome)
      requires Valid()
      modifies this, accounts.Values, operations.Values
      ensures Valid()
      ensures accounts == old(accounts)
      ensures old(operations).Keys <= operations.Keys
      ensures forall k | k in old(operations) :: operations[k] == old(operations[k])
      ensures forall k | k in old(operations) && k != id :: operations[k].done == old(operations[k].done)
                                                            && operations[k].error == old(operations[k].error)
      ensures forall k | k in accounts && k !in diff :: accounts[k].balance == old(accounts[k].balance)
      // a missing id
      ensures id == [] ==>
                && r == Fail(ClientError(BadRequest, "operation id is missing"))
                && operations == old(operations)
                && forall k | k in accounts :: accounts[k].balance == old(accounts[k].balance)
      // the id is taken by another request
      ensures id != [] && id in old(operations) && old(operations[id].diff) != diff ==>
                && r == Fail(ClientError(Conflict, "operation mismatch"))
                && operations == old(operations)
                && operations[id].done == old(operations[id].done)
                && operations[id].error == old(operations[id].error)
                && forall k | k in accounts :: accounts[k].balance == old(accounts[k].balance)
      // a replay of a request that has already run
      ensures id != [] && id in old(operations) && old(operations[id].diff) == diff && old(operations[id].done) ==>
                && r == old(operations[id].Recorded())
                && operations == old(operations)
                && operations[id].error == old(operations[id].error)
                && (forall k | k in accounts :: accounts[k].balance == old(accounts[k].balance))
                && unchanged(Targets(GetIn(accounts), diff))
      // a new id is registered with a new operation
      ensures id != [] && id !in old(operations) ==> id in operations && fresh(operations[id])
      // the first run of the request
      ensures id != [] && (id !in old(operations) || (old(operations[id].diff) == diff && !old(operations[id].done))) ==>
                && operations.Keys == old(operations).Keys + {id}
                && AppliedOnce(GetIn(accounts), parse, diff, old(Balances(Targets(GetIn(accounts), diff))), r)
      // whenever the request is accepted, it is now registered, finished, and reports its outcome
      ensures id != [] && (id !in old(operations) || old(operations[id].diff) == diff) ==>
                && id in operations
                && operations[id].diff == diff
                && operations[id].done
                && r == operations[id].Recorded()
    {
      if id == [] {
        return Fail(ClientError(BadRequest, "operation id is missing"));
      }
      var registered := Register(id, diff);
      if registered.Err? {
        return Fail(registered.error);
      }
      ghost var op := registered.value;
      r := ApplyStored(id, parse, Balances(Targets(GetIn(accounts), diff)));
      assert operations[id] == op;
    }

    /** `apply` on the operation stored under `id`, with `get` as the resolver. */
    method ApplyStored(id: string, parse: string -> Result<Money>, ghost before: map<Account, Money>)
      returns (r: Outcome)
      requires Valid() && id in operations
      requires before == Balances(Targets(GetIn(accounts), operations[id].diff))
      modifies accounts.Values, operations[id]
      ensures Valid()
      ensures operations[id].done && r == operations[id].Recorded()
      ensures forall k | k in accounts && k !in operations[id].diff :: accounts[k].balance == old(accounts[k].balance)
      ensures old(operations[id].done) ==>
                && r == old(operations[id].Recorded())
                && operations[id].error == old(operations[id].error)
                && (forall k | k in accounts :: accounts[k].balance == old(accounts[k].balance))
                && unchanged(Targets(GetIn(accounts), operations[id].diff))
      ensures !old(operations[id].done) ==> AppliedOnce(GetIn(accounts), parse, operations[id].diff, before, r)
    {
      var op := operations[id];
      r := op.Apply(GetIn(accounts), parse);
    }

    /** The compute step on the operations table: stores a new operation under `id`, or keeps
        the stored one when the request equals it, or fails with 409 "operation mismatch". */
    method Register(id: string, diff: map<string, string>) returns (res: Result<Operation>)
      requires Valid()
      modifies this
      ensures Valid() && accounts == old(accounts)
      ensures forall k | k in accounts :: accounts[k].balance == old(accounts[k].balance)
      ensures forall k | k in old(operations) :: k in operations && operations[k].done == old(operations[k].done)
                                                 && operations[k].error == old(operations[k].error)
      ensures Balances(Targets(GetIn(accounts), diff)) == old(Balances(Targets(GetIn(accounts), diff)))
      ensures res.Err? <==> id in old(operations) && old(operations[id].diff) != diff
      ensures res.Err? ==> res.error == ClientError(Conflict, "operation mismatch") && operations == old(operations)
      ensures res.Ok? ==> id in operations && operations[id] == res.value && res.value.diff == diff
      ensures res.Ok? && id in old(operations) ==> operations == old(operations)
      ensures res.Ok? && id !in old(operations) ==>
                && operations == old(operations)[id := res.value]
                && fresh(res.value) && !res.value.done && res.value.error == None
    {
      var candidate := new Operation(id, diff);
      if id !in operations {
        operations := operations[id := candidate];
        return Ok(candidate);
      } else if candidate.Equals(operations[id]) {
        return Ok(operations[id]);
      } else {
        return Err(ClientError(Conflict, "operation mismatch"));
      }
    }
  }

  /** Replaying a request: the second `update` with the same id and diff reports what the first
      one did and moves no balance. The balances at the end are those before both calls when the
      operation had already run, and one application of the diff away from them when it had not. */
  method UpdateTwice(s: Storage, id: string, diff: map<string, string>, parse: string -> Result<Money>)
    returns (first: Outcome, second: Outcome)
    requires s.Valid()
    modifies s, s.accounts.Values, s.operations.Values
    ensures s.Valid() && s.accounts == old(s.accounts)
    ensures id != [] && (id !in old(s.operations) || old(s.operations[id].diff) == diff) ==>
              && second == first
              && id in s.operations && s.operations[id].done
    ensures id != [] && id in old(s.operations) && old(s.operations[id].diff) == diff && old(s.operations[id].done) ==>
              forall k | k in s.accounts :: s.accounts[k].balance == old(s.accounts[k].balance)
    ensures id != [] && (id !in old(s.operations) || (old(s.operations[id].diff) == diff && !old(s.operations[id].done))) ==>
              AppliedOnce(GetIn(s.accounts), parse, diff, old(Balances(Targets(GetIn(s.accounts), diff))), first)
  {
    first := s.Update(id, diff, parse);
    second := s.Update(id, diff, parse);
  }

  /** Exactly once per id, across other requests: replaying a request after any other request,
      accepted or rejected, under the same id or another, still reports the outcome of its first call. */
  method ReplayAfterAnother(s: Storage, a: string, d: map<string, string>, b: string, e: map<string, string>,
                            parse: string -> Result<Money>)
    returns (first: Outcome, other: Outcome, replay: Outcome)
    requires s.Valid()
    modifies s, s.accounts.Values, s.operations.Values
    ensures s.Valid()
    ensures a != [] && (a !in old(s.operations) || old(s.operations[a].diff) == d) ==>
              replay == first
  {
    first := s.Update(a, d, parse);
    other := s.Update(b, e, parse);
    replay := s.Update(a, d, parse);
  }
}
