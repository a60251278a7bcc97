# In-memory ledger: accounts, idempotent operations, storage

This project models the storage core of a small money-transfer service. The core has three parts.

- **Account** (`Accounts` module, `account.dfy`): a mutable balance cell. Its identity is the pair (id, currency).
  - The static `update` applies a map from accounts to deltas all-or-nothing.
  - It locks the accounts in ascending id order, verifies every delta, and executes all of them only if every one verified.
- **Operation** (`Operations` module, `operation.dfy`): a request keyed by an idempotency id.
  - It carries a diff from account id to amount text.
  - Its first `apply` resolves the accounts, parses the amounts and runs the account update. It then records the outcome.
  - Every later `apply` changes nothing and reports the recorded outcome again.
- **Storage** (`Ledger` module, `storage.dfy`): the tables of accounts and operations, with `create`, `get` and `update`.
  - `update` registers the operation or checks that the stored one equals the request. It then applies the operation with `get` as the account resolver.

Supporting types:

- `Errors` (`errors.dfy`) holds exceptions as values. A `ClientError` carries its HTTP status code (400, 404, 409 or 412) and its message. Any other runtime exception is `Unexpected`.
  - `Result` is a value or a thrown error.
  - `Outcome` is the normal or exceptional end of a call that returns nothing.
- `Monetary` (`money.dfy`) holds a money value: a currency plus an integer amount in minor units. Adding amounts of different currencies is refused.

The model is written in the same form as the source:

- `Account` and `Operation` are classes with the same mutable fields (`balance`; `done` and `error`). `Storage` is a class whose two maps are reassigned as the source updates them.
- The loops over a hash map (`forEach`, the `toMap` collector) are `while` loops. They visit the keys in an unspecified order, chosen with `:|`. Their contracts therefore name *some* failing entry, as the source promises no particular one.
- The recursive walk that takes the locks one by one is the recursive method `Accounts.UpdateLocked`. It also returns the sequence of locks taken, so the lock discipline can be stated.
- The state a method leaves behind is described against a snapshot of the balances before the call: `Balances` maps each account to its balance. The snapshot is used by the predicates below.
  - `UpdatedBy` says what one account update does.
  - `AppliedOnce` says what the first application of an operation does.

## Model

| member | source | states |
|---|---|---|
| Accounts.Account.constructor | src/main/java/net/swined/revolut/storage/Account.java:17-21 | a new account has the given id and currency, a zero balance in that currency, and is valid |
| Accounts.Check | src/main/java/net/swined/revolut/storage/Account.java:31-38 | `verify` of a delta against an account's balance passes exactly when the currencies agree and balance plus delta is not negative. A currency mismatch fails with 412 and the message "Currencies differ: X/Y". A negative sum fails with 412 "insufficient balance". The two failures are distinct |
| Accounts.Account.Execute | src/main/java/net/swined/revolut/storage/Account.java:41-43 | after a passed verification, the balance becomes the old balance plus the delta, in the same currency |
| Accounts.CompareToZero | src/main/java/net/swined/revolut/storage/Account.java:46 | `String.compareTo` is zero exactly for equal strings |
| Accounts.CompareToFlip | src/main/java/net/swined/revolut/storage/Account.java:46 | swapping the arguments of `compareTo` negates the result |
| Accounts.CompareToTransitive | src/main/java/net/swined/revolut/storage/Account.java:46 | `compareTo` is transitive, so sorting by it is well defined |
| Accounts.InsertById | src/main/java/net/swined/revolut/storage/Account.java:46 | inserting into the sorted prefix adds exactly that account: the multiset grows by it |
| Accounts.InsertByIdSorted | src/main/java/net/swined/revolut/storage/Account.java:46 | inserting into a neighbour-sorted sequence keeps it sorted |
| Accounts.AdjacentSortedIsSorted | src/main/java/net/swined/revolut/storage/Account.java:46 | order between neighbours gives order between any two positions |
| Accounts.DistinctByMultiset | src/main/java/net/swined/revolut/storage/Account.java:46 | a sequence with the multiset of a set has the set's size and members, and no repetition |
| Accounts.LockOrder | src/main/java/net/swined/revolut/storage/Account.java:46 | the lock order lists every participating account exactly once, sorted by id, and strictly ascending when the ids are distinct |
| Accounts.VerifyAll | src/main/java/net/swined/revolut/storage/Account.java:55 | the verify pass completes exactly when every delta verifies; otherwise it fails with the verification error of some account |
| Accounts.ExecuteAll | src/main/java/net/swined/revolut/storage/Account.java:56 | once every delta verified, each balance becomes old balance plus its delta and stays valid (non-negative, own currency) |
| Accounts.UpdateLocked | src/main/java/net/swined/revolut/storage/Account.java:49-58 | the locks are taken in the order given, each once. The accounts are then updated all-or-nothing: all deltas are added if all verify, otherwise none, with some account's verification error |
| Accounts.Update | src/main/java/net/swined/revolut/storage/Account.java:45-58 | all-or-nothing update of every account of the map; balances stay non-negative; the locks are taken in id order, each participating account once, and in strictly ascending id order when the ids are distinct |
| Accounts.PointwiseShiftsTotal | src/main/java/net/swined/revolut/storage/Account.java:41-43 | when every balance grew by a delta of its own currency, the total in each currency grew by the total of the deltas in that currency |
| Accounts.UpdateConservesTotal | src/main/java/net/swined/revolut/storage/Account.java:45-58 | a successful update moves the total balance in every currency by the sum of its deltas in that currency, so a transfer that sums to zero in every currency conserves every total; a failed one leaves every balance as it was |
| Accounts.Account.HashCode | src/main/java/net/swined/revolut/storage/Account.java:70-73 | `Objects.hash(id, currency)` in Java's 32-bit range |
| Accounts.Int32 | src/main/java/net/swined/revolut/storage/Account.java:72 | the result is in the `int` range and congruent to the input modulo 2^32, as Java wrap-around gives |
| Accounts.Account.Equals | src/main/java/net/swined/revolut/storage/Account.java:60-73 | accounts equal on (id, currency) have equal hash codes, so `equals` and `hashCode` agree as a hash-map key requires |
| Accounts.EqualsIsIdentity | src/main/java/net/swined/revolut/storage/Account.java:60-73 | `equals` on (id, currency) is reflexive, symmetric and transitive, and equal accounts hash equally |
| Monetary.PlusDefinedIffSameCurrency | src/main/java/net/swined/revolut/storage/Account.java:33 | adding money is defined exactly when the currencies agree, and keeps the currency |
| Operations.MapEquals | src/main/java/net/swined/revolut/storage/Operation.java:23-26 | the two-way entry comparison holds exactly when the maps are equal (same keys, same value per key), so it is symmetric |
| Operations.Operation.constructor | src/main/java/net/swined/revolut/storage/Operation.java:18-21 | a new operation has the given id and diff, has not run, and its status text is "not started" |
| Operations.Operation.Equals | src/main/java/net/swined/revolut/storage/Operation.java:47-53 | two operations are equal exactly when their ids are equal and their diffs are equal; `null` equals nothing |
| Operations.Operation.Collect | src/main/java/net/swined/revolut/storage/Operation.java:31-34 | the account-to-delta map is built exactly when every id resolves and every amount parses. Its keys are the resolved accounts and its values the parsed amounts. Otherwise it fails with the error of some failing entry |
| Operations.AppliedOnceFromUpdate | src/main/java/net/swined/revolut/storage/Operation.java:31-36 | running the account update on the collected map is the first application of the operation's diff |
| Operations.Operation.Run | src/main/java/net/swined/revolut/storage/Operation.java:30-36 | the body of the first `apply`. A resolution or parse failure is reported with no balance changed. Otherwise the result is the all-or-nothing update of the resolved accounts by the parsed deltas |
| Operations.Operation.RunAndRecord | src/main/java/net/swined/revolut/storage/Operation.java:29-40 | the first `apply` runs the operation, sets `done` whether it succeeded or threw a runtime exception, and records that exception |
| Operations.Operation.Apply | src/main/java/net/swined/revolut/storage/Operation.java:28-44 | after any `apply` the operation is done and reports its recorded outcome, and its status text becomes "done" or the message of the error it reports. The first call does what `AppliedOnce` describes. Every later call leaves the recorded error and the accounts it names untouched |
| Operations.ApplyTwice | src/main/java/net/swined/revolut/storage/Operation.java:28-44 | a second `apply` reports the same outcome as the first and moves no balance |
| Ledger.Storage.constructor | src/main/java/net/swined/revolut/storage/Storage.java:14-15 | the storage starts with both tables empty |
| Ledger.Storage.Create | src/main/java/net/swined/revolut/storage/Storage.java:17-26 | an empty id fails with 400 "account id is missing". A new id gets a fresh account with a zero balance. An existing id in the same currency is a no-op; in another currency it fails with 409. No entry or balance is ever replaced |
| Ledger.Storage.Get | src/main/java/net/swined/revolut/storage/Storage.java:28-35 | returns the stored account exactly when the id is present, and otherwise fails with 404 "account not found: <id>" |
| Ledger.Storage.Register | src/main/java/net/swined/revolut/storage/Storage.java:42-53 | the compute step stores a new operation for a new id and keeps a stored operation with an equal diff. A different diff fails with 409 "operation mismatch" and leaves the table unchanged |
| Ledger.Storage.ApplyStored | src/main/java/net/swined/revolut/storage/Storage.java:55 | applies the stored operation with `get` as resolver; accounts outside its diff keep their balances, and a finished operation replays its outcome and leaves every account untouched |
| Ledger.Storage.Update | src/main/java/net/swined/revolut/storage/Storage.java:37-56 | covers every case. An empty id fails with 400. A mismatching diff fails with 409 and leaves the stored operation and all balances unchanged. A replay reports the recorded outcome and changes nothing. A new id is registered with a fresh operation. Operations stored under other ids keep their state. A first run is the first application of the diff. The tables only grow |
| Ledger.ReplayAfterAnother | src/main/java/net/swined/revolut/storage/Storage.java:37-56 | replaying an accepted request after any other request (under another id, or a rejected one under the same id) reports the outcome of its first call again |
| Ledger.UpdateTwice | src/main/java/net/swined/revolut/storage/Storage.java:42-55 | repeating an accepted `update` with the same id and diff, whether the id was new or not, reports the outcome of the first call again. If the operation had already run, no balance moves in either call. Otherwise the first call is the first application of the diff (`AppliedOnce`) and the balances still match it after the second call |

## Left out

- Concurrency: `synchronized` blocks and methods, and the atomicity of `ConcurrentHashMap.putIfAbsent` and `compute`. Each call is one sequential step. Of the locking, only the order in which the locks are taken is kept. Deadlock freedom and linearisability are not modelled.
- Logging in `Storage.update` is left out.
- The HTTP server, JSON binding and request classes are not part of this model.
- `Money.parse` is a parameter `parse: string -> Result<Money>`. Decimal text, scale and rounding are not modelled; amounts are integers in minor units. `Money.toString` and the diff rendering in `Operation.toString` are left out. Only the status text is modelled.
- Currency codes are opaque: validating a code against ISO 4217 is a foreign call.
- `null` ids and diffs cannot be represented, so the `Objects.requireNonNull` checks and the null branch of the id guards are not modelled. An empty id is modelled.
- Operations.Operation.Apply: requires that the resolver returns, for each key, an account carrying that key as its id, in a valid state. `Storage.get` always satisfies this. So the duplicate-key exception of `Collectors.toMap`, and a resolver that returns `null`, are not modelled.
- Operations.Operation.RunAndRecord: only runtime exceptions are modelled. A `java.lang.Error` thrown by the first `apply` (a `StackOverflowError` from the recursive lock walk, whose depth is the number of accounts) still sets `done` in the `finally` block but records no error, so every later `apply` returns normally although no balance moved. The model does not capture that case.
- Accounts.Account.Execute: requires that `verify` passed for the delta, which is the only way the source calls it. The currency-mismatch exception `execute` could otherwise throw is not modelled.
- Accounts.CompareTo: compares Unicode characters, where Java compares UTF-16 code units. The order is the same for characters of the Basic Multilingual Plane.
- Money amounts are unbounded integers, as the `BigDecimal` amounts of the source are; no overflow arises on either side.
- Accounts.Account.HashCode: `String.hashCode` is modelled on Unicode characters, not UTF-16 code units. The hash of a currency is the hash of its code.
- Which failing entry's error is reported is left open, because hash-map iteration order is unspecified.
