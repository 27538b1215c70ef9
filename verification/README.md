# Bank ledger model

This is a Dafny model of the account and transaction core of a small console bank (`challenge.py`).
A client, identified by a document id, holds accounts. Each account has a balance that starts at 0 and a history of completed transactions.
A deposit is accepted only when its value is positive.
A withdrawal is accepted only when its value is positive and covered by the balance.
A current account adds two rules:
- a cap on the value of one withdrawal (500 by default);
- a lifetime cap on the number of withdrawals in its history (3 by default, never reset).

A transaction (`Deposit(v)` or `Withdraw(v)`) applies its account operation once. Only on success does it append a `(kind, value)` snapshot to the account's history.

Everything is immutable values and pure functions:

- `Histories` holds the record kind, the record, the append-only `History`, the withdrawal count and the deposit and withdrawal totals.
- `Accounts` holds `Account`, whose `Policy` is `Basic` or `Current(limit, withdrawalsLimit)`. Its operations `Deposit`, `BaseWithdraw` and `Withdraw` each return an `Outcome`: a `Status` plus the account afterwards. `Withdraw` dispatches on the policy, the way the source's override does. The `Status` names the reason the source prints (invalid amount, insufficient funds, limit exceeded, count exceeded). `Ok` is the source's `True`.
- `Transactions` holds the `Transaction` sum type, with `Apply` (the bare account operation) and `Register` (apply, then log on success).
- `Clients` holds `Client(docId, accounts)`, `AddAccount`, `MakeTransaction`, and the two lookups: the first client with a document id, and the client's first account. It also holds `Submit`, which is the front end's deposit/withdraw flow without its console prompts.
- `Invariants` holds the account invariant `Consistent`, its preservation under any sequence of registered transactions and under `Submit`, the history's append-only property, and the fact that the history gains exactly the snapshots of the transactions that succeeded. It also shows that direct deposits and withdrawals never make a balance negative.
- `Scenarios` holds worked sequences on a default current account.

Amounts are mathematical reals. The value the front end reads from the console becomes a parameter.

Two facts about the withdrawal rules of a current account (`challenge.py`, lines 119-127):
- The withdrawal-count cap counts every withdrawal in the account's history. It is a lifetime count and is never reset.
- The limit is checked before the count, and both are checked before the balance. So a withdrawal above the limit is refused as "limit exceeded" even when the balance would not cover it either (see `Scenarios.StatementScenario`).

## Model

| member | source | states |
|---|---|---|
| Histories.AddTransaction | challenge.py:46-53 | Appending adds exactly one record `(kind, value)` at the end; the earlier records are a prefix and are unchanged |
| Histories.WithdrawalCount | challenge.py:119 | The number of Withdraw records never exceeds the length of the history, and it is 0 exactly when the history holds no Withdraw record |
| Histories.WithdrawalCountIsIndexCount | challenge.py:119 | The withdrawal count is exactly the number of positions in the history that hold a Withdraw record |
| Histories.NetAppend | challenge.py:46-53 | Appending a record moves deposits-minus-withdrawals by exactly the record's signed value |
| Accounts.NewAccount | challenge.py:56-65 | A new base account carries the given number and owner, branch code "001", balance 0, an empty history and the base withdrawal rules |
| Accounts.NewCurrentAccount | challenge.py:113-116 | A new current account carries the given number and owner, branch code "001", balance 0, an empty history, and the given per-withdrawal limit and withdrawal cap |
| Accounts.NewDefaultCurrentAccount | challenge.py:113 | A current account opened with the defaults has balance 0, an empty history, branch code "001", a per-withdrawal limit of 500 and a cap of 3 withdrawals |
| Accounts.Account.Deposit | challenge.py:87-95 | Succeeds iff the value is positive; then the balance rises by exactly the value; otherwise the status is InvalidAmount and the account is unchanged; nothing but the balance ever changes; a non-negative balance stays non-negative |
| Accounts.Account.BaseWithdraw | challenge.py:97-110 | Succeeds iff 0 < value <= balance, lowering the balance by exactly the value; a value above the balance is InsufficientFunds (checked first), a non-positive covered value is InvalidAmount; refusals change nothing; a non-negative balance stays non-negative |
| Accounts.Account.Withdraw | challenge.py:118-131 | Succeeds iff the value is positive, covered, and (for a current account) within the limit with fewer recorded withdrawals than the cap; a current account reports LimitExceeded above the limit, otherwise CountExceeded at the cap, otherwise behaves exactly as the base rule; a base account behaves exactly as the base rule |
| Transactions.Transaction.Apply | challenge.py:154-172 | The transaction's account operation succeeds exactly under the deposit or withdraw rule, moves the balance by the signed value on success and changes nothing on failure |
| Transactions.Transaction.Register | challenge.py:154-172 | The operation is applied once: on success the history gains exactly the snapshot `(kind, value)` and the balance moves by the signed value; on failure the account, history included, is untouched; number, branch, owner and limits never change |
| Clients.AddAccount | challenge.py:14-15 | The account is appended at the end of the client's accounts; the earlier accounts and the document id are unchanged |
| Clients.MakeTransaction | challenge.py:17-18 | The status and the new account are those of registering the transaction on that account; every other account of the client is unchanged |
| Clients.FirstMatch | challenge.py:201-203 | None iff no client has the document id; otherwise the position of a matching client before which none matches |
| Clients.Matching | challenge.py:202 | The filtered clients all carry the document id and come from the list; the result is empty iff none matches, and its head is the first match |
| Clients.GetClientByDocId | challenge.py:201-203 | None iff no client has the document id; otherwise a client from the list with that id, and the first such |
| Clients.GetClientAccount | challenge.py:205-210 | None iff the client has no accounts; otherwise its first account |
| Clients.Submit | challenge.py:222-248 | ClientNotFound iff no client has the id, AccountNotFound iff the first match has no account, and then nothing changes; otherwise only the first account of the first matching client changes, to the result of registering the transaction on it |
| Invariants.NewAccountsAreConsistent | challenge.py:56-61 | A new base or current account, with any limits and with the defaults, has balance 0 and satisfies the account invariant |
| Invariants.RegisterPreservesConsistency | challenge.py:154-172 | Registering any transaction keeps the invariant: balance non-negative and equal to deposits minus withdrawals, every record positive, no prefix of the history net-negative, and on a current account at most the capped number of withdrawals, each within the limit |
| Invariants.RegisterAll | challenge.py:154-172 | A sequence of registered transactions never changes an account's number, branch, owner or limits |
| Invariants.RegisterAllPreservesConsistency | challenge.py:154-172 | The invariant holds after any sequence of registered transactions |
| Invariants.DefaultCurrentAccountLedger | challenge.py:113-131 | On a current account opened with the defaults and driven only through transactions, the balance is non-negative and equals deposits minus withdrawals, there are at most 3 withdrawals, each at most 500, and every record is positive |
| Invariants.HistoryHoldsExactlySuccesses | challenge.py:154-172 | After any sequence of registered transactions the history is the old history followed by exactly the snapshots of the transactions whose status was Ok, in submission order: a refused transaction leaves no record and a successful one exactly one |
| Invariants.RegisterAllOnlyAppends | challenge.py:154-172 | Any sequence of registered transactions keeps the old history as a prefix and appends a subsequence of the submitted transactions' snapshots, in order |
| Invariants.ApplyAllKeepsBalanceNonNegative | challenge.py:87-131 | Any sequence of deposits and withdrawals called directly on either kind of account keeps the balance non-negative and changes nothing but the balance |
| Invariants.AddAccountPreservesConsistency | challenge.py:14-15 | Adding a consistent account to one client keeps every account of every client consistent |
| Invariants.SubmitPreservesConsistency | challenge.py:222-248 | A submission through the front end keeps every account of every client consistent |
| Scenarios.StatementScenario | challenge.py:87-131 | Deposit 200 then withdraw 50 succeed (balance 200, then 150; history of length 1, then 2); withdrawing 1000 is refused as LimitExceeded and withdrawing -5 as InvalidAmount, both leaving the account unchanged |
| Scenarios.FourthWithdrawalRefused | challenge.py:118-131 | With 1000 deposited, three withdrawals of 100 succeed and the fourth is refused as CountExceeded, leaving 700 |
| Scenarios.OverLimitWithdrawalRefused | challenge.py:118-131 | A single withdrawal of 600 is refused as LimitExceeded even with 1000 in the account |

## Left out

- Console output. The messages printed by `deposit` and `withdraw` become the `Status` value.
- Console input and the menu:
  - `menu`, `new_window`, the `main` dispatch loop;
  - the prompts in `get_client`, `deposit`, `withdraw`, `create_client` and `create_account`;
  - `extract`, `list_accounts`, `list_clients` and the `__str__` formatting.
  These are presentation only. The read value and document id become parameters of `Clients.Submit`.
- Client registration (`create_client`), account registration (`create_account`), the global account list and its sequential numbering. These belong to the front end. The model keeps the constructors (`Accounts.NewAccount`, `Accounts.NewCurrentAccount`, `Accounts.NewDefaultCurrentAccount`) and `Clients.AddAccount`.
- The timestamp in each history record. It is the wall clock, so a record is `(kind, value)` only.
- Floating-point amounts. Values are reals, so rounding, NaN and infinities are not modelled: an infinite deposit or a NaN value behaves differently in the source.
- Client display fields (name, birth date, address). They carry no behaviour.
- The split between the base `Client` class (address and accounts) and its subclass `PersonalAccount` (which adds the document id). The model merges them into one `Client(docId, accounts)`, because every client the front end creates is a `PersonalAccount`.
- The return values of `register` and `make_transaction`. Both return nothing in the source. The model returns the status of the account operation alongside the new account, so a caller sees what the source only prints.
- The account's reference to its client object, replaced by the client's document id (`owner`).
- The abstract base class and the class-name reflection, replaced by the `Transaction` and `Kind` sum types.
- Clients.MakeTransaction: takes the position of one of the client's own accounts. The source also accepts an account the client does not hold; in a value model that case is just `Transactions.Transaction.Register` on that account.
- Object identity. Python accounts are shared references. The model writes the changed account back into its client. It therefore assumes, as the front end guarantees, that no account object is held by two clients.
