/** What stays true of an account that is only ever changed through
    transactions: the balance never goes negative, the history holds only
    operations that succeeded, a current account's withdrawals respect its
    limits, and the balance is what the history accounts for. */
module Invariants {
  import H = Histories
  import opened Accounts
  import opened Transactions
  import opened Clients

  /** Every recorded value is positive: no refused operation was logged. */
  predicate AllPositive(records: seq<H.Record>) {
    forall i :: 0 <= i < |records| ==> records[i].value > 0.0
  }

  /** Replaying the log never takes the balance below zero. */
  predicate PrefixesSolvent(records: seq<H.Record>) {
    forall k :: 0 <= k <= |records| ==> H.Net(records[..k]) >= 0.0
  }

  /** Every recorded withdrawal is within the per-withdrawal limit. */
  predicate WithdrawalsWithin(records: seq<H.Record>, limit: real) {
    forall i :: 0 <= i < |records| && records[i].kind == H.Withdraw ==> records[i].value <= limit
  }

  function Max0(n: int): nat {
    if n < 0 then 0 else n
  }

  /** The account invariant. */
  predicate Consistent(a: Account) {
    var records := a.history.transactions;
    && a.balance >= 0.0
    && a.balance == H.Net(records)
    && AllPositive(records)
    && PrefixesSolvent(records)
    && (a.policy.Current? ==>
          && H.WithdrawalCount(records) <= Max0(a.policy.withdrawalsLimit)
          && WithdrawalsWithin(records, a.policy.limit))
  }

  /** A new account, of either kind and with any limits, starts with
      balance 0 and satisfies the invariant. */
  lemma NewAccountsAreConsistent(number: int, owner: string, limit: real, withdrawalsLimit: int)
    ensures NewAccount(number, owner).balance == 0.0
    ensures Consistent(NewAccount(number, owner))
    ensures NewCurrentAccount(number, owner, limit, withdrawalsLimit).balance == 0.0
    ensures Consistent(NewCurrentAccount(number, owner, limit, withdrawalsLimit))
    ensures Consistent(NewDefaultCurrentAccount(number, owner))
  {
    var empty: seq<H.Record> := [];
    assert empty[..0] == empty;
  }

  /** Registering any transaction preserves the invariant. */
  lemma RegisterPreservesConsistency(t: Transaction, a: Account)
    requires Consistent(a)
    ensures Consistent(t.Register(a).account)
  {
    var o := t.Register(a);
    if o.Succeeded() {
      var records := a.history.transactions;
      var r := t.Snapshot();
      var records' := records + [r];
      assert o.account.history.transactions == records';
      H.NetAppend(records, r);
      H.WithdrawalCountAppend(records, r);
      forall k | 0 <= k <= |records'|
        ensures H.Net(records'[..k]) >= 0.0
      {
        if k <= |records| {
          assert records'[..k] == records[..k];
        } else {
          assert records'[..k] == records';
        }
      }
      if t.Withdraw? && a.policy.Current? {
        assert H.WithdrawalCount(records) < a.policy.withdrawalsLimit;
      }
    }
  }

  /** Registers each transaction in turn. */
  function RegisterAll(a: Account, ts: seq<Transaction>): (a': Account)
    ensures a'.number == a.number && a'.agency == a.agency && a'.owner == a.owner
    ensures a'.policy == a.policy
    decreases |ts|
  {
    if ts == [] then a else RegisterAll(ts[0].Register(a).account, ts[1..])
  }

  /** The invariant holds after any sequence of registered transactions. */
  lemma {:induction false} RegisterAllPreservesConsistency(a: Account, ts: seq<Transaction>)
    requires Consistent(a)
    ensures Consistent(RegisterAll(a, ts))
    decreases |ts|
  {
    if ts != [] {
      RegisterPreservesConsistency(ts[0], a);
      RegisterAllPreservesConsistency(ts[0].Register(a).account, ts[1..]);
    }
  }

  /** A default current account driven only through transactions never
      goes negative, never holds more than three withdrawals, never a
      withdrawal above 500, and its balance is deposits minus
      withdrawals in its history. */
  lemma DefaultCurrentAccountLedger(number: int, owner: string, ts: seq<Transaction>)
    ensures var a := RegisterAll(NewDefaultCurrentAccount(number, owner), ts);
            var records := a.history.transactions;
            && a.balance >= 0.0
            && a.balance == H.Total(records, H.Deposit) - H.Total(records, H.Withdraw)
            && H.WithdrawalCount(records) <= DefaultWithdrawalsLimit
            && WithdrawalsWithin(records, DefaultLimit)
            && AllPositive(records)
  {
    NewAccountsAreConsistent(number, owner, DefaultLimit, DefaultWithdrawalsLimit);
    RegisterAllPreservesConsistency(NewDefaultCurrentAccount(number, owner), ts);
  }

  /** The snapshots of a sequence of transactions. */
  function Snapshots(ts: seq<Transaction>): (rs: seq<H.Record>)
    ensures |rs| == |ts|
    ensures forall i :: 0 <= i < |ts| ==> rs[i] == ts[i].Snapshot()
  {
    if ts == [] then [] else [ts[0].Snapshot()] + Snapshots(ts[1..])
  }

  /** `xs` is `ys` with some elements left out. */
  predicate IsSubsequence<T(==)>(xs: seq<T>, ys: seq<T>)
    decreases |ys|
  {
    if ys == [] then xs == []
    else (xs != [] && xs[0] == ys[0] && IsSubsequence(xs[1..], ys[1..])) || IsSubsequence(xs, ys[1..])
  }

  /** The history only grows: the old log is a prefix of the new one, and
      what was appended is the submitted transactions' snapshots with the
      refused ones left out, in submission order. */
  lemma {:induction false} RegisterAllOnlyAppends(a: Account, ts: seq<Transaction>)
    ensures var records := RegisterAll(a, ts).history.transactions;
            && |a.history.transactions| <= |records|
            && records[..|a.history.transactions|] == a.history.transactions
            && IsSubsequence(records[|a.history.transactions|..], Snapshots(ts))
    decreases |ts|
  {
    var before := a.history.transactions;
    var records := RegisterAll(a, ts).history.transactions;
    if ts == [] {
      assert records[|before|..] == [];
    } else {
      var o := ts[0].Register(a);
      var mid := o.account.history.transactions;
      RegisterAllOnlyAppends(o.account, ts[1..]);
      assert Snapshots(ts)[1..] == Snapshots(ts[1..]);
      if o.Succeeded() {
        assert mid == before + [ts[0].Snapshot()];
        assert records[..|before|] == mid[..|before|];
        var added := records[|before|..];
        assert added[0] == ts[0].Snapshot();
        assert added[1..] == records[|mid|..];
      } else {
        assert mid == before;
      }
    }
  }

  /** The status each transaction of the sequence got when registered in turn. */
  function RegisterAllStatuses(a: Account, ts: seq<Transaction>): (ss: seq<Status>)
    ensures |ss| == |ts|
    decreases |ts|
  {
    if ts == [] then []
    else var o := ts[0].Register(a); [o.status] + RegisterAllStatuses(o.account, ts[1..])
  }

  /** The snapshots of the transactions whose status is Ok, in order. */
  function AcceptedSnapshots(ts: seq<Transaction>, ss: seq<Status>): (rs: seq<H.Record>)
    requires |ss| == |ts|
    ensures |rs| <= |ts|
    decreases |ts|
  {
    if ts == [] then []
    else (if ss[0] == Ok then [ts[0].Snapshot()] else []) + AcceptedSnapshots(ts[1..], ss[1..])
  }

  /** The history gains exactly the snapshots of the transactions reported
      Ok, in submission order, and nothing for a refused one. */
  lemma {:induction false} HistoryHoldsExactlySuccesses(a: Account, ts: seq<Transaction>)
    ensures RegisterAll(a, ts).history.transactions
            == a.history.transactions + AcceptedSnapshots(ts, RegisterAllStatuses(a, ts))
    decreases |ts|
  {
    if ts != [] {
      var o := ts[0].Register(a);
      var ss := RegisterAllStatuses(a, ts);
      assert ss[1..] == RegisterAllStatuses(o.account, ts[1..]);
      HistoryHoldsExactlySuccesses(o.account, ts[1..]);
      if o.Succeeded() {
        assert o.account.history.transactions == a.history.transactions + [ts[0].Snapshot()];
      }
    }
  }

  /** Applies each transaction's account operation in turn, without
      logging: the account methods called directly. */
  function ApplyAll(a: Account, ts: seq<Transaction>): Account
    decreases |ts|
  {
    if ts == [] then a else ApplyAll(ts[0].Apply(a).account, ts[1..])
  }

  /** Any sequence of deposits and withdrawals called directly on an
      account of either kind keeps a non-negative balance non-negative and
      leaves the history and everything else but the balance untouched. */
  lemma {:induction false} ApplyAllKeepsBalanceNonNegative(a: Account, ts: seq<Transaction>)
    requires a.balance >= 0.0
    ensures ApplyAll(a, ts).balance >= 0.0
    ensures ApplyAll(a, ts).SameBut(a)
    decreases |ts|
  {
    if ts != [] {
      ApplyAllKeepsBalanceNonNegative(ts[0].Apply(a).account, ts[1..]);
    }
  }

  /** Every account every client holds satisfies the invariant. */
  predicate AllConsistent(clients: seq<Client>) {
    forall k, i :: 0 <= k < |clients| && 0 <= i < |clients[k].accounts| ==> Consistent(clients[k].accounts[i])
  }

  /** Adding a consistent account to one client keeps every account of
      every client consistent. */
  lemma AddAccountPreservesConsistency(clients: seq<Client>, k: nat, a: Account)
    requires AllConsistent(clients)
    requires k < |clients|
    requires Consistent(a)
    ensures AllConsistent(clients[k := AddAccount(clients[k], a)])
  {
  }

  /** A submission through the front end keeps every account consistent. */
  lemma SubmitPreservesConsistency(clients: seq<Client>, docId: string, t: Transaction)
    requires AllConsistent(clients)
    ensures AllConsistent(Submit(clients, docId, t).1)
  {
    var r := Submit(clients, docId, t);
    if r.0.Registered? {
      var k := FirstMatch(clients, docId).value;
      RegisterPreservesConsistency(t, clients[k].accounts[0]);
      assert forall i :: 1 <= i < |r.1[k].accounts| ==> r.1[k].accounts[i] == clients[k].accounts[i];
    }
  }
}
