/** Transactions: a tagged value that is applied to an account once and,
    on success only, logged in the account's history. */
module Transactions {
  import H = Histories
  import opened Accounts

  datatype Transaction = Deposit(value: real) | Withdraw(value: real) {

    /** The kind recorded in the history for this transaction. */
    function Kind(): (k: H.Kind)
      ensures k == H.Deposit <==> Deposit?
    {
      if Deposit? then H.Deposit else H.Withdraw
    }

    /** The snapshot the history keeps of this transaction. */
    function Snapshot(): H.Record {
      H.Record(Kind(), value)
    }

    /** The account operation this transaction stands for, without logging. */
    function Apply(a: Account): (o: Outcome)
      ensures o.Succeeded() <==> (Deposit? && value > 0.0) || (Withdraw? && a.WithdrawPermitted(value))
      ensures o.account.SameBut(a)
      ensures !o.Succeeded() ==> o.account == a
      ensures o.Succeeded() ==> o.account.balance == a.balance + Snapshot().Signed()
    {
      match this
      case Deposit(v) => a.Deposit(v)
      case Withdraw(v) => a.Withdraw(v)
    }

    /** Apply the operation once; only if it succeeded, append this
        transaction's snapshot to the account's history. */
    function Register(a: Account): (o: Outcome)
      ensures o.status == Apply(a).status
      ensures o.Succeeded() <==> (Deposit? && value > 0.0) || (Withdraw? && a.WithdrawPermitted(value))
      ensures !o.Succeeded() ==> o == Outcome(o.status, a)
      ensures o.Succeeded() ==> o.account.history.transactions == a.history.transactions + [Snapshot()]
      ensures o.Succeeded() ==> o.account.balance == a.balance + Snapshot().Signed()
      ensures o.account.number == a.number && o.account.agency == a.agency
      ensures o.account.owner == a.owner && o.account.policy == a.policy
    {
      var applied := Apply(a);
      if applied.Succeeded() then
        var after := applied.account;
        Outcome(Ok, after.(history := H.AddTransaction(after.history, Kind(), value)))
      else
        applied
    }
  }
}
