/** Accounts and their guarded balance updates.
    The base account accepts any positive deposit and any positive
    withdrawal the balance covers; a current account further caps the
    value of one withdrawal and the number of withdrawals in its history. */
module Accounts {
  import opened Histories

  /** Why an operation was refused, or Ok. The source prints one message
      per reason and hands back only a boolean. */
  datatype Status = Ok | InvalidAmount | InsufficientFunds | LimitExceeded | CountExceeded

  /** The withdrawal rules of an account: the base rules, or those of a
      current account with a per-withdrawal limit and a lifetime cap on
      the number of withdrawals. */
  datatype Policy = Basic | Current(limit: real, withdrawalsLimit: int)

  /** The branch code every account carries. */
  const Agency: string := "001"

  /** The defaults a current account is opened with. */
  const DefaultLimit: real := 500.0
  const DefaultWithdrawalsLimit: int := 3

  /** The result of an account operation: its status and the account after it. */
  datatype Outcome = Outcome(status: Status, account: Account) {
    predicate Succeeded() {
      status == Ok
    }
  }

  /** An account; `owner` is the document id of the owning client. */
  datatype Account = Account(
    number: int,
    agency: string,
    owner: string,
    balance: real,
    history: History,
    policy: Policy)
  {

    /** Everything but the balance is the same in `this` and `other`. */
    predicate SameBut(other: Account) {
      && number == other.number
      && agency == other.agency
      && owner == other.owner
      && history == other.history
      && policy == other.policy
    }

    /** Deposit: only a positive value is accepted, and it is added to
        the balance. */
    function Deposit(value: real): (o: Outcome)
      ensures o.Succeeded() <==> value > 0.0
      ensures !o.Succeeded() ==> o.status == InvalidAmount && o.account == this
      ensures o.account.SameBut(this)
      ensures o.Succeeded() ==> o.account.balance - balance == value
      ensures balance >= 0.0 ==> o.account.balance >= 0.0
    {
      if value > 0.0 then Outcome(Ok, this.(balance := balance + value))
      else Outcome(InvalidAmount, this)
    }

    /** The base withdrawal rule: a positive value no larger than the
        balance is taken from it. Insufficient funds is checked first. */
    function BaseWithdraw(value: real): (o: Outcome)
      ensures o.Succeeded() <==> 0.0 < value <= balance
      ensures value > balance ==> o.status == InsufficientFunds
      ensures value <= balance && value <= 0.0 ==> o.status == InvalidAmount
      ensures !o.Succeeded() ==> o.account == this
      ensures o.account.SameBut(this)
      ensures o.Succeeded() ==> balance - o.account.balance == value
      ensures balance >= 0.0 ==> o.account.balance >= 0.0
    {
      if value > balance then Outcome(InsufficientFunds, this)
      else if value > 0.0 then Outcome(Ok, this.(balance := balance - value))
      else Outcome(InvalidAmount, this)
    }

    /** When a withdrawal of `value` is allowed, stated over the whole
        rule set at once. */
    predicate WithdrawPermitted(value: real) {
      && 0.0 < value <= balance
      && (policy.Current? ==>
            && value <= policy.limit
            && WithdrawalCount(history.transactions) < policy.withdrawalsLimit)
    }

    /** Withdraw, dispatched on the account's kind. A current account
        refuses a value above its limit first, then a withdrawal once the
        history already holds the capped number of withdrawals (counted
        over the whole history, never reset), and otherwise applies the
        base rule. */
    function Withdraw(value: real): (o: Outcome)
      ensures o.Succeeded() <==> WithdrawPermitted(value)
      ensures !o.Succeeded() ==> o.account == this
      ensures o.account.SameBut(this)
      ensures o.Succeeded() ==> balance - o.account.balance == value
      ensures balance >= 0.0 ==> o.account.balance >= 0.0
      ensures policy.Basic? ==> o == BaseWithdraw(value)
      ensures policy.Current? && value > policy.limit ==> o.status == LimitExceeded
      ensures policy.Current? && value <= policy.limit
              && WithdrawalCount(history.transactions) >= policy.withdrawalsLimit
              ==> o.status == CountExceeded
      ensures policy.Current? && value <= policy.limit
              && WithdrawalCount(history.transactions) < policy.withdrawalsLimit
              ==> o == BaseWithdraw(value)
    {
      match policy
      case Basic => BaseWithdraw(value)
      case Current(limit, withdrawalsLimit) =>
        var withdrawals := WithdrawalCount(history.transactions);
        if value > limit then Outcome(LimitExceeded, this)
        else if withdrawals >= withdrawalsLimit then Outcome(CountExceeded, this)
        else BaseWithdraw(value)
    }
  }

  /** A base account: balance 0 and an empty history. */
  function NewAccount(number: int, owner: string): (a: Account)
    ensures a.number == number && a.owner == owner && a.agency == Agency
    ensures a.balance == 0.0 && a.history == Empty
    ensures a.policy == Basic
  {
    Account(number, Agency, owner, 0.0, Empty, Basic)
  }

  /** A current account with the given limits. */
  function NewCurrentAccount(number: int, owner: string, limit: real, withdrawalsLimit: int): (a: Account)
    ensures a.number == number && a.owner == owner && a.agency == Agency
    ensures a.balance == 0.0 && a.history == Empty
    ensures a.policy == Current(limit, withdrawalsLimit)
  {
    Account(number, Agency, owner, 0.0, Empty, Current(limit, withdrawalsLimit))
  }

  /** A current account with the default limits. */
  function NewDefaultCurrentAccount(number: int, owner: string): (a: Account)
    ensures a.number == number && a.owner == owner && a.agency == "001"
    ensures a.balance == 0.0 && a.history.transactions == []
    ensures a.policy == Current(500.0, 3)
  {
    NewCurrentAccount(number, owner, DefaultLimit, DefaultWithdrawalsLimit)
  }
}
