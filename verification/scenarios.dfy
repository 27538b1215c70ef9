/** Worked sequences of transactions on a current account opened with the
    default limits (500 per withdrawal, 3 withdrawals). */
module Scenarios {
  import H = Histories
  import opened Accounts
  import opened Transactions

  /** Deposit 200, withdraw 50, then try 1000 and -5. The 1000 is refused
      for exceeding the per-withdrawal limit, which is checked before the
      balance; the -5 is refused as an invalid amount. Refusals change
      nothing. */
  lemma StatementScenario()
    ensures var a0 := NewDefaultCurrentAccount(1, "12345678900");
            var o1 := Deposit(200.0).Register(a0);
            var o2 := Withdraw(50.0).Register(o1.account);
            var o3 := Withdraw(1000.0).Register(o2.account);
            var o4 := Withdraw(-5.0).Register(o3.account);
            && o1.status == Ok && o1.account.balance == 200.0 && |o1.account.history.transactions| == 1
            && o2.status == Ok && o2.account.balance == 150.0 && |o2.account.history.transactions| == 2
            && o3.status == LimitExceeded && o3.account == o2.account
            && o4.status == InvalidAmount && o4.account == o2.account
            && o2.account.history.transactions == [H.Record(H.Deposit, 200.0), H.Record(H.Withdraw, 50.0)]
  {
    var a0 := NewDefaultCurrentAccount(1, "12345678900");
    var o1 := Deposit(200.0).Register(a0);
    assert o1.account.history.transactions == [H.Record(H.Deposit, 200.0)];
    var o2 := Withdraw(50.0).Register(o1.account);
    assert o2.account.history.transactions == [H.Record(H.Deposit, 200.0), H.Record(H.Withdraw, 50.0)];
  }

  /** With 1000 deposited, three withdrawals of 100 succeed and the fourth
      is refused for the withdrawal count although the balance covers it. */
  lemma FourthWithdrawalRefused()
    ensures var a0 := Deposit(1000.0).Register(NewDefaultCurrentAccount(1, "12345678900")).account;
            var o1 := Withdraw(100.0).Register(a0);
            var o2 := Withdraw(100.0).Register(o1.account);
            var o3 := Withdraw(100.0).Register(o2.account);
            var o4 := Withdraw(100.0).Register(o3.account);
            && o1.status == Ok && o2.status == Ok && o3.status == Ok
            && o4.status == CountExceeded
            && o4.account.balance == 700.0
  {
    var w := H.Record(H.Withdraw, 100.0);
    var a0 := Deposit(1000.0).Register(NewDefaultCurrentAccount(1, "12345678900")).account;
    var d := a0.history.transactions;
    assert d == [H.Record(H.Deposit, 1000.0)];
    assert H.WithdrawalCount(d) == 0;
    var o1 := Withdraw(100.0).Register(a0);
    H.WithdrawalCountAppend(d, w);
    var o2 := Withdraw(100.0).Register(o1.account);
    H.WithdrawalCountAppend(d + [w], w);
    var o3 := Withdraw(100.0).Register(o2.account);
    H.WithdrawalCountAppend(d + [w] + [w], w);
    assert o3.account.history.transactions == d + [w] + [w] + [w];
  }

  /** A single withdrawal of 600 is refused for exceeding the limit, even
      with 1000 in the account and no withdrawal made yet. */
  lemma OverLimitWithdrawalRefused()
    ensures var a0 := Deposit(1000.0).Register(NewDefaultCurrentAccount(1, "12345678900")).account;
            var o := Withdraw(600.0).Register(a0);
            o.status == LimitExceeded && o.account == a0
  {
  }
}
