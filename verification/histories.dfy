/** The per-account log of completed transactions.
    A record is a snapshot of the transaction's kind and value; the
    wall-clock timestamp the source also stores is not modelled. */
module Histories {

  /** The kind of a completed transaction, in place of the class name
      the source stores as a string. */
  datatype Kind = Deposit | Withdraw

  /** One completed transaction: its kind and its value. */
  datatype Record = Record(kind: Kind, value: real) {

    /** The effect of the record on the balance it was applied to. */
    function Signed(): real {
      if kind == Deposit then value else -value
    }
  }

  /** The append-only, chronological log of one account. */
  datatype History = History(transactions: seq<Record>)

  /** The history of a freshly created account. */
  const Empty: History := History([])

  /** Appends a snapshot of a completed transaction; earlier records are
      never touched. */
  function AddTransaction(h: History, kind: Kind, value: real): (h': History)
    ensures |h'.transactions| == |h.transactions| + 1
    ensures h'.transactions[..|h.transactions|] == h.transactions
    ensures h'.transactions[|h.transactions|] == Record(kind, value)
  {
    History(h.transactions + [Record(kind, value)])
  }

  /** How many records in the log are withdrawals. */
  function WithdrawalCount(records: seq<Record>): (n: nat)
    ensures n <= |records|
    ensures n == 0 <==> forall i :: 0 <= i < |records| ==> records[i].kind != Withdraw
  {
    if records == [] then 0
    else (if records[0].kind == Withdraw then 1 else 0) + WithdrawalCount(records[1..])
  }

  /** The positions of the log that hold a withdrawal. */
  function WithdrawalIndices(records: seq<Record>): set<int>
  {
    set i | 0 <= i < |records| && records[i].kind == Withdraw
  }

  /** The withdrawal count is exactly the number of positions holding a
      Withdraw record. */
  lemma {:induction false} WithdrawalCountIsIndexCount(records: seq<Record>)
    ensures WithdrawalCount(records) == |WithdrawalIndices(records)|
    decreases |records|
  {
    if records != [] {
      var p := records[..|records| - 1];
      var x := records[|records| - 1];
      assert records == p + [x];
      WithdrawalCountIsIndexCount(p);
      WithdrawalCountAppend(p, x);
      if x.kind == Withdraw {
        assert WithdrawalIndices(records) == WithdrawalIndices(p) + {|p|};
        assert |p| !in WithdrawalIndices(p);
      } else {
        assert WithdrawalIndices(records) == WithdrawalIndices(p);
      }
    }
  }

  /** The sum of the values of the records of one kind. */
  function Total(records: seq<Record>, kind: Kind): real
  {
    if records == [] then 0.0
    else (if records[0].kind == kind then records[0].value else 0.0) + Total(records[1..], kind)
  }

  /** Deposits minus withdrawals: the balance the log accounts for. */
  function Net(records: seq<Record>): real
  {
    Total(records, Deposit) - Total(records, Withdraw)
  }

  lemma {:induction false} TotalAppend(records: seq<Record>, r: Record, kind: Kind)
    ensures Total(records + [r], kind) == Total(records, kind) + (if r.kind == kind then r.value else 0.0)
  {
    if records == [] {
      assert records + [r] == [r];
      assert [r][1..] == [];
    } else {
      assert (records + [r])[1..] == records[1..] + [r];
      TotalAppend(records[1..], r, kind);
    }
  }

  lemma {:induction false} WithdrawalCountAppend(records: seq<Record>, r: Record)
    ensures WithdrawalCount(records + [r]) == WithdrawalCount(records) + (if r.kind == Withdraw then 1 else 0)
  {
    if records == [] {
      assert records + [r] == [r];
      assert [r][1..] == [];
    } else {
      assert (records + [r])[1..] == records[1..] + [r];
      WithdrawalCountAppend(records[1..], r);
    }
  }

  /** Appending a record moves the net balance by exactly the record's
      signed value. */
  lemma NetAppend(records: seq<Record>, r: Record)
    ensures Net(records + [r]) == Net(records) + r.Signed()
  {
    TotalAppend(records, r, Deposit);
    TotalAppend(records, r, Withdraw);
  }
}
