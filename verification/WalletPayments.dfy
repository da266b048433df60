/** The payments that wallets receive, and the two results of the simulation that they determine. */
module WalletPayments {
  import opened Balances
  import opened Sequences

  /** The balance is that of the receiving wallet after the payment. */
  datatype Payment = Deposit(wallet: nat, balance: real) | Transfer(source: nat, wallet: nat, balance: real)

  function TransferCountOf(payments: seq<Payment>): nat {
    if payments == [] then 0
    else TransferCountOf(payments[..|payments| - 1]) + (if payments[|payments| - 1].Transfer? then 1 else 0)
  }

  /**
   The biggest balance is that of some payment and of none a larger one, or zero before the first payment; the
   number of transfers counts the payments that are transfers.
   */
  predicate Tally(payments: seq<Payment>, biggest: real, transfers: nat) {
    && (forall p :: p in payments ==> p.balance <= biggest)
    && (biggest == 0.0 || exists p :: p in payments && p.balance == biggest)
    && transfers == TransferCountOf(payments)
  }

  lemma NothingPaid()
    ensures Tally([], 0.0, 0)
  {
  }

  lemma TallyNext(payments: seq<Payment>, biggest: real, transfers: nat, p: Payment)
    requires Tally(payments, biggest, transfers)
    ensures Tally(payments + [p], if p.balance > biggest then p.balance else biggest,
                  transfers + (if p.Transfer? then 1 else 0))
  {
    var all := payments + [p];
    assert all[..|all| - 1] == payments && p in all;
    if q :| q in payments && q.balance == biggest {
      assert q in all;
    }
  }

  /** One transfer to each of the targets. */
  function TransfersTo(source: nat, targets: seq<nat>, b: Balances): seq<Payment> {
    seq(|targets|, k requires 0 <= k < |targets| => Transfer(source, targets[k], BalanceAt(b, targets[k])))
  }

  lemma NoTransfers(source: nat, targets: seq<nat>, b: Balances)
    ensures TransfersTo(source, targets[..0], b) == TransfersTo(source, [], b) == []
  {
  }

  /** A target that comes next does not change the balances of those before it. */
  lemma TransfersNext(source: nat, targets: seq<nat>, k: nat, b: Balances, balance: real)
    requires Distinct(targets) && k < |targets|
    ensures TransfersTo(source, targets[..k + 1], b[targets[k] := balance])
            == TransfersTo(source, targets[..k], b) + [Transfer(source, targets[k], balance)]
  {
  }

  lemma SameTransfers(source: nat, targets: seq<nat>, b: Balances, c: Balances)
    requires forall t :: t in targets ==> BalanceAt(b, t) == BalanceAt(c, t)
    ensures TransfersTo(source, targets, b) == TransfersTo(source, targets, c)
  {
  }
}
