/** Wallet balances, their sum, and what withdrawing from the oldest wallet on leaves to withdraw. */
module Balances {
  type Balances = map<nat, real>

  /** A wallet that does not exist holds nothing. */
  function BalanceAt(b: Balances, i: nat): real {
    if i in b then b[i] else 0.0
  }

  /** The total of the wallets numbered below `n`. */
  function SumTo(b: Balances, n: nat): real {
    if n == 0 then 0.0 else SumTo(b, n - 1) + BalanceAt(b, n - 1)
  }

  predicate NonNegative(b: Balances) {
    forall i :: i in b ==> 0.0 <= b[i]
  }

  lemma {:induction false} SumToAgrees(b: Balances, c: Balances, n: nat)
    requires forall i :: 0 <= i < n ==> BalanceAt(b, i) == BalanceAt(c, i)
    ensures SumTo(b, n) == SumTo(c, n)
  {
    if n != 0 {
      SumToAgrees(b, c, n - 1);
    }
  }

  /** Changing one wallet changes the total by as much. */
  lemma {:induction false} SumToChange(b: Balances, c: Balances, k: nat, n: nat)
    requires forall i :: 0 <= i < n && i != k ==> BalanceAt(b, i) == BalanceAt(c, i)
    ensures SumTo(c, n) == SumTo(b, n) + (if k < n then BalanceAt(c, k) - BalanceAt(b, k) else 0.0)
  {
    if k + 1 == n {
      SumToAgrees(b, c, n - 1);
    } else if n != 0 {
      SumToChange(b, c, k, n - 1);
    }
  }

  lemma {:induction false} SumToGrows(b: Balances, m: nat, n: nat)
    requires m <= n && NonNegative(b)
    ensures 0.0 <= SumTo(b, m) <= SumTo(b, n)
    decreases n
  {
    if m < n {
      SumToGrows(b, m, n - 1);
    } else if n != 0 {
      SumToGrows(b, n - 1, n - 1);
    }
  }

  lemma {:induction false} SumToBeyond(b: Balances, m: nat, n: nat)
    requires m <= n && forall i :: i in b ==> i < m
    ensures SumTo(b, n) == SumTo(b, m)
  {
    if m < n {
      SumToBeyond(b, m, n - 1);
    }
  }

  // -------------------------------------------------------------------------------------------

  /** One turn of the withdrawal loop: `remaining` after visiting a wallet with this balance. */
  function AfterWallet(remaining: real, balance: real): real {
    if remaining <= 0.0 || balance <= 0.0 then remaining
    else if balance > remaining then 0.0
    else remaining - balance
  }

  /** What remains to be withdrawn when the loop has visited the wallets below `n`. */
  function RemainingAt(b: Balances, request: real, n: nat): real {
    if n == 0 then request else AfterWallet(RemainingAt(b, request, n - 1), BalanceAt(b, n - 1))
  }

  lemma RemainingStarts(b: Balances, request: real)
    ensures RemainingAt(b, request, 0) == request
  {
  }

  lemma RemainingNext(b: Balances, request: real, n: nat)
    ensures RemainingAt(b, request, n + 1) == AfterWallet(RemainingAt(b, request, n), BalanceAt(b, n))
  {
  }

  lemma EmptyWalletAddsNothing(b: Balances, n: nat)
    ensures SumTo(b[n := 0.0], n + 1) == SumTo(b, n)
  {
    SumToAgrees(b, b[n := 0.0], n);
  }

  lemma {:induction false} RemainingIsWhatExceeds(b: Balances, request: real, n: nat)
    requires NonNegative(b) && 0.0 <= request
    ensures RemainingAt(b, request, n) == if request <= SumTo(b, n) then 0.0 else request - SumTo(b, n)
  {
    if n != 0 {
      RemainingIsWhatExceeds(b, request, n - 1);
      SumToGrows(b, n - 1, n);
    }
  }

  ghost predicate Ends(b: Balances, request: real) {
    exists turns: nat :: RemainingAt(b, request, turns) <= 0.0
  }

  /**
   The withdrawal loop ends exactly when the wallets together hold the request; otherwise something remains
   after any number of turns.
   */
  lemma LoopEndsExactly(b: Balances, request: real, walletIndex: nat)
    requires NonNegative(b) && 0.0 <= request
    requires forall i :: i in b ==> i < walletIndex
    ensures Ends(b, request) <==> request <= SumTo(b, walletIndex)
    ensures request <= SumTo(b, walletIndex) ==> RemainingAt(b, request, walletIndex) <= 0.0
  {
    forall turns: nat ensures RemainingAt(b, request, turns) <= 0.0 ==> request <= SumTo(b, walletIndex) {
      RemainingIsWhatExceeds(b, request, turns);
      if turns <= walletIndex {
        SumToGrows(b, turns, walletIndex);
      } else {
        SumToBeyond(b, walletIndex, turns);
      }
    }
    RemainingIsWhatExceeds(b, request, walletIndex);
  }
}
