/**
 The simulation of wallets and operators. Random choices are arbitrary; amounts are real numbers. The balances
 keep the books, the indexes agree, and no live operator is lost, day after day.
 */
module Wallets {
  import opened Arithmetic
  import opened Balances
  import opened OperatorSchedule
  import opened Sequences
  import opened WalletClosing
  import opened WalletIndexes
  import opened WalletPayments
  import RandomSample

  const DAYS_TO_UNSTAKE := 60
  const OPERATOR_COUNT := 2000
  const WALLET_SIZE := 100
  const WALLET_TRANSFER_MAX := 200.0

  /** The wallets that can take over the balance of a closing wallet. */
  function Eligible(balances: Balances, walletStakers: Members, wallet: nat): set<nat> {
    set i | && i in balances && balances[i] > WALLET_MIN_BTC
            && i in walletStakers && |walletStakers[i]| >= HEARTBEAT
            && i != wallet
  }

  /** More than 1 coin and at least 70 staking operators. */
  lemma EligibleInNumbers(balances: Balances, walletStakers: Members, wallet: nat, i: nat)
    ensures i in Eligible(balances, walletStakers, wallet)
            <==> && i != wallet
                 && i in balances && 1.0 < balances[i]
                 && i in walletStakers && 70 <= |walletStakers[i]|
  {
  }

  lemma OwnBalanceDoesNotMatter(b: Balances, walletStakers: Members, wallet: nat, balance: real)
    ensures Eligible(b[wallet := balance], walletStakers, wallet) == Eligible(b, walletStakers, wallet)
  {
  }

  function Ceil(x: real): int {
    if x.Floor as real == x then x.Floor else x.Floor + 1
  }

  /** Each target has the amount more, and nothing else changed. */
  predicate Received(before: Balances, after: Balances, targets: seq<nat>, amount: real) {
    && after.Keys == before.Keys
    && forall i :: i in before ==> after[i] == before[i] + (if i in targets then amount else 0.0)
  }

  lemma NothingReceived(b: Balances, amount: real)
    ensures Received(b, b, [], amount)
  {
  }

  lemma ReceivedNext(before: Balances, now: Balances, targets: seq<nat>, k: nat, amount: real)
    requires Distinct(targets) && k < |targets| && targets[k] in before
    requires Received(before, now, targets[..k], amount)
    ensures targets[k] in now
    ensures Received(before, now[targets[k] := now[targets[k]] + amount], targets[..k + 1], amount)
  {
    TakeNext(targets, k);
    assert targets[k] !in targets[..k];
  }

  /** Into how many parts a positive balance is split. */
  function TransferCount(balance: real, targets: nat): (count: nat)
    requires 0.0 < balance
    ensures count <= targets && (count == 0 <==> targets == 0)
  {
    assert 0.0 < balance / WALLET_TRANSFER_MAX;
    Min(targets, Ceil(balance / WALLET_TRANSFER_MAX))
  }

  /** The fewest parts of at most 200 each, or one part for each wallet there is. */
  lemma FewestParts(balance: real, targets: nat)
    requires 0.0 < balance
    ensures var count := TransferCount(balance, targets);
            && (count == targets || balance <= 200.0 * count as real)
            && (1 < count ==> 200.0 * (count - 1) as real < balance)
  {
    var parts := balance / 200.0;
    assert balance == 200.0 * parts;
    var count := TransferCount(balance, targets);
    assert (Ceil(parts) - 1) as real < parts <= Ceil(parts) as real;
  }

  /**
   The balance of the wallet is split evenly over `targets`: different eligible wallets, the fewest for parts of
   at most 200, or all of them. Nothing else changes, and there is no target if nothing is eligible or to split.
   */
  ghost predicate SplitOver(before: Balances, after: Balances, eligible: set<nat>, wallet: nat, targets: seq<nat>)
    requires wallet in before
  {
    var balance := before[wallet];
    && Distinct(targets) && (forall t :: t in targets ==> t in eligible)
    && (targets == [] <==> eligible == {} || balance == 0.0)
    && (targets == [] || |targets| == |eligible| || balance <= 200.0 * |targets| as real)
    && (1 < |targets| ==> 200.0 * (|targets| - 1) as real < balance)
    && Received(before, after, targets, if targets == [] then 0.0 else balance / |targets| as real)
  }

  lemma SplitFrom(before: Balances, after: Balances, eligible: set<nat>, wallet: nat, targets: seq<nat>)
    requires wallet in before && 0.0 < before[wallet]
    requires Distinct(targets) && (forall t :: t in targets ==> t in eligible)
    requires |targets| == TransferCount(before[wallet], |eligible|)
    requires Received(before, after, targets, if targets == [] then 0.0 else before[wallet] / |targets| as real)
    ensures SplitOver(before, after, eligible, wallet, targets)
  {
    FewestParts(before[wallet], |eligible|);
  }

  /** The same when the wallet itself is gone. */
  ghost predicate ClosedOver(before: Balances, after: Balances, eligible: set<nat>, wallet: nat, targets: seq<nat>)
    requires wallet in before
  {
    wallet !in after && SplitOver(before, after[wallet := before[wallet]], eligible, wallet, targets)
  }

  lemma ClosedFromSplit(before: Balances, after: Balances, eligible: set<nat>, wallet: nat, targets: seq<nat>)
    requires wallet in before && wallet in after && after[wallet] == before[wallet]
    requires SplitOver(before, after, eligible, wallet, targets)
    ensures ClosedOver(before, Without(after, wallet), eligible, wallet, targets)
  {
    assert Without(after, wallet)[wallet := before[wallet]] == after;
  }

  /** The amount added up `k` times. */
  function Repeated(k: nat, amount: real): real {
    if k == 0 then 0.0 else Repeated(k - 1, amount) + amount
  }

  lemma {:induction false} RepeatedIsProduct(k: nat, amount: real)
    ensures Repeated(k, amount) == k as real * amount
  {
    if k != 0 {
      RepeatedIsProduct(k - 1, amount);
    }
  }

  lemma SharesMakeWhole(count: nat, balance: real)
    requires 0 < count
    ensures Repeated(count, balance / count as real) == balance
  {
    RepeatedIsProduct(count, balance / count as real);
  }

  lemma ShareNonNegative(count: nat, balance: real)
    requires 0 < count && 0.0 <= balance
    ensures 0.0 <= balance / count as real
  {
  }

  // -------------------------------------------------------------------------------------------
  // What is kept, on values

  /**
   Conservation: what the system counts is what the wallets below `n` hold plus what was lost; and the
   biggest balance ever seen bounds every balance.
   */
  ghost predicate BooksOf(b: Balances, n: nat, btc: real, biggest: real, lost: real) {
    && (forall w :: w in b ==> w < n && 0.0 <= b[w] <= biggest)
    && btc == SumTo(b, n) + lost
    && 0.0 <= lost && 0.0 <= biggest
  }

  /** `counted` tells whether the balance of the wallet was added to other wallets before it closed. */
  lemma BooksAfterClosing(b: Balances, n: nat, btc: real, biggest: real, lost: real, wallet: nat, counted: bool)
    requires wallet in b
    requires BooksOf(b, n, btc + (if counted then b[wallet] else 0.0), biggest, lost)
    ensures 0.0 <= b[wallet]
    ensures BooksOf(Without(b, wallet), n, btc, biggest, lost + (if counted then 0.0 else b[wallet]))
  {
    SumToChange(b, Without(b, wallet), wallet, n);
  }

  lemma BooksAfterTaking(b: Balances, n: nat, btc: real, biggest: real, lost: real, wallet: nat, amount: real)
    requires BooksOf(b, n, btc, biggest, lost) && wallet in b && 0.0 <= amount <= b[wallet]
    ensures BooksOf(b[wallet := b[wallet] - amount], n, btc - amount, biggest, lost)
  {
    SumToChange(b, b[wallet := b[wallet] - amount], wallet, n);
  }

  lemma BooksAfterDeposit(b: Balances, n: nat, btc: real, biggest: real, lost: real, wallet: nat, amount: real)
    requires BooksOf(b, n, btc, biggest, lost) && wallet in b && wallet < n && 0.0 <= amount
    ensures var after := b[wallet := b[wallet] + amount];
            BooksOf(after, n, btc + amount, if after[wallet] > biggest then after[wallet] else biggest, lost)
  {
    SumToChange(b, b[wallet := b[wallet] + amount], wallet, n);
  }

  lemma BooksWithNewWallet(b: Balances, n: nat, btc: real, biggest: real, lost: real)
    requires BooksOf(b, n, btc, biggest, lost)
    ensures n !in b && BooksOf(b[n := 0.0], n + 1, btc, biggest, lost)
  {
    EmptyWalletAddsNothing(b, n);
  }

  /** The three wallet maps have the same wallets, the newest is there, and no list is of an operator to come. */
  ghost predicate InRangeOf(keys: set<nat>, live: Members, stakers: Members, operatorToWallets: Members, n: nat,
                            operatorIndex: nat)
  {
    && keys == live.Keys == stakers.Keys
    && (0 < n ==> n - 1 in keys)
    && (forall o :: o in operatorToWallets ==> o < operatorIndex)
  }

  lemma InRangeAfterClosing(keys: set<nat>, live: Members, stakers: Members, operatorToWallets: Members,
                            n: nat, operatorIndex: nat, wallet: nat)
    requires InRangeOf(keys, live, stakers, operatorToWallets, n, operatorIndex)
    requires wallet < n - 1 && wallet in keys
    ensures wallet in live && wallet in stakers
    ensures InRangeOf(keys - {wallet}, Without(live, wallet), Without(stakers, wallet),
                      Unlisted(operatorToWallets, stakers[wallet], wallet), n, operatorIndex)
  {
    assert Without(live, wallet).Keys == live.Keys - {wallet};
    assert Without(stakers, wallet).Keys == stakers.Keys - {wallet};
  }

  lemma KeysOfUpdated(b: Balances, wallet: nat)
    ensures b[wallet := 0.0].Keys == b.Keys + {wallet}
  {
  }

  lemma NewestIsNew(keys: set<nat>, live: Members, stakers: Members, operatorToWallets: Members, n: nat,
                    operatorIndex: nat)
    requires InRangeOf(keys, live, stakers, operatorToWallets, n, operatorIndex) && n !in keys
    ensures n !in stakers
  {
  }

  lemma InRangeWithNewWallet(keys: set<nat>, live: Members, stakers: Members, operatorToWallets: Members,
                             n: nat, operatorIndex: nat, members: set<nat>)
    requires InRangeOf(keys, live, stakers, operatorToWallets, n, operatorIndex)
    requires forall o :: o in members ==> o < operatorIndex
    ensures InRangeOf(keys + {n}, live[n := members], stakers[n := members], Enlisted(operatorToWallets, members, n),
                      n + 1, operatorIndex)
  {
    EnlistedKeys(operatorToWallets, members, n);
  }

  /** Eligible wallets may have received something from the wallet, and nothing else changed. */
  predicate Grown(before: Balances, after: Balances, eligible: set<nat>, wallet: nat) {
    && after.Keys == before.Keys && wallet in before
    && (forall i :: i in before ==> before[i] <= after[i] && (i !in eligible ==> after[i] == before[i]))
    && after[wallet] == before[wallet]
    && (before[wallet] == 0.0 ==> after == before)
  }

  /** The same without the wallet. */
  predicate ClosedBalances(before: Balances, after: Balances, eligible: set<nat>, wallet: nat) {
    && after.Keys == before.Keys - {wallet} && wallet in before
    && (forall i :: i in after ==> before[i] <= after[i] && (i !in eligible ==> after[i] == before[i]))
    && (before[wallet] == 0.0 ==> after == Without(before, wallet))
  }

  lemma ClosedFromGrown(before: Balances, after: Balances, eligible: set<nat>, wallet: nat)
    requires Grown(before, after, eligible, wallet)
    ensures wallet in after && after[wallet] == before[wallet] && after.Keys == before.Keys
    ensures ClosedBalances(before, Without(after, wallet), eligible, wallet)
    ensures Without(after, wallet).Keys == before.Keys - {wallet}
  {
  }

  lemma ClosedIsKept(before: Balances, after: Balances, eligible: set<nat>, wallet: nat)
    requires ClosedBalances(before, after, eligible, wallet)
    requires forall i :: i in eligible ==> i in before && before[i] > WALLET_MIN_BTC
    ensures KeptBalances(before, after)
  {
  }

  lemma SameWallets(keys: set<nat>, live: Members, stakers: Members, operatorToWallets: Members,
                    n: nat, operatorIndex: nat)
    requires InRangeOf(keys, live, stakers, operatorToWallets, n, operatorIndex)
    ensures keys == stakers.Keys && (0 < n ==> n - 1 in keys)
  {
  }

  lemma BooksMeaning(b: Balances, n: nat, btc: real, biggest: real, lost: real)
    requires BooksOf(b, n, btc, biggest, lost)
    ensures NonNegative(b) && (forall i :: i in b ==> i < n)
    ensures btc == SumTo(b, n) + lost && 0.0 <= lost && 0.0 <= SumTo(b, n)
  {
    SumToGrows(b, 0, n);
  }

  lemma OthersStay(after: Balances, eligible: set<nat>, wallet: nat, targets: seq<nat>, before: Balances)
    requires wallet in before && SplitOver(before, after, eligible, wallet, targets) && wallet !in eligible
    ensures TransfersTo(wallet, targets, Without(after, wallet)) == TransfersTo(wallet, targets, after)
  {
    SameTransfers(wallet, targets, Without(after, wallet), after);
  }

  /** What was handed over stays when the wallet goes. */
  lemma HandedOver(before: Balances, after: Balances, eligible: set<nat>, wallet: nat, targets: seq<nat>)
    requires Grown(before, after, eligible, wallet) && SplitOver(before, after, eligible, wallet, targets)
    requires wallet !in eligible
    ensures wallet in after && after[wallet] == before[wallet] && after.Keys == before.Keys
    ensures Without(after, wallet).Keys == before.Keys - {wallet}
    ensures ClosedBalances(before, Without(after, wallet), eligible, wallet)
    ensures ClosedOver(before, Without(after, wallet), eligible, wallet, targets)
    ensures TransfersTo(wallet, targets, Without(after, wallet)) == TransfersTo(wallet, targets, after)
  {
    OthersStay(after, eligible, wallet, targets, before);
    hide SplitOver, ClosedOver, Without, ClosedBalances;
    ClosedFromGrown(before, after, eligible, wallet);
    ClosedFromSplit(before, after, eligible, wallet, targets);
  }

  function Capped(request: real, btc: real): real {
    if request > btc then btc else request
  }

  /**
   The count drops by the request, or by all that is held when that is less. Unserved is what is missing then to
   the request, or to the count before when more was asked for than was counted.
   */
  ghost predicate Served(b: Balances, n: nat, before: real, request: real, unserved: real, after: real) {
    var held := SumTo(b, n);
    && after == before - (if request <= held then request else held)
    && unserved == (if request <= held then 0.0 else if request <= before then request - held else before - held)
  }

  /** Every withdrawal comes to an end exactly while nothing was lost. */
  lemma WithdrawalsEndExactly(b: Balances, n: nat, btc: real, biggest: real, lost: real)
    requires BooksOf(b, n, btc, biggest, lost)
    ensures (forall request :: 0.0 <= request ==> Ends(b, Capped(request, btc))) <==> lost == 0.0
  {
    hide BooksOf, Ends, SumTo;
    BooksMeaning(b, n, btc, biggest, lost);
    forall request | 0.0 <= request ensures Ends(b, Capped(request, btc)) <==> Capped(request, btc) <= SumTo(b, n) {
      LoopEndsExactly(b, Capped(request, btc), n);
    }
    if forall request :: 0.0 <= request ==> Ends(b, Capped(request, btc)) {
      assert Ends(b, Capped(btc, btc));
    }
  }

  /** What is left of the other wallets after `amount` was taken from `wallet`, and what was lost on the way. */
  ghost predicate Withdrawn(before: Balances, after: Balances, wallet: nat, amount: real, closing: bool, lostNow: real)
    requires wallet in before
  {
    var rest := before[wallet] - amount;
    if rest <= WALLET_MIN_BTC && closing then
      && after.Keys == before.Keys - {wallet}
      && KeptOthers(before, after, wallet)
      && (rest == 0.0 ==> after == Without(before, wallet) && lostNow == 0.0)
    else after == before[wallet := rest] && lostNow == 0.0
  }

  lemma WithdrawnByClosing(before: Balances, after: Balances, eligible: set<nat>, wallet: nat, amount: real,
                           lostNow: real)
    requires wallet in before && before[wallet] - amount <= WALLET_MIN_BTC
    requires ClosedBalances(before[wallet := before[wallet] - amount], after, eligible, wallet)
    requires forall i :: i in eligible ==> i != wallet && i in before && before[i] > WALLET_MIN_BTC
    requires before[wallet] - amount == 0.0 ==> lostNow == 0.0
    ensures Withdrawn(before, after, wallet, amount, true, lostNow)
  {
    var taken := before[wallet := before[wallet] - amount];
    assert Without(taken, wallet) == Without(before, wallet);
    assert taken.Keys == before.Keys;
  }

  /** Nothing goes to a wallet that holds nothing; a wallet withdrawn to the end is empty and nothing else changes. */
  lemma WithdrawnElsewhere(before: Balances, after: Balances, wallet: nat, amount: real, closing: bool, lostNow: real)
    requires wallet in before && Withdrawn(before, after, wallet, amount, closing, lostNow)
    ensures after.Keys
            == before.Keys - (if closing && before[wallet] - amount <= WALLET_MIN_BTC then {wallet} else {})
    ensures KeptOthers(before, after, wallet)
    ensures wallet in after ==> after[wallet] == before[wallet] - amount
    ensures forall i :: i != wallet && BalanceAt(before, i) == 0.0 ==> BalanceAt(after, i) == 0.0
    ensures amount == before[wallet] ==> lostNow == 0.0 && BalanceAt(after, wallet) == 0.0
    ensures amount == before[wallet] ==> forall i :: i != wallet ==> BalanceAt(after, i) == BalanceAt(before, i)
  {
  }

  /** WALLET_SIZE staking operators, or all when there are fewer. */
  predicate ChosenFrom(members: set<nat>, staking: set<nat>) {
    && members <= staking
    && if |staking| >= WALLET_SIZE then |members| == WALLET_SIZE else members == staking
  }

  lemma ChosenAreStaking(members: set<nat>, staking: set<nat>)
    requires ChosenFrom(members, staking)
    ensures members <= staking
  {
  }

  /** A wallet was created today or not; if it was, it is empty and has its share of the staking operators. */
  predicate Newcomer(stakers: Members, b: Balances, staking: set<nat>, wallet: nat, day: nat) {
    && (wallet in stakers <==> day % WALLET_CREATION_PERIOD == 0)
    && (wallet in stakers ==> BalanceAt(b, wallet) == 0.0 && ChosenFrom(stakers[wallet], staking))
  }

  /** A wallet every 7 days, with 100 staking operators or all there are. */
  lemma NewcomerInNumbers(stakers: Members, b: Balances, staking: set<nat>, wallet: nat, day: nat)
    requires Newcomer(stakers, b, staking, wallet, day)
    ensures wallet in stakers <==> day % 7 == 0
    ensures wallet in stakers ==>
              stakers[wallet] <= staking && |stakers[wallet]| == if |staking| < 100 then |staking| else 100
  {
  }

  lemma NewcomerMeans(stakers: Members, b: Balances, staking: set<nat>, wallet: nat, day: nat)
    requires Newcomer(stakers, b, staking, wallet, day) && stakers.Keys == b.Keys
    ensures wallet in stakers <==> day % WALLET_CREATION_PERIOD == 0
    ensures BalanceAt(b, wallet) == 0.0
    ensures wallet in stakers ==> ChosenFrom(stakers[wallet], staking)
  {
  }

  /** The operators whose time to leave is over. */
  function LeavingOn(schedule: map<int, seq<nat>>, day: int): set<nat> {
    if day in schedule then Elements(schedule[day]) else {}
  }

  lemma NothingDeposited(before: Balances, morning: Balances, created: nat, n: nat)
    requires 0 < n && created !in before && BalanceAt(morning, created) == 0.0
    requires KeptBalances(before, Without(morning, created))
    ensures DepositedBalances(before, morning, n - 1, 0.0)
  {
  }

  lemma DepositKept(before: Balances, morning: Balances, newest: nat, deposit: real)
    requires newest in morning && DepositedBalances(before, morning, newest, 0.0)
    ensures morning[newest := morning[newest] + deposit].Keys == morning.Keys
    ensures DepositedBalances(before, morning[newest := morning[newest] + deposit], newest, deposit)
  {
  }

  /** One day of random choices. */
  datatype Day = Day(newOperators: nat, quitting: set<nat>, deposit: real, request: real)

  class Simulation {
    var btcInSystem: real
    var biggestWalletBalance: real
    var numberOfTransfers: nat
    var walletBalances: Balances
    var walletIndex: nat
    var walletLiveOperators: Members
    var walletStakingOperators: Members
    var operatorToWallets: Members
    var stakingOperators: set<nat>
    var liveOperators: set<nat>
    var unstakingOperators: map<int, seq<nat>>
    var operatorIndex: nat
    /** Balances of wallets that closed when no other wallet could take them. */
    ghost var lost: real
    /** Everything that a wallet ever received. */
    ghost var payments: seq<Payment>
    /** The staking operators of each wallet when it stopped being the newest. */
    ghost var superseded: Members

    ghost predicate Books()
      reads this
    {
      && BooksOf(walletBalances, walletIndex, btcInSystem, biggestWalletBalance, lost)
      && Tally(payments, biggestWalletBalance, numberOfTransfers)
    }

    ghost predicate InRange()
      reads this
    {
      InRangeOf(walletBalances.Keys, walletLiveOperators, walletStakingOperators, operatorToWallets, walletIndex,
                operatorIndex)
    }

    ghost predicate Indexes()
      reads this
    {
      InRange() && Agree(stakingOperators, operatorToWallets, walletStakingOperators)
    }

    function EligibleFor(wallet: nat): set<nat>
      reads this
    {
      Eligible(walletBalances, walletStakingOperators, wallet)
    }

    // -----------------------------------------------------------------------------------------
    // Closing a wallet

    method LiveWallets(wallet: nat) returns (liveWallets: seq<nat>)
      requires InRange()
      requires forall w :: w in walletBalances ==> w < walletIndex
      ensures Distinct(liveWallets) && Elements(liveWallets) == EligibleFor(wallet)
    {
      liveWallets := [];
      for i := 0 to walletIndex
        invariant Distinct(liveWallets) && forall k :: 0 <= k < |liveWallets| ==> liveWallets[k] < i
        invariant forall x :: x in liveWallets <==> x in EligibleFor(wallet) && x < i
      {
        if i in walletBalances && walletBalances[i] > WALLET_MIN_BTC {
          if |walletStakingOperators[i]| >= HEARTBEAT && i != wallet {
            liveWallets := liveWallets + [i];
          }
        }
      }
    }

    /** `size` different elements of a list without repetition. */
    method SampleOf(list: seq<nat>, size: nat) returns (sample: seq<nat>)
      requires Distinct(list)
      requires size == 0 || list != []
      ensures forall x :: x in sample ==> x in list
      ensures size <= |list| ==> |sample| == size && Distinct(sample)
      ensures |list| <= size ==> Elements(sample) == Elements(list)
    {
      var a := new nat[|list|](i requires 0 <= i < |list| => list[i]);
      assert a[..] == list;
      ghost var positions;
      sample, positions := RandomSample.GetRandomSample(a, size);
      forall k | 0 <= k < |sample| ensures sample[k] == list[positions[k]] {
        assert sample[k] == a[..][positions[k]];
      }
      if |list| <= size {
        forall x | x in list ensures x in sample {
          var v :| 0 <= v < |list| && list[v] == x;
          assert v in positions;
          var k :| 0 <= k < |positions| && positions[k] == v;
          assert sample[k] == x;
        }
      }
    }

    /**
     The balance is split evenly over randomly chosen eligible wallets, in the fewest parts of at most 200 or over
     all of them; nothing is transferred when there is none.
     */
    method RandomTransfer(wallet: nat) returns (ghost targets: seq<nat>)
      requires InRange() && wallet in walletBalances && 0.0 < walletBalances[wallet]
      requires forall w :: w in walletBalances ==> w < walletIndex && walletBalances[w] <= biggestWalletBalance
      requires Tally(payments, biggestWalletBalance, numberOfTransfers)
      modifies this`walletBalances, this`biggestWalletBalance, this`numberOfTransfers, this`payments
      ensures SplitOver(old(walletBalances), walletBalances, old(EligibleFor(wallet)), wallet, targets)
      ensures SumTo(walletBalances, walletIndex)
              == SumTo(old(walletBalances), walletIndex) + (if targets == [] then 0.0 else old(walletBalances)[wallet])
      ensures forall w :: w in walletBalances ==> walletBalances[w] <= biggestWalletBalance
      ensures old(biggestWalletBalance) <= biggestWalletBalance
      ensures Tally(payments, biggestWalletBalance, numberOfTransfers)
      ensures payments == old(payments) + TransfersTo(wallet, targets, walletBalances)
      ensures numberOfTransfers == old(numberOfTransfers) + |targets|
    {
      hide Tally, SplitOver, TransferCount, Received, TransfersTo, Distinct, SumTo;
      ghost var b, eligible := walletBalances, EligibleFor(wallet);
      NothingToAdd(payments);
      NoTransfers(wallet, [], walletBalances);
      EligibleHaveMore(wallet);
      var liveWallets := LiveWallets(wallet);
      DistinctCount(liveWallets);
      var transferCount := TransferCount(walletBalances[wallet], |liveWallets|);
      var randomWallets := SampleOf(liveWallets, transferCount);
      targets := randomWallets;
      forall x | x in randomWallets ensures x in eligible {
        assert x in Elements(liveWallets);
      }
      NothingReceived(walletBalances, 0.0);
      if transferCount != 0 {
        SharesMakeWhole(transferCount, walletBalances[wallet]);
        ShareNonNegative(transferCount, walletBalances[wallet]);
        var transferAmount := walletBalances[wallet] / transferCount as real;
        PayOut(wallet, randomWallets, transferAmount);
      }
      SplitFrom(b, walletBalances, eligible, wallet, targets);
    }

    /** The same amount to each of the wallets. */
    method PayOut(ghost source: nat, targets: seq<nat>, amount: real)
      requires Distinct(targets) && 0.0 <= amount
      requires forall w :: w in walletBalances ==> w < walletIndex && walletBalances[w] <= biggestWalletBalance
      requires Tally(payments, biggestWalletBalance, numberOfTransfers)
      requires forall t :: t in targets ==> t in walletBalances
      modifies this`walletBalances, this`biggestWalletBalance, this`numberOfTransfers, this`payments
      ensures Received(old(walletBalances), walletBalances, targets, amount)
      ensures SumTo(walletBalances, walletIndex)
              == SumTo(old(walletBalances), walletIndex) + Repeated(|targets|, amount)
      ensures forall w :: w in walletBalances ==> walletBalances[w] <= biggestWalletBalance
      ensures old(biggestWalletBalance) <= biggestWalletBalance
      ensures Tally(payments, biggestWalletBalance, numberOfTransfers)
      ensures payments == old(payments) + TransfersTo(source, targets, walletBalances)
      ensures numberOfTransfers == old(numberOfTransfers) + |targets|
    {
      hide SumTo, Received, Tally, Distinct, TransfersTo;
      NoTransfers(source, targets, walletBalances);
      NothingToAdd(payments);
      assert Received(old(walletBalances), walletBalances, targets[..0], amount) by {
        NothingReceived(walletBalances, amount);
      }
      for k := 0 to |targets|
        invariant walletBalances.Keys == old(walletBalances.Keys)
        invariant Received(old(walletBalances), walletBalances, targets[..k], amount)
        invariant SumTo(walletBalances, walletIndex) == SumTo(old(walletBalances), walletIndex) + Repeated(k, amount)
        invariant forall w :: w in walletBalances ==> walletBalances[w] <= biggestWalletBalance
        invariant old(biggestWalletBalance) <= biggestWalletBalance
        invariant Tally(payments, biggestWalletBalance, numberOfTransfers)
        invariant payments == old(payments) + TransfersTo(source, targets[..k], walletBalances)
        invariant numberOfTransfers == old(numberOfTransfers) + k
      {
        ReceivedNext(old(walletBalances), walletBalances, targets, k, amount);
        ghost var p := Transfer(source, targets[k], walletBalances[targets[k]] + amount);
        TallyNext(payments, biggestWalletBalance, numberOfTransfers, p);
        TransfersNext(source, targets, k, walletBalances, p.balance);
        Assoc(old(payments), TransfersTo(source, targets[..k], walletBalances), [p]);
        Pay(targets[k], amount);
        numberOfTransfers := numberOfTransfers + 1;
        payments := payments + [p];
      }
      assert targets[..|targets|] == targets;
    }

    method Pay(wallet: nat, amount: real)
      requires wallet in walletBalances && wallet < walletIndex
      modifies this`walletBalances, this`biggestWalletBalance
      ensures walletBalances == old(walletBalances)[wallet := old(walletBalances)[wallet] + amount]
      ensures SumTo(walletBalances, walletIndex) == SumTo(old(walletBalances), walletIndex) + amount
      ensures biggestWalletBalance
              == if walletBalances[wallet] > old(biggestWalletBalance) then walletBalances[wallet]
                 else old(biggestWalletBalance)
    {
      walletBalances := walletBalances[wallet := walletBalances[wallet] + amount];
      SumToChange(old(walletBalances), walletBalances, wallet, walletIndex);
      if walletBalances[wallet] > biggestWalletBalance {
        biggestWalletBalance := walletBalances[wallet];
      }
    }

    /** Only a wallet that exists and is not the newest can close. */
    predicate Closes(wallet: nat)
      reads this
    {
      wallet < walletIndex - 1 && wallet in walletBalances
    }

    /**
     The balance goes to eligible wallets, or is lost when there is none; the wallet leaves all maps and the
     lists of its operators.
     */
    method CloseWallet(wallet: nat) returns (ghost targets: seq<nat>)
      requires Books() && InRange()
      requires wallet in walletStakingOperators ==> walletStakingOperators[wallet] <= operatorToWallets.Keys
      modifies this`walletBalances, this`biggestWalletBalance, this`numberOfTransfers, this`payments, this`lost
      modifies this`walletLiveOperators, this`walletStakingOperators, this`operatorToWallets
      ensures Books() && InRange()
      ensures old(lost) <= lost && old(payments) <= payments
      ensures !old(Closes(wallet)) ==>
                && targets == []
                && walletBalances == old(walletBalances) && lost == old(lost)
                && walletStakingOperators == old(walletStakingOperators) && operatorToWallets == old(operatorToWallets)
                && walletLiveOperators == old(walletLiveOperators)
      ensures old(Closes(wallet)) ==>
                && wallet in old(walletStakingOperators)
                && walletStakingOperators == Without(old(walletStakingOperators), wallet)
                && walletLiveOperators == Without(old(walletLiveOperators), wallet)
                && operatorToWallets == Unlisted(old(operatorToWallets), old(walletStakingOperators)[wallet], wallet)
                && lost == old(lost) + (if old(EligibleFor(wallet)) == {} then old(walletBalances)[wallet] else 0.0)
                && ClosedBalances(old(walletBalances), walletBalances, old(EligibleFor(wallet)), wallet)
                && ClosedOver(old(walletBalances), walletBalances, old(EligibleFor(wallet)), wallet, targets)
      ensures payments == old(payments) + TransfersTo(wallet, targets, walletBalances)
    {
      EligibleHaveMore(wallet);
      hide BooksOf, Eligible, Unlisted, Without, InRangeOf, Grown, ClosedBalances, SplitOver, ClosedOver, Tally, SumTo;
      hide Distinct, Received;
      targets := [];
      NothingToAdd(payments);
      if wallet < walletIndex - 1 && wallet in walletBalances {
        ghost var b, eligible := walletBalances, EligibleFor(wallet);
        InRangeAfterClosing(b.Keys, walletLiveOperators, walletStakingOperators, operatorToWallets, walletIndex,
                            operatorIndex, wallet);
        targets := HandOver(wallet);
        RemoveFromIndexes(wallet);
        HandedOver(b, walletBalances, eligible, wallet, targets);
        BooksAfterClosing(walletBalances, walletIndex, btcInSystem, biggestWalletBalance, lost, wallet, eligible != {});
        walletBalances := Without(walletBalances, wallet);
        lost := lost + (if eligible == {} then b[wallet] else 0.0);
      }
    }

    /** What a closing wallet holds is added to eligible wallets, if there are any; it is not yet taken off. */
    method HandOver(wallet: nat) returns (ghost targets: seq<nat>)
      requires Books() && InRange() && wallet in walletBalances
      modifies this`walletBalances, this`biggestWalletBalance, this`numberOfTransfers, this`payments
      ensures Grown(old(walletBalances), walletBalances, old(EligibleFor(wallet)), wallet)
      ensures SplitOver(old(walletBalances), walletBalances, old(EligibleFor(wallet)), wallet, targets)
      ensures Tally(payments, biggestWalletBalance, numberOfTransfers)
      ensures payments == old(payments) + TransfersTo(wallet, targets, walletBalances)
      ensures BooksOf(walletBalances, walletIndex,
                      btcInSystem + (if old(EligibleFor(wallet)) == {} then 0.0 else old(walletBalances)[wallet]),
                      biggestWalletBalance, lost)
    {
      hide SumTo, Tally, TransfersTo;
      targets := [];
      NoTransfers(wallet, targets, walletBalances);
      NothingToAdd(payments);
      if walletBalances[wallet] > 0.0 {
        targets := RandomTransfer(wallet);
        ShareNonNegative(if targets == [] then 1 else |targets|, old(walletBalances)[wallet]);
      }
    }

    method RemoveFromIndexes(wallet: nat)
      requires wallet in walletStakingOperators && wallet in walletLiveOperators
               && walletStakingOperators[wallet] <= operatorToWallets.Keys
      modifies this`walletLiveOperators, this`walletStakingOperators, this`operatorToWallets
      ensures walletStakingOperators == Without(old(walletStakingOperators), wallet)
      ensures walletLiveOperators == Without(old(walletLiveOperators), wallet)
      ensures operatorToWallets == Unlisted(old(operatorToWallets), old(walletStakingOperators)[wallet], wallet)
      ensures operatorToWallets.Keys == old(operatorToWallets.Keys)
    {
      ghost var members := walletStakingOperators[wallet];
      var operators := walletStakingOperators[wallet];
      while operators != {}
        invariant operators <= members
        invariant walletStakingOperators == old(walletStakingOperators)
                  && walletLiveOperators == old(walletLiveOperators)
        invariant operatorToWallets == Unlisted(old(operatorToWallets), members - operators, wallet)
      {
        var operator :| operator in operators;
        operatorToWallets := operatorToWallets[operator := operatorToWallets[operator] - {wallet}];
        operators := operators - {operator};
      }
      walletStakingOperators := Without(walletStakingOperators, wallet);
      walletLiveOperators := Without(walletLiveOperators, wallet);
    }

    /** Closing a wallet while the indexes agree. */
    method CloseIndexed(wallet: nat) returns (ghost targets: seq<nat>)
      requires Books() && Indexes()
      modifies this`walletBalances, this`biggestWalletBalance, this`numberOfTransfers, this`payments, this`lost
      modifies this`walletLiveOperators, this`walletStakingOperators, this`operatorToWallets
      ensures Books() && Indexes()
      ensures old(lost) <= lost && old(payments) <= payments
      ensures walletStakingOperators
              == if old(Closes(wallet)) then Without(old(walletStakingOperators), wallet)
                 else old(walletStakingOperators)
      ensures KeptBalances(old(walletBalances), walletBalances)
      ensures !old(Closes(wallet)) ==> walletBalances == old(walletBalances) && lost == old(lost)
      ensures old(Closes(wallet)) ==>
                && lost == old(lost) + (if old(EligibleFor(wallet)) == {} then old(walletBalances)[wallet] else 0.0)
                && ClosedBalances(old(walletBalances), walletBalances, old(EligibleFor(wallet)), wallet)
                && ClosedOver(old(walletBalances), walletBalances, old(EligibleFor(wallet)), wallet, targets)
      ensures payments == old(payments) + TransfersTo(wallet, targets, walletBalances)
    {
      hide BooksOf, Agree, Unlisted, Without, InRangeOf, ClosedBalances, Eligible, ClosedOver, Tally;
      EligibleHaveMore(wallet);
      ghost var b, eligible := walletBalances, EligibleFor(wallet);
      if wallet in walletStakingOperators {
        AgreementKnowsMembers(stakingOperators, operatorToWallets, walletStakingOperators, wallet);
        ClosingKeepsAgreement(stakingOperators, operatorToWallets, walletStakingOperators, wallet);
      }
      targets := CloseWallet(wallet);
      if old(Closes(wallet)) {
        ClosedIsKept(b, walletBalances, eligible, wallet);
      }
    }

    // -----------------------------------------------------------------------------------------
    // Deposits and withdrawals

    method DailyDeposit(amount: real)
      requires Books() && Indexes() && 0 < walletIndex && 0.0 <= amount
      modifies this`walletBalances, this`biggestWalletBalance, this`btcInSystem, this`payments
      ensures Books() && Indexes()
      ensures btcInSystem == old(btcInSystem) + amount
      ensures walletIndex - 1 in old(walletBalances)
      ensures walletBalances == old(walletBalances)[walletIndex - 1 := old(walletBalances)[walletIndex - 1] + amount]
      ensures payments == old(payments) + [Deposit(walletIndex - 1, walletBalances[walletIndex - 1])]
    {
      hide SumTo, Agree, Tally, BooksOf;
      BooksAfterDeposit(walletBalances, walletIndex, btcInSystem, biggestWalletBalance, lost, walletIndex - 1, amount);
      ghost var p := Deposit(walletIndex - 1, walletBalances[walletIndex - 1] + amount);
      TallyNext(payments, biggestWalletBalance, numberOfTransfers, p);
      Pay(walletIndex - 1, amount);
      btcInSystem := btcInSystem + amount;
      payments := payments + [p];
      assert walletBalances.Keys == old(walletBalances.Keys);
    }

    lemma EligibleHaveMore(wallet: nat)
      ensures forall i :: i in EligibleFor(wallet)
                          ==> i != wallet && i in walletBalances && walletBalances[i] > WALLET_MIN_BTC
    {
    }

    /** A wallet that is left with no more than dust closes, unless it is the newest. */
    method Withdraw(wallet: nat, amount: real) returns (ghost targets: seq<nat>)
      requires Books() && Indexes() && wallet in walletBalances && 0.0 <= amount <= walletBalances[wallet]
      modifies this`walletBalances, this`biggestWalletBalance, this`numberOfTransfers, this`payments, this`lost
      modifies this`btcInSystem, this`walletLiveOperators, this`walletStakingOperators, this`operatorToWallets
      ensures Books() && Indexes()
      ensures btcInSystem == old(btcInSystem) - amount
      ensures old(lost) <= lost && old(payments) <= payments
      ensures Withdrawn(old(walletBalances), walletBalances, wallet, amount, old(Closes(wallet)), lost - old(lost))
      ensures old(Closes(wallet)) && old(walletBalances)[wallet] - amount <= WALLET_MIN_BTC ==>
                ClosedOver(old(walletBalances)[wallet := old(walletBalances)[wallet] - amount], walletBalances,
                           old(EligibleFor(wallet)), wallet, targets)
      ensures walletStakingOperators
              == if old(Closes(wallet)) && old(walletBalances)[wallet] - amount <= WALLET_MIN_BTC
                 then Without(old(walletStakingOperators), wallet) else old(walletStakingOperators)
    {
      hide BooksOf, Tally, InRangeOf, Agree, ClosedBalances, Eligible, Without;
      var remainingBalance := walletBalances[wallet] - amount;
      BooksAfterTaking(walletBalances, walletIndex, btcInSystem, biggestWalletBalance, lost, wallet, amount);
      walletBalances := walletBalances[wallet := remainingBalance];
      btcInSystem := btcInSystem - amount;
      assert walletBalances.Keys == old(walletBalances.Keys);
      targets := [];
      if remainingBalance <= WALLET_MIN_BTC {
        OwnBalanceDoesNotMatter(old(walletBalances), walletStakingOperators, wallet, remainingBalance);
        EligibleHaveMore(wallet);
        ghost var eligible := EligibleFor(wallet);
        targets := CloseIndexed(wallet);
        if old(Closes(wallet)) {
          WithdrawnByClosing(old(walletBalances), walletBalances, eligible, wallet, amount, lost - old(lost));
        }
      }
    }

    /**
     Withdraws from the oldest wallet on. The loop of the source has no bound: beyond `walletIndex` it changes
     nothing any more, so what is unserved there is never served and the source does not come back
     (`LoopEndsExactly`). It happens exactly when the wallets hold less than is asked for.
     */
    method DailyWithdraw(request: real) returns (unserved: real, visited: nat)
      requires Books() && Indexes() && 0.0 <= request
      modifies this`walletBalances, this`biggestWalletBalance, this`numberOfTransfers, this`payments, this`lost
      modifies this`btcInSystem, this`walletLiveOperators, this`walletStakingOperators, this`operatorToWallets
      ensures Books() && Indexes()
      ensures old(lost) <= lost && old(payments) <= payments
      ensures LeftBy(walletBalances, old(walletBalances), Capped(request, old(btcInSystem)), walletIndex)
      ensures PartOf(walletStakingOperators, old(walletStakingOperators))
      ensures request == 0.0 ==> walletBalances == old(walletBalances) && lost == old(lost)
      ensures Served(old(walletBalances), walletIndex, old(btcInSystem), request, unserved, btcInSystem)
      ensures SumTo(old(walletBalances), walletIndex) == old(btcInSystem) - old(lost)
      ensures TakenFrom(old(walletBalances), walletBalances, old(btcInSystem) - btcInSystem)
      ensures old(lost) == 0.0 ==>
                btcInSystem == if request <= old(btcInSystem) then old(btcInSystem) - request else 0.0
      ensures 0.0 <= unserved <= request && visited <= walletIndex
      ensures forall i :: 0 <= i < visited - 1 ==> BalanceAt(walletBalances, i) == 0.0
      ensures old(lost) == 0.0 ==> unserved == 0.0
    {
      hide BooksOf, Tally, SumTo, RemainingAt, Agree, InRangeOf, Withdrawn, BalanceAt, DrainedBy, TakenFrom;
      hide KeptOthers;
      var remaining := request;
      if remaining > btcInSystem {
        remaining := btcInSystem;
      }
      ghost var b, capped := walletBalances, remaining;
      BooksMeaning(b, walletIndex, btcInSystem, biggestWalletBalance, lost);
      RemainingStarts(b, capped);
      NothingTaken(b);
      var wallet := 0;
      while remaining > 0.0 && wallet < walletIndex
        invariant 0 <= wallet <= walletIndex && 0.0 <= remaining
        invariant Books() && Indexes()
        invariant forall w :: w in walletBalances <==> w in b && !(w < wallet && Drained(b, capped, w, walletIndex))
        invariant PartOf(walletStakingOperators, old(walletStakingOperators))
        invariant request == 0.0 ==> wallet == 0 && walletBalances == b && lost == old(lost)
        invariant old(lost) <= lost && old(payments) <= payments && (remaining > 0.0 ==> lost == old(lost))
        invariant remaining == RemainingAt(b, capped, wallet)
        invariant btcInSystem == old(btcInSystem) - (capped - remaining)
        invariant TakenFrom(b, walletBalances, capped - remaining)
        invariant forall i :: 0 <= i < wallet - 1 ==> BalanceAt(walletBalances, i) == 0.0
        invariant remaining > 0.0 ==> forall i :: 0 <= i < wallet ==> BalanceAt(walletBalances, i) == 0.0
        invariant remaining > 0.0 ==> forall i :: wallet <= i ==> BalanceAt(walletBalances, i) == BalanceAt(b, i)
        decreases walletIndex - wallet
      {
        RemainingNext(b, capped, wallet);
        DrainedMeans(b, walletBalances, capped, wallet, walletIndex);
        RemainingIsWhatExceeds(b, capped, wallet);
        ghost var now, before := walletBalances, remaining;
        remaining := VisitWallet(wallet, remaining);
        TakenNext(b, now, walletBalances, wallet, before, remaining);
        wallet := wallet + 1;
      }
      NothingMoreIsDrained(b, capped, wallet, walletIndex);
      RemainingIsWhatExceeds(b, capped, wallet);
      RemainingIsWhatExceeds(b, capped, walletIndex);
      SumToGrows(b, wallet, walletIndex);
      return remaining, wallet;
    }

    /** One turn of the withdrawal loop. */
    method VisitWallet(wallet: nat, remaining: real) returns (rest: real)
      requires Books() && Indexes() && 0.0 < remaining
      modifies this`walletBalances, this`biggestWalletBalance, this`numberOfTransfers, this`payments, this`lost
      modifies this`btcInSystem, this`walletLiveOperators, this`walletStakingOperators, this`operatorToWallets
      ensures Books() && Indexes()
      ensures walletBalances.Keys
              == old(walletBalances.Keys)
                 - (if DrainedBy(old(walletBalances), remaining, wallet, walletIndex) then {wallet} else {})
      ensures PartOf(walletStakingOperators, old(walletStakingOperators))
      ensures old(lost) <= lost && old(payments) <= payments && (rest > 0.0 ==> lost == old(lost))
      ensures 0.0 <= rest == AfterWallet(remaining, BalanceAt(old(walletBalances), wallet))
      ensures KeptOthers(old(walletBalances), walletBalances, wallet)
      ensures wallet in walletBalances ==>
                walletBalances[wallet] == BalanceAt(old(walletBalances), wallet) - (remaining - rest)
      ensures btcInSystem == old(btcInSystem) - (remaining - rest)
      ensures forall i :: i != wallet && BalanceAt(old(walletBalances), i) == 0.0
                          ==> BalanceAt(walletBalances, i) == 0.0
      ensures rest > 0.0 ==> BalanceAt(walletBalances, wallet) == 0.0
      ensures rest > 0.0 ==>
                forall i :: i != wallet ==> BalanceAt(walletBalances, i) == BalanceAt(old(walletBalances), i)
    {
      hide BooksOf, Tally, Agree, InRangeOf, Withdrawn;
      BooksMeaning(walletBalances, walletIndex, btcInSystem, biggestWalletBalance, lost);
      rest := remaining;
      if wallet in walletBalances && walletBalances[wallet] > 0.0 {
        ghost var b, closing := walletBalances, Closes(wallet);
        if walletBalances[wallet] > remaining {
          ghost var targets := Withdraw(wallet, remaining);
          WithdrawnElsewhere(b, walletBalances, wallet, remaining, closing, lost - old(lost));
          rest := 0.0;
        } else {
          rest := remaining - walletBalances[wallet];
          ghost var targets := Withdraw(wallet, walletBalances[wallet]);
          WithdrawnElsewhere(b, walletBalances, wallet, b[wallet], closing, lost - old(lost));
        }
      }
    }

    // -----------------------------------------------------------------------------------------
    // Operators and new wallets

    /** The numbers of a set in ascending order, as the keys of an object come. */
    method Keys(s: set<nat>, bound: nat) returns (list: seq<nat>)
      requires forall x :: x in s ==> x < bound
      ensures Ascending(list) && Elements(list) == s
    {
      list := [];
      for i := 0 to bound
        invariant Ascending(list) && forall k :: 0 <= k < |list| ==> list[k] < i
        invariant forall x :: x in list <==> x in s && x < i
      {
        if i in s {
          list := list + [i];
        }
      }
    }

    /** A new wallet of staking operators; the newest until then is superseded. */
    method NewWallet() returns (members: seq<nat>)
      requires Books() && Indexes()
      requires stakingOperators != {} && forall o :: o in stakingOperators ==> o < operatorIndex
      modifies this`walletBalances, this`walletLiveOperators, this`walletStakingOperators, this`operatorToWallets
      modifies this`walletIndex, this`superseded
      ensures Books() && Indexes()
      ensures walletIndex == old(walletIndex) + 1
      ensures walletBalances == old(walletBalances)[old(walletIndex) := 0.0]
      ensures ChosenFrom(Elements(members), stakingOperators)
      ensures walletStakingOperators == old(walletStakingOperators)[old(walletIndex) := Elements(members)]
      ensures walletLiveOperators == old(walletLiveOperators)[old(walletIndex) := Elements(members)]
      ensures operatorToWallets == Enlisted(old(operatorToWallets), Elements(members), old(walletIndex))
      ensures superseded == Superseded(old(superseded), old(walletStakingOperators), old(walletIndex))
    {
      hide BooksOf, Tally, InRangeOf, Agree, Enlisted, Elements, ChosenFrom, Superseded;
      ghost var b, n, live, stakers, o2w :=
        walletBalances, walletIndex, walletLiveOperators, walletStakingOperators, operatorToWallets;
      BooksWithNewWallet(b, n, btcInSystem, biggestWalletBalance, lost);
      NewestIsNew(b.Keys, live, stakers, o2w, n, operatorIndex);
      KeysOfUpdated(b, n);
      members := ChooseOperators();
      ChosenAreStaking(Elements(members), stakingOperators);
      OpeningKeepsAgreement(stakingOperators, o2w, stakers, Elements(members), n);
      InRangeWithNewWallet(b.Keys, live, stakers, o2w, n, operatorIndex, Elements(members));
      Open(members);
    }

    /** The maps with the new wallet. */
    method Open(operators: seq<nat>)
      modifies this`walletBalances, this`walletLiveOperators, this`walletStakingOperators, this`operatorToWallets
      modifies this`walletIndex, this`superseded
      ensures walletIndex == old(walletIndex) + 1
      ensures walletBalances == old(walletBalances)[old(walletIndex) := 0.0]
      ensures walletStakingOperators == old(walletStakingOperators)[old(walletIndex) := Elements(operators)]
      ensures walletLiveOperators == old(walletLiveOperators)[old(walletIndex) := Elements(operators)]
      ensures operatorToWallets == Enlisted(old(operatorToWallets), Elements(operators), old(walletIndex))
      ensures superseded == Superseded(old(superseded), old(walletStakingOperators), old(walletIndex))
    {
      hide Enlisted, Elements, Superseded;
      superseded := Superseded(superseded, walletStakingOperators, walletIndex);
      walletBalances := walletBalances[walletIndex := 0.0];
      Enlist(operators);
      walletIndex := walletIndex + 1;
    }

    /** WALLET_SIZE different staking operators, or all when there are fewer. */
    method ChooseOperators() returns (operators: seq<nat>)
      requires stakingOperators != {} && forall o :: o in stakingOperators ==> o < operatorIndex
      ensures ChosenFrom(Elements(operators), stakingOperators)
    {
      var keys := Keys(stakingOperators, operatorIndex);
      AscendingIsDistinct(keys);
      DistinctCount(keys);
      assert keys != [] by {
        var o :| o in stakingOperators;
        assert o in Elements(keys);
      }
      operators := SampleOf(keys, WALLET_SIZE);
      if |keys| >= WALLET_SIZE {
        DistinctCount(operators);
      }
      forall o | o in operators ensures o in stakingOperators {
        assert o in Elements(keys);
      }
    }

    method Enlist(operators: seq<nat>)
      modifies this`walletLiveOperators, this`walletStakingOperators, this`operatorToWallets
      ensures walletStakingOperators == old(walletStakingOperators)[walletIndex := Elements(operators)]
      ensures walletLiveOperators == old(walletLiveOperators)[walletIndex := Elements(operators)]
      ensures operatorToWallets == Enlisted(old(operatorToWallets), Elements(operators), walletIndex)
    {
      hide Enlisted, Elements;
      walletLiveOperators := walletLiveOperators[walletIndex := {}];
      walletStakingOperators := walletStakingOperators[walletIndex := {}];
      ElementsOfNone(operators);
      EnlistedNone(operatorToWallets, walletIndex);
      hide WalletsOf;
      for k := 0 to |operators|
        invariant walletStakingOperators == old(walletStakingOperators)[walletIndex := Elements(operators[..k])]
        invariant walletLiveOperators == old(walletLiveOperators)[walletIndex := Elements(operators[..k])]
        invariant operatorToWallets == Enlisted(old(operatorToWallets), Elements(operators[..k]), walletIndex)
      {
        var operator := operators[k];
        ElementsNext(operators, k);
        UpdateTwice(old(walletLiveOperators), walletIndex, Elements(operators[..k]), Elements(operators[..k + 1]));
        UpdateTwice(old(walletStakingOperators), walletIndex, Elements(operators[..k]), Elements(operators[..k + 1]));
        EnlistedNext(old(operatorToWallets), Elements(operators[..k]), walletIndex, operator);
        walletLiveOperators := walletLiveOperators[walletIndex := walletLiveOperators[walletIndex] + {operator}];
        walletStakingOperators :=
          walletStakingOperators[walletIndex := walletStakingOperators[walletIndex] + {operator}];
        operatorToWallets := operatorToWallets[operator := WalletsOf(operatorToWallets, operator) + {walletIndex}];
      }
      assert operators[..|operators|] == operators;
    }

    /**
     The operator leaves every wallet it lists. Of these exactly the ones close that are not the newest and
     are left with fewer than HEARTBEAT staking operators; all others keep their other operators.
     */
    method LeaveWallets(operator: nat)
      requires Books() && InRange()
      requires operator !in stakingOperators
      requires Agree(stakingOperators + {operator}, operatorToWallets, walletStakingOperators)
      modifies this`walletBalances, this`biggestWalletBalance, this`numberOfTransfers, this`payments, this`lost
      modifies this`walletLiveOperators, this`walletStakingOperators, this`operatorToWallets
      ensures Books() && Indexes()
      ensures old(lost) <= lost && old(payments) <= payments
      ensures walletStakingOperators == Remaining(old(walletStakingOperators), {operator}, walletIndex)
      ensures walletBalances.Keys == walletStakingOperators.Keys
      ensures KeptBalances(old(walletBalances), walletBalances)
    {
      hide BooksOf, Tally, InRangeOf, Agree, Unlisted, Remaining, LeftOne;
      ghost var all, stakers, b := stakingOperators + {operator}, walletStakingOperators, walletBalances;
      if operator in operatorToWallets {
        var wallets := operatorToWallets[operator];
        assert operatorToWallets[operator := wallets] == operatorToWallets;
        while wallets != {}
          invariant Books() && InRange()
          invariant old(lost) <= lost && old(payments) <= payments && KeptBalances(b, walletBalances)
          invariant Agree(all, operatorToWallets[operator := wallets], walletStakingOperators)
          invariant Remaining(walletStakingOperators, {operator}, walletIndex)
                    == Remaining(stakers, {operator}, walletIndex)
        {
          var wallet :| wallet in wallets;
          ghost var now, nowStakers := walletBalances, walletStakingOperators;
          wallets := LeaveWallet(operator, wallets, wallet, all);
          KeptTwice(b, now, walletBalances);
          LeavingOneOfAll(nowStakers, wallet, operator, walletIndex);
        }
      } else {
        ListsNothing(all, operatorToWallets, walletStakingOperators, operator);
      }
      LeftEverywhere(stakingOperators, operatorToWallets, walletStakingOperators, operator);
      HasLeft(walletStakingOperators, stakingOperators, operatorToWallets, operator, walletIndex);
      SameWallets(walletBalances.Keys, walletLiveOperators, walletStakingOperators, operatorToWallets, walletIndex,
                  operatorIndex);
    }

    /** The operator leaves one wallet, which closes if it was not the newest and falls below the heartbeat. */
    method LeaveWallet(operator: nat, wallets: set<nat>, wallet: nat, ghost all: set<nat>) returns (rest: set<nat>)
      requires Books() && InRange()
      requires operator in all && wallet in wallets
      requires Agree(all, operatorToWallets[operator := wallets], walletStakingOperators)
      modifies this`walletBalances, this`biggestWalletBalance, this`numberOfTransfers, this`payments, this`lost
      modifies this`walletLiveOperators, this`walletStakingOperators, this`operatorToWallets
      ensures rest == wallets - {wallet}
      ensures Books() && InRange()
      ensures old(lost) <= lost && old(payments) <= payments
      ensures wallet in old(walletStakingOperators) && operator in old(walletStakingOperators)[wallet]
      ensures walletBalances.Keys
              == if old(Closes(wallet)) && |old(walletStakingOperators)[wallet] - {operator}| < HEARTBEAT
                 then old(walletBalances.Keys) - {wallet} else old(walletBalances.Keys)
      ensures walletStakingOperators == LeftOne(old(walletStakingOperators), wallet, operator, walletIndex)
      ensures KeptBalances(old(walletBalances), walletBalances)
      ensures Agree(all, operatorToWallets[operator := rest], walletStakingOperators)
    {
      hide BooksOf, Tally, InRangeOf, Agree, Unlisted, Without, Eligible, ClosedBalances;
      rest := wallets - {wallet};
      LeavingOneWallet(all, operatorToWallets, walletStakingOperators, operator, wallets, wallet);
      SameWallets(walletBalances.Keys, walletLiveOperators, walletStakingOperators, operatorToWallets, walletIndex,
                  operatorIndex);
      SameRange(walletStakingOperators, wallet, operator);
      ghost var stakers, b := walletStakingOperators, walletBalances;
      walletStakingOperators := walletStakingOperators[wallet := walletStakingOperators[wallet] - {operator}];
      WithoutUpdated(stakers, wallet, stakers[wallet] - {operator});
      if |walletStakingOperators[wallet]| < HEARTBEAT {
        KnownWhileLeaving(all, operatorToWallets, walletStakingOperators, operator, rest, wallet);
        ClosingWhileLeaving(all, operatorToWallets, walletStakingOperators, operator, rest, wallet);
        EligibleHaveMore(wallet);
        ghost var eligible := EligibleFor(wallet);
        ghost var targets := CloseWallet(wallet);
        if old(Closes(wallet)) {
          ClosedIsKept(b, walletBalances, eligible, wallet);
          ClosedKeys(b, walletBalances, eligible, wallet);
        }
      }
    }

    lemma ClosedKeys(before: Balances, after: Balances, eligible: set<nat>, wallet: nat)
      requires ClosedBalances(before, after, eligible, wallet)
      ensures after.Keys == before.Keys - {wallet}
    {
    }

    lemma SameRange(stakers: Members, wallet: nat, operator: nat)
      requires InRangeOf(walletBalances.Keys, walletLiveOperators, stakers, operatorToWallets, walletIndex,
                         operatorIndex)
      requires wallet in stakers
      ensures InRangeOf(walletBalances.Keys, walletLiveOperators, stakers[wallet := stakers[wallet] - {operator}],
                        operatorToWallets, walletIndex, operatorIndex)
    {
      assert stakers[wallet := stakers[wallet] - {operator}].Keys == stakers.Keys;
    }

    /**
     `quitting` holds the operators for which the random number falls below the chance to quit. They are
     scheduled in ascending order, and exactly the wallets close that lose some of them, are not the newest
     and are left with fewer than HEARTBEAT staking operators.
     */
    method BeginUnstakingOperators(day: int, quitting: set<nat>) returns (today: seq<nat>)
      requires Books() && Indexes()
      requires forall o :: o in stakingOperators ==> o < operatorIndex
      modifies this`walletBalances, this`biggestWalletBalance, this`numberOfTransfers, this`payments, this`lost
      modifies this`walletLiveOperators, this`walletStakingOperators, this`operatorToWallets
      modifies this`stakingOperators, this`unstakingOperators
      ensures Books() && Indexes()
      ensures old(lost) <= lost && old(payments) <= payments
      ensures Ascending(today) && Elements(today) == old(stakingOperators) * quitting
      ensures stakingOperators == old(stakingOperators) - quitting
      ensures unstakingOperators == old(unstakingOperators)[day + 60 := today]
      ensures walletStakingOperators == Remaining(old(walletStakingOperators), quitting, walletIndex)
      ensures KeptBalances(old(walletBalances), walletBalances)
    {
      hide BooksOf, Tally, InRangeOf, Agree, Elements, Ascending, Remaining;
      var current := Keys(stakingOperators, operatorIndex);
      ghost var staking, stakers, b := stakingOperators, walletStakingOperators, walletBalances;
      MembersStake(staking, operatorToWallets, stakers);
      today := [];
      ElementsOfNone(current);
      ElementsOfNone(today);
      NobodyLeaves(stakers, walletIndex);
      for k := 0 to |current|
        invariant Books() && Indexes()
        invariant old(lost) <= lost && old(payments) <= payments && KeptBalances(b, walletBalances)
        invariant Ascending(today) && Elements(today) == Elements(current[..k]) * quitting
        invariant stakingOperators == staking - Elements(today)
        invariant unstakingOperators == old(unstakingOperators)
        invariant walletStakingOperators == Remaining(stakers, Elements(today), walletIndex)
      {
        var operator := current[k];
        AboveBefore(current, k);
        ElementsNext(current, k);
        if operator in quitting {
          ElementAt(current, k);
          assert stakingOperators == stakingOperators - {operator} + {operator};
          ghost var now := walletBalances;
          stakingOperators := stakingOperators - {operator};
          LeaveWallets(operator);
          KeptTwice(b, now, walletBalances);
          OneMoreLeaves(stakers, Elements(today), operator, walletIndex);
          AscendingNext(today, operator);
          today := today + [operator];
        }
      }
      assert current[..|current|] == current;
      OnlyMembersMatter(stakers, staking, quitting, walletIndex);
      unstakingOperators := unstakingOperators[day + DAYS_TO_UNSTAKE := today];
    }

    lemma MembersStake(operators: set<nat>, operatorToWallets: Members, stakers: Members)
      requires Agree(operators, operatorToWallets, stakers)
      ensures forall w :: w in stakers ==> stakers[w] <= operators
    {
    }

    method UnstakeOperators(day: int)
      modifies this`liveOperators, this`unstakingOperators
      ensures liveOperators == old(liveOperators) - LeavingOn(old(unstakingOperators), day)
      ensures unstakingOperators == old(unstakingOperators) - {day}
    {
      hide Elements;
      if day in unstakingOperators {
        var unstakingOperatorsToday := unstakingOperators[day];
        ElementsOfNone(unstakingOperatorsToday);
        for k := 0 to |unstakingOperatorsToday|
          invariant liveOperators == old(liveOperators) - Elements(unstakingOperatorsToday[..k])
          invariant unstakingOperators == old(unstakingOperators)
        {
          ElementsNext(unstakingOperatorsToday, k);
          liveOperators := liveOperators - {unstakingOperatorsToday[k]};
        }
        assert unstakingOperatorsToday[..|unstakingOperatorsToday|] == unstakingOperatorsToday;
        unstakingOperators := unstakingOperators - {day};
      }
    }

    method RegisterNewOperators(newOperators: nat)
      modifies this`liveOperators, this`stakingOperators, this`operatorIndex
      ensures liveOperators == old(liveOperators) + NewIds(old(operatorIndex), newOperators)
      ensures stakingOperators == old(stakingOperators) + NewIds(old(operatorIndex), newOperators)
      ensures operatorIndex == old(operatorIndex) + newOperators
    {
      for j := 0 to newOperators
        invariant liveOperators == old(liveOperators) + NewIds(old(operatorIndex), j)
        invariant stakingOperators == old(stakingOperators) + NewIds(old(operatorIndex), j)
        invariant operatorIndex == old(operatorIndex) + j
      {
        liveOperators := liveOperators + {operatorIndex};
        stakingOperators := stakingOperators + {operatorIndex};
        operatorIndex := operatorIndex + 1;
      }
    }

    /** Exactly the wallets close that are too old and not the newest. */
    method CloseOldWallets(day: int)
      requires Books() && Indexes()
      modifies this`walletBalances, this`biggestWalletBalance, this`numberOfTransfers, this`payments, this`lost
      modifies this`walletLiveOperators, this`walletStakingOperators, this`operatorToWallets
      ensures Books() && Indexes()
      ensures old(lost) <= lost && old(payments) <= payments
      ensures forall w :: w in walletBalances <==> w in old(walletBalances) && !(TooOld(w, day) && w < walletIndex - 1)
      ensures walletStakingOperators == NotTooOld(old(walletStakingOperators), day, walletIndex)
      ensures KeptBalances(old(walletBalances), walletBalances)
    {
      hide BooksOf, Tally, InRangeOf, Agree, Eligible, ClosedBalances, KeptBalances, Without, NotTooOldBelow, NotTooOld;
      BooksMeaning(walletBalances, walletIndex, btcInSystem, biggestWalletBalance, lost);
      ghost var b, stakers := walletBalances, walletStakingOperators;
      SameWallets(b.Keys, walletLiveOperators, stakers, operatorToWallets, walletIndex, operatorIndex);
      KeptUnchanged(b);
      NoneTooOldBelow(stakers, day, walletIndex);
      for wallet := 0 to walletIndex
        invariant Books() && Indexes()
        invariant old(lost) <= lost && old(payments) <= payments && KeptBalances(b, walletBalances)
        invariant walletBalances.Keys == walletStakingOperators.Keys
        invariant walletStakingOperators == NotTooOldBelow(stakers, day, wallet, walletIndex)
      {
        NotTooOldNext(stakers, day, wallet, walletIndex);
        if wallet in walletBalances && day >= wallet * WALLET_CREATION_PERIOD + WALLET_MAX_AGE {
          ghost var now := walletBalances;
          ghost var targets := CloseIndexed(wallet);
          KeptTwice(b, now, walletBalances);
          SameWallets(walletBalances.Keys, walletLiveOperators, walletStakingOperators, operatorToWallets,
                      walletIndex, operatorIndex);
        }
      }
      AllTooOldBelow(stakers, day, walletIndex);
    }

    // -----------------------------------------------------------------------------------------
    // Days

    /** The operators, at the beginning of a day: whoever leaves does so within the next 60 days. */
    ghost predicate Staff(day: nat)
      reads this
    {
      && OperatorsSplit(liveOperators, stakingOperators, unstakingOperators)
      && (forall o :: o in liveOperators ==> o < operatorIndex)
      && (forall d :: d in unstakingOperators ==> day <= d < day + DAYS_TO_UNSTAKE)
    }

    /**
     What holds at the beginning of each day. The last line is what is kept of the heartbeat: a wallet other than
     the newest is below it exactly if it was so when it stopped being the newest and has lost nobody since.
     */
    ghost predicate Valid(day: nat)
      reads this
    {
      && Books()
      && Indexes()
      && Staff(day)
      && walletIndex == (day + WALLET_CREATION_PERIOD - 1) / WALLET_CREATION_PERIOD
      && (forall w :: w in walletBalances ==> !TooOld(w, day - 1))
      && HeartbeatOf(walletStakingOperators, superseded, walletIndex)
    }

    lemma ValidInNumbers(day: nat)
      requires Valid(day)
      ensures walletIndex == (day + 6) / 7
      ensures forall w :: w in walletBalances ==> day - 1 < 7 * w + 180
      ensures forall d :: d in unstakingOperators ==> day <= d < day + 60
    {
    }

    /** The simulation starts with OPERATOR_COUNT operators and no wallet. */
    constructor ()
      ensures Valid(0)
      ensures stakingOperators == liveOperators == NewIds(0, 2000)
      ensures operatorIndex == 2000 && unstakingOperators == map[] && walletStakingOperators == map[]
      ensures btcInSystem == lost == biggestWalletBalance == 0.0 && numberOfTransfers == 0 && payments == []
    {
      hide NewIds, Tally;
      btcInSystem, biggestWalletBalance, lost := 0.0, 0.0, 0.0;
      numberOfTransfers, walletIndex, operatorIndex := 0, 0, 0;
      walletBalances, walletLiveOperators, walletStakingOperators, operatorToWallets := map[], map[], map[], map[];
      stakingOperators, liveOperators, unstakingOperators, superseded := {}, {}, map[], map[];
      payments := [];
      new;
      NothingPaid();
      Recruit(0, OPERATOR_COUNT);
      assert {} + NewIds(0, OPERATOR_COUNT) == NewIds(0, OPERATOR_COUNT);
    }

    /** New operators live and stake, and no wallet has them. */
    method Recruit(day: nat, newOperators: nat)
      requires Indexes() && Staff(day)
      modifies this`liveOperators, this`stakingOperators, this`operatorIndex
      ensures Indexes() && Staff(day)
      ensures liveOperators == old(liveOperators) + NewIds(old(operatorIndex), newOperators)
      ensures stakingOperators == old(stakingOperators) + NewIds(old(operatorIndex), newOperators)
      ensures operatorIndex == old(operatorIndex) + newOperators
    {
      hide Agree, OperatorsSplit;
      ghost var newcomers := NewIds(operatorIndex, newOperators);
      NewcomersStake(liveOperators, stakingOperators, unstakingOperators, newcomers);
      StakingAreLive(liveOperators, stakingOperators, unstakingOperators);
      NewcomersAgree(stakingOperators, operatorToWallets, walletStakingOperators, newcomers);
      RegisterNewOperators(newOperators);
    }

    /** Lets operators begin to leave, and those leave whose time is over. */
    method Dismiss(day: nat, quitting: set<nat>)
      requires Books() && Indexes() && Staff(day)
      modifies this`walletBalances, this`biggestWalletBalance, this`numberOfTransfers, this`payments, this`lost
      modifies this`walletLiveOperators, this`walletStakingOperators, this`operatorToWallets
      modifies this`stakingOperators, this`unstakingOperators, this`liveOperators
      ensures Books() && Indexes() && Staff(day + 1)
      ensures stakingOperators == old(stakingOperators) - quitting
      ensures liveOperators == old(liveOperators) - LeavingOn(old(unstakingOperators), day)
      ensures Rescheduled(old(unstakingOperators), unstakingOperators, day, old(stakingOperators) * quitting)
      ensures old(lost) <= lost && old(payments) <= payments
      ensures walletStakingOperators == Remaining(old(walletStakingOperators), quitting, walletIndex)
      ensures KeptBalances(old(walletBalances), walletBalances)
    {
      hide BooksOf, Tally, InRangeOf, Agree, OperatorsSplit, Elements, Ascending, Distinct, Remaining, KeptBalances;
      hide Rescheduled;
      StakingAreLive(liveOperators, stakingOperators, unstakingOperators);
      ghost var staking, schedule := stakingOperators, unstakingOperators;
      var today := BeginUnstakingOperators(day, quitting);
      AscendingIsDistinct(today);
      ReschedulingInSteps(schedule, day, today);
      assert staking - Elements(today) == staking - quitting;
      QuittersMoveToSchedule(liveOperators, staking, schedule, day + DAYS_TO_UNSTAKE, today);
      if day in unstakingOperators {
        ScheduledDayLeaves(liveOperators, stakingOperators, unstakingOperators, day);
      } else {
        assert unstakingOperators - {day} == unstakingOperators;
        assert liveOperators - {} == liveOperators;
      }
      UnstakeOperators(day);
    }

    /** Some operator stakes when a wallet is created; otherwise the source samples from nothing. */
    predicate CanCreateWallet(day: nat, d: Day)
      reads this
    {
      day % WALLET_CREATION_PERIOD == 0 ==> stakingOperators + NewIds(operatorIndex, d.newOperators) - d.quitting != {}
    }

    method CreateNewWalletEvent(day: nat)
      requires Books() && Indexes() && Staff(day + 1)
      requires HeartbeatOf(walletStakingOperators, superseded, walletIndex)
      requires day % WALLET_CREATION_PERIOD == 0 ==> stakingOperators != {}
      modifies this`walletBalances, this`walletLiveOperators, this`walletStakingOperators, this`operatorToWallets
      modifies this`walletIndex, this`superseded
      ensures Books() && Indexes()
      ensures walletIndex == old(walletIndex) + (if day % WALLET_CREATION_PERIOD == 0 then 1 else 0)
      ensures Without(walletStakingOperators, old(walletIndex)) == old(walletStakingOperators)
      ensures Without(walletBalances, old(walletIndex)) == old(walletBalances)
      ensures walletBalances.Keys == walletStakingOperators.Keys
      ensures Newcomer(walletStakingOperators, walletBalances, stakingOperators, old(walletIndex), day)
      ensures HeartbeatOf(walletStakingOperators, superseded, walletIndex)
    {
      hide BooksOf, Tally, InRangeOf, Agree, OperatorsSplit, Elements, Enlisted, HeartbeatOf, Superseded;
      StakingAreLive(liveOperators, stakingOperators, unstakingOperators);
      ghost var b, stakers, n := walletBalances, walletStakingOperators, walletIndex;
      SameWallets(b.Keys, walletLiveOperators, stakers, operatorToWallets, walletIndex, operatorIndex);
      BooksMeaning(walletBalances, walletIndex, btcInSystem, biggestWalletBalance, lost);
      assert Without(b, n) == b && Without(stakers, n) == stakers;
      if day % WALLET_CREATION_PERIOD == 0 {
        var members := NewWallet();
        HeartbeatWithNewWallet(stakers, old(superseded), n, Elements(members));
        assert Without(walletBalances, n) == b;
        assert Without(walletStakingOperators, n) == stakers;
      }
    }

    lemma WeekArithmetic(day: nat)
      ensures (day + 6) / 7 + (if day % 7 == 0 then 1 else 0) == (day + 7) / 7
      ensures 0 < (day + 6) / 7 ==> !TooOld((day + 6) / 7 - 1, day)
      ensures !TooOld((day + 6) / 7, day)
    {
    }

    /** Old wallets close, and operators come and go. */
    method TurnOver(day: nat, d: Day)
      requires Valid(day)
      modifies this`walletBalances, this`biggestWalletBalance, this`numberOfTransfers, this`payments, this`lost
      modifies this`walletLiveOperators, this`walletStakingOperators, this`operatorToWallets
      modifies this`stakingOperators, this`unstakingOperators, this`liveOperators, this`operatorIndex
      ensures Books() && Indexes() && Staff(day + 1)
      ensures stakingOperators == old(stakingOperators) + NewIds(old(operatorIndex), d.newOperators) - d.quitting
      ensures liveOperators == old(liveOperators) + NewIds(old(operatorIndex), d.newOperators)
                               - LeavingOn(old(unstakingOperators), day)
      ensures Rescheduled(old(unstakingOperators), unstakingOperators, day,
                          (old(stakingOperators) + NewIds(old(operatorIndex), d.newOperators)) * d.quitting)
      ensures operatorIndex == old(operatorIndex) + d.newOperators
      ensures old(lost) <= lost && old(payments) <= payments
      ensures walletStakingOperators == AfterMorning(old(walletStakingOperators), day, d.quitting, walletIndex)
      ensures walletBalances.Keys == walletStakingOperators.Keys
      ensures KeptBalances(old(walletBalances), walletBalances)
    {
      hide BooksOf, Tally, InRangeOf, Agree, OperatorsSplit, Elements, TooOld, HeartbeatOf, Remaining, NotTooOld;
      hide Rescheduled, KeptBalances, LeavingOn;
      ghost var b := walletBalances;
      CloseOldWallets(day);
      ghost var now := walletBalances;
      Recruit(day, d.newOperators);
      Dismiss(day, d.quitting);
      KeptTwice(b, now, walletBalances);
      SameWallets(walletBalances.Keys, walletLiveOperators, walletStakingOperators, operatorToWallets,
                  walletIndex, operatorIndex);
    }

    /** The first part of a day: old wallets close, operators come and go, and every week a wallet is created. */
    method Morning(day: nat, d: Day)
      requires Valid(day) && CanCreateWallet(day, d)
      modifies this`walletBalances, this`biggestWalletBalance, this`numberOfTransfers, this`payments, this`lost
      modifies this`walletLiveOperators, this`walletStakingOperators, this`operatorToWallets, this`walletIndex
      modifies this`stakingOperators, this`unstakingOperators, this`liveOperators, this`operatorIndex, this`superseded
      ensures Books() && Indexes() && Staff(day + 1)
      ensures 0 < walletIndex == (day + WALLET_CREATION_PERIOD) / WALLET_CREATION_PERIOD
      ensures forall w :: w in walletBalances ==> !TooOld(w, day)
      ensures HeartbeatOf(walletStakingOperators, superseded, walletIndex)
      ensures stakingOperators == old(stakingOperators) + NewIds(old(operatorIndex), d.newOperators) - d.quitting
      ensures liveOperators == old(liveOperators) + NewIds(old(operatorIndex), d.newOperators)
                               - LeavingOn(old(unstakingOperators), day)
      ensures Rescheduled(old(unstakingOperators), unstakingOperators, day,
                          (old(stakingOperators) + NewIds(old(operatorIndex), d.newOperators)) * d.quitting)
      ensures operatorIndex == old(operatorIndex) + d.newOperators
      ensures old(lost) <= lost && old(payments) <= payments
      ensures Without(walletStakingOperators, old(walletIndex))
              == AfterMorning(old(walletStakingOperators), day, d.quitting, old(walletIndex))
      ensures walletBalances.Keys
              == AfterMorning(old(walletStakingOperators), day, d.quitting, old(walletIndex)).Keys
                 + (if day % WALLET_CREATION_PERIOD == 0 then {old(walletIndex)} else {})
      ensures DepositedBalances(old(walletBalances), walletBalances, walletIndex - 1, 0.0)
      ensures old(walletIndex) in walletStakingOperators
              ==> ChosenFrom(walletStakingOperators[old(walletIndex)], stakingOperators)
    {
      hide BooksOf, Tally, InRangeOf, Agree, OperatorsSplit, TooOld, HeartbeatOf, AfterMorning, Without, NewIds;
      hide Rescheduled, KeptBalances, DepositedBalances, LeavingOn, ChosenFrom, Newcomer;
      ghost var b, n := walletBalances, walletIndex;
      BooksMeaning(b, n, btcInSystem, biggestWalletBalance, lost);
      Changes(day, d);
      ghost var morning, stakers := walletBalances, walletStakingOperators;
      BooksMeaning(morning, walletIndex, btcInSystem, biggestWalletBalance, lost);
      SameWallets(morning.Keys, walletLiveOperators, stakers, operatorToWallets, walletIndex, operatorIndex);
      NewcomerMeans(stakers, morning, stakingOperators, n, day);
      KeysWith(stakers, AfterMorning(old(walletStakingOperators), day, d.quitting, n), n);
      NothingDeposited(b, morning, n, walletIndex);
    }

    /** The three changes of the morning, one after the other. */
    method Changes(day: nat, d: Day)
      requires Valid(day) && CanCreateWallet(day, d)
      modifies this`walletBalances, this`biggestWalletBalance, this`numberOfTransfers, this`payments, this`lost
      modifies this`walletLiveOperators, this`walletStakingOperators, this`operatorToWallets, this`walletIndex
      modifies this`stakingOperators, this`unstakingOperators, this`liveOperators, this`operatorIndex, this`superseded
      ensures Books() && Indexes() && Staff(day + 1)
      ensures walletIndex == (day + WALLET_CREATION_PERIOD) / WALLET_CREATION_PERIOD
      ensures forall w :: w in walletBalances ==> !TooOld(w, day)
      ensures HeartbeatOf(walletStakingOperators, superseded, walletIndex)
      ensures stakingOperators == old(stakingOperators) + NewIds(old(operatorIndex), d.newOperators) - d.quitting
      ensures liveOperators == old(liveOperators) + NewIds(old(operatorIndex), d.newOperators)
                               - LeavingOn(old(unstakingOperators), day)
      ensures Rescheduled(old(unstakingOperators), unstakingOperators, day,
                          (old(stakingOperators) + NewIds(old(operatorIndex), d.newOperators)) * d.quitting)
      ensures operatorIndex == old(operatorIndex) + d.newOperators
      ensures old(lost) <= lost && old(payments) <= payments
      ensures Without(walletStakingOperators, old(walletIndex))
              == AfterMorning(old(walletStakingOperators), day, d.quitting, old(walletIndex))
      ensures KeptBalances(old(walletBalances), Without(walletBalances, old(walletIndex)))
      ensures Newcomer(walletStakingOperators, walletBalances, stakingOperators, old(walletIndex), day)
    {
      hide BooksOf, Tally, InRangeOf, Agree, OperatorsSplit, Elements, TooOld, HeartbeatOf, AfterMorning, Without;
      hide Rescheduled, KeptBalances, Newcomer, LeavingOn;
      ghost var stakers := walletStakingOperators;
      WeekArithmetic(day);
      BooksMeaning(walletBalances, walletIndex, btcInSystem, biggestWalletBalance, lost);
      SameWallets(walletBalances.Keys, walletLiveOperators, stakers, operatorToWallets, walletIndex, operatorIndex);
      MorningKeeps(stakers, superseded, day, d.quitting, walletIndex);
      TurnOver(day, d);
      ghost var left := walletStakingOperators;
      CreateNewWalletEvent(day);
      forall w | w in walletBalances ensures !TooOld(w, day) {
        WithoutKeeps(walletStakingOperators, left, old(walletIndex), w);
      }
    }

    lemma WithoutKeeps(after: Members, before: Members, wallet: nat, w: nat)
      requires Without(after, wallet) == before && w in after
      ensures w == wallet || w in before
    {
      assert w != wallet ==> w in Without(after, wallet);
    }

    /**
     A day keeps everything that holds at its beginning. What the system counts moves by the deposit and the
     capped withdrawal; the source only comes to the next day if nothing is unserved, which is so while
     nothing was lost. `evening` holds the balances after the deposit: those of the wallets that `AfterMorning`
     names and of the one created today. Exactly those wallets are left that the withdrawal does not drain.
     */
    method NewDay(day: nat, d: Day) returns (unserved: real, ghost evening: Balances)
      requires Valid(day) && CanCreateWallet(day, d)
      requires 0.0 <= d.deposit && 0.0 <= d.request
      modifies this
      ensures Valid(day + 1)
      ensures stakingOperators == old(stakingOperators) + NewIds(old(operatorIndex), d.newOperators) - d.quitting
      ensures liveOperators == old(liveOperators) + NewIds(old(operatorIndex), d.newOperators)
                               - LeavingOn(old(unstakingOperators), day)
      ensures Rescheduled(old(unstakingOperators), unstakingOperators, day,
                          (old(stakingOperators) + NewIds(old(operatorIndex), d.newOperators)) * d.quitting)
      ensures operatorIndex == old(operatorIndex) + d.newOperators
      ensures PartOf(Without(walletStakingOperators, old(walletIndex)),
                     AfterMorning(old(walletStakingOperators), day, d.quitting, old(walletIndex)))
      ensures evening.Keys
              == AfterMorning(old(walletStakingOperators), day, d.quitting, old(walletIndex)).Keys
                 + (if day % WALLET_CREATION_PERIOD == 0 then {old(walletIndex)} else {})
      ensures DepositedBalances(old(walletBalances), evening, walletIndex - 1, d.deposit)
      ensures LeftBy(walletBalances, evening, Capped(d.request, old(btcInSystem) + d.deposit), walletIndex)
      ensures d.request == 0.0 ==>
                && walletBalances == evening
                && Without(walletStakingOperators, old(walletIndex))
                   == AfterMorning(old(walletStakingOperators), day, d.quitting, old(walletIndex))
      ensures old(walletIndex) in walletStakingOperators
              ==> ChosenFrom(walletStakingOperators[old(walletIndex)], stakingOperators)
      ensures old(lost) <= lost && old(payments) <= payments
      ensures SumTo(evening, walletIndex) <= old(btcInSystem) + d.deposit - old(lost)
      ensures TakenFrom(evening, walletBalances, old(btcInSystem) + d.deposit - btcInSystem)
      ensures Served(evening, walletIndex, old(btcInSystem) + d.deposit, d.request, unserved, btcInSystem)
      ensures 0.0 <= unserved <= d.request && (lost == 0.0 ==> unserved == 0.0)
    {
      hide BooksOf, Tally, InRangeOf, Agree, OperatorsSplit, Elements, SumTo, TooOld, HeartbeatOf, AfterMorning;
      hide DepositedBalances, LeavingOn, ChosenFrom, Without, PartOf, LeftBy, Capped, NewIds, Served, TakenFrom;
      hide Rescheduled;
      ghost var b, n := walletBalances, walletIndex;
      Morning(day, d);
      ghost var morning, stakers := walletBalances, walletStakingOperators;
      unserved, evening := Evening(d.deposit, d.request);
      DepositKept(b, morning, walletIndex - 1, d.deposit);
      LeftByIsPart(walletBalances, evening, Capped(d.request, old(btcInSystem) + d.deposit), walletIndex);
      HeartbeatOfPart(walletStakingOperators, stakers, superseded, walletIndex);
      PartWithout(walletStakingOperators, stakers, n);
    }

    lemma KeysWith(after: Members, before: Members, wallet: nat)
      requires Without(after, wallet) == before
      ensures after.Keys == before.Keys + (if wallet in after then {wallet} else {})
    {
      assert forall w :: w in after && w != wallet ==> w in Without(after, wallet);
    }

    /** The second part of a day: a deposit into the newest wallet and a withdrawal from the oldest on. */
    method Evening(deposit: real, request: real) returns (unserved: real, ghost evening: Balances)
      requires Books() && Indexes() && 0 < walletIndex && 0.0 <= deposit && 0.0 <= request
      modifies this`walletBalances, this`biggestWalletBalance, this`numberOfTransfers, this`payments, this`lost
      modifies this`btcInSystem, this`walletLiveOperators, this`walletStakingOperators, this`operatorToWallets
      ensures Books() && Indexes()
      ensures old(lost) <= lost && old(payments) <= payments
      ensures old(walletBalances.Keys == walletStakingOperators.Keys) && walletIndex - 1 in old(walletBalances)
      ensures evening == old(walletBalances)[walletIndex - 1 := old(walletBalances)[walletIndex - 1] + deposit]
      ensures LeftBy(walletBalances, evening, Capped(request, old(btcInSystem) + deposit), walletIndex)
      ensures PartOf(walletStakingOperators, old(walletStakingOperators))
      ensures request == 0.0 ==>
                walletBalances == evening && walletStakingOperators == old(walletStakingOperators)
      ensures SumTo(evening, walletIndex) == old(btcInSystem) + deposit - old(lost)
      ensures TakenFrom(evening, walletBalances, old(btcInSystem) + deposit - btcInSystem)
      ensures Served(evening, walletIndex, old(btcInSystem) + deposit, request, unserved, btcInSystem)
      ensures 0.0 <= unserved <= request && (lost == 0.0 ==> unserved == 0.0)
    {
      hide BooksOf, Tally, InRangeOf, Agree, LeftBy, SumTo, PartOf, Capped, TakenFrom;
      SameWallets(walletBalances.Keys, walletLiveOperators, walletStakingOperators, operatorToWallets,
                  walletIndex, operatorIndex);
      DailyDeposit(deposit);
      BooksMeaning(walletBalances, walletIndex, btcInSystem, biggestWalletBalance, lost);
      evening := walletBalances;
      var visited;
      unserved, visited := DailyWithdraw(request);
      SameWallets(walletBalances.Keys, walletLiveOperators, walletStakingOperators, operatorToWallets,
                  walletIndex, operatorIndex);
      WholePart(walletStakingOperators, old(walletStakingOperators));
    }

    /**
     Simulates days until something stays unserved, where the source would not come back, or no operator
     stakes when a wallet is to be created.
     */
    method Run(days: seq<Day>) returns (completed: nat, unserved: real)
      requires Valid(0)
      requires forall i :: 0 <= i < |days| ==> 0.0 <= days[i].deposit && 0.0 <= days[i].request
      modifies this
      ensures completed <= |days| && Valid(completed)
      ensures old(lost) <= lost && old(payments) <= payments
      ensures 0.0 <= unserved && (lost == 0.0 ==> unserved == 0.0)
      ensures completed < |days| ==> 0.0 < unserved || !CanCreateWallet(completed, days[completed])
    {
      hide BooksOf, Tally, InRangeOf, Agree, OperatorsSplit, TooOld, HeartbeatOf, AfterMorning, DepositedBalances;
      hide LeavingOn, ChosenFrom, Without, PartOf, LeftBy, Capped, NewIds, Served, SumTo, TakenFrom, Rescheduled;
      completed, unserved := 0, 0.0;
      while completed < |days| && unserved == 0.0
        invariant completed <= |days| && Valid(completed)
        invariant old(lost) <= lost && old(payments) <= payments
        invariant 0.0 <= unserved && (lost == 0.0 ==> unserved == 0.0)
      {
        if !CanCreateWallet(completed, days[completed]) {
          return;
        }
        ghost var evening;
        unserved, evening := NewDay(completed, days[completed]);
        completed := completed + 1;
      }
    }
  }
}
