/** Two concrete simulations: a balance that is lost, and a wallet that outlives its heartbeat. */
module WalletExamples {
  import opened Balances
  import opened OperatorSchedule
  import opened WalletClosing
  import opened WalletIndexes
  import opened WalletPayments
  import opened Wallets

  const QUIET := Day(0, {}, 0.0, 0.0)

  lemma OneMore(s: set<nat>, x: nat)
    requires x !in s
    ensures |s + {x}| == |s| + 1
  {
  }

  lemma {:induction false} NewIdsCount(first: nat, count: nat)
    ensures |NewIds(first, count)| == count
  {
    if count != 0 {
      NewIdsCount(first, count - 1);
      OneMore(NewIds(first, count - 1), first + count - 1);
    }
  }

  /** Young wallets that lose nobody are left as they are. */
  lemma QuietMorning(stakers: Members, day: nat, n: nat)
    requires day < WALLET_MAX_AGE
    ensures AfterMorning(stakers, day, {}, n) == stakers
  {
    NobodyLeaves(stakers, n);
    assert NotTooOld(stakers, day, n) == stakers;
  }

  lemma NoNewWallet(after: Members, before: Members, wallet: nat)
    requires Without(after, wallet) == before && wallet !in after
    ensures after == before
  {
    assert Without(after, wallet) == after;
  }

  /** All members of a wallet that is not the newest leave. */
  lemma AllMembersLeave(stakers: Members, day: nat)
    requires day < WALLET_MAX_AGE && stakers.Keys == {0, 1} && stakers[0] != {}
    ensures AfterMorning(stakers, day, stakers[0], 2).Keys == {1}
  {
    var young := NotTooOld(stakers, day, 2);
    assert young == stakers;
    assert stakers[0] * stakers[0] == stakers[0];
    assert stakers[0] - stakers[0] == {};
  }

  lemma NewestMembersLeave(stakers: Members, day: nat)
    requires day < WALLET_MAX_AGE && stakers.Keys == {0}
    ensures AfterMorning(stakers, day, stakers[0], 1) == map[0 := {}]
  {
    assert NotTooOld(stakers, day, 1) == stakers;
    assert stakers[0] - stakers[0] == {};
  }

  lemma ManyStake(staking: set<nat>)
    requires staking == NewIds(0, OPERATOR_COUNT)
    ensures staking != {} && staking + NewIds(OPERATOR_COUNT, 0) - {} == staking && |staking| == OPERATOR_COUNT
  {
    NewIdsCount(0, OPERATOR_COUNT);
  }

  /** One wallet of 100 operators on the first day. */
  method FirstDay(deposit: real) returns (sim: Simulation)
    requires 0.0 <= deposit
    ensures fresh(sim) && sim.Valid(1)
    ensures sim.stakingOperators == NewIds(0, OPERATOR_COUNT) && sim.operatorIndex == OPERATOR_COUNT
    ensures sim.btcInSystem == deposit
    ensures sim.walletStakingOperators.Keys == {0} && |sim.walletStakingOperators[0]| == WALLET_SIZE
  {
    hide BooksOf, Tally, Agree, OperatorsSplit, NewIds, HeartbeatOf;
    sim := new Simulation();
    ManyStake(sim.stakingOperators);
    ghost var stakers := sim.walletStakingOperators;
    QuietMorning(stakers, 0, 0);
    var unserved, evening := sim.NewDay(0, Day(0, {}, deposit, 0.0));
    assert sim.walletStakingOperators.Keys == Without(sim.walletStakingOperators, 0).Keys + {0};
  }

  /** Days without any event while the first wallet is the only one. */
  method QuietDays(sim: Simulation, first: nat, until: nat)
    requires 1 <= first <= until <= WALLET_CREATION_PERIOD && sim.Valid(first)
    requires sim.walletStakingOperators.Keys == {0}
    modifies sim
    ensures sim.Valid(until)
    ensures sim.stakingOperators == old(sim.stakingOperators) && sim.operatorIndex == old(sim.operatorIndex)
    ensures sim.btcInSystem == old(sim.btcInSystem)
    ensures sim.walletStakingOperators == old(sim.walletStakingOperators)
  {
    hide LeftBy, TakenFrom, Rescheduled, ChosenFrom, LeavingOn, PartOf;
    hide BooksOf, Tally, Agree, OperatorsSplit, HeartbeatOf, AfterMorning, Without;
    ghost var stakers := sim.walletStakingOperators;
    for day := first to until
      invariant sim.Valid(day)
      invariant sim.stakingOperators == old(sim.stakingOperators) && sim.operatorIndex == old(sim.operatorIndex)
      invariant sim.btcInSystem == old(sim.btcInSystem)
      invariant sim.walletStakingOperators == stakers
    {
      QuietMorning(stakers, day, 1);
      BooksMeaning(sim.walletBalances, sim.walletIndex, sim.btcInSystem, sim.biggestWalletBalance, sim.lost);
      var unserved, evening := sim.NewDay(day, QUIET);
      NoNewWallet(sim.walletStakingOperators, stakers, 1);
      assert sim.stakingOperators == old(sim.stakingOperators) + NewIds(sim.operatorIndex, 0) - {};
    }
  }

  /** The seventh day creates a second, empty wallet. */
  method SecondWallet(sim: Simulation)
    requires sim.Valid(WALLET_CREATION_PERIOD) && sim.walletStakingOperators.Keys == {0}
    requires sim.stakingOperators != {}
    modifies sim
    ensures sim.Valid(WALLET_CREATION_PERIOD + 1)
    ensures sim.walletStakingOperators.Keys == {0, 1}
    ensures sim.walletStakingOperators[0] == old(sim.walletStakingOperators[0])
    ensures sim.btcInSystem == old(sim.btcInSystem)
    ensures 1 in sim.walletBalances && sim.walletBalances[1] == 0.0
  {
    hide LeftBy, TakenFrom, Rescheduled, ChosenFrom, LeavingOn, PartOf;
    hide BooksOf, Tally, Agree, OperatorsSplit, HeartbeatOf, AfterMorning;
    ghost var stakers := sim.walletStakingOperators;
    assert sim.stakingOperators + NewIds(sim.operatorIndex, 0) - {} == sim.stakingOperators;
    QuietMorning(stakers, WALLET_CREATION_PERIOD, 1);
    BooksMeaning(sim.walletBalances, sim.walletIndex, sim.btcInSystem, sim.biggestWalletBalance, sim.lost);
    var unserved, evening := sim.NewDay(WALLET_CREATION_PERIOD, QUIET);
    assert sim.walletStakingOperators.Keys == Without(sim.walletStakingOperators, 1).Keys + {1};
  }

  /**
   A deposit of 10 goes to the first wallet. When all its operators quit, after a second wallet was created,
   it closes; the second wallet holds too little to be eligible. The deposit is counted and nobody has it, so
   withdrawing it never comes to an end.
   */
  method BalanceIsLost() returns (sim: Simulation)
    ensures fresh(sim) && sim.Valid(9)
    ensures sim.lost == sim.btcInSystem == 10.0
    ensures Capped(10.0, sim.btcInSystem) == 10.0 && !Ends(sim.walletBalances, 10.0)
  {
    hide BooksOf, Tally, Agree, OperatorsSplit, HeartbeatOf, AfterMorning, NewIds, Ends, Without;
    sim := FirstDay(10.0);
    ManyStake(sim.stakingOperators);
    QuietDays(sim, 1, 7);
    SecondWallet(sim);
    LosesEverything(sim);
  }

  /** The members of the first of two wallets quit, and the second is empty. */
  method LosesEverything(sim: Simulation)
    requires sim.Valid(8) && sim.walletStakingOperators.Keys == {0, 1} && sim.walletStakingOperators[0] != {}
    requires 1 in sim.walletBalances && sim.walletBalances[1] == 0.0
    modifies sim
    ensures sim.Valid(9)
    ensures sim.lost == sim.btcInSystem == old(sim.btcInSystem)
    ensures forall request :: 0.0 < request ==> !Ends(sim.walletBalances, request)
  {
    hide LeftBy, TakenFrom, Rescheduled, ChosenFrom, LeavingOn, PartOf, NewIds;
    hide BooksOf, Tally, Agree, OperatorsSplit, HeartbeatOf, AfterMorning, Ends, Without, SumTo, Capped;
    ghost var stakers := sim.walletStakingOperators;
    AllMembersLeave(stakers, 8);
    BooksMeaning(sim.walletBalances, sim.walletIndex, sim.btcInSystem, sim.biggestWalletBalance, sim.lost);
    var quitting := sim.walletStakingOperators[0];
    var unserved, evening := sim.NewDay(8, Day(0, quitting, 0.0, 0.0));
    NoNewWallet(sim.walletStakingOperators, AfterMorning(stakers, 8, quitting, 2), 2);
    OnlyEmptyWallet(sim.walletBalances, sim.btcInSystem, sim.biggestWalletBalance, sim.lost);
  }

  lemma OnlyEmptyWallet(b: Balances, btc: real, biggest: real, lost: real)
    requires BooksOf(b, 2, btc, biggest, lost) && b.Keys == {1} && b[1] == 0.0
    ensures lost == btc
    ensures forall request :: 0.0 < request ==> !Ends(b, request)
  {
    assert SumTo(b, 1) == 0.0;
    forall request | 0.0 < request ensures !Ends(b, request) {
      LoopEndsExactly(b, request, 2);
    }
  }

  /** All members of the only wallet quit, and it stays. */
  method NewestLosesAll(sim: Simulation)
    requires sim.Valid(1) && sim.walletStakingOperators.Keys == {0}
    requires |sim.walletStakingOperators[0]| < |sim.stakingOperators|
    modifies sim
    ensures sim.Valid(2) && sim.walletStakingOperators == map[0 := {}] && sim.stakingOperators != {}
  {
    hide LeftBy, TakenFrom, Rescheduled, Served, DepositedBalances, ChosenFrom, LeavingOn, PartOf, Without;
    hide BooksOf, Tally, Agree, OperatorsSplit, HeartbeatOf, AfterMorning;
    ghost var stakers, staking := sim.walletStakingOperators, sim.stakingOperators;
    var quitting := sim.walletStakingOperators[0];
    NewestMembersLeave(stakers, 1);
    var unserved, evening := sim.NewDay(1, Day(0, quitting, 0.0, 0.0));
    NoNewWallet(sim.walletStakingOperators, map[0 := {}], 1);
    SomeStay(staking, quitting);
    assert staking + NewIds(old(sim.operatorIndex), 0) == staking;
  }

  /**
   The exception of the heartbeat: a wallet all of whose operators quit while it is the newest stays open,
   and still does after it was superseded.
   */
  method HeartbeatOutlived() returns (sim: Simulation)
    ensures fresh(sim) && sim.Valid(8)
    ensures 0 in sim.walletStakingOperators && sim.walletStakingOperators[0] == {} && 0 < sim.walletIndex - 1
  {
    hide BooksOf, Tally, Agree, OperatorsSplit, HeartbeatOf, NewIds;
    sim := FirstDay(0.0);
    ManyStake(sim.stakingOperators);
    NewestLosesAll(sim);
    QuietDays(sim, 2, 7);
    SecondWallet(sim);
  }

  lemma SomeStay(staking: set<nat>, quitting: set<nat>)
    requires |quitting| < |staking|
    ensures staking - quitting != {}
  {
    if forall o :: o in staking ==> o in quitting {
      Smaller(staking, quitting);
    } else {
      var o :| o in staking && o !in quitting;
      assert o in staking - quitting;
    }
  }
}
