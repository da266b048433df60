/** Which wallets close because of their age or their heartbeat, and what the others keep. */
module WalletClosing {
  import opened Balances
  import opened WalletIndexes

  const HEARTBEAT := 70
  const WALLET_CREATION_PERIOD := 7
  const WALLET_MAX_AGE := 180
  const WALLET_MIN_BTC := 1.0

  /** The age at which a wallet is closed; wallet `w` is created on day `w * WALLET_CREATION_PERIOD`. */
  predicate TooOld(wallet: nat, day: int) {
    day >= wallet * WALLET_CREATION_PERIOD + WALLET_MAX_AGE
  }

  /** The staking operators of the wallets that are not too old; wallet `n - 1`, the newest, never is. */
  function NotTooOld(stakers: Members, day: int, n: nat): Members {
    map w | w in stakers && !(TooOld(w, day) && w < n - 1) :: stakers[w]
  }

  /** The same when only the wallets below number `k` are considered. */
  function NotTooOldBelow(stakers: Members, day: int, k: nat, n: nat): Members {
    map w | w in stakers && !(w < k && TooOld(w, day) && w < n - 1) :: stakers[w]
  }

  lemma NoneTooOldBelow(stakers: Members, day: int, n: nat)
    ensures NotTooOldBelow(stakers, day, 0, n) == stakers
  {
  }

  lemma NotTooOldNext(stakers: Members, day: int, k: nat, n: nat)
    ensures var now := NotTooOldBelow(stakers, day, k, n);
            NotTooOldBelow(stakers, day, k + 1, n)
            == if k in now && TooOld(k, day) && k < n - 1 then Without(now, k) else now
  {
  }

  lemma AllTooOldBelow(stakers: Members, day: int, n: nat)
    ensures NotTooOldBelow(stakers, day, n, n) == NotTooOld(stakers, day, n)
    ensures forall w :: w in NotTooOld(stakers, day, n) <==> w in stakers && !(TooOld(w, day) && w < n - 1)
  {
  }

  /** The wallet loses a member, is not the newest, and is left with too few staking operators. */
  predicate Falls(stakers: Members, wallet: nat, gone: set<nat>, n: nat) {
    && wallet in stakers
    && wallet < n - 1
    && stakers[wallet] * gone != {}
    && |stakers[wallet] - gone| < HEARTBEAT
  }

  /** The staking operators of the wallets that survive when the operators `gone` leave. */
  function Remaining(stakers: Members, gone: set<nat>, n: nat): Members {
    map w | w in stakers && !Falls(stakers, w, gone, n) :: stakers[w] - gone
  }

  lemma NoneOf(members: set<nat>, gone: set<nat>)
    requires members * gone == {}
    ensures members - gone == members
  {
    assert forall o :: o in members && o in gone ==> o in members * gone;
  }

  lemma NobodyLeaves(stakers: Members, n: nat)
    ensures Remaining(stakers, {}, n) == stakers
  {
    forall w | w in stakers ensures stakers[w] - {} == stakers[w] && stakers[w] * {} == {} {
    }
  }

  lemma Smaller(a: set<nat>, b: set<nat>)
    requires a <= b
    ensures |a| <= |b|
  {
    assert b == a + (b - a);
  }

  /** A wallet falls through one more leaving operator either now or at the operators before. */
  lemma FallsNext(members: set<nat>, gone: set<nat>, operator: nat)
    ensures members - gone - {operator} == members - (gone + {operator})
    ensures members * (gone + {operator}) != {} && |members - (gone + {operator})| < HEARTBEAT
            <==> || (members * gone != {} && |members - gone| < HEARTBEAT)
                 || ((members - gone) * {operator} != {} && |members - gone - {operator}| < HEARTBEAT)
  {
    assert members - gone - {operator} == members - (gone + {operator});
    assert members * (gone + {operator})
           == members * gone + (members - gone) * {operator} + members * gone * {operator};
    Smaller(members - (gone + {operator}), members - gone);
    if (members - gone) * {operator} == {} {
      NoneOf(members - gone, {operator});
    }
  }

  /** Operators that leave one after the other have the effect of leaving together. */
  lemma OneMoreLeaves(stakers: Members, gone: set<nat>, operator: nat, n: nat)
    ensures Remaining(Remaining(stakers, gone, n), {operator}, n) == Remaining(stakers, gone + {operator}, n)
  {
    forall w | w in stakers
      ensures stakers[w] - gone - {operator} == stakers[w] - (gone + {operator})
      ensures Falls(stakers, w, gone + {operator}, n)
              <==> Falls(stakers, w, gone, n) || Falls(Remaining(stakers, gone, n), w, {operator}, n)
    {
      FallsNext(stakers[w], gone, operator);
    }
  }

  /** One turn of the loop in which an operator leaves its wallets. */
  function LeftOne(stakers: Members, wallet: nat, operator: nat, n: nat): Members
    requires wallet in stakers
  {
    var s := stakers[wallet] - {operator};
    if |s| < HEARTBEAT && wallet < n - 1 then Without(stakers, wallet) else stakers[wallet := s]
  }

  /** Whatever the order of the turns, they lead to the same wallets. */
  lemma LeavingOneOfAll(stakers: Members, wallet: nat, operator: nat, n: nat)
    requires wallet in stakers && operator in stakers[wallet]
    ensures Remaining(LeftOne(stakers, wallet, operator, n), {operator}, n) == Remaining(stakers, {operator}, n)
  {
    var now := LeftOne(stakers, wallet, operator, n);
    assert operator in stakers[wallet] * {operator};
    assert (stakers[wallet] - {operator}) * {operator} == {};
    assert stakers[wallet] - {operator} - {operator} == stakers[wallet] - {operator};
    assert forall w :: w in now && w != wallet ==> now[w] == stakers[w];
  }

  lemma HasLeft(stakers: Members, operators: set<nat>, operatorToWallets: Members, operator: nat, n: nat)
    requires Agree(operators, operatorToWallets, stakers) && operator !in operators
    ensures Remaining(stakers, {operator}, n) == stakers
  {
    forall w | w in stakers ensures stakers[w] * {operator} == {} && stakers[w] - {operator} == stakers[w] {
      assert stakers[w] <= operators;
    }
  }

  /** Only operators that a wallet has matter. */
  lemma OnlyMembersMatter(stakers: Members, operators: set<nat>, gone: set<nat>, n: nat)
    requires forall w :: w in stakers ==> stakers[w] <= operators
    ensures Remaining(stakers, operators * gone, n) == Remaining(stakers, gone, n)
  {
    forall w | w in stakers
      ensures stakers[w] - operators * gone == stakers[w] - gone
      ensures stakers[w] * (operators * gone) == stakers[w] * gone
    {
    }
  }

  /** `after` has some of the wallets, each as it was. */
  predicate PartOf(after: Members, before: Members) {
    forall w :: w in after ==> w in before && after[w] == before[w]
  }

  lemma WholePart(after: Members, before: Members)
    requires PartOf(after, before)
    ensures after.Keys <= before.Keys && (after.Keys == before.Keys ==> after == before)
  {
  }

  lemma PartWithout(after: Members, before: Members, wallet: nat)
    requires PartOf(after, before)
    ensures PartOf(Without(after, wallet), Without(before, wallet))
    ensures wallet in after ==> wallet in before && after[wallet] == before[wallet]
  {
  }

  lemma NotTooOldIsPart(stakers: Members, day: int, n: nat)
    ensures PartOf(NotTooOld(stakers, day, n), stakers)
  {
  }

  // -------------------------------------------------------------------------------------------
  // The heartbeat

  /**
   `superseded` holds the staking operators that each wallet had when it stopped being the newest. A wallet
   that is not the newest is below the heartbeat exactly if it was then and has lost nobody since.
   */
  predicate HeartbeatOf(stakers: Members, superseded: Members, n: nat) {
    forall w :: w in stakers && w < n - 1 ==>
      && w in superseded
      && stakers[w] <= superseded[w]
      && (|stakers[w]| < HEARTBEAT <==> |superseded[w]| < HEARTBEAT && stakers[w] == superseded[w])
  }

  /** The newest wallet stops being the newest when wallet `n` is created. */
  function Superseded(superseded: Members, stakers: Members, n: nat): Members {
    if 0 < n && n - 1 in stakers then superseded[n - 1 := stakers[n - 1]] else superseded
  }

  lemma HeartbeatOfPart(after: Members, before: Members, superseded: Members, n: nat)
    requires HeartbeatOf(before, superseded, n) && PartOf(after, before)
    ensures HeartbeatOf(after, superseded, n)
  {
  }

  lemma HeartbeatOfRemaining(stakers: Members, superseded: Members, gone: set<nat>, n: nat)
    requires HeartbeatOf(stakers, superseded, n)
    ensures HeartbeatOf(Remaining(stakers, gone, n), superseded, n)
  {
    forall w | w in stakers && stakers[w] * gone == {} ensures stakers[w] - gone == stakers[w] {
      NoneOf(stakers[w], gone);
    }
  }

  lemma HeartbeatWithNewWallet(stakers: Members, superseded: Members, n: nat, members: set<nat>)
    requires HeartbeatOf(stakers, superseded, n)
    requires 0 < n ==> n - 1 in stakers
    ensures HeartbeatOf(stakers[n := members], Superseded(superseded, stakers, n), n + 1)
  {
  }

  /** The wallets there were in the evening before, less those too old and those that fall. */
  function AfterMorning(stakers: Members, day: int, gone: set<nat>, n: nat): Members {
    Remaining(NotTooOld(stakers, day, n), gone, n)
  }

  /**
   A wallet that is not the newest is gone when it is 180 days old, counted from day `7 * w`, or when a member
   leaves it and fewer than 70 are left.
   */
  lemma AfterMorningInNumbers(stakers: Members, day: int, gone: set<nat>, n: nat, w: nat)
    ensures w in AfterMorning(stakers, day, gone, n) <==>
              w in stakers && (n - 1 <= w || (day < 7 * w + 180
                                              && (stakers[w] * gone == {} || 70 <= |stakers[w] - gone|)))
    ensures w in AfterMorning(stakers, day, gone, n) ==>
              AfterMorning(stakers, day, gone, n)[w] == stakers[w] - gone
  {
  }

  lemma MorningKeeps(stakers: Members, superseded: Members, day: int, gone: set<nat>, n: nat)
    requires HeartbeatOf(stakers, superseded, n)
    ensures HeartbeatOf(AfterMorning(stakers, day, gone, n), superseded, n)
    ensures forall w :: w in AfterMorning(stakers, day, gone, n) ==> w in stakers && !(TooOld(w, day) && w < n - 1)
  {
    NotTooOldIsPart(stakers, day, n);
    HeartbeatOfPart(NotTooOld(stakers, day, n), stakers, superseded, n);
    HeartbeatOfRemaining(NotTooOld(stakers, day, n), superseded, gone, n);
  }

  // -------------------------------------------------------------------------------------------
  // The balances

  /** Wallets may be gone; the others have at least what they had, and exactly that if it was dust. */
  predicate KeptBalances(before: Balances, after: Balances) {
    && after.Keys <= before.Keys
    && forall w :: w in after ==> before[w] <= after[w] && (before[w] <= WALLET_MIN_BTC ==> after[w] == before[w])
  }

  lemma KeptUnchanged(b: Balances)
    ensures KeptBalances(b, b)
  {
  }

  lemma KeptTwice(a: Balances, b: Balances, c: Balances)
    requires KeptBalances(a, b) && KeptBalances(b, c)
    ensures KeptBalances(a, c)
  {
  }

  /** The same for all wallets but one, which may be gone too. */
  predicate KeptOthers(before: Balances, after: Balances, wallet: nat) {
    && after.Keys <= before.Keys
    && forall w :: w in after && w != wallet ==>
         before[w] <= after[w] && (before[w] <= WALLET_MIN_BTC ==> after[w] == before[w])
  }

  /**
   The wallets that are left after `served` was taken from the oldest on: those that had to give have what is left
   of them, and the others at least what they had, exactly that if it was dust.
   */
  ghost predicate TakenFrom(before: Balances, after: Balances, served: real) {
    && after.Keys <= before.Keys
    && forall w :: w in after ==>
         if SumTo(before, w) < served then
           after[w] == if SumTo(before, w + 1) <= served then 0.0 else SumTo(before, w + 1) - served
         else before[w] <= after[w] && (before[w] <= WALLET_MIN_BTC ==> after[w] == before[w])
  }

  lemma NothingTaken(b: Balances)
    requires NonNegative(b)
    ensures TakenFrom(b, b, 0.0)
  {
    forall w | w in b ensures 0.0 <= SumTo(b, w) {
      SumToGrows(b, w, w);
    }
  }

  /** One more wallet gives; those before it have given all they had, those after it nothing yet. */
  lemma TakenNext(b: Balances, now: Balances, after: Balances, wallet: nat, remaining: real, rest: real)
    requires NonNegative(b) && now.Keys <= b.Keys && 0.0 < remaining
    requires forall i :: 0 <= i < wallet ==> BalanceAt(now, i) == 0.0
    requires forall i :: wallet <= i ==> BalanceAt(now, i) == BalanceAt(b, i)
    requires rest == AfterWallet(remaining, BalanceAt(now, wallet)) && KeptOthers(now, after, wallet)
    requires wallet in after ==> after[wallet] == BalanceAt(now, wallet) - (remaining - rest)
    ensures TakenFrom(b, after, SumTo(b, wallet) + remaining - rest)
  {
    hide SumTo;
    var served := SumTo(b, wallet) + remaining - rest;
    forall w | w in after
      ensures if SumTo(b, w) < served then
                after[w] == if SumTo(b, w + 1) <= served then 0.0 else SumTo(b, w + 1) - served
              else b[w] <= after[w] && (b[w] <= WALLET_MIN_BTC ==> after[w] == b[w])
    {
      SumToNext(b, w);
      SumToNext(b, wallet);
      assert BalanceAt(now, w) == now[w] && BalanceAt(b, w) == b[w];
      if w < wallet {
        SumToGrows(b, w + 1, wallet);
      } else if w > wallet {
        SumToGrows(b, wallet + 1, w);
      }
    }
  }

  lemma SumToNext(b: Balances, n: nat)
    ensures SumTo(b, n + 1) == SumTo(b, n) + BalanceAt(b, n)
  {
  }

  /** The same for all wallets of a day, with a deposit into the newest. */
  predicate DepositedBalances(before: Balances, after: Balances, newest: nat, deposit: real) {
    forall w :: w in after ==>
      var least := BalanceAt(before, w) + (if w == newest then deposit else 0.0);
      least <= after[w] && (BalanceAt(before, w) <= WALLET_MIN_BTC ==> after[w] == least)
  }

  /** The wallet closes because a withdrawal leaves it with no more than dust. */
  predicate DrainedBy(b: Balances, remaining: real, wallet: nat, n: nat) {
    && wallet in b && wallet < n - 1
    && 0.0 < b[wallet] && 0.0 < remaining
    && b[wallet] - remaining <= WALLET_MIN_BTC
  }

  /** The same for the withdrawal of `request` from the oldest wallet on. */
  predicate Drained(b: Balances, request: real, wallet: nat, n: nat) {
    DrainedBy(b, RemainingAt(b, request, wallet), wallet, n)
  }

  /**
   A wallet that is not the newest is drained when the older wallets hold less than the request, and it leaves at
   most 1 coin beyond it.
   */
  lemma DrainedInNumbers(b: Balances, request: real, wallet: nat, n: nat)
    requires NonNegative(b) && 0.0 <= request
    ensures Drained(b, request, wallet, n) <==>
              && wallet in b && wallet < n - 1 && 0.0 < b[wallet]
              && SumTo(b, wallet) < request && SumTo(b, wallet + 1) <= request + 1.0
  {
    RemainingIsWhatExceeds(b, request, wallet);
    assert SumTo(b, wallet + 1) == SumTo(b, wallet) + BalanceAt(b, wallet);
  }

  /** Exactly the wallets are left that the withdrawal does not drain. */
  ghost predicate LeftBy(after: Balances, before: Balances, request: real, n: nat) {
    forall w :: w in after <==> w in before && !Drained(before, request, w, n)
  }

  lemma LeftByIsPart(after: Balances, before: Balances, request: real, n: nat)
    requires LeftBy(after, before, request, n)
    ensures after.Keys <= before.Keys
  {
  }

  lemma DrainedMeans(b: Balances, now: Balances, request: real, wallet: nat, n: nat)
    requires wallet in now <==> wallet in b
    requires BalanceAt(now, wallet) == BalanceAt(b, wallet)
    ensures Drained(b, request, wallet, n) <==> DrainedBy(now, RemainingAt(b, request, wallet), wallet, n)
  {
  }

  lemma {:induction false} NothingMoreIsDrained(b: Balances, request: real, k: nat, n: nat)
    requires RemainingAt(b, request, k) <= 0.0 || n <= k
    ensures forall w :: k <= w ==> !Drained(b, request, w, n)
  {
    forall w | k <= w ensures RemainingAt(b, request, w) <= 0.0 || n <= w {
      if RemainingAt(b, request, k) <= 0.0 {
        NothingRemains(b, request, k, w);
      }
    }
  }

  lemma {:induction false} NothingRemains(b: Balances, request: real, m: nat, n: nat)
    requires m <= n && RemainingAt(b, request, m) <= 0.0
    ensures RemainingAt(b, request, n) <= 0.0
  {
    if m < n {
      NothingRemains(b, request, m, n - 1);
    }
  }
}
