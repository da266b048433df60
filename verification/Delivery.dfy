/**
 What the receivers get over any sequence of runs, successful or not: the persisted log, and how often an
 event is handled.
 */
module Delivery {
  import opened Results
  import opened Sequences
  import opened SystemEvents

  /** The store before run `n`. */
  function State(receivers: seq<Receiver>, s0: Store, runs: seq<Run>, n: nat): Store
    requires n <= |runs|
  {
    if n == 0 then s0 else Next(receivers, State(receivers, s0, runs, n - 1), runs[n - 1])
  }

  /** Everything handled by the receivers in the first `n` runs, in order. */
  function History(receivers: seq<Receiver>, s0: Store, runs: seq<Run>, n: nat): seq<Ack>
    requires n <= |runs|
  {
    if n == 0 then []
    else History(receivers, s0, runs, n - 1) + Deliveries(receivers, State(receivers, s0, runs, n - 1), runs[n - 1])
  }

  /** The event numbered `k` of the run, at receiver number `r`. */
  function OutcomeOf(receivers: seq<Receiver>, s: Store, run: Run, r: nat, k: nat): Option<Ack>
    requires r < |receivers| && k < |Gathered(run.monitors)|
  {
    Dispatch(receivers[r], LogOf(s.handled, receivers[r].id), Gathered(run.monitors)[k], (r, k) in run.failedDispatches)
  }

  // -------------------------------------------------------------------------------------------
  // The log

  lemma {:induction false} EventsForConcat(a: seq<Ack>, b: seq<Ack>, id: ReceiverId)
    ensures EventsFor(a + b, id) == EventsFor(a, id) + EventsFor(b, id)
  {
    if b == [] {
      NothingToAdd(a);
    } else {
      var last := b[|b| - 1];
      assert (a + b)[..|a + b| - 1] == a + b[..|b| - 1];
      EventsForConcat(a, b[..|b| - 1], id);
      Assoc(EventsFor(a, id), EventsFor(b[..|b| - 1], id), if last.receiverId == id then [last.systemEvent] else []);
    }
  }

  lemma {:induction false} EventsForMembers(acks: seq<Ack>, id: ReceiverId, e: SystemEvent)
    ensures e in EventsFor(acks, id) <==> exists a :: a in acks && a.receiverId == id && a.systemEvent == e
  {
    if acks != [] {
      var front, last := acks[..|acks| - 1], acks[|acks| - 1];
      EventsForMembers(front, id, e);
      assert acks == front + [last];
    }
  }

  lemma AppendedLog(handled: map<ReceiverId, seq<SystemEvent>>, acks: seq<Ack>, id: ReceiverId)
    ensures LogOf(Appended(handled, acks), id) == LogOf(handled, id) + EventsFor(acks, id)
  {
    if id !in Ids(acks) {
      NobodyThere(acks, id);
      NothingToAdd(LogOf(handled, id));
    }
  }

  lemma {:induction false} NobodyThere(acks: seq<Ack>, id: ReceiverId)
    requires id !in Ids(acks)
    ensures EventsFor(acks, id) == []
  {
    if acks != [] {
      assert acks[|acks| - 1].receiverId in Ids(acks);
      assert forall a :: a in acks[..|acks| - 1] ==> a in acks;
      NobodyThere(acks[..|acks| - 1], id);
    }
  }

  /** One run leaves each log as it is or appends what the receiver handled. */
  lemma LogAfterRun(receivers: seq<Receiver>, s: Store, run: Run, id: ReceiverId)
    ensures LogOf(Next(receivers, s, run).handled, id)
            == if Stores(receivers, s, run) then LogOf(s.handled, id) + EventsFor(Deliveries(receivers, s, run), id)
               else LogOf(s.handled, id)
  {
    AppendedLog(s.handled, Deliveries(receivers, s, run), id);
  }

  /** The log of a receiver only grows, whatever fails. */
  lemma {:induction false} LogOnlyGrows(receivers: seq<Receiver>, s0: Store, runs: seq<Run>, m: nat, n: nat,
                                        id: ReceiverId)
    requires m <= n <= |runs|
    ensures LogOf(State(receivers, s0, runs, m).handled, id) <= LogOf(State(receivers, s0, runs, n).handled, id)
    decreases n
  {
    hide Next, Deliveries, Stores;
    if m < n {
      LogOnlyGrows(receivers, s0, runs, m, n - 1, id);
      LogAfterRun(receivers, State(receivers, s0, runs, n - 1), runs[n - 1], id);
    }
  }

  ghost predicate AllStored(receivers: seq<Receiver>, s0: Store, runs: seq<Run>, n: nat)
    requires n <= |runs|
  {
    forall i :: 0 <= i < n ==> Stores(receivers, State(receivers, s0, runs, i), runs[i])
  }

  /** When no store fails, the log is exactly the history of what the receiver handled, in order. */
  lemma {:induction false} LogIsHistory(receivers: seq<Receiver>, s0: Store, runs: seq<Run>, n: nat, id: ReceiverId)
    requires n <= |runs| && AllStored(receivers, s0, runs, n)
    ensures LogOf(State(receivers, s0, runs, n).handled, id)
            == LogOf(s0.handled, id) + EventsFor(History(receivers, s0, runs, n), id)
  {
    hide Next, Deliveries, Stores;
    if n == 0 {
      NothingToAdd(LogOf(s0.handled, id));
    } else {
      var s := State(receivers, s0, runs, n - 1);
      var before, now := History(receivers, s0, runs, n - 1), Deliveries(receivers, s, runs[n - 1]);
      LogIsHistory(receivers, s0, runs, n - 1, id);
      LogAfterRun(receivers, s, runs[n - 1], id);
      EventsForConcat(before, now, id);
      Assoc(LogOf(s0.handled, id), EventsFor(before, id), EventsFor(now, id));
    }
  }

  // -------------------------------------------------------------------------------------------
  // What one run delivers

  lemma AcksLast(front: seq<Option<Ack>>, last: Option<Ack>)
    ensures Acks(front + [last]) == if last.Some? then Acks(front) + [last.value] else Acks(front)
  {
    var outcomes := front + [last];
    assert outcomes[..|outcomes| - 1] == front && outcomes[|outcomes| - 1] == last;
    NothingToAdd(Acks(front));
  }

  lemma HandledOnlyLast(front: seq<Ack>, last: Ack)
    ensures HandledOnly(front + [last]) == if last.status == Handled then HandledOnly(front) + [last]
            else HandledOnly(front)
  {
    var acks := front + [last];
    assert acks[..|acks| - 1] == front && acks[|acks| - 1] == last;
    NothingToAdd(HandledOnly(front));
  }

  lemma CountLast<T>(front: seq<T>, last: T, x: T)
    ensures multiset(front + [last])[x] == multiset(front)[x] + (if last == x then 1 else 0)
  {
    assert multiset(front + [last]) == multiset(front) + multiset{last};
  }

  lemma OneMoreOutcome(front: seq<Option<Ack>>, last: Option<Ack>, a: Ack)
    requires a.status == Handled
    requires multiset(HandledOnly(Acks(front)))[a] == multiset(front)[Some(a)]
    ensures multiset(HandledOnly(Acks(front + [last])))[a] == multiset(front + [last])[Some(a)]
  {
    hide Acks, HandledOnly;
    AcksLast(front, last);
    CountLast(front, last, Some(a));
    if last.Some? {
      HandledOnlyLast(Acks(front), last.value);
      CountLast(HandledOnly(Acks(front)), last.value, a);
    }
  }

  lemma {:induction false} HandledAcksCount(outcomes: seq<Option<Ack>>, a: Ack)
    requires a.status == Handled
    ensures multiset(HandledOnly(Acks(outcomes)))[a] == multiset(outcomes)[Some(a)]
  {
    if outcomes == [] {
      assert Acks(outcomes) == [] && HandledOnly([]) == [];
    } else {
      hide Acks, HandledOnly;
      var front, last := outcomes[..|outcomes| - 1], outcomes[|outcomes| - 1];
      assert outcomes == front + [last];
      HandledAcksCount(front, a);
      OneMoreOutcome(front, last, a);
    }
  }

  lemma {:induction false} OnlyHandled(acks: seq<Ack>)
    ensures forall a :: a in HandledOnly(acks) ==> a.status == Handled
  {
    if acks != [] {
      OnlyHandled(acks[..|acks| - 1]);
    }
  }

  lemma {:induction false} SettledAtElements(receiver: Receiver, r: nat, logged: seq<SystemEvent>,
                                             events: seq<SystemEvent>, failed: set<(nat, nat)>, k: nat, i: nat)
    requires i < k <= |events|
    ensures SettledAt(receiver, r, logged, events, failed, k)[i]
            == Dispatch(receiver, logged, events[i], (r, i) in failed)
  {
    if i + 1 < k {
      SettledAtElements(receiver, r, logged, events, failed, k - 1, i);
    }
  }

  lemma SettledAtMembers(receivers: seq<Receiver>, s: Store, run: Run, r: nat, o: Option<Ack>)
    requires r < |receivers|
    ensures o in SettledAt(receivers[r], r, LogOf(s.handled, receivers[r].id), Gathered(run.monitors),
                           run.failedDispatches, |Gathered(run.monitors)|)
            <==> exists k :: 0 <= k < |Gathered(run.monitors)| && OutcomeOf(receivers, s, run, r, k) == o
  {
    hide Dispatch;
    var events, logged := Gathered(run.monitors), LogOf(s.handled, receivers[r].id);
    var outcomes := SettledAt(receivers[r], r, logged, events, run.failedDispatches, |events|);
    forall k | 0 <= k < |events| ensures outcomes[k] == OutcomeOf(receivers, s, run, r, k) {
      SettledAtElements(receivers[r], r, logged, events, run.failedDispatches, |events|, k);
    }
  }

  /** Which outcomes there are: one for each pair of a receiver and an event. */
  lemma {:induction false} SettledMembers(receivers: seq<Receiver>, s: Store, run: Run, n: nat, o: Option<Ack>)
    requires n <= |receivers|
    ensures o in Settled(receivers, s.handled, Gathered(run.monitors), run.failedDispatches, n)
            <==> exists r, k :: 0 <= r < n && 0 <= k < |Gathered(run.monitors)|
                                && OutcomeOf(receivers, s, run, r, k) == o
  {
    hide OutcomeOf, SettledAt;
    if n != 0 {
      SettledMembers(receivers, s, run, n - 1, o);
      SettledAtMembers(receivers, s, run, n - 1, o);
    }
  }

  /** A delivery is the handled outcome of some receiver and event of the run, and every such outcome is delivered. */
  lemma DeliveredExactly(receivers: seq<Receiver>, s: Store, run: Run, a: Ack)
    requires Dispatches(run)
    ensures a in Deliveries(receivers, s, run)
            <==> a.status == Handled
                 && exists r, k :: 0 <= r < |receivers| && 0 <= k < |Gathered(run.monitors)|
                                   && OutcomeOf(receivers, s, run, r, k) == Some(a)
  {
    var outcomes := Outcomes(receivers, s, run);
    OnlyHandled(Acks(outcomes));
    if a.status == Handled {
      HandledAcksCount(outcomes, a);
      SettledMembers(receivers, s, run, |receivers|, Some(a));
      assert a in HandledOnly(Acks(outcomes)) <==> Some(a) in outcomes;
    }
  }

  // -------------------------------------------------------------------------------------------
  // At most once

  ghost predicate AtMostOnce(acks: seq<Ack>) {
    forall a :: multiset(acks)[a] <= 1
  }

  predicate DistinctIds(receivers: seq<Receiver>) {
    forall i, j :: 0 <= i < j < |receivers| ==> receivers[i].id != receivers[j].id
  }

  lemma {:induction false} OncePositions<T>(s: seq<T>, x: T)
    ensures multiset(s)[x] <= 1 <==> forall i, j :: 0 <= i < j < |s| ==> !(s[i] == x && s[j] == x)
  {
    if s != [] {
      var front, last := s[..|s| - 1], s[|s| - 1];
      OncePositions(front, x);
      assert s == front + [last];
      assert multiset(s) == multiset(front) + multiset{last};
      if multiset(front)[x] == 1 {
        assert x in front;
        var i :| 0 <= i < |front| && front[i] == x;
        assert s[i] == x;
      }
    }
  }

  lemma CountSum<T>(a: seq<T>, b: seq<T>, x: T)
    ensures multiset(a + b)[x] == multiset(a)[x] + multiset(b)[x]
  {
    assert multiset(a + b) == multiset(a) + multiset(b);
  }

  /** What the last of the first `n + 1` receivers adds to the outcomes. */
  lemma SettledNext(receivers: seq<Receiver>, handled: map<ReceiverId, seq<SystemEvent>>,
                    events: seq<SystemEvent>, failed: set<(nat, nat)>, n: nat, o: Option<Ack>)
    requires n < |receivers|
    ensures multiset(Settled(receivers, handled, events, failed, n + 1))[o]
            == multiset(Settled(receivers, handled, events, failed, n))[o]
               + multiset(SettledAt(receivers[n], n, LogOf(handled, receivers[n].id), events, failed, |events|))[o]
  {
    hide SettledAt;
    CountSum(Settled(receivers, handled, events, failed, n),
             SettledAt(receivers[n], n, LogOf(handled, receivers[n].id), events, failed, |events|), o);
  }

  lemma SettledNone(receivers: seq<Receiver>, handled: map<ReceiverId, seq<SystemEvent>>,
                    events: seq<SystemEvent>, failed: set<(nat, nat)>, a: Ack)
    ensures multiset(Settled(receivers, handled, events, failed, 0))[Some(a)] == 0
  {
  }

  lemma {:induction false} SettledCountElsewhere(receivers: seq<Receiver>, handled: map<ReceiverId, seq<SystemEvent>>,
                                                 events: seq<SystemEvent>, failed: set<(nat, nat)>, n: nat, a: Ack)
    requires n <= |receivers|
    requires forall r :: 0 <= r < n ==> receivers[r].id != a.receiverId
    ensures multiset(Settled(receivers, handled, events, failed, n))[Some(a)] == 0
  {
    hide SettledAt, Settled;
    if n == 0 {
      SettledNone(receivers, handled, events, failed, a);
    } else {
      SettledCountElsewhere(receivers, handled, events, failed, n - 1, a);
      SettledNext(receivers, handled, events, failed, n - 1, Some(a));
      NotFrom(receivers[n - 1], n - 1, LogOf(handled, receivers[n - 1].id), events, failed, a);
    }
  }

  lemma NotFrom(receiver: Receiver, r: nat, logged: seq<SystemEvent>, events: seq<SystemEvent>,
                failed: set<(nat, nat)>, a: Ack)
    requires receiver.id != a.receiverId
    ensures Some(a) !in SettledAt(receiver, r, logged, events, failed, |events|)
  {
    forall i | 0 <= i < |events| ensures SettledAt(receiver, r, logged, events, failed, |events|)[i] != Some(a) {
      SettledAtElements(receiver, r, logged, events, failed, |events|, i);
    }
  }

  /** With distinct identifiers all outcomes for one receiver come from its own dispatches. */
  lemma {:induction false} SettledCount(receivers: seq<Receiver>, handled: map<ReceiverId, seq<SystemEvent>>,
                                        events: seq<SystemEvent>, failed: set<(nat, nat)>, n: nat, r: nat, a: Ack)
    requires r < n <= |receivers| && DistinctIds(receivers) && receivers[r].id == a.receiverId
    ensures multiset(Settled(receivers, handled, events, failed, n))[Some(a)]
            == multiset(SettledAt(receivers[r], r, LogOf(handled, a.receiverId), events, failed, |events|))[Some(a)]
  {
    hide SettledAt, Settled;
    SettledNext(receivers, handled, events, failed, n - 1, Some(a));
    if r == n - 1 {
      SettledCountElsewhere(receivers, handled, events, failed, n - 1, a);
    } else {
      SettledCount(receivers, handled, events, failed, n - 1, r, a);
      NotFrom(receivers[n - 1], n - 1, LogOf(handled, receivers[n - 1].id), events, failed, a);
    }
  }

  /** Receiver number `r` gets to handle event number `k` of the run, and does. */
  predicate Handles(receivers: seq<Receiver>, s: Store, run: Run, r: nat, k: nat)
    requires r < |receivers| && k < |Gathered(run.monitors)|
  {
    var e := Gathered(run.monitors)[k];
    && Dispatches(run)
    && receivers[r].isSupported(e)
    && e !in LogOf(s.handled, receivers[r].id)
    && (r, k) !in run.failedDispatches
  }

  lemma HandlesMeans(receivers: seq<Receiver>, s: Store, run: Run, r: nat, k: nat, a: Ack)
    requires r < |receivers| && k < |Gathered(run.monitors)| && Dispatches(run) && a.status == Handled
    ensures OutcomeOf(receivers, s, run, r, k) == Some(a)
            <==> Handles(receivers, s, run, r, k) && a == Ack(receivers[r].id, Gathered(run.monitors)[k], Handled)
  {
  }

  /** The run has an event twice and the receiver handles both: the cache is not updated during a run. */
  predicate HandlesTwice(receivers: seq<Receiver>, s: Store, run: Run, r: nat, i: nat, j: nat)
    requires r < |receivers| && i < |Gathered(run.monitors)| && j < |Gathered(run.monitors)|
  {
    && Gathered(run.monitors)[i] == Gathered(run.monitors)[j]
    && Handles(receivers, s, run, r, i) && Handles(receivers, s, run, r, j)
  }

  ghost predicate NothingTwice(receivers: seq<Receiver>, s: Store, run: Run) {
    forall r, i, j :: 0 <= r < |receivers| && 0 <= i < j < |Gathered(run.monitors)|
                      ==> !HandlesTwice(receivers, s, run, r, i, j)
  }

  lemma OnceFromReceiver(receivers: seq<Receiver>, s: Store, run: Run, r: nat, a: Ack)
    requires Dispatches(run) && DistinctIds(receivers)
    requires r < |receivers| && receivers[r].id == a.receiverId && a.status == Handled
    ensures multiset(Deliveries(receivers, s, run))[a] <= 1
            <==> forall i, j :: 0 <= i < j < |Gathered(run.monitors)| ==>
                   !(OutcomeOf(receivers, s, run, r, i) == Some(a) && OutcomeOf(receivers, s, run, r, j) == Some(a))
  {
    var events, logged := Gathered(run.monitors), LogOf(s.handled, a.receiverId);
    var outcomes := SettledAt(receivers[r], r, logged, events, run.failedDispatches, |events|);
    HandledAcksCount(Outcomes(receivers, s, run), a);
    SettledCount(receivers, s.handled, events, run.failedDispatches, |receivers|, r, a);
    OncePositions(outcomes, Some(a));
    forall i | 0 <= i < |events| ensures outcomes[i] == OutcomeOf(receivers, s, run, r, i) {
      SettledAtElements(receivers[r], r, logged, events, run.failedDispatches, |events|, i);
    }
  }

  /**
   One run delivers nothing twice exactly when it does not have an event twice that a receiver supports, did
   not log before, and handles both times.
   */
  lemma RunDeliversOnce(receivers: seq<Receiver>, s: Store, run: Run)
    requires DistinctIds(receivers)
    ensures AtMostOnce(Deliveries(receivers, s, run)) <==> NothingTwice(receivers, s, run)
  {
    hide Deliveries, OutcomeOf, Dispatch, HandlesTwice;
    if !Dispatches(run) {
      NothingWithoutDispatch(receivers, s, run);
    } else if NothingTwice(receivers, s, run) {
      forall a ensures multiset(Deliveries(receivers, s, run))[a] <= 1 {
        DeliveredExactly(receivers, s, run, a);
        if a in Deliveries(receivers, s, run) {
          OnceIfNothingTwice(receivers, s, run, a);
        }
      }
    } else {
      var r, i, j :| 0 <= r < |receivers| && 0 <= i < j < |Gathered(run.monitors)|
        && HandlesTwice(receivers, s, run, r, i, j);
      TwiceIsNotOnce(receivers, s, run, r, i, j);
    }
  }

  lemma NothingWithoutDispatch(receivers: seq<Receiver>, s: Store, run: Run)
    requires !Dispatches(run)
    ensures AtMostOnce(Deliveries(receivers, s, run)) && NothingTwice(receivers, s, run)
  {
  }

  lemma OnceIfNothingTwice(receivers: seq<Receiver>, s: Store, run: Run, a: Ack)
    requires DistinctIds(receivers) && Dispatches(run) && NothingTwice(receivers, s, run)
    requires a in Deliveries(receivers, s, run)
    ensures multiset(Deliveries(receivers, s, run))[a] <= 1
  {
    hide Deliveries, Handles, OutcomeOf;
    DeliveredExactly(receivers, s, run, a);
    var r, k :| 0 <= r < |receivers| && 0 <= k < |Gathered(run.monitors)|
      && OutcomeOf(receivers, s, run, r, k) == Some(a);
    HandlesMeans(receivers, s, run, r, k, a);
    forall i, j | 0 <= i < j < |Gathered(run.monitors)|
      ensures !(OutcomeOf(receivers, s, run, r, i) == Some(a) && OutcomeOf(receivers, s, run, r, j) == Some(a))
    {
      HandlesMeans(receivers, s, run, r, i, a);
      HandlesMeans(receivers, s, run, r, j, a);
      assert !HandlesTwice(receivers, s, run, r, i, j);
    }
    OnceFromReceiver(receivers, s, run, r, a);
  }

  lemma TwiceIsNotOnce(receivers: seq<Receiver>, s: Store, run: Run, r: nat, i: nat, j: nat)
    requires DistinctIds(receivers) && Dispatches(run)
    requires r < |receivers| && i < j < |Gathered(run.monitors)| && HandlesTwice(receivers, s, run, r, i, j)
    ensures !AtMostOnce(Deliveries(receivers, s, run))
  {
    hide Deliveries, OutcomeOf;
    var a := Ack(receivers[r].id, Gathered(run.monitors)[i], Handled);
    HandlesMeans(receivers, s, run, r, i, a);
    HandlesMeans(receivers, s, run, r, j, a);
    OnceFromReceiver(receivers, s, run, r, a);
  }

  /** In particular a run whose events are all different delivers nothing twice. */
  lemma DistinctEventsOnce(receivers: seq<Receiver>, s: Store, run: Run)
    requires DistinctIds(receivers)
    requires forall i, j :: 0 <= i < j < |Gathered(run.monitors)|
                            ==> Gathered(run.monitors)[i] != Gathered(run.monitors)[j]
    ensures AtMostOnce(Deliveries(receivers, s, run))
  {
    RunDeliversOnce(receivers, s, run);
  }

  /** A run delivers nothing that the log of the receiver already has. */
  lemma NewToTheLog(receivers: seq<Receiver>, s: Store, run: Run, a: Ack)
    requires a in Deliveries(receivers, s, run)
    ensures a.status == Handled && a.systemEvent !in LogOf(s.handled, a.receiverId)
  {
    DeliveredExactly(receivers, s, run, a);
  }

  // -------------------------------------------------------------------------------------------
  // At most once over all runs

  /** What run number `i` delivers. */
  function DeliveredIn(receivers: seq<Receiver>, s0: Store, runs: seq<Run>, i: nat): seq<Ack>
    requires i < |runs|
  {
    Deliveries(receivers, State(receivers, s0, runs, i), runs[i])
  }

  predicate StoredIn(receivers: seq<Receiver>, s0: Store, runs: seq<Run>, i: nat)
    requires i < |runs|
  {
    Stores(receivers, State(receivers, s0, runs, i), runs[i])
  }

  lemma {:induction false} HistoryMembers(receivers: seq<Receiver>, s0: Store, runs: seq<Run>, n: nat, a: Ack)
    requires n <= |runs|
    ensures a in History(receivers, s0, runs, n) <==> exists i :: 0 <= i < n && a in DeliveredIn(receivers, s0, runs, i)
  {
    hide Deliveries, State;
    if n != 0 {
      HistoryMembers(receivers, s0, runs, n - 1, a);
      assert History(receivers, s0, runs, n)
          == History(receivers, s0, runs, n - 1) + DeliveredIn(receivers, s0, runs, n - 1);
    }
  }

  /** What was handled and stored is not handled again. */
  lemma StoredNeverAgain(receivers: seq<Receiver>, s0: Store, runs: seq<Run>, i: nat, j: nat, a: Ack)
    requires i < j < |runs| && StoredIn(receivers, s0, runs, i)
    requires a in DeliveredIn(receivers, s0, runs, i)
    ensures a !in DeliveredIn(receivers, s0, runs, j)
  {
    hide Deliveries, Next, Stores;
    var s := State(receivers, s0, runs, i);
    LogAfterRun(receivers, s, runs[i], a.receiverId);
    EventsForMembers(Deliveries(receivers, s, runs[i]), a.receiverId, a.systemEvent);
    LogOnlyGrows(receivers, s0, runs, i + 1, j, a.receiverId);
    assert a.systemEvent in LogOf(State(receivers, s0, runs, i + 1).handled, a.receiverId);
    assert a.systemEvent in LogOf(State(receivers, s0, runs, j).handled, a.receiverId);
    if a in DeliveredIn(receivers, s0, runs, j) {
      NewToTheLog(receivers, State(receivers, s0, runs, j), runs[j], a);
    }
  }

  /** Some event is delivered in run `i`, which fails to store it, and again in run `j`. */
  ghost predicate Repeats(receivers: seq<Receiver>, s0: Store, runs: seq<Run>, i: nat, j: nat)
    requires i < |runs| && j < |runs|
  {
    && !StoredIn(receivers, s0, runs, i)
    && exists a :: a in DeliveredIn(receivers, s0, runs, i) && a in DeliveredIn(receivers, s0, runs, j)
  }

  /** No run delivers an event twice, and no event is delivered by a run that fails to store it and by a later one. */
  ghost predicate NoRepeats(receivers: seq<Receiver>, s0: Store, runs: seq<Run>, n: nat)
    requires n <= |runs|
  {
    && (forall i :: 0 <= i < n ==> AtMostOnce(DeliveredIn(receivers, s0, runs, i)))
    && (forall i, j :: 0 <= i < j < n ==> !Repeats(receivers, s0, runs, i, j))
  }

  lemma NoRepeatsNext(receivers: seq<Receiver>, s0: Store, runs: seq<Run>, n: nat)
    requires n < |runs|
    ensures NoRepeats(receivers, s0, runs, n + 1) <==>
            && NoRepeats(receivers, s0, runs, n)
            && AtMostOnce(DeliveredIn(receivers, s0, runs, n))
            && forall i :: 0 <= i < n ==> !Repeats(receivers, s0, runs, i, n)
  {
    hide Repeats, AtMostOnce, DeliveredIn;
  }

  lemma NothingAtAll(receivers: seq<Receiver>, s0: Store, runs: seq<Run>)
    ensures AtMostOnce(History(receivers, s0, runs, 0)) && NoRepeats(receivers, s0, runs, 0)
  {
  }

  lemma HistoryNext(receivers: seq<Receiver>, s0: Store, runs: seq<Run>, n: nat)
    requires n < |runs|
    ensures History(receivers, s0, runs, n + 1)
            == History(receivers, s0, runs, n) + DeliveredIn(receivers, s0, runs, n)
  {
  }

  /** A run delivers something delivered before exactly when it repeats what an earlier one did not store. */
  lemma AgainInLast(receivers: seq<Receiver>, s0: Store, runs: seq<Run>, n: nat)
    requires n < |runs|
    ensures (forall a :: a in History(receivers, s0, runs, n) ==> a !in DeliveredIn(receivers, s0, runs, n))
            <==> forall i :: 0 <= i < n ==> !Repeats(receivers, s0, runs, i, n)
  {
    hide StoredIn, DeliveredIn, History;
    forall a | a in History(receivers, s0, runs, n) && a in DeliveredIn(receivers, s0, runs, n)
      ensures exists i :: 0 <= i < n && Repeats(receivers, s0, runs, i, n)
    {
      HistoryMembers(receivers, s0, runs, n, a);
      var i :| 0 <= i < n && a in DeliveredIn(receivers, s0, runs, i);
      if StoredIn(receivers, s0, runs, i) {
        StoredNeverAgain(receivers, s0, runs, i, n, a);
      }
      assert Repeats(receivers, s0, runs, i, n);
    }
    forall i | 0 <= i < n && Repeats(receivers, s0, runs, i, n)
      ensures exists a :: a in History(receivers, s0, runs, n) && a in DeliveredIn(receivers, s0, runs, n)
    {
      var a :| a in DeliveredIn(receivers, s0, runs, i) && a in DeliveredIn(receivers, s0, runs, n);
      HistoryMembers(receivers, s0, runs, n, a);
    }
  }

  lemma OnceInBoth(a: seq<Ack>, b: seq<Ack>)
    ensures AtMostOnce(a + b) <==> AtMostOnce(a) && AtMostOnce(b) && forall x :: x in a ==> x !in b
  {
    assert multiset(a + b) == multiset(a) + multiset(b);
    forall x ensures multiset(a + b)[x] <= 1
                     <==> multiset(a)[x] <= 1 && multiset(b)[x] <= 1 && (x in a ==> x !in b) {
      assert x in a <==> x in multiset(a);
      assert x in b <==> x in multiset(b);
    }
  }

  /**
   Whatever fails: the receivers handle nothing twice over all runs exactly when no single run makes them do
   so and nothing that a run failed to store comes again.
   */
  lemma {:induction false} HandledOnceExactly(receivers: seq<Receiver>, s0: Store, runs: seq<Run>, n: nat)
    requires n <= |runs|
    ensures AtMostOnce(History(receivers, s0, runs, n)) <==> NoRepeats(receivers, s0, runs, n)
  {
    hide StoredIn, DeliveredIn, AtMostOnce, Repeats, NoRepeats, History;
    if n == 0 {
      NothingAtAll(receivers, s0, runs);
    } else {
      HandledOnceExactly(receivers, s0, runs, n - 1);
      HistoryNext(receivers, s0, runs, n - 1);
      OnceInBoth(History(receivers, s0, runs, n - 1), DeliveredIn(receivers, s0, runs, n - 1));
      AgainInLast(receivers, s0, runs, n - 1);
      NoRepeatsNext(receivers, s0, runs, n - 1);
    }
  }

  /** In particular, when no store fails, the runs can be looked at one by one. */
  lemma HandledOnceOverRuns(receivers: seq<Receiver>, s0: Store, runs: seq<Run>, n: nat)
    requires n <= |runs| && AllStored(receivers, s0, runs, n)
    ensures AtMostOnce(History(receivers, s0, runs, n))
            <==> forall i :: 0 <= i < n ==> AtMostOnce(Deliveries(receivers, State(receivers, s0, runs, i), runs[i]))
  {
    hide Deliveries, State, Stores, History, AtMostOnce;
    HandledOnceExactly(receivers, s0, runs, n);
    assert forall i :: 0 <= i < n ==> StoredIn(receivers, s0, runs, i);
    assert forall i :: 0 <= i < n
                       ==> DeliveredIn(receivers, s0, runs, i)
                           == Deliveries(receivers, State(receivers, s0, runs, i), runs[i]);
  }

  // -------------------------------------------------------------------------------------------
  // The same on the inputs of the runs

  /** Receiver number `r` handles event number `k` of run `i`, which is not stored, and event number `l` of run `j`. */
  ghost predicate HandlesAgain(receivers: seq<Receiver>, s0: Store, runs: seq<Run>, i: nat, j: nat, r: nat, k: nat,
                               l: nat)
    requires i < |runs| && j < |runs| && r < |receivers|
    requires k < |Gathered(runs[i].monitors)| && l < |Gathered(runs[j].monitors)|
  {
    && !runs[i].storeSucceeds
    && Gathered(runs[i].monitors)[k] == Gathered(runs[j].monitors)[l]
    && Handles(receivers, State(receivers, s0, runs, i), runs[i], r, k)
    && Handles(receivers, State(receivers, s0, runs, j), runs[j], r, l)
  }

  ghost predicate NothingAgain(receivers: seq<Receiver>, s0: Store, runs: seq<Run>, i: nat, j: nat)
    requires i < |runs| && j < |runs|
  {
    forall r, k, l :: 0 <= r < |receivers| && 0 <= k < |Gathered(runs[i].monitors)|
                      && 0 <= l < |Gathered(runs[j].monitors)|
                      ==> !HandlesAgain(receivers, s0, runs, i, j, r, k, l)
  }

  lemma DeliveredHandles(receivers: seq<Receiver>, s: Store, run: Run, a: Ack)
    ensures a in Deliveries(receivers, s, run)
            <==> a.status == Handled
                 && exists r, k :: 0 <= r < |receivers| && 0 <= k < |Gathered(run.monitors)|
                                   && Handles(receivers, s, run, r, k)
                                   && a == Ack(receivers[r].id, Gathered(run.monitors)[k], Handled)
  {
    if Dispatches(run) {
      hide Deliveries, OutcomeOf;
      DeliveredExactly(receivers, s, run, a);
      if a.status == Handled {
        forall r, k | 0 <= r < |receivers| && 0 <= k < |Gathered(run.monitors)|
          ensures OutcomeOf(receivers, s, run, r, k) == Some(a)
                  <==> Handles(receivers, s, run, r, k) && a == Ack(receivers[r].id, Gathered(run.monitors)[k], Handled)
        {
          HandlesMeans(receivers, s, run, r, k, a);
        }
      }
    }
  }

  lemma RepeatsOnInputs(receivers: seq<Receiver>, s0: Store, runs: seq<Run>, i: nat, j: nat)
    requires i < |runs| && j < |runs| && DistinctIds(receivers)
    ensures Repeats(receivers, s0, runs, i, j) <==> !NothingAgain(receivers, s0, runs, i, j)
  {
    hide Deliveries, State, Handles;
    var s, t := State(receivers, s0, runs, i), State(receivers, s0, runs, j);
    if Repeats(receivers, s0, runs, i, j) {
      var a :| a in DeliveredIn(receivers, s0, runs, i) && a in DeliveredIn(receivers, s0, runs, j);
      DeliveredHandles(receivers, s, runs[i], a);
      DeliveredHandles(receivers, t, runs[j], a);
      var r, k :| 0 <= r < |receivers| && 0 <= k < |Gathered(runs[i].monitors)| && Handles(receivers, s, runs[i], r, k)
                  && a == Ack(receivers[r].id, Gathered(runs[i].monitors)[k], Handled);
      var q, l :| 0 <= q < |receivers| && 0 <= l < |Gathered(runs[j].monitors)| && Handles(receivers, t, runs[j], q, l)
                  && a == Ack(receivers[q].id, Gathered(runs[j].monitors)[l], Handled);
      assert r == q;
      assert HandlesAgain(receivers, s0, runs, i, j, r, k, l);
    }
    if !NothingAgain(receivers, s0, runs, i, j) {
      var r, k, l :| 0 <= r < |receivers| && 0 <= k < |Gathered(runs[i].monitors)|
                     && 0 <= l < |Gathered(runs[j].monitors)|
                     && HandlesAgain(receivers, s0, runs, i, j, r, k, l);
      var a := Ack(receivers[r].id, Gathered(runs[i].monitors)[k], Handled);
      DeliveredHandles(receivers, s, runs[i], a);
      DeliveredHandles(receivers, t, runs[j], a);
      assert a in DeliveredIn(receivers, s0, runs, i) && a in DeliveredIn(receivers, s0, runs, j);
    }
  }

  /**
   No run has an event twice that one receiver handles both times, and no receiver handles an event in a run
   whose store fails and again in a later run.
   */
  ghost predicate NoDuplicates(receivers: seq<Receiver>, s0: Store, runs: seq<Run>) {
    && (forall i :: 0 <= i < |runs| ==> NothingTwice(receivers, State(receivers, s0, runs, i), runs[i]))
    && (forall i, j :: 0 <= i < j < |runs| ==> NothingAgain(receivers, s0, runs, i, j))
  }

  /** The exact condition of the promise that duplicates are filtered out, for any runs and any failures. */
  lemma DuplicatesFilteredExactly(receivers: seq<Receiver>, s0: Store, runs: seq<Run>)
    requires DistinctIds(receivers)
    ensures AtMostOnce(History(receivers, s0, runs, |runs|)) <==> NoDuplicates(receivers, s0, runs)
  {
    hide State, History, AtMostOnce, NothingTwice, NothingAgain, Repeats, Deliveries;
    HandledOnceExactly(receivers, s0, runs, |runs|);
    forall i | 0 <= i < |runs|
      ensures AtMostOnce(DeliveredIn(receivers, s0, runs, i))
              <==> NothingTwice(receivers, State(receivers, s0, runs, i), runs[i])
    {
      RunDeliversOnce(receivers, State(receivers, s0, runs, i), runs[i]);
    }
    forall i, j | 0 <= i < j < |runs|
      ensures Repeats(receivers, s0, runs, i, j) <==> !NothingAgain(receivers, s0, runs, i, j)
    {
      RepeatsOnInputs(receivers, s0, runs, i, j);
    }
  }

  /** What was handled but not stored is handled again by the next run that finds it. */
  lemma FailedStoreRepeats(receivers: seq<Receiver>, s: Store, first: Run, second: Run, r: nat, k: nat, a: Ack)
    requires a in Deliveries(receivers, s, first) && !first.storeSucceeds
    requires Dispatches(second)
    requires r < |receivers| && receivers[r].id == a.receiverId && receivers[r].isSupported(a.systemEvent)
    requires k < |Gathered(second.monitors)| && Gathered(second.monitors)[k] == a.systemEvent
    requires (r, k) !in second.failedDispatches
    ensures !AtMostOnce(History(receivers, s, [first, second], 2))
  {
    hide Deliveries, Next, AtMostOnce, History;
    var runs := [first, second];
    var after := Next(receivers, s, first);
    assert State(receivers, s, runs, 0) == s;
    assert State(receivers, s, runs, 1) == after;
    NewToTheLog(receivers, s, first, a);
    LogAfterRun(receivers, s, first, a.receiverId);
    assert Handles(receivers, after, second, r, k);
    DeliveredHandles(receivers, after, second, a);
    HandledOnceExactly(receivers, s, runs, 2);
    assert a in DeliveredIn(receivers, s, runs, 0) && a in DeliveredIn(receivers, s, runs, 1);
    assert Repeats(receivers, s, runs, 0, 1);
  }

  // -------------------------------------------------------------------------------------------
  // Concrete cases

  const SOME_EVENT := SystemEvent("Wallet registered", Informational, [], 100)

  const ANY_RECEIVER := Receiver("receiver", e => true)

  const NOTHING_STORED := Store(0, map[])

  /** A run with one monitor; what can fail is the dispatch of some events and the store of the log. */
  function RunAt(tip: int, events: seq<SystemEvent>, failedDispatches: set<(nat, nat)>, storeSucceeds: bool): Run {
    Run(true, Some(tip), [Fulfilled(events)], true, failedDispatches, storeSucceeds, true)
  }

  lemma GatheredOfOne(run: Run, events: seq<SystemEvent>)
    requires run.monitors == [Fulfilled(events)]
    ensures Gathered(run.monitors) == events
  {
    assert Gathered(run.monitors[..0]) == [];
  }

  /** A run that has an event twice delivers it twice, although nothing fails. */
  lemma TwiceInOneRun()
    ensures !AtMostOnce(Deliveries([ANY_RECEIVER], NOTHING_STORED, RunAt(100, [SOME_EVENT, SOME_EVENT], {}, true)))
  {
    hide Deliveries, AtMostOnce;
    var run := RunAt(100, [SOME_EVENT, SOME_EVENT], {}, true);
    GatheredOfOne(run, [SOME_EVENT, SOME_EVENT]);
    TwiceIsNotOnce([ANY_RECEIVER], NOTHING_STORED, run, 0, 0, 1);
  }

  /** Two runs that both have one event deliver it twice when the first fails to store it. */
  lemma TwiceInTwoRuns()
    ensures !AtMostOnce(History([ANY_RECEIVER], NOTHING_STORED,
                                [RunAt(100, [SOME_EVENT], {}, false), RunAt(200, [SOME_EVENT], {}, true)], 2))
  {
    hide Deliveries, AtMostOnce, History;
    var first, second := RunAt(100, [SOME_EVENT], {}, false), RunAt(200, [SOME_EVENT], {}, true);
    var a := Ack(ANY_RECEIVER.id, SOME_EVENT, Handled);
    GatheredOfOne(first, [SOME_EVENT]);
    GatheredOfOne(second, [SOME_EVENT]);
    assert Handles([ANY_RECEIVER], NOTHING_STORED, first, 0, 0);
    DeliveredHandles([ANY_RECEIVER], NOTHING_STORED, first, a);
    FailedStoreRepeats([ANY_RECEIVER], NOTHING_STORED, first, second, 0, 0, a);
  }
}
