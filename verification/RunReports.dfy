/** The report of one run and the order of what it handles, in terms of what the run meets. */
module RunReports {
  import opened Arithmetic
  import opened Delivery
  import opened Results
  import opened Sequences
  import opened SystemEvents

  // -------------------------------------------------------------------------------------------
  // Order

  lemma OneOutcome(o: Option<Ack>)
    ensures HandledOnly(Acks([o])) == if o.Some? && o.value.status == Handled then [o.value] else []
    ensures DispatchErrors([o]) == if o.None? then [DispatchFailed] else []
  {
    AcksLast([], o);
    assert [] + [o] == [o] && [o][..0] == [];
    NothingToAdd(DispatchErrors([o]));
    if o.Some? {
      HandledOnlyLast([], o.value);
      assert [] + [o.value] == [o.value];
    }
  }

  lemma OutcomeLast(front: seq<Option<Ack>>, last: Option<Ack>)
    ensures HandledOnly(Acks(front + [last])) == HandledOnly(Acks(front)) + HandledOnly(Acks([last]))
    ensures DispatchErrors(front + [last]) == DispatchErrors(front) + DispatchErrors([last])
  {
    hide Acks, HandledOnly;
    assert (front + [last])[..|front|] == front;
    AcksLast(front, last);
    OneOutcome(last);
    NothingToAdd(HandledOnly(Acks(front)));
    if last.Some? {
      HandledOnlyLast(Acks(front), last.value);
    }
  }

  /** Handled events and failures keep the order of the dispatches. */
  lemma {:induction false} OutcomesInOrder(a: seq<Option<Ack>>, b: seq<Option<Ack>>)
    ensures HandledOnly(Acks(a + b)) == HandledOnly(Acks(a)) + HandledOnly(Acks(b))
    ensures DispatchErrors(a + b) == DispatchErrors(a) + DispatchErrors(b)
    decreases |b|
  {
    hide Acks, HandledOnly, DispatchErrors;
    if b == [] {
      NothingToAdd(a);
      NoOutcome();
      NothingToAdd(HandledOnly(Acks(a)));
      NothingToAdd(DispatchErrors(a));
    } else {
      var front, last := b[..|b| - 1], b[|b| - 1];
      assert b == front + [last];
      Assoc(a, front, [last]);
      OutcomesInOrder(a, front);
      OutcomeLast(a + front, last);
      OutcomeLast(front, last);
      Assoc(HandledOnly(Acks(a)), HandledOnly(Acks(front)), HandledOnly(Acks([last])));
      Assoc(DispatchErrors(a), DispatchErrors(front), DispatchErrors([last]));
    }
  }

  lemma NoOutcome()
    ensures HandledOnly(Acks([])) == [] && DispatchErrors([]) == []
  {
  }

  lemma {:induction false} SettledLength(receivers: seq<Receiver>, s: Store, run: Run, n: nat)
    requires n <= |receivers|
    ensures |Settled(receivers, s.handled, Gathered(run.monitors), run.failedDispatches, n)|
            == n * |Gathered(run.monitors)|
  {
    hide SettledAt, Gathered, LogOf;
    if n != 0 {
      SettledLength(receivers, s, run, n - 1);
      MulNext(n - 1, |Gathered(run.monitors)|);
    }
  }

  lemma {:induction false} SettledPosition(receivers: seq<Receiver>, s: Store, run: Run, n: nat, r: nat, k: nat)
    requires r < n <= |receivers| && k < |Gathered(run.monitors)|
    ensures var all := Settled(receivers, s.handled, Gathered(run.monitors), run.failedDispatches, n);
            var i := r * |Gathered(run.monitors)| + k;
            0 <= i < |all| && all[i] == OutcomeOf(receivers, s, run, r, k)
  {
    hide Dispatch, SettledAt, Gathered;
    var events := Gathered(run.monitors);
    SettledLength(receivers, s, run, n - 1);
    if r + 1 < n {
      SettledPosition(receivers, s, run, n - 1, r, k);
    } else {
      SettledAtElements(receivers[r], r, LogOf(s.handled, receivers[r].id), events, run.failedDispatches, |events|, k);
    }
  }

  /**
   The outcomes go receiver by receiver, and for each of them event by event: an event that is in its log or not
   supported is ignored, a dispatch that fails has no ack, any other event is handled.
   */
  lemma OutcomeAt(receivers: seq<Receiver>, s: Store, run: Run, r: nat, k: nat)
    requires r < |receivers| && k < |Gathered(run.monitors)|
    ensures |Outcomes(receivers, s, run)| == |receivers| * |Gathered(run.monitors)|
    ensures var e, receiver := Gathered(run.monitors)[k], receivers[r];
            var i := r * |Gathered(run.monitors)| + k;
            var ignored := e in LogOf(s.handled, receiver.id) || !receiver.isSupported(e);
            && 0 <= i < |Outcomes(receivers, s, run)|
            && Outcomes(receivers, s, run)[i]
               == if ignored then Some(Ack(receiver.id, e, Ignored))
                  else if (r, k) in run.failedDispatches then None
                  else Some(Ack(receiver.id, e, Handled))
  {
    hide Gathered;
    SettledLength(receivers, s, run, |receivers|);
    SettledPosition(receivers, s, run, |receivers|, r, k);
  }

  // -------------------------------------------------------------------------------------------
  // Success and errors

  /** The receiver has not yet logged the event and supports it. */
  predicate Wants(receivers: seq<Receiver>, s: Store, run: Run, r: nat, k: nat)
    requires r < |receivers| && k < |Gathered(run.monitors)|
  {
    var e := Gathered(run.monitors)[k];
    e !in LogOf(s.handled, receivers[r].id) && receivers[r].isSupported(e)
  }

  lemma NothingFails(receivers: seq<Receiver>, s: Store, run: Run)
    ensures None !in Outcomes(receivers, s, run) <==>
              forall r, k :: 0 <= r < |receivers| && 0 <= k < |Gathered(run.monitors)| && (r, k) in run.failedDispatches
                             ==> !Wants(receivers, s, run, r, k)
  {
    hide Gathered, Settled;
    SettledMembers(receivers, s, run, |receivers|, None);
    forall r, k | 0 <= r < |receivers| && 0 <= k < |Gathered(run.monitors)|
      ensures OutcomeOf(receivers, s, run, r, k) == None
              <==> (r, k) in run.failedDispatches && Wants(receivers, s, run, r, k)
    {
    }
  }

  lemma NothingIsHandled(receivers: seq<Receiver>, s: Store, run: Run)
    requires Dispatches(run)
    ensures Deliveries(receivers, s, run) == [] <==>
              forall r, k :: 0 <= r < |receivers| && 0 <= k < |Gathered(run.monitors)|
                             && Wants(receivers, s, run, r, k)
                             ==> (r, k) in run.failedDispatches
  {
    hide Gathered, Deliveries;
    var acks := Deliveries(receivers, s, run);
    if acks != [] {
      DeliveredHandles(receivers, s, run, acks[0]);
      var r, k :| 0 <= r < |receivers| && 0 <= k < |Gathered(run.monitors)| && Handles(receivers, s, run, r, k);
      assert Wants(receivers, s, run, r, k);
    }
    forall r, k | 0 <= r < |receivers| && 0 <= k < |Gathered(run.monitors)| && Wants(receivers, s, run, r, k)
      ensures acks != [] || (r, k) in run.failedDispatches
    {
      if (r, k) !in run.failedDispatches {
        assert Handles(receivers, s, run, r, k);
        DeliveredHandles(receivers, s, run, Ack(receivers[r].id, Gathered(run.monitors)[k], Handled));
      }
    }
  }

  /**
   A run succeeds exactly when every call outside succeeds that it makes: a dispatch is made for what a receiver
   wants, and the log is written when some dispatch was handled.
   */
  lemma SucceedsExactly(receivers: seq<Receiver>, s: Store, run: Run)
    ensures Succeeds(receivers, s, run) <==>
              && run.checkpointRead && run.latestBlock.Some? && run.logRead && run.updateSucceeds
              && Rejected !in run.monitors
              && (forall r, k :: 0 <= r < |receivers| && 0 <= k < |Gathered(run.monitors)|
                                 && Wants(receivers, s, run, r, k)
                                 ==> (r, k) !in run.failedDispatches && run.storeSucceeds)
  {
    hide Gathered, Deliveries, Outcomes;
    NothingFails(receivers, s, run);
    if Dispatches(run) {
      NothingIsHandled(receivers, s, run);
    }
  }

  lemma {:induction false} MonitorErrorsCount(monitors: seq<MonitorResult>)
    ensures MonitorErrors(monitors) == seq(multiset(monitors)[Rejected], _ => MonitorFailed)
  {
    if monitors != [] {
      var front, last := monitors[..|monitors| - 1], monitors[|monitors| - 1];
      assert monitors == front + [last];
      MonitorErrorsCount(front);
      CountLast(front, last, Rejected);
    }
  }

  lemma {:induction false} DispatchErrorsCount(outcomes: seq<Option<Ack>>)
    ensures DispatchErrors(outcomes) == seq(multiset(outcomes)[None], _ => DispatchFailed)
  {
    if outcomes != [] {
      var front, last := outcomes[..|outcomes| - 1], outcomes[|outcomes| - 1];
      assert outcomes == front + [last];
      DispatchErrorsCount(front);
      CountLast(front, last, None);
    }
  }

  /** One error for each monitor and dispatch that failed, then one for the log or one for the checkpoint. */
  lemma ErrorsInOrder(receivers: seq<Receiver>, s: Store, run: Run)
    ensures var monitorErrors := multiset(run.monitors)[Rejected];
            var dispatchErrors := multiset(Outcomes(receivers, s, run))[None];
            var notStored := Deliveries(receivers, s, run) != [] && !run.storeSucceeds;
            var notUpdated := monitorErrors == dispatchErrors == 0 && !notStored && !run.updateSucceeds;
            RunErrors(receivers, s, run)
            == seq(monitorErrors, _ => MonitorFailed) + seq(dispatchErrors, _ => DispatchFailed)
               + (if notStored then [CannotStore] else []) + (if notUpdated then [CannotUpdateCheckpoint] else [])
  {
    hide Deliveries, Outcomes;
    MonitorErrorsCount(run.monitors);
    DispatchErrorsCount(Outcomes(receivers, s, run));
  }
}
