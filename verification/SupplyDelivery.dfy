/**
 What becomes of the alerts of the supply monitor when it is one of the monitors of the manager. Its block is
 persisted by the check, before the manager dispatches the alert.
 */
module SupplyDelivery {
  import opened Coverage
  import opened Delivery
  import opened Results
  import opened SupplyMonitor
  import opened SystemEvents

  const TITLE := "High TBTC token total supply change"

  function Decimal(n: nat): string {
    if n < 10 then [(n + '0' as int) as char] else Decimal(n / 10) + [(n % 10 + '0' as int) as char]
  }

  /** The number that decimal digits stand for. */
  function ValueOf(text: string): int {
    if text == "" then 0 else 10 * ValueOf(text[..|text| - 1]) + (text[|text| - 1] as int - '0' as int)
  }

  /** Decimal digits without a leading zero that stand for the number. */
  lemma {:induction false} DecimalIsRead(n: nat)
    ensures ValueOf(Decimal(n)) == n
    ensures Decimal(n) != "" && (forall c :: c in Decimal(n) ==> '0' <= c <= '9') && (Decimal(n)[0] == '0' ==> n == 0)
  {
    if n < 10 {
      assert Decimal(n)[..0] == "";
    } else {
      DecimalIsRead(n / 10);
      var last := (n % 10 + '0' as int) as char;
      assert (Decimal(n / 10) + [last])[..|Decimal(n / 10)|] == Decimal(n / 10);
    }
  }

  function DecimalOf(n: int): string {
    if n < 0 then "-" + Decimal(-n) else Decimal(n)
  }

  function HighTotalSupplyChange(a: Alert): SystemEvent {
    SystemEvent(
      TITLE,
      Critical,
      [ ("change", (if a.rise then "+" else "-") + Decimal(a.change) + "%"),
        ("threshold", Decimal(a.threshold) + "%"),
        ("referenceBlock", DecimalOf(a.referenceBlock)) ],
      a.currentBlock)
  }

  function EventsOf(alerts: seq<Alert>): (events: seq<SystemEvent>)
    ensures |events| == |alerts|
  {
    seq(|alerts|, i requires 0 <= i < |alerts| => HighTotalSupplyChange(alerts[i]))
  }

  function ResultOf(r: Result<seq<Alert>, SupplyError>): MonitorResult {
    match r
    case Err(_) => Rejected
    case Ok(alerts) => Fulfilled(EventsOf(alerts))
  }

  /** The run gets to its monitors, and there is a check of the supply up to its tip; or there is none. */
  predicate ChecksTip(run: Run, c: SupplyCheck) {
    && (run.checkpointRead && run.latestBlock.Some? <==> c.SupplyCheck?)
    && (c.SupplyCheck? ==> c.toBlock == run.latestBlock.value)
  }

  /**
   Monitor number `m` of every run is the supply monitor, whose persisted block is `last` at the beginning and
   which meets `checks[i]` in run `i`; the other monitors have events of other titles.
   */
  predicate Monitored(runs: seq<Run>, checks: seq<SupplyCheck>, last: int, m: nat) {
    && |checks| == |runs|
    && forall i :: 0 <= i < |runs| ==>
         && ChecksTip(runs[i], checks[i])
         && (checks[i].SupplyCheck? ==>
               && m < |runs[i].monitors|
               && runs[i].monitors[m] == ResultOf(RaisedIn(last, checks, i))
               && OthersAreDifferent(runs[i].monitors, m))
  }

  predicate OthersAreDifferent(monitors: seq<MonitorResult>, m: nat) {
    forall k, e :: 0 <= k < |monitors| && k != m && monitors[k].Fulfilled? && e in monitors[k].events
                   ==> e.title != TITLE
  }

  lemma {:induction false} GatheredFrom(monitors: seq<MonitorResult>, e: SystemEvent)
    ensures e in Gathered(monitors)
            <==> exists k :: 0 <= k < |monitors| && monitors[k].Fulfilled? && e in monitors[k].events
  {
    if monitors != [] {
      GatheredFrom(monitors[..|monitors| - 1], e);
    }
  }

  /** What a run gathers of this title is the alert that the supply monitor raised in it. */
  lemma GatheredAlert(runs: seq<Run>, checks: seq<SupplyCheck>, last: int, m: nat, j: nat, e: SystemEvent)
    requires Monitored(runs, checks, last, m)
    requires j < |runs| && checks[j].SupplyCheck? && e.title == TITLE
    ensures e in Gathered(runs[j].monitors)
            <==> RaisedIn(last, checks, j).Ok? && e in EventsOf(RaisedIn(last, checks, j).value)
  {
    hide RaisedIn, EventsOf;
    GatheredFrom(runs[j].monitors, e);
  }

  /** An alert is gathered by the run that raised it and by no other. */
  lemma GatheredOnce(runs: seq<Run>, checks: seq<SupplyCheck>, last: int, m: nat, i: nat, j: nat, a: Alert)
    requires Monitored(runs, checks, last, m)
    requires Forward(last, checks) && PositiveSupply(checks)
    requires i < |runs| && RaisedIn(last, checks, i) == Ok([a])
    requires j < |runs| && checks[j].SupplyCheck?
    ensures HighTotalSupplyChange(a) in Gathered(runs[j].monitors) <==> i == j
  {
    hide After;
    GatheredAlert(runs, checks, last, m, j, HighTotalSupplyChange(a));
    if i == j {
      assert EventsOf([a])[0] == HighTotalSupplyChange(a);
    } else if RaisedIn(last, checks, j).Ok? && RaisedIn(last, checks, j).value != [] {
      var b := RaisedIn(last, checks, j).value[0];
      if i < j {
        RaisedOnce(last, checks, i, j, a, b);
      } else {
        RaisedOnce(last, checks, j, i, b, a);
      }
    }
  }

  /** Receiver number `r` supports the alert, and its dispatch in the run that raised it does not fail. */
  predicate DispatchedTo(receivers: seq<Receiver>, run: Run, r: nat, e: SystemEvent)
    requires r < |receivers|
  {
    && run.logRead
    && receivers[r].isSupported(e)
    && exists k :: 0 <= k < |Gathered(run.monitors)| && Gathered(run.monitors)[k] == e
                    && (r, k) !in run.failedDispatches
  }

  /** Before the run that raised it, nobody has logged the alert. */
  lemma NotLoggedBefore(receivers: seq<Receiver>, s0: Store, runs: seq<Run>, checks: seq<SupplyCheck>, last: int,
                        m: nat, i: nat, a: Alert, id: ReceiverId)
    requires Monitored(runs, checks, last, m)
    requires Forward(last, checks) && PositiveSupply(checks)
    requires i < |runs| && RaisedIn(last, checks, i) == Ok([a])
    requires HighTotalSupplyChange(a) !in LogOf(s0.handled, id)
    ensures HighTotalSupplyChange(a) !in LogOf(State(receivers, s0, runs, i).handled, id)
  {
    hide State, History, Deliveries, HighTotalSupplyChange, RaisedIn;
    var e := HighTotalSupplyChange(a);
    var ack := Ack(id, e, Handled);
    if e in LogOf(State(receivers, s0, runs, i).handled, id) {
      LoggedIsDelivered(receivers, s0, runs, i, id, e);
      HistoryMembers(receivers, s0, runs, i, ack);
      var j :| 0 <= j < i && ack in DeliveredIn(receivers, s0, runs, j);
      DeliveredHandles(receivers, State(receivers, s0, runs, j), runs[j], ack);
      GatheredOnce(runs, checks, last, m, i, j, a);
    }
  }

  /**
   An alert that was raised is handled by a receiver, in whatever run, exactly when the run that raised it
   dispatches it to that receiver. No later run makes up for it.
   */
  lemma {:induction false} AlertDeliveredExactly(receivers: seq<Receiver>, s0: Store, runs: seq<Run>,
                                                 checks: seq<SupplyCheck>, last: int, m: nat, i: nat, a: Alert, r: nat)
    requires Monitored(runs, checks, last, m)
    requires Forward(last, checks) && PositiveSupply(checks)
    requires i < |runs| && RaisedIn(last, checks, i) == Ok([a])
    requires DistinctIds(receivers) && r < |receivers|
    requires HighTotalSupplyChange(a) !in LogOf(s0.handled, receivers[r].id)
    ensures Ack(receivers[r].id, HighTotalSupplyChange(a), Handled) in History(receivers, s0, runs, |runs|)
            <==> DispatchedTo(receivers, runs[i], r, HighTotalSupplyChange(a))
  {
    hide State, History, Deliveries, HighTotalSupplyChange, Forward, PositiveSupply, RaisedIn, ResultOf;
    var e := HighTotalSupplyChange(a);
    var id := receivers[r].id;
    var ack := Ack(id, e, Handled);
    RaisedByCheck(last, checks, i, a);
    NotLoggedBefore(receivers, s0, runs, checks, last, m, i, a, id);
    HistoryMembers(receivers, s0, runs, |runs|, ack);
    var s := State(receivers, s0, runs, i);
    DeliveredHandles(receivers, s, runs[i], ack);
    if DispatchedTo(receivers, runs[i], r, e) {
      var k :| 0 <= k < |Gathered(runs[i].monitors)| && Gathered(runs[i].monitors)[k] == e
        && (r, k) !in runs[i].failedDispatches;
      assert Handles(receivers, s, runs[i], r, k);
      assert ack in DeliveredIn(receivers, s0, runs, i);
    }
    if ack in History(receivers, s0, runs, |runs|) {
      var j :| 0 <= j < |runs| && ack in DeliveredIn(receivers, s0, runs, j);
      DeliveredHandles(receivers, State(receivers, s0, runs, j), runs[j], ack);
      GatheredOnce(runs, checks, last, m, i, j, a);
      var q, k :| 0 <= q < |receivers| && 0 <= k < |Gathered(runs[i].monitors)| && Handles(receivers, s, runs[i], q, k)
                  && ack == Ack(receivers[q].id, Gathered(runs[i].monitors)[k], Handled);
      assert q == r;
    }
  }

  /**
   So this monitor does not meet the hypothesis under which no event is missed: it does not report its alert
   again to a later successful run whose window holds the block, or any other block at which it may count as due.
   */
  lemma AlertBreaksFaithful(receivers: seq<Receiver>, s0: Store, runs: seq<Run>, checks: seq<SupplyCheck>,
                            last: int, m: nat, i: nat, a: Alert, chains: seq<set<SystemEvent>>, due: Due, j: nat)
    requires Monitored(runs, checks, last, m)
    requires Forward(last, checks) && PositiveSupply(checks)
    requires i < |runs| && RaisedIn(last, checks, i) == Ok([a])
    requires |chains| == |runs|
    requires j < |runs| && j != i && HighTotalSupplyChange(a) in chains[j]
    requires Examined(receivers, s0, runs, j, due(HighTotalSupplyChange(a)))
    ensures !Faithful(receivers, s0, runs, chains, due)
  {
    hide State, Forward, PositiveSupply, RaisedIn, ResultOf;
    GatheredOnce(runs, checks, last, m, i, j, a);
  }

  lemma AlertTexts()
    ensures HighTotalSupplyChange(Alert(false, 50, 10, 1400, 5000))
            == SystemEvent("High TBTC token total supply change", Critical,
                           [("change", "-50%"), ("threshold", "10%"), ("referenceBlock", "1400")], 5000)
    ensures HighTotalSupplyChange(DOUBLED).data
            == [("change", "+100%"), ("threshold", "10%"), ("referenceBlock", "1400")]
  {
    TwoDigits();
    assert Decimal(10) + "0" == "100";
    assert Decimal(14) + "0" == "140";
    assert Decimal(140) + "0" == "1400";
    assert "-" + Decimal(50) + "%" == "-50%" && Decimal(10) + "%" == "10%";
    assert "+" + Decimal(100) + "%" == "+100%";
  }

  lemma TwoDigits()
    ensures Decimal(10) == "10" && Decimal(14) == "14" && Decimal(50) == "50"
  {
    assert Decimal(1) == "1" && Decimal(5) == "5";
    assert Decimal(1) + "0" == "10" && Decimal(1) + "4" == "14" && Decimal(5) + "0" == "50";
  }

  // -------------------------------------------------------------------------------------------
  // A lost alert

  /** The supply doubles at block 5000. */
  const DOUBLING: Supply := block => if block < 5000 then 100 else 200

  const DOUBLED := Alert(true, 100, TOTAL_SUPPLY_CHANGE_THRESHOLD, 1400, 5000)

  const LOSING_CHECKS := [SupplyCheck(5000, DOUBLING, true, true), SupplyCheck(5001, DOUBLING, true, true)]

  /** The first run raises the alert and fails to dispatch it; the second, one block later, succeeds. */
  function LosingRuns(): seq<Run> {
    [RunAt(5000, [HighTotalSupplyChange(DOUBLED)], {(0, 0)}, true), RunAt(5001, [], {}, true)]
  }

  lemma LosingChecks()
    ensures RaisedIn(0, LOSING_CHECKS, 0) == Ok([DOUBLED]) && RaisedIn(0, LOSING_CHECKS, 1) == Ok([])
    ensures Forward(0, LOSING_CHECKS) && PositiveSupply(LOSING_CHECKS)
  {
    assert Raises(0, 5000, DOUBLING) && AlertAt(0, 5000, DOUBLING) == DOUBLED;
    assert After(0, LOSING_CHECKS, 0) == (0, []);
    assert After(0, LOSING_CHECKS, 1).0 == 5000;
    assert !Raises(5000, 5001, DOUBLING);
  }

  /**
   The alert is on the chain that the second run sees and its block is in the window of that run, which
   succeeds; the receiver never gets it.
   */
  lemma AlertIsLost()
    ensures var receivers, runs, e := [ANY_RECEIVER], LosingRuns(), HighTotalSupplyChange(DOUBLED);
            && Monitored(runs, LOSING_CHECKS, 0, 0)
            && Examined(receivers, NOTHING_STORED, runs, 1, e.block)
            && Ack(ANY_RECEIVER.id, e, Handled) !in History(receivers, NOTHING_STORED, runs, 2)
            && !Faithful(receivers, NOTHING_STORED, runs, [{e}, {e}], BlockOf)
  {
    hide History, Deliveries, RaisedIn, Forward, PositiveSupply, Succeeds, Decimal;
    var receivers, runs, e := [ANY_RECEIVER], LosingRuns(), HighTotalSupplyChange(DOUBLED);
    LosingChecks();
    GatheredOfOne(runs[0], [e]);
    GatheredOfOne(runs[1], []);
    assert EventsOf([DOUBLED]) == [e] && EventsOf([]) == [];
    assert Monitored(runs, LOSING_CHECKS, 0, 0);
    SucceedsWithoutFailures(receivers, State(receivers, NOTHING_STORED, runs, 1), runs[1]);
    FailsToDispatch(receivers, NOTHING_STORED, runs[0]);
    CheckpointAfterRun(receivers, NOTHING_STORED, runs[0]);
    AlertDeliveredExactly(receivers, NOTHING_STORED, runs, LOSING_CHECKS, 0, 0, 0, DOUBLED, 0);
    AlertBreaksFaithful(receivers, NOTHING_STORED, runs, LOSING_CHECKS, 0, 0, 0, DOUBLED, [{e}, {e}], BlockOf, 1);
  }
}
