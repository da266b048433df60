/** The monitoring manager: one run gathers events from monitors, dispatches them to receivers and persists. */
module SystemEvents {
  import opened Results
  import opened Sequences

  datatype SystemEventType = Informational | Warning | Critical

  /** The data of an event is an ordered list, so equal events are those with equal JSON text. */
  datatype SystemEvent = SystemEvent(title: string, kind: SystemEventType, data: seq<(string, string)>, block: int)

  type ReceiverId = string

  datatype AckStatus = Handled | Ignored

  datatype Ack = Ack(receiverId: ReceiverId, systemEvent: SystemEvent, status: AckStatus)

  datatype Receiver = Receiver(id: ReceiverId, isSupported: SystemEvent -> bool)

  datatype MonitorResult = Fulfilled(events: seq<SystemEvent>) | Rejected

  /**
   What a run meets outside: whether the stores answer, the chain tip, what each monitor reports, and the
   dispatches (receiver number, event number) whose handling fails.
   */
  datatype Run = Run(
    checkpointRead: bool,
    latestBlock: Option<int>,
    monitors: seq<MonitorResult>,
    logRead: bool,
    failedDispatches: set<(nat, nat)>,
    storeSucceeds: bool,
    updateSucceeds: bool)

  /** The persisted state. */
  datatype Store = Store(checkpointBlock: int, handled: map<ReceiverId, seq<SystemEvent>>)

  datatype ManagerError = MonitorFailed | DispatchFailed | CannotStore | CannotUpdateCheckpoint

  datatype ManagerReport = Aborted | Completed(fromBlock: int, toBlock: int, errors: seq<ManagerError>) {
    predicate Success() {
      Completed? && errors == []
    }
  }

  const REORG_DEPTH_BLOCKS := 12

  // -------------------------------------------------------------------------------------------
  // One run, as a function

  function LogOf(handled: map<ReceiverId, seq<SystemEvent>>, id: ReceiverId): seq<SystemEvent> {
    if id in handled then handled[id] else []
  }

  /** First block of the window of a run. */
  function Start(checkpoint: int, latest: int): int {
    var base := if 0 < checkpoint < latest then checkpoint else latest;
    if base - REORG_DEPTH_BLOCKS > 0 then base - REORG_DEPTH_BLOCKS else 0
  }

  /** 12 blocks before the checkpoint, or before the tip when the checkpoint is not between 0 and the tip. */
  lemma WindowInNumbers(checkpoint: int, latest: int)
    ensures 0 < checkpoint < latest ==> Start(checkpoint, latest) == if checkpoint > 12 then checkpoint - 12 else 0
    ensures checkpoint <= 0 || latest <= checkpoint ==>
              Start(checkpoint, latest) == if latest > 12 then latest - 12 else 0
    ensures Start(0, 100) == 88 && Start(100, 150) == 88 && Start(150, 155) == 138 && Start(155, 200) == 143
  {
  }

  /** All events of the monitors that did not fail, monitor by monitor. */
  function Gathered(monitors: seq<MonitorResult>): seq<SystemEvent> {
    if monitors == [] then []
    else
      var last := monitors[|monitors| - 1];
      Gathered(monitors[..|monitors| - 1]) + (if last.Fulfilled? then last.events else [])
  }

  lemma GatheredFromOne(m: MonitorResult)
    ensures Gathered([m]) == (if m.Fulfilled? then m.events else [])
    ensures MonitorErrors([m]) == (if m.Rejected? then [MonitorFailed] else [])
  {
    assert [m][..0] == [];
    NothingToAdd(if m.Fulfilled? then m.events else []);
  }

  lemma {:induction false} GatheredNext(monitors: seq<MonitorResult>, m: MonitorResult)
    ensures Gathered(monitors + [m]) == Gathered(monitors) + Gathered([m])
    ensures MonitorErrors(monitors + [m]) == MonitorErrors(monitors) + MonitorErrors([m])
  {
    assert (monitors + [m])[..|monitors|] == monitors;
    GatheredFromOne(m);
  }

  /** The events come monitor by monitor, and so do the errors of those that failed. */
  lemma {:induction false} GatheredInOrder(a: seq<MonitorResult>, b: seq<MonitorResult>)
    ensures Gathered(a + b) == Gathered(a) + Gathered(b)
    ensures MonitorErrors(a + b) == MonitorErrors(a) + MonitorErrors(b)
    decreases |b|
  {
    if b == [] {
      NothingToAdd(a);
      NothingToAdd(Gathered(a));
      NothingToAdd(MonitorErrors(a));
    } else {
      hide Gathered, MonitorErrors;
      var front, last := b[..|b| - 1], b[|b| - 1];
      assert b == front + [last];
      Assoc(a, front, [last]);
      GatheredInOrder(a, front);
      GatheredNext(a + front, last);
      GatheredNext(front, last);
      Assoc(Gathered(a), Gathered(front), Gathered([last]));
      Assoc(MonitorErrors(a), MonitorErrors(front), MonitorErrors([last]));
    }
  }

  function MonitorErrors(monitors: seq<MonitorResult>): (errors: seq<ManagerError>)
    ensures errors == [] <==> Rejected !in monitors
  {
    if monitors == [] then []
    else
      var last := monitors[|monitors| - 1];
      assert Rejected in monitors <==> Rejected in monitors[..|monitors| - 1] || last == Rejected;
      MonitorErrors(monitors[..|monitors| - 1]) + (if last.Rejected? then [MonitorFailed] else [])
  }

  /** One event given to one receiver behind its deduplicator; `None` is a failed handling. */
  function Dispatch(receiver: Receiver, logged: seq<SystemEvent>, e: SystemEvent, fails: bool): Option<Ack> {
    if e in logged || !receiver.isSupported(e) then Some(Ack(receiver.id, e, Ignored))
    else if fails then None
    else Some(Ack(receiver.id, e, Handled))
  }

  /** The outcomes of the first `k` events at receiver number `r`. */
  function SettledAt(receiver: Receiver, r: nat, logged: seq<SystemEvent>, events: seq<SystemEvent>,
                     failed: set<(nat, nat)>, k: nat): (outcomes: seq<Option<Ack>>)
    requires k <= |events|
    ensures |outcomes| == k
  {
    if k == 0 then []
    else SettledAt(receiver, r, logged, events, failed, k - 1)
         + [Dispatch(receiver, logged, events[k - 1], (r, k - 1) in failed)]
  }

  /** The outcomes of all events at the first `n` receivers. */
  function Settled(receivers: seq<Receiver>, handled: map<ReceiverId, seq<SystemEvent>>, events: seq<SystemEvent>,
                   failed: set<(nat, nat)>, n: nat): seq<Option<Ack>>
    requires n <= |receivers|
  {
    if n == 0 then []
    else Settled(receivers, handled, events, failed, n - 1)
         + SettledAt(receivers[n - 1], n - 1, LogOf(handled, receivers[n - 1].id), events, failed, |events|)
  }

  function Acks(outcomes: seq<Option<Ack>>): seq<Ack> {
    if outcomes == [] then []
    else
      var last := outcomes[|outcomes| - 1];
      Acks(outcomes[..|outcomes| - 1]) + (if last.Some? then [last.value] else [])
  }

  function DispatchErrors(outcomes: seq<Option<Ack>>): (errors: seq<ManagerError>)
    ensures errors == [] <==> None !in outcomes
  {
    if outcomes == [] then []
    else
      var last := outcomes[|outcomes| - 1];
      assert None in outcomes <==> None in outcomes[..|outcomes| - 1] || last == None;
      DispatchErrors(outcomes[..|outcomes| - 1]) + (if last.None? then [DispatchFailed] else [])
  }

  function HandledOnly(acks: seq<Ack>): seq<Ack> {
    if acks == [] then []
    else
      var last := acks[|acks| - 1];
      HandledOnly(acks[..|acks| - 1]) + (if last.status == Handled then [last] else [])
  }

  function EventsFor(acks: seq<Ack>, id: ReceiverId): seq<SystemEvent> {
    if acks == [] then []
    else
      var last := acks[|acks| - 1];
      EventsFor(acks[..|acks| - 1], id) + (if last.receiverId == id then [last.systemEvent] else [])
  }

  function Ids(acks: seq<Ack>): set<ReceiverId> {
    set a | a in acks :: a.receiverId
  }

  /** The log after appending, receiver by receiver, what the acks hold. */
  function Appended(handled: map<ReceiverId, seq<SystemEvent>>, acks: seq<Ack>): map<ReceiverId, seq<SystemEvent>> {
    map id | id in handled.Keys + Ids(acks) :: LogOf(handled, id) + EventsFor(acks, id)
  }

  /** The run gets as far as dispatching. */
  predicate Dispatches(run: Run) {
    run.checkpointRead && run.latestBlock.Some? && run.logRead
  }

  function Outcomes(receivers: seq<Receiver>, s: Store, run: Run): seq<Option<Ack>> {
    Settled(receivers, s.handled, Gathered(run.monitors), run.failedDispatches, |receivers|)
  }

  /** The events that the receivers handle in this run, in order. */
  function Deliveries(receivers: seq<Receiver>, s: Store, run: Run): seq<Ack> {
    if Dispatches(run) then HandledOnly(Acks(Outcomes(receivers, s, run))) else []
  }

  predicate Stores(receivers: seq<Receiver>, s: Store, run: Run) {
    Deliveries(receivers, s, run) == [] || run.storeSucceeds
  }

  predicate NoErrors(receivers: seq<Receiver>, s: Store, run: Run) {
    && Dispatches(run)
    && Rejected !in run.monitors
    && None !in Outcomes(receivers, s, run)
    && Stores(receivers, s, run)
  }

  predicate Succeeds(receivers: seq<Receiver>, s: Store, run: Run) {
    NoErrors(receivers, s, run) && run.updateSucceeds
  }

  /** Everything that went wrong in a run that got as far as dispatching, in the order of the report. */
  function RunErrors(receivers: seq<Receiver>, s: Store, run: Run): seq<ManagerError> {
    var errors := MonitorErrors(run.monitors) + DispatchErrors(Outcomes(receivers, s, run))
                  + (if Stores(receivers, s, run) then [] else [CannotStore]);
    if errors == [] && !run.updateSucceeds then [CannotUpdateCheckpoint] else errors
  }

  function Next(receivers: seq<Receiver>, s: Store, run: Run): Store {
    Store(
      if Succeeds(receivers, s, run) then run.latestBlock.value else s.checkpointBlock,
      if Stores(receivers, s, run) then Appended(s.handled, Deliveries(receivers, s, run)) else s.handled)
  }

  // -------------------------------------------------------------------------------------------
  // The same run in the steps of the source

  method ReceiveBase(receiver: Receiver, e: SystemEvent, fails: bool) returns (ack: Option<Ack>)
    ensures ack == Dispatch(receiver, [], e, fails)
  {
    if !receiver.isSupported(e) {
      return Some(Ack(receiver.id, e, Ignored));
    }
    if fails {
      return None;
    }
    return Some(Ack(receiver.id, e, Handled));
  }

  class Deduplicator {
    const receiver: Receiver
    const cache: map<SystemEvent, bool>

    constructor (receiver: Receiver, handledSystemEvents: seq<SystemEvent>)
      ensures this.receiver == receiver
      ensures forall e :: (e in cache && cache[e]) <==> e in handledSystemEvents
    {
      var group: map<SystemEvent, bool> := map[];
      for i := 0 to |handledSystemEvents|
        invariant forall e :: (e in group && group[e]) <==> e in handledSystemEvents[..i]
      {
        TakeNext(handledSystemEvents, i);
        group := group[handledSystemEvents[i] := true];
      }
      assert handledSystemEvents[..|handledSystemEvents|] == handledSystemEvents;
      this.receiver := receiver;
      this.cache := group;
    }

    method Receive(e: SystemEvent, fails: bool, ghost logged: seq<SystemEvent>) returns (ack: Option<Ack>)
      requires forall x :: (x in cache && cache[x]) <==> x in logged
      ensures ack == Dispatch(receiver, logged, e, fails)
    {
      if e in cache && cache[e] {
        return Some(Ack(receiver.id, e, Ignored));
      }
      ack := ReceiveBase(receiver, e, fails);
    }
  }

  lemma AcksNext(acks: seq<Ack>, i: nat)
    requires i < |acks|
    ensures Ids(acks[..i + 1]) == Ids(acks[..i]) + {acks[i].receiverId}
    ensures forall id :: EventsFor(acks[..i + 1], id)
                         == if id == acks[i].receiverId then EventsFor(acks[..i], id) + [acks[i].systemEvent]
                            else EventsFor(acks[..i], id)
  {
    TakeNext(acks, i);
    assert acks[..i + 1][..i] == acks[..i];
    forall id ensures EventsFor(acks[..i], id) + [] == EventsFor(acks[..i], id) {
      NothingToAdd(EventsFor(acks[..i], id));
    }
  }

  method GroupByReceiver(acks: seq<Ack>) returns (group: map<ReceiverId, seq<SystemEvent>>)
    ensures group.Keys == Ids(acks)
    ensures forall id :: LogOf(group, id) == EventsFor(acks, id)
  {
    group := map[];
    for i := 0 to |acks|
      invariant group.Keys == Ids(acks[..i])
      invariant forall id :: LogOf(group, id) == EventsFor(acks[..i], id)
    {
      var ack := acks[i];
      AcksNext(acks, i);
      ghost var before := group;
      group := group[ack.receiverId := LogOf(group, ack.receiverId) + [ack.systemEvent]];
      assert forall id :: LogOf(group, id)
                          == if id == ack.receiverId then LogOf(before, id) + [ack.systemEvent] else LogOf(before, id);
    }
    assert acks[..|acks|] == acks;
  }

  class Persistence {
    var checkpointBlock: int
    var handledSystemEvents: map<ReceiverId, seq<SystemEvent>>

    function Contents(): Store
      reads this
    {
      Store(checkpointBlock, handledSystemEvents)
    }

    constructor ()
      ensures Contents() == Store(0, map[])
    {
      checkpointBlock := 0;
      handledSystemEvents := map[];
    }

    method UpdateCheckpointBlock(block: int, succeeds: bool) returns (ok: bool)
      modifies this`checkpointBlock
      ensures ok == succeeds
      ensures checkpointBlock == if succeeds then block else old(checkpointBlock)
    {
      if succeeds {
        checkpointBlock := block;
      }
      ok := succeeds;
    }

    /** Every event of a group goes to the end of the list of its receiver; other lists stay. */
    method StoreHandledSystemEvents(systemEvents: map<ReceiverId, seq<SystemEvent>>, succeeds: bool) returns (ok: bool)
      modifies this`handledSystemEvents
      ensures ok == succeeds
      ensures !succeeds ==> handledSystemEvents == old(handledSystemEvents)
      ensures succeeds ==> handledSystemEvents.Keys == old(handledSystemEvents).Keys + systemEvents.Keys
      ensures succeeds ==>
                forall id :: LogOf(handledSystemEvents, id)
                             == LogOf(old(handledSystemEvents), id) + LogOf(systemEvents, id)
    {
      var handled := handledSystemEvents;
      var receiverIds := systemEvents.Keys;
      while receiverIds != {}
        invariant receiverIds <= systemEvents.Keys
        invariant handled.Keys == old(handledSystemEvents).Keys + (systemEvents.Keys - receiverIds)
        invariant forall id :: LogOf(handled, id) == LogOf(old(handledSystemEvents), id)
                                 + (if id in receiverIds then [] else LogOf(systemEvents, id))
      {
        var receiverId :| receiverId in receiverIds;
        handled := handled[receiverId := LogOf(handled, receiverId) + systemEvents[receiverId]];
        receiverIds := receiverIds - {receiverId};
      }
      if succeeds {
        handledSystemEvents := handled;
      }
      ok := succeeds;
    }
  }

  class Manager {
    const receivers: seq<Receiver>
    const persistence: Persistence

    constructor (receivers: seq<Receiver>, persistence: Persistence)
      ensures this.receivers == receivers && this.persistence == persistence
    {
      this.receivers := receivers;
      this.persistence := persistence;
    }

    method SettleMonitors(monitors: seq<MonitorResult>)
      returns (systemEvents: seq<SystemEvent>, errors: seq<ManagerError>)
      ensures systemEvents == Gathered(monitors) && errors == MonitorErrors(monitors)
    {
      systemEvents, errors := [], [];
      for i := 0 to |monitors|
        invariant systemEvents == Gathered(monitors[..i]) && errors == MonitorErrors(monitors[..i])
      {
        assert monitors[..i + 1][..i] == monitors[..i];
        match monitors[i]
        case Fulfilled(events) => systemEvents := systemEvents + events;
        case Rejected => errors := errors + [MonitorFailed];
      }
      assert monitors[..|monitors|] == monitors;
    }

    method DispatchAll(systemEvents: seq<SystemEvent>, handled: map<ReceiverId, seq<SystemEvent>>,
                       failed: set<(nat, nat)>)
      returns (dispatches: seq<Option<Ack>>)
      ensures dispatches == Settled(receivers, handled, systemEvents, failed, |receivers|)
    {
      hide SettledAt;
      dispatches := [];
      for r := 0 to |receivers|
        invariant dispatches == Settled(receivers, handled, systemEvents, failed, r)
      {
        var received := DispatchTo(r, systemEvents, LogOf(handled, receivers[r].id), failed);
        dispatches := dispatches + received;
      }
    }

    /** All events to one receiver, behind its deduplicator. */
    method DispatchTo(r: nat, systemEvents: seq<SystemEvent>, logged: seq<SystemEvent>, failed: set<(nat, nat)>)
      returns (received: seq<Option<Ack>>)
      requires r < |receivers|
      ensures received == SettledAt(receivers[r], r, logged, systemEvents, failed, |systemEvents|)
    {
      hide Dispatch;
      var wrapped := new Deduplicator(receivers[r], logged);
      received := [];
      for k := 0 to |systemEvents|
        invariant received == SettledAt(receivers[r], r, logged, systemEvents, failed, k)
      {
        var outcome := wrapped.Receive(systemEvents[k], (r, k) in failed, logged);
        received := received + [outcome];
      }
    }

    method Check(run: Run) returns (r: Result<(seq<Ack>, seq<ManagerError>), ()>)
      ensures r.Ok? <==> run.logRead
      ensures r.Ok? ==> var outcomes := Outcomes(receivers, persistence.Contents(), run);
                        r.value == (Acks(outcomes), MonitorErrors(run.monitors) + DispatchErrors(outcomes))
    {
      var systemEvents, errors := SettleMonitors(run.monitors);
      if !run.logRead {
        return Err(());
      }
      var dispatches := DispatchAll(systemEvents, persistence.handledSystemEvents, run.failedDispatches);
      var acks;
      acks, errors := SortOutcomes(dispatches, errors);
      return Ok((acks, errors));
    }

    method SortOutcomes(dispatches: seq<Option<Ack>>, monitorErrors: seq<ManagerError>)
      returns (acks: seq<Ack>, errors: seq<ManagerError>)
      ensures acks == Acks(dispatches) && errors == monitorErrors + DispatchErrors(dispatches)
    {
      acks, errors := [], monitorErrors;
      for i := 0 to |dispatches|
        invariant acks == Acks(dispatches[..i])
        invariant errors == monitorErrors + DispatchErrors(dispatches[..i])
      {
        assert dispatches[..i + 1][..i] == dispatches[..i];
        match dispatches[i]
        case Some(ack) => acks := acks + [ack];
        case None => errors := errors + [DispatchFailed];
      }
      assert dispatches[..|dispatches|] == dispatches;
    }

    method FilterHandled(acks: seq<Ack>) returns (handledAcks: seq<Ack>)
      ensures handledAcks == HandledOnly(acks)
    {
      handledAcks := [];
      for i := 0 to |acks|
        invariant handledAcks == HandledOnly(acks[..i])
      {
        assert acks[..i + 1][..i] == acks[..i];
        if acks[i].status == Handled {
          handledAcks := handledAcks + [acks[i]];
        }
      }
      assert acks[..|acks|] == acks;
    }

    /** Groups the handled events and appends them to the log. */
    method StoreAcks(handledAcks: seq<Ack>, succeeds: bool) returns (ok: bool)
      modifies persistence`handledSystemEvents
      ensures ok == succeeds
      ensures persistence.handledSystemEvents
              == if succeeds then Appended(old(persistence.handledSystemEvents), handledAcks)
                 else old(persistence.handledSystemEvents)
    {
      var group := GroupByReceiver(handledAcks);
      ok := persistence.StoreHandledSystemEvents(group, succeeds);
      if succeeds {
        SameLogsSameMap(persistence.handledSystemEvents, Appended(old(persistence.handledSystemEvents), handledAcks));
      }
    }

    method Trigger(run: Run) returns (report: ManagerReport)
      modifies persistence
      ensures persistence.Contents() == Next(receivers, old(persistence.Contents()), run)
      ensures report.Completed? <==> Dispatches(run)
      ensures report.Completed? ==> report.fromBlock == Start(old(persistence.checkpointBlock), run.latestBlock.value)
      ensures report.Completed? ==> report.toBlock == run.latestBlock.value
      ensures report.Completed? ==> report.errors == RunErrors(receivers, old(persistence.Contents()), run)
      ensures report.Success() <==> Succeeds(receivers, old(persistence.Contents()), run)
    {
      hide Appended, HandledOnly, Acks, Outcomes;
      AppendNothing(persistence.handledSystemEvents);
      if !run.checkpointRead {
        return Aborted;
      }
      var checkpointBlock := persistence.checkpointBlock;
      if run.latestBlock.None? {
        return Aborted;
      }
      var latestBlock := run.latestBlock.value;
      var validCheckpoint := checkpointBlock > 0 && checkpointBlock < latestBlock;
      var fromBlock := if validCheckpoint then checkpointBlock else latestBlock;
      fromBlock := if fromBlock - REORG_DEPTH_BLOCKS > 0 then fromBlock - REORG_DEPTH_BLOCKS else 0;
      var checked := Check(run);
      if checked.Err? {
        return Aborted;
      }
      var (systemEventsAcks, errors) := checked.value;
      var handledAcks := FilterHandled(systemEventsAcks);
      if |handledAcks| != 0 {
        var stored := StoreAcks(handledAcks, run.storeSucceeds);
        if !stored {
          errors := errors + [CannotStore];
        }
      }
      NothingToAdd(errors);
      if |errors| == 0 {
        var updated := persistence.UpdateCheckpointBlock(latestBlock, run.updateSucceeds);
        if !updated {
          errors := errors + [CannotUpdateCheckpoint];
        }
      }
      return Completed(fromBlock, latestBlock, errors);
    }
  }

  lemma SameLogsSameMap(a: map<ReceiverId, seq<SystemEvent>>, b: map<ReceiverId, seq<SystemEvent>>)
    requires a.Keys == b.Keys && forall id :: LogOf(a, id) == LogOf(b, id)
    ensures a == b
  {
    forall id | id in a ensures a[id] == b[id] {
      assert LogOf(a, id) == LogOf(b, id);
    }
  }

  lemma AppendNothing(handled: map<ReceiverId, seq<SystemEvent>>)
    ensures Appended(handled, []) == handled
  {
    assert Ids([]) == {};
    forall id | id in handled ensures Appended(handled, [])[id] == handled[id] {
      NothingToAdd(handled[id]);
    }
  }
}
