/**
 What the sliding window of the manager covers over any sequence of runs, and the promise built on it: no
 event is missed, not even when the chain is reorganized up to `REORG_DEPTH_BLOCKS` deep.
 */
module Coverage {
  import opened Delivery
  import opened Results
  import opened SystemEvents

  predicate PositiveTips(runs: seq<Run>) {
    forall i :: 0 <= i < |runs| && runs[i].latestBlock.Some? ==> 0 < runs[i].latestBlock.value
  }

  /** Run `i` succeeded and its window holds the block. */
  predicate Examined(receivers: seq<Receiver>, s0: Store, runs: seq<Run>, i: nat, block: int)
    requires i < |runs|
  {
    var s := State(receivers, s0, runs, i);
    && Succeeds(receivers, s, runs[i])
    && Start(s.checkpointBlock, runs[i].latestBlock.value) <= block <= runs[i].latestBlock.value
  }

  /** From a positive checkpoint a run starts at most 12 blocks below it, clamped at zero, also if the tip went back. */
  lemma StartsBelowCheckpoint(checkpoint: int, latest: int)
    ensures 0 < checkpoint && 0 < latest ==>
              0 <= Start(checkpoint, latest)
                <= if checkpoint > REORG_DEPTH_BLOCKS then checkpoint - REORG_DEPTH_BLOCKS else 0
  {
  }

  lemma CheckpointAfterRun(receivers: seq<Receiver>, s: Store, run: Run)
    ensures Next(receivers, s, run).checkpointBlock
            == if Succeeds(receivers, s, run) then run.latestBlock.value else s.checkpointBlock
  {
  }

  lemma SuccessHasTip(receivers: seq<Receiver>, s: Store, run: Run)
    requires Succeeds(receivers, s, run)
    ensures run.latestBlock.Some?
  {
  }

  lemma {:induction false} CheckpointStaysPositive(receivers: seq<Receiver>, s0: Store, runs: seq<Run>, n: nat)
    requires n <= |runs| && PositiveTips(runs) && 0 < s0.checkpointBlock
    ensures 0 < State(receivers, s0, runs, n).checkpointBlock
  {
    hide Next, Succeeds;
    if n != 0 {
      var s := State(receivers, s0, runs, n - 1);
      CheckpointStaysPositive(receivers, s0, runs, n - 1);
      CheckpointAfterRun(receivers, s, runs[n - 1]);
      if Succeeds(receivers, s, runs[n - 1]) {
        SuccessHasTip(receivers, s, runs[n - 1]);
      }
    }
  }

  /** The stored checkpoint is the initial one or the tip of an earlier successful run. */
  lemma {:induction false} CheckpointOrigin(receivers: seq<Receiver>, s0: Store, runs: seq<Run>, n: nat)
    returns (g: Option<nat>)
    requires n <= |runs|
    ensures g.None? ==> State(receivers, s0, runs, n).checkpointBlock == s0.checkpointBlock
    ensures g.Some? ==> g.value < n && Succeeds(receivers, State(receivers, s0, runs, g.value), runs[g.value])
                        && runs[g.value].latestBlock.value == State(receivers, s0, runs, n).checkpointBlock
  {
    hide Succeeds, Next;
    g := None;
    if n != 0 {
      var s := State(receivers, s0, runs, n - 1);
      CheckpointAfterRun(receivers, s, runs[n - 1]);
      if Succeeds(receivers, s, runs[n - 1]) {
        g := Some(n - 1);
      } else {
        g := CheckpointOrigin(receivers, s0, runs, n - 1);
      }
    }
  }

  /**
   The block is not below the initial checkpoint; when there is none, not below the window of the first run
   that succeeds.
   */
  ghost predicate InReach(receivers: seq<Receiver>, s0: Store, runs: seq<Run>, block: int) {
    && 0 <= block
    && (0 < s0.checkpointBlock ==> s0.checkpointBlock <= block)
    && forall g :: 0 <= g < |runs| && Succeeds(receivers, State(receivers, s0, runs, g), runs[g])
                   && State(receivers, s0, runs, g).checkpointBlock <= 0
                   ==> Start(State(receivers, s0, runs, g).checkpointBlock, runs[g].latestBlock.value) <= block
  }

  /** With a checkpoint, everything from there on is in reach. */
  lemma ReachFromCheckpoint(receivers: seq<Receiver>, s0: Store, runs: seq<Run>, block: int)
    requires PositiveTips(runs) && 0 < s0.checkpointBlock <= block
    ensures InReach(receivers, s0, runs, block)
  {
    hide Succeeds, State, Start;
    forall g | 0 <= g < |runs| ensures 0 < State(receivers, s0, runs, g).checkpointBlock {
      CheckpointStaysPositive(receivers, s0, runs, g);
    }
  }

  /** A block in reach below the window of a successful run is deep below the tip of an earlier one. */
  lemma BelowWindow(receivers: seq<Receiver>, s0: Store, runs: seq<Run>, f: nat, block: int) returns (g: nat)
    requires f < |runs| && PositiveTips(runs) && InReach(receivers, s0, runs, block)
    requires Succeeds(receivers, State(receivers, s0, runs, f), runs[f]) && runs[f].latestBlock.Some?
    requires block < Start(State(receivers, s0, runs, f).checkpointBlock, runs[f].latestBlock.value)
    ensures g < f && Succeeds(receivers, State(receivers, s0, runs, g), runs[g]) && runs[g].latestBlock.Some?
    ensures State(receivers, s0, runs, f).checkpointBlock == runs[g].latestBlock.value
    ensures block < runs[g].latestBlock.value - REORG_DEPTH_BLOCKS
  {
    hide Succeeds, State, Start;
    var checkpoint := State(receivers, s0, runs, f).checkpointBlock;
    StartsBelowCheckpoint(checkpoint, runs[f].latestBlock.value);
    var origin := CheckpointOrigin(receivers, s0, runs, f);
    g := origin.value;
    SuccessHasTip(receivers, State(receivers, s0, runs, g), runs[g]);
  }

  /**
   Once a run succeeded, every block in reach up to the current checkpoint lies in the window of a successful
   run, for any tips, also tips that go back, and any failures.
   */
  lemma {:induction false} WindowsCover(receivers: seq<Receiver>, s0: Store, runs: seq<Run>, n: nat, block: int)
    requires n <= |runs| && PositiveTips(runs) && InReach(receivers, s0, runs, block)
    requires block <= State(receivers, s0, runs, n).checkpointBlock
    ensures || (exists i :: 0 <= i < n && Examined(receivers, s0, runs, i, block))
            || (forall i :: 0 <= i < n ==> !Succeeds(receivers, State(receivers, s0, runs, i), runs[i]))
  {
    hide Succeeds, Next, Start, InReach;
    if n != 0 {
      var s := State(receivers, s0, runs, n - 1);
      CheckpointAfterRun(receivers, s, runs[n - 1]);
      if block <= s.checkpointBlock {
        WindowsCover(receivers, s0, runs, n - 1, block);
      }
      if Succeeds(receivers, s, runs[n - 1]) {
        SuccessHasTip(receivers, s, runs[n - 1]);
        if Start(s.checkpointBlock, runs[n - 1].latestBlock.value) <= block {
          assert Examined(receivers, s0, runs, n - 1, block);
        } else {
          var g := BelowWindow(receivers, s0, runs, n - 1, block);
        }
      }
    }
  }

  // -------------------------------------------------------------------------------------------
  // Failed runs

  /**
   The window at tip `second` goes back as far as that at tip `first` did: the checkpoint is positive and was
   passed at `first`, or the tip did not move forward, or the window goes back to the first block.
   */
  predicate GoesBackAsFar(checkpoint: int, first: int, second: int) {
    || 0 < checkpoint <= first
    || second <= first
    || (if 0 < checkpoint < second then checkpoint else second) <= REORG_DEPTH_BLOCKS
  }

  lemma {:induction false} CheckpointWhileFailing(receivers: seq<Receiver>, s0: Store, runs: seq<Run>, i: nat, j: nat)
    requires i <= j <= |runs|
    requires forall k :: i <= k < j ==> !Succeeds(receivers, State(receivers, s0, runs, k), runs[k])
    ensures State(receivers, s0, runs, j).checkpointBlock == State(receivers, s0, runs, i).checkpointBlock
    decreases j
  {
    hide Succeeds, Next;
    if i < j {
      CheckpointWhileFailing(receivers, s0, runs, i, j - 1);
      CheckpointAfterRun(receivers, State(receivers, s0, runs, j - 1), runs[j - 1]);
    }
  }

  /**
   A failed run is covered again by the next successful one, up to the tip of that, exactly when the window of
   the latter goes back as far. With no checkpoint yet, the range of a failed run is lost as soon as the tip
   moves past block 12.
   */
  lemma RetryCoversExactly(receivers: seq<Receiver>, s0: Store, runs: seq<Run>, i: nat, j: nat)
    requires i < j < |runs| && Succeeds(receivers, State(receivers, s0, runs, j), runs[j])
    requires forall k :: i <= k < j ==> !Succeeds(receivers, State(receivers, s0, runs, k), runs[k])
    requires runs[i].latestBlock.Some? && runs[j].latestBlock.Some? && 0 <= runs[i].latestBlock.value
    ensures var checkpoint := State(receivers, s0, runs, i).checkpointBlock;
            var first, second := runs[i].latestBlock.value, runs[j].latestBlock.value;
            (forall block :: Start(checkpoint, first) <= block <= first && block <= second
                             ==> Examined(receivers, s0, runs, j, block))
            <==> GoesBackAsFar(checkpoint, first, second)
  {
    hide Succeeds, State;
    CheckpointWhileFailing(receivers, s0, runs, i, j);
    var checkpoint := State(receivers, s0, runs, i).checkpointBlock;
    var first, second := runs[i].latestBlock.value, runs[j].latestBlock.value;
    assert Start(checkpoint, second) <= Start(checkpoint, first) <==> GoesBackAsFar(checkpoint, first, second);
    if !GoesBackAsFar(checkpoint, first, second) {
      assert !Examined(receivers, s0, runs, j, Start(checkpoint, first));
    }
  }

  // -------------------------------------------------------------------------------------------
  // No missed events

  /**
   `due(e)` is the block with whose window a monitor looks for the event: the block of the event, or for
   events that stand for something that did not happen in time, that block and the timeout.
   */
  type Due = SystemEvent -> int

  function BlockOf(e: SystemEvent): int {
    e.block
  }

  /**
   `chains[i]` holds the events of the chain as run `i` sees it. Between two runs the chain may be
   reorganized, but what was due below the last 12 blocks that the earlier run saw, that run saw as well.
   */
  ghost predicate ShallowReorgs(runs: seq<Run>, chains: seq<set<SystemEvent>>, due: Due)
    requires |chains| == |runs|
  {
    forall i, j, e | 0 <= i < j < |runs| && runs[i].latestBlock.Some? && e in chains[j] ::
      due(e) < runs[i].latestBlock.value - REORG_DEPTH_BLOCKS ==> e in chains[i]
  }

  /** In a successful run the monitors report every event of the chain that is due in the window. */
  ghost predicate Faithful(receivers: seq<Receiver>, s0: Store, runs: seq<Run>, chains: seq<set<SystemEvent>>, due: Due)
    requires |chains| == |runs|
  {
    forall i, e :: 0 <= i < |runs| && e in chains[i] && Examined(receivers, s0, runs, i, due(e))
                   ==> e in Gathered(runs[i].monitors)
  }

  /** What a successful run gathers is in the log of every receiver that supports it. */
  lemma GatheredIsLogged(receivers: seq<Receiver>, s: Store, run: Run, e: SystemEvent, r: nat)
    requires Succeeds(receivers, s, run) && e in Gathered(run.monitors)
    requires r < |receivers| && receivers[r].isSupported(e)
    ensures e in LogOf(Next(receivers, s, run).handled, receivers[r].id)
  {
    hide Deliveries, Next;
    var id := receivers[r].id;
    LogAfterRun(receivers, s, run, id);
    if e !in LogOf(s.handled, id) {
      var k :| 0 <= k < |Gathered(run.monitors)| && Gathered(run.monitors)[k] == e;
      SettledMembers(receivers, s, run, |receivers|, None);
      assert OutcomeOf(receivers, s, run, r, k) != None;
      var a := Ack(id, e, Handled);
      assert OutcomeOf(receivers, s, run, r, k) == Some(a);
      DeliveredExactly(receivers, s, run, a);
      EventsForMembers(Deliveries(receivers, s, run), id, e);
    }
  }

  /**
   No missed events: after a successful run, every event on the chain it sees that is due in reach and up to its
   tip is in the log of every receiver that supports the event; whatever failed before.
   */
  lemma {:induction false} NoMissedEvents(receivers: seq<Receiver>, s0: Store, runs: seq<Run>,
                                          chains: seq<set<SystemEvent>>, due: Due, f: nat, e: SystemEvent, r: nat)
    requires |chains| == |runs| && ShallowReorgs(runs, chains, due) && Faithful(receivers, s0, runs, chains, due)
    requires PositiveTips(runs) && InReach(receivers, s0, runs, due(e))
    requires f < |runs| && Succeeds(receivers, State(receivers, s0, runs, f), runs[f])
    requires e in chains[f] && runs[f].latestBlock.Some? && due(e) <= runs[f].latestBlock.value
    requires r < |receivers| && receivers[r].isSupported(e)
    ensures e in LogOf(State(receivers, s0, runs, f + 1).handled, receivers[r].id)
    decreases f
  {
    hide Succeeds, Next, InReach, PositiveTips, Start;
    var s := State(receivers, s0, runs, f);
    if Start(s.checkpointBlock, runs[f].latestBlock.value) <= due(e) {
      assert Examined(receivers, s0, runs, f, due(e));
      GatheredIsLogged(receivers, s, runs[f], e, r);
    } else {
      var g := BelowWindow(receivers, s0, runs, f, due(e));
      assert e in chains[g];
      NoMissedEvents(receivers, s0, runs, chains, due, g, e, r);
      LogOnlyGrows(receivers, s0, runs, g + 1, f + 1, receivers[r].id);
    }
  }

  /**
   Exactly once: if also nothing is handled twice in a run or again after a failed store, which is the exact
   condition for at most once, then each of these events is handled once over all runs.
   */
  lemma ExactlyOnce(receivers: seq<Receiver>, s0: Store, runs: seq<Run>, chains: seq<set<SystemEvent>>,
                    due: Due, f: nat, e: SystemEvent, r: nat)
    requires |chains| == |runs| && ShallowReorgs(runs, chains, due) && Faithful(receivers, s0, runs, chains, due)
    requires PositiveTips(runs) && InReach(receivers, s0, runs, due(e))
    requires f < |runs| && Succeeds(receivers, State(receivers, s0, runs, f), runs[f])
    requires e in chains[f] && runs[f].latestBlock.Some? && due(e) <= runs[f].latestBlock.value
    requires r < |receivers| && receivers[r].isSupported(e)
    requires DistinctIds(receivers) && NoDuplicates(receivers, s0, runs)
    requires e !in LogOf(s0.handled, receivers[r].id)
    ensures multiset(History(receivers, s0, runs, |runs|))[Ack(receivers[r].id, e, Handled)] == 1
  {
    hide Succeeds, Next, Deliveries, History, NoDuplicates, State, ShallowReorgs, Faithful, InReach;
    NoMissedEvents(receivers, s0, runs, chains, due, f, e, r);
    LogOnlyGrows(receivers, s0, runs, f + 1, |runs|, receivers[r].id);
    LoggedIsDelivered(receivers, s0, runs, |runs|, receivers[r].id, e);
    DuplicatesFilteredExactly(receivers, s0, runs);
    assert Ack(receivers[r].id, e, Handled) in multiset(History(receivers, s0, runs, |runs|));
  }

  /** What came into the log was handled. */
  lemma {:induction false} LoggedIsDelivered(receivers: seq<Receiver>, s0: Store, runs: seq<Run>, n: nat,
                                             id: ReceiverId, e: SystemEvent)
    requires n <= |runs|
    requires e !in LogOf(s0.handled, id) && e in LogOf(State(receivers, s0, runs, n).handled, id)
    ensures Ack(id, e, Handled) in History(receivers, s0, runs, n)
  {
    hide Next, Deliveries, Stores;
    if n != 0 {
      var s := State(receivers, s0, runs, n - 1);
      if e in LogOf(s.handled, id) {
        LoggedIsDelivered(receivers, s0, runs, n - 1, id, e);
      } else {
        LogAfterRun(receivers, s, runs[n - 1], id);
        EventsForMembers(Deliveries(receivers, s, runs[n - 1]), id, e);
        var a :| a in Deliveries(receivers, s, runs[n - 1]) && a.receiverId == id && a.systemEvent == e;
        NewToTheLog(receivers, s, runs[n - 1], a);
      }
    }
  }

  /**
   Without a checkpoint an event can be missed although everything else is as promised: the first run sees it
   in block 100 and fails to dispatch it, the second succeeds at tip 200 and starts from 188.
   */
  lemma MissedBeforeFirstSuccess()
    ensures var receivers, e := [ANY_RECEIVER], SOME_EVENT;
            var runs := [RunAt(100, [e], {(0, 0)}, true), RunAt(200, [], {}, true)];
            var chains := [{e}, {e}];
            && PositiveTips(runs) && ShallowReorgs(runs, chains, BlockOf)
            && Faithful(receivers, NOTHING_STORED, runs, chains, BlockOf)
            && Succeeds(receivers, State(receivers, NOTHING_STORED, runs, 1), runs[1])
            && e in chains[1] && 0 <= e.block <= runs[1].latestBlock.value && receivers[0].isSupported(e)
            && e !in LogOf(State(receivers, NOTHING_STORED, runs, 2).handled, receivers[0].id)
  {
    hide Deliveries, Next, Succeeds, History;
    var receivers, e := [ANY_RECEIVER], SOME_EVENT;
    var first, second := RunAt(100, [e], {(0, 0)}, true), RunAt(200, [], {}, true);
    var runs := [first, second];
    GatheredOfOne(first, [e]);
    GatheredOfOne(second, []);
    FailsToDispatch(receivers, NOTHING_STORED, first);
    CheckpointAfterRun(receivers, NOTHING_STORED, first);
    assert State(receivers, NOTHING_STORED, runs, 1) == Next(receivers, NOTHING_STORED, first);
    SucceedsWithoutFailures(receivers, State(receivers, NOTHING_STORED, runs, 1), second);
    NobodyHandles(receivers, NOTHING_STORED, first, second, ANY_RECEIVER.id, e);
  }

  /** Two runs log nothing of an event that no receiver handles. */
  lemma NobodyHandles(receivers: seq<Receiver>, s0: Store, first: Run, second: Run, id: ReceiverId, e: SystemEvent)
    requires forall r, k :: 0 <= r < |receivers| && 0 <= k < |Gathered(first.monitors)|
                            ==> !Handles(receivers, s0, first, r, k)
    requires e !in Gathered(second.monitors) && e !in LogOf(s0.handled, id)
    ensures e !in LogOf(State(receivers, s0, [first, second], 2).handled, id)
  {
    hide Deliveries, Next, History, Handles;
    var runs, a := [first, second], Ack(id, e, Handled);
    DeliveredHandles(receivers, s0, first, a);
    DeliveredHandles(receivers, State(receivers, s0, runs, 1), second, a);
    HistoryMembers(receivers, s0, runs, 2, a);
    if e in LogOf(State(receivers, s0, runs, 2).handled, id) {
      LoggedIsDelivered(receivers, s0, runs, 2, id, e);
    }
  }

  lemma SucceedsWithoutFailures(receivers: seq<Receiver>, s: Store, run: Run)
    requires Dispatches(run) && Rejected !in run.monitors && run.failedDispatches == {}
    requires run.storeSucceeds && run.updateSucceeds
    ensures Succeeds(receivers, s, run)
  {
    SettledMembers(receivers, s, run, |receivers|, None);
  }

  lemma FailsToDispatch(receivers: seq<Receiver>, s: Store, run: Run)
    requires receivers != [] && Dispatches(run) && Gathered(run.monitors) != []
    requires OutcomeOf(receivers, s, run, 0, 0) == None
    ensures !Succeeds(receivers, s, run)
  {
    SettledMembers(receivers, s, run, |receivers|, None);
  }

  // -------------------------------------------------------------------------------------------
  // Monitors that look at a window shifted back by a timeout

  function RewindBlock(block: int, shift: int): int {
    if block - shift > 0 then block - shift else 0
  }

  /** Run `i` succeeded and its window, shifted back, holds the block. */
  predicate ExaminedShifted(receivers: seq<Receiver>, s0: Store, runs: seq<Run>, i: nat, block: int, shift: nat)
    requires i < |runs|
  {
    var s := State(receivers, s0, runs, i);
    && Succeeds(receivers, s, runs[i])
    && RewindBlock(Start(s.checkpointBlock, runs[i].latestBlock.value), shift) <= block
    && block <= RewindBlock(runs[i].latestBlock.value, shift)
  }

  /** A shifted window holds a block when the window itself holds the block that is the timeout past it. */
  lemma ShiftedWindow(receivers: seq<Receiver>, s0: Store, runs: seq<Run>, i: nat, block: nat, shift: nat)
    requires i < |runs| && Examined(receivers, s0, runs, i, block + shift)
    ensures ExaminedShifted(receivers, s0, runs, i, block, shift)
  {
    hide Succeeds, State, Start;
  }

  /**
   The shifted windows inherit the coverage: once a run succeeded, each block whose timeout ended in reach and
   up to the checkpoint is in the shifted window of a successful run whose tip is at least the timeout past it.
   */
  lemma RewoundWindowsCover(receivers: seq<Receiver>, s0: Store, runs: seq<Run>, n: nat, shift: nat, block: nat)
    returns (i: nat)
    requires n <= |runs| && PositiveTips(runs) && InReach(receivers, s0, runs, block + shift)
    requires block + shift <= State(receivers, s0, runs, n).checkpointBlock
    requires exists k :: 0 <= k < n && Succeeds(receivers, State(receivers, s0, runs, k), runs[k])
    ensures i < n && ExaminedShifted(receivers, s0, runs, i, block, shift)
    ensures block + shift <= runs[i].latestBlock.value
  {
    hide Succeeds, Next, State, Start, InReach;
    WindowsCover(receivers, s0, runs, n, block + shift);
    i :| 0 <= i < n && Examined(receivers, s0, runs, i, block + shift);
    ShiftedWindow(receivers, s0, runs, i, block, shift);
  }

  const MINTING_REQUEST_TIMEOUT_BLOCKS := 600

  const REDEMPTION_REQUEST_STALE_BLOCKS := 2400

  /** How many blocks the monitors shift their window back for events of this title. */
  function Shift(e: SystemEvent, finalizationTimeout: nat): nat {
    if e.title == "Stale redemption" then REDEMPTION_REQUEST_STALE_BLOCKS
    else if e.title == "Optimistic minting not requested by any minter" then MINTING_REQUEST_TIMEOUT_BLOCKS
    else if e.title == "Optimistic minting not finalized by any minter" then finalizationTimeout
    else 0
  }

  lemma ShiftInNumbers(e: SystemEvent, finalizationTimeout: nat)
    ensures e.title == "Stale redemption" ==> Shift(e, finalizationTimeout) == 2400
    ensures e.title == "Optimistic minting not requested by any minter" ==> Shift(e, finalizationTimeout) == 600
  {
  }

  function DueAfterShift(finalizationTimeout: nat): Due {
    (e: SystemEvent) => e.block + Shift(e, finalizationTimeout)
  }

  predicate NaturalBlocks(chains: seq<set<SystemEvent>>) {
    forall i, e :: 0 <= i < |chains| && e in chains[i] ==> 0 <= e.block
  }

  /** In a successful run the monitors report every event of the chain in the window they shift for it. */
  ghost predicate FaithfulShifted(receivers: seq<Receiver>, s0: Store, runs: seq<Run>, chains: seq<set<SystemEvent>>,
                                  finalizationTimeout: nat)
    requires |chains| == |runs|
  {
    forall i, e :: 0 <= i < |runs| && e in chains[i]
                   && ExaminedShifted(receivers, s0, runs, i, e.block, Shift(e, finalizationTimeout))
                   ==> e in Gathered(runs[i].monitors)
  }

  lemma ShiftedIsFaithful(receivers: seq<Receiver>, s0: Store, runs: seq<Run>, chains: seq<set<SystemEvent>>,
                          finalizationTimeout: nat)
    requires |chains| == |runs| && NaturalBlocks(chains)
    requires FaithfulShifted(receivers, s0, runs, chains, finalizationTimeout)
    ensures Faithful(receivers, s0, runs, chains, DueAfterShift(finalizationTimeout))
  {
    hide Examined, ExaminedShifted, Shift;
    var due := DueAfterShift(finalizationTimeout);
    forall i, e | 0 <= i < |runs| && e in chains[i] && Examined(receivers, s0, runs, i, due(e))
      ensures e in Gathered(runs[i].monitors)
    {
      ShiftedWindow(receivers, s0, runs, i, e.block, Shift(e, finalizationTimeout));
    }
  }

  /**
   No missed events, for monitors that shift their windows as well as for those that do not: every event on
   the chain of a successful run whose timeout, if it has one, ended in reach and up to the tip is logged.
   */
  lemma NoMissedAlerts(receivers: seq<Receiver>, s0: Store, runs: seq<Run>, chains: seq<set<SystemEvent>>,
                       finalizationTimeout: nat, f: nat, e: SystemEvent, r: nat)
    requires |chains| == |runs| && NaturalBlocks(chains)
    requires ShallowReorgs(runs, chains, DueAfterShift(finalizationTimeout))
    requires FaithfulShifted(receivers, s0, runs, chains, finalizationTimeout)
    requires PositiveTips(runs) && InReach(receivers, s0, runs, e.block + Shift(e, finalizationTimeout))
    requires f < |runs| && Succeeds(receivers, State(receivers, s0, runs, f), runs[f])
    requires e in chains[f] && runs[f].latestBlock.Some?
    requires e.block + Shift(e, finalizationTimeout) <= runs[f].latestBlock.value
    requires r < |receivers| && receivers[r].isSupported(e)
    ensures e in LogOf(State(receivers, s0, runs, f + 1).handled, receivers[r].id)
  {
    hide Succeeds, State, InReach, Shift, ShallowReorgs, FaithfulShifted, Faithful;
    ShiftedIsFaithful(receivers, s0, runs, chains, finalizationTimeout);
    NoMissedEvents(receivers, s0, runs, chains, DueAfterShift(finalizationTimeout), f, e, r);
  }

  // -------------------------------------------------------------------------------------------
  // A delayed alert

  const STALE := SystemEvent("Stale redemption", Warning, [], 50)

  /** The first run has block 50 in its window, long before the redemption is stale; the second one reports it. */
  function StaleRuns(): seq<Run> {
    [RunAt(110, [], {}, true), RunAt(2600, [STALE], {}, true)]
  }

  const AT_FORTY := Store(40, map[])

  lemma StaleRunsSucceed()
    ensures var receivers, runs := [ANY_RECEIVER], StaleRuns();
            && Gathered(runs[0].monitors) == [] && Gathered(runs[1].monitors) == [STALE]
            && Succeeds(receivers, AT_FORTY, runs[0])
            && State(receivers, AT_FORTY, runs, 0) == AT_FORTY
            && State(receivers, AT_FORTY, runs, 1).checkpointBlock == 110
            && Succeeds(receivers, State(receivers, AT_FORTY, runs, 1), runs[1])
  {
    hide Succeeds, Next;
    var receivers, runs := [ANY_RECEIVER], StaleRuns();
    GatheredOfOne(runs[0], []);
    GatheredOfOne(runs[1], [STALE]);
    SucceedsWithoutFailures(receivers, AT_FORTY, runs[0]);
    CheckpointAfterRun(receivers, AT_FORTY, runs[0]);
    assert State(receivers, AT_FORTY, runs, 1) == Next(receivers, AT_FORTY, runs[0]);
    SucceedsWithoutFailures(receivers, State(receivers, AT_FORTY, runs, 1), runs[1]);
  }

  /** Taken as due at its block, the alert cannot meet the hypotheses, whatever the first run sees. */
  lemma NotDueAtItsBlock(early: set<SystemEvent>)
    ensures var receivers, runs := [ANY_RECEIVER], StaleRuns();
            !(ShallowReorgs(runs, [early, {STALE}], BlockOf)
              && Faithful(receivers, AT_FORTY, runs, [early, {STALE}], BlockOf))
  {
    hide Succeeds, Next;
    var receivers, runs, chains := [ANY_RECEIVER], StaleRuns(), [early, {STALE}];
    StaleRunsSucceed();
    assert Examined(receivers, AT_FORTY, runs, 0, BlockOf(STALE));
    if ShallowReorgs(runs, chains, BlockOf) {
      assert STALE in chains[1] && BlockOf(STALE) < 110 - REORG_DEPTH_BLOCKS;
      assert STALE in chains[0];
    }
  }

  /** The alert is not reported when its block is examined, but it meets the hypotheses of `NoMissedAlerts`. */
  lemma DelayedAlertIsLogged()
    ensures var receivers, runs, chains := [ANY_RECEIVER], StaleRuns(), [{STALE}, {STALE}];
            && Examined(receivers, AT_FORTY, runs, 0, STALE.block) && STALE !in Gathered(runs[0].monitors)
            && NaturalBlocks(chains) && ShallowReorgs(runs, chains, DueAfterShift(0))
            && FaithfulShifted(receivers, AT_FORTY, runs, chains, 0)
            && STALE in LogOf(State(receivers, AT_FORTY, runs, 2).handled, ANY_RECEIVER.id)
  {
    hide Succeeds, Next, InReach;
    var receivers, runs, chains := [ANY_RECEIVER], StaleRuns(), [{STALE}, {STALE}];
    StaleRunsSucceed();
    assert Shift(STALE, 0) == REDEMPTION_REQUEST_STALE_BLOCKS;
    ReachFromCheckpoint(receivers, AT_FORTY, runs, STALE.block + REDEMPTION_REQUEST_STALE_BLOCKS);
    NoMissedAlerts(receivers, AT_FORTY, runs, chains, 0, 1, STALE, 0);
  }
}
