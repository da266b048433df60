/** `EthersEventUtils.getEvents`: one query for events, or batches of blocks when that query fails. */
module EventBatches {
  import opened Results
  import opened Sequences

  datatype Event = Event(block: int, payload: string)

  /** The end of the search: a number, or a tag such as "latest" and the number it stands for. */
  datatype ToBlock = Number(n: int) | Tag(n: int)

  datatype EventsError = TagNotResolved | QueryFailed

  /** The events emitted in blocks `first` to `last`, in the order of the chain. */
  function Matching(chain: seq<Event>, first: int, last: int): seq<Event> {
    if chain == [] then []
    else if first <= chain[0].block <= last then [chain[0]] + Matching(chain[1..], first, last)
    else Matching(chain[1..], first, last)
  }

  /** Exactly the events of the range, each as often as on the chain. */
  lemma {:induction false} MatchingIsExact(chain: seq<Event>, first: int, last: int, e: Event)
    ensures multiset(Matching(chain, first, last))[e] == if first <= e.block <= last then multiset(chain)[e] else 0
  {
    if chain != [] {
      MatchingIsExact(chain[1..], first, last, e);
      assert chain == [chain[0]] + chain[1..];
    }
  }

  /** Their order is that of the chain. */
  lemma {:induction false} MatchingKeepsOrder(a: seq<Event>, b: seq<Event>, first: int, last: int)
    ensures Matching(a + b, first, last) == Matching(a, first, last) + Matching(b, first, last)
    ensures (forall i :: 0 <= i < |a| ==> first <= a[i].block <= last) ==> Matching(a, first, last) == a
  {
    if a == [] {
      assert a + b == b;
    } else {
      assert (a + b)[1..] == a[1..] + b;
      assert a == [a[0]] + a[1..];
      MatchingKeepsOrder(a[1..], b, first, last);
    }
  }

  predicate InBlockOrder(chain: seq<Event>) {
    forall i, j :: 0 <= i < j < |chain| ==> chain[i].block <= chain[j].block
  }

  function BatchEnd(start: int, last: int, interval: int): int {
    if start + interval > last then last else start + interval
  }

  /** Where the loop stands after `k` turns, if none fails and it is not left before. */
  function StartOfTurn(first: int, last: int, interval: int, k: nat): int {
    if k == 0 then first else BatchEnd(StartOfTurn(first, last, interval, k - 1), last, interval) + 1
  }

  /** The range queried in turn `k`. */
  function Turn(first: int, last: int, interval: int, k: nat): (int, int) {
    var start := StartOfTurn(first, last, interval, k);
    (start, BatchEnd(start, last, interval))
  }

  lemma {:induction false} NegativeNeverAdvances(first: int, last: int, interval: int, k: nat)
    requires interval < 0
    ensures StartOfTurn(first, last, interval, k) <= first
  {
    if k != 0 {
      NegativeNeverAdvances(first, last, interval, k - 1);
    }
  }

  lemma {:induction false} NonNegativeAdvances(first: int, last: int, interval: int, k: nat)
    requires 0 <= interval
    ensures last < StartOfTurn(first, last, interval, k) || first + k <= StartOfTurn(first, last, interval, k)
  {
    if k != 0 {
      NonNegativeAdvances(first, last, interval, k - 1);
    }
  }

  /**
   The loop gets past the end after some number of turns exactly when the range is empty or the interval is
   not negative. With a negative interval it is only left through a query that fails.
   */
  lemma LoopEndsExactly(first: int, last: int, interval: int)
    ensures (exists k: nat :: last < StartOfTurn(first, last, interval, k)) <==> last < first || 0 <= interval
  {
    if last < first {
      assert last < StartOfTurn(first, last, interval, 0);
    } else if 0 <= interval {
      NonNegativeAdvances(first, last, interval, last - first + 1);
      assert last < StartOfTurn(first, last, interval, last - first + 1);
    } else {
      forall k: nat ensures StartOfTurn(first, last, interval, k) <= last {
        NegativeNeverAdvances(first, last, interval, k);
      }
    }
  }

  /** The ranges that the fallback queries when the loop gets to its end; a negative interval never does. */
  function Batches(first: int, last: int, interval: int): seq<(int, int)>
    decreases last - first + 1
  {
    if first > last || interval < 0 then []
    else [(first, BatchEnd(first, last, interval))] + Batches(BatchEnd(first, last, interval) + 1, last, interval)
  }

  lemma BatchStep(queried: seq<(int, int)>, first: int, last: int, interval: int)
    requires first <= last && 0 <= interval
    ensures var batch := (first, BatchEnd(first, last, interval));
            && batch in queried + Batches(first, last, interval)
            && queried + Batches(first, last, interval) == queried + [batch] + Batches(batch.1 + 1, last, interval)
  {
    var batch := (first, BatchEnd(first, last, interval));
    var rest := Batches(batch.1 + 1, last, interval);
    assert Batches(first, last, interval) == [batch] + rest;
    assert ([batch] + rest)[0] == batch;
    Assoc(queried, [batch], rest);
  }

  lemma NoMoreBatches(queried: seq<(int, int)>, first: int, last: int, interval: int)
    requires last < first
    ensures queried + Batches(first, last, interval) == queried
  {
    NothingToAdd(queried);
  }

  /** The fallback gets to its loop, and the loop has something to query. */
  predicate EntersLoop(fromBlock: int, toBlock: ToBlock, wholeFails: bool, tagFails: bool) {
    wholeFails && !(toBlock.Tag? && tagFails) && fromBlock <= toBlock.n
  }

  /** The ranges queried by the first turns. */
  ghost predicate InTurns(queried: seq<(int, int)>, first: int, last: int, interval: int) {
    forall i :: 0 <= i < |queried| ==> queried[i] == Turn(first, last, interval, i)
  }

  lemma InTurnsNext(queried: seq<(int, int)>, first: int, last: int, interval: int)
    requires InTurns(queried, first, last, interval)
    ensures InTurns(queried + [Turn(first, last, interval, |queried|)], first, last, interval)
  {
    hide Turn;
  }

  /** Ranges that were queried, all of them found except perhaps the last. */
  predicate FailsAtLast(queried: seq<(int, int)>, failing: set<(int, int)>) {
    && queried != []
    && queried[|queried| - 1] in failing
    && forall i :: 0 <= i < |queried| - 1 ==> queried[i] !in failing
  }

  /**
   `wholeFails`, `tagFails` and `failing` say which calls of the provider fail. The source comes back exactly
   when the interval is not negative, the loop has nothing to do, or the query of some turn fails.
   */
  method GetEvents(chain: seq<Event>, fromBlock: int, toBlock: ToBlock, interval: int,
                   wholeFails: bool, tagFails: bool, failing: set<(int, int)>)
    returns (r: Result<seq<Event>, EventsError>, queried: seq<(int, int)>)
    requires InBlockOrder(chain)
    requires EntersLoop(fromBlock, toBlock, wholeFails, tagFails) && interval < 0
             ==> exists k: nat :: Turn(fromBlock, toBlock.n, interval, k) in failing
    ensures r.Ok? ==> r.value == Matching(chain, fromBlock, toBlock.n)
    ensures r.Ok? <==> || !wholeFails
                       || (&& !(toBlock.Tag? && tagFails)
                           && (toBlock.n < fromBlock || 0 <= interval)
                           && forall b :: b in Batches(fromBlock, toBlock.n, interval) ==> b !in failing)
    ensures r.Err? ==> r.error == if toBlock.Tag? && tagFails then TagNotResolved else QueryFailed
    ensures r.Ok? ==> queried == if wholeFails then Batches(fromBlock, toBlock.n, interval)
                                 else [(fromBlock, toBlock.n)]
    ensures r == Err(TagNotResolved) ==> queried == []
    ensures r == Err(QueryFailed) ==> FailsAtLast(queried, failing)
    ensures wholeFails && 0 <= interval ==> queried <= Batches(fromBlock, toBlock.n, interval)
    ensures wholeFails ==> InTurns(queried, fromBlock, toBlock.n, interval)
  {
    hide Batches, Matching, Turn;
    if !wholeFails {
      return Ok(Matching(chain, fromBlock, toBlock.n)), [(fromBlock, toBlock.n)];
    }
    queried := [];
    var last := toBlock.n;
    if toBlock.Tag? {
      if tagFails {
        return Err(TagNotResolved), queried;
      }
    }
    r, queried := PullBatches(chain, fromBlock, last, interval, failing);
  }

  /** The loop over the batches. */
  method PullBatches(chain: seq<Event>, fromBlock: int, last: int, interval: int, failing: set<(int, int)>)
    returns (r: Result<seq<Event>, EventsError>, queried: seq<(int, int)>)
    requires InBlockOrder(chain)
    requires fromBlock <= last && interval < 0 ==> exists k: nat :: Turn(fromBlock, last, interval, k) in failing
    ensures r.Ok? ==> r.value == Matching(chain, fromBlock, last) && queried == Batches(fromBlock, last, interval)
    ensures r.Ok? <==> (last < fromBlock || 0 <= interval)
                       && forall b :: b in Batches(fromBlock, last, interval) ==> b !in failing
    ensures r.Err? ==> r.error == QueryFailed && FailsAtLast(queried, failing)
    ensures 0 <= interval ==> queried <= Batches(fromBlock, last, interval)
    ensures InTurns(queried, fromBlock, last, interval)
  {
    hide Batches, Matching, Turn, InBlockOrder, StartOfTurn, FailsAtLast, Pulled, InTurns;
    ghost var stop: nat := 0;
    if fromBlock <= last && interval < 0 {
      stop :| Turn(fromBlock, last, interval, stop) in failing;
    }
    queried := [];
    var resultEvents: seq<Event> := [];
    var batchStartBlock := fromBlock;
    FirstTurn(fromBlock, last, interval);
    NothingPulled(chain, fromBlock, last, interval);
    while batchStartBlock <= last
      invariant batchStartBlock == StartOfTurn(fromBlock, last, interval, |queried|)
      invariant InTurns(queried, fromBlock, last, interval)
      invariant forall b :: b in queried ==> b !in failing
      invariant last < fromBlock ==> batchStartBlock == fromBlock
      invariant interval < 0 && fromBlock <= last ==> |queried| <= stop
      invariant 0 <= interval || last < fromBlock
                ==> Pulled(chain, fromBlock, last, interval, batchStartBlock, queried, resultEvents)
      decreases if 0 <= interval then last - batchStartBlock else stop - |queried|
    {
      NextTurn(fromBlock, last, interval, |queried|);
      var batchEndBlock := batchStartBlock + interval;
      if batchEndBlock > last {
        batchEndBlock := last;
      }
      var batch := (batchStartBlock, batchEndBlock);
      if 0 <= interval {
        PulledNext(chain, fromBlock, last, interval, batchStartBlock, queried, resultEvents);
      }
      LastFails(queried, batch, failing);
      InTurnsNext(queried, fromBlock, last, interval);
      queried := queried + [batch];
      if batch in failing {
        return Err(QueryFailed), queried;
      }
      var foundEvents := Matching(chain, batchStartBlock, batchEndBlock);
      resultEvents := resultEvents + foundEvents;
      batchStartBlock := batchEndBlock + 1;
    }
    if interval < 0 {
      NegativeNeverAdvances(fromBlock, last, interval, |queried|);
    }
    PulledAll(chain, fromBlock, last, interval, batchStartBlock, queried, resultEvents);
    return Ok(resultEvents), queried;
  }

  /** What the turns before block `start` have queried and found, if the loop advances. */
  predicate Pulled(chain: seq<Event>, first: int, last: int, interval: int, start: int,
                   queried: seq<(int, int)>, results: seq<Event>)
  {
    && first <= start
    && (start <= last + 1 || start == first)
    && results == Matching(chain, first, start - 1)
    && Batches(first, last, interval) == queried + Batches(start, last, interval)
  }

  lemma NothingPulled(chain: seq<Event>, first: int, last: int, interval: int)
    ensures Pulled(chain, first, last, interval, first, [], [])
  {
    NothingBelow(chain, first);
    NothingToAdd(Batches(first, last, interval));
  }

  lemma PulledNext(chain: seq<Event>, first: int, last: int, interval: int, start: int,
                   queried: seq<(int, int)>, results: seq<Event>)
    requires InBlockOrder(chain) && Pulled(chain, first, last, interval, start, queried, results)
    requires start <= last && 0 <= interval
    ensures var end := BatchEnd(start, last, interval);
            && (start, end) in Batches(first, last, interval)
            && queried + [(start, end)] <= Batches(first, last, interval)
            && Pulled(chain, first, last, interval, end + 1, queried + [(start, end)],
                      results + Matching(chain, start, end))
  {
    hide Matching, Batches;
    BatchStep(queried, start, last, interval);
    MatchingSplits(chain, first, start, BatchEnd(start, last, interval));
  }

  lemma PulledAll(chain: seq<Event>, first: int, last: int, interval: int, start: int,
                  queried: seq<(int, int)>, results: seq<Event>)
    requires Pulled(chain, first, last, interval, start, queried, results) && last < start
    ensures results == Matching(chain, first, last) && queried == Batches(first, last, interval)
  {
    NoMoreBatches(queried, start, last, interval);
    if last < first {
      EmptyRange(chain, first, start - 1);
      EmptyRange(chain, first, last);
    }
  }

  lemma LastFails(found: seq<(int, int)>, batch: (int, int), failing: set<(int, int)>)
    requires forall b :: b in found ==> b !in failing
    ensures batch in failing ==> FailsAtLast(found + [batch], failing)
    ensures batch !in failing ==> forall b :: b in found + [batch] ==> b !in failing
    ensures |found + [batch]| == |found| + 1
  {
  }

  lemma FirstTurn(first: int, last: int, interval: int)
    ensures StartOfTurn(first, last, interval, 0) == first && InTurns([], first, last, interval)
  {
  }

  lemma NextTurn(first: int, last: int, interval: int, k: nat)
    ensures var start := StartOfTurn(first, last, interval, k);
            && Turn(first, last, interval, k) == (start, BatchEnd(start, last, interval))
            && StartOfTurn(first, last, interval, k + 1) == BatchEnd(start, last, interval) + 1
  {
  }

  lemma {:induction false} EmptyRange(chain: seq<Event>, first: int, last: int)
    requires last < first
    ensures Matching(chain, first, last) == []
  {
    if chain != [] {
      EmptyRange(chain[1..], first, last);
    }
  }

  lemma NothingBelow(chain: seq<Event>, first: int)
    ensures Matching(chain, first, first - 1) == []
  {
    EmptyRange(chain, first, first - 1);
  }

  lemma {:induction false} AllAbove(chain: seq<Event>, first: int, last: int)
    requires forall i :: 0 <= i < |chain| ==> last < chain[i].block
    ensures Matching(chain, first, last) == []
  {
    if chain != [] {
      AllAbove(chain[1..], first, last);
    }
  }

  /** Two adjacent ranges, one query after the other, give what one query over both gives, in the same order. */
  lemma {:induction false} MatchingSplits(chain: seq<Event>, first: int, middle: int, last: int)
    requires InBlockOrder(chain)
    requires first <= middle <= last + 1
    ensures Matching(chain, first, last) == Matching(chain, first, middle - 1) + Matching(chain, middle, last)
  {
    if chain != [] {
      var rest := chain[1..];
      MatchingSplits(rest, first, middle, last);
      if first <= chain[0].block < middle {
        Assoc([chain[0]], Matching(rest, first, middle - 1), Matching(rest, middle, last));
      } else if middle <= chain[0].block {
        AllAbove(rest, first, middle - 1);
        NothingToAdd(Matching(rest, middle, last));
        NothingToAdd(Matching(chain, middle, last));
      }
    }
  }

  // -------------------------------------------------------------------------------------------

  /** Consecutive ranges from `first` to `last` of `interval + 1` blocks each; the last one may be shorter. */
  predicate Partitions(batches: seq<(int, int)>, first: int, last: int, interval: int) {
    && batches != []
    && batches[0].0 == first
    && batches[|batches| - 1].1 == last
    && (forall k :: 0 <= k < |batches| ==> 0 <= batches[k].1 - batches[k].0 <= interval)
    && (forall k :: 0 <= k < |batches| - 1 ==> batches[k].1 - batches[k].0 == interval)
    && (forall k :: 0 < k < |batches| ==> batches[k - 1].1 + 1 == batches[k].0)
  }

  lemma OneBatch(first: int, last: int, interval: int)
    requires 0 <= last - first <= interval
    ensures Partitions([(first, last)], first, last, interval)
  {
  }

  lemma OneMoreBatch(first: int, end: int, rest: seq<(int, int)>, last: int, interval: int)
    requires 0 <= interval && end == first + interval && Partitions(rest, end + 1, last, interval)
    ensures Partitions([(first, end)] + rest, first, last, interval)
  {
    var batches := [(first, end)] + rest;
    assert forall k :: 0 < k < |batches| ==> batches[k] == rest[k - 1];
  }

  lemma {:induction false} BatchesPartition(first: int, last: int, interval: int)
    requires 0 <= interval && first <= last
    ensures Partitions(Batches(first, last, interval), first, last, interval)
    decreases last - first
  {
    hide Partitions;
    var end := BatchEnd(first, last, interval);
    if end < last {
      BatchesPartition(end + 1, last, interval);
      OneMoreBatch(first, end, Batches(end + 1, last, interval), last, interval);
    } else {
      OneBatch(first, last, interval);
      NothingToAdd([(first, last)]);
      assert Batches(last + 1, last, interval) == [];
    }
  }

  /** Every block of the range is in exactly one batch. */
  lemma {:induction false} EveryBlockInOneBatch(batches: seq<(int, int)>, first: int, last: int, interval: int,
                                                block: int) returns (k: nat)
    requires Partitions(batches, first, last, interval)
    requires first <= block <= last
    ensures k < |batches| && batches[k].0 <= block <= batches[k].1
    ensures forall j :: 0 <= j < |batches| && batches[j].0 <= block <= batches[j].1 ==> j == k
    decreases |batches|
  {
    hide Partitions;
    StartsIncrease(batches, first, last, interval);
    if block <= batches[0].1 {
      k := 0;
    } else {
      var rest := batches[1..];
      OthersPartition(batches, first, last, interval);
      var at := EveryBlockInOneBatch(rest, batches[1].0, last, interval, block);
      k := at + 1;
      forall j | 0 <= j < |batches| && batches[j].0 <= block <= batches[j].1 ensures j == k {
        assert 0 < j && rest[j - 1] == batches[j];
      }
    }
  }

  lemma OthersPartition(batches: seq<(int, int)>, first: int, last: int, interval: int)
    requires Partitions(batches, first, last, interval) && batches[0].1 < last
    ensures |batches| > 1 && batches[1].0 == batches[0].1 + 1
    ensures Partitions(batches[1..], batches[1].0, last, interval)
  {
    var rest := batches[1..];
    assert |batches| > 1;
    assert forall j :: 0 < j < |rest| ==> rest[j] == batches[j + 1] && rest[j - 1] == batches[j];
  }

  lemma StartsIncrease(batches: seq<(int, int)>, first: int, last: int, interval: int)
    requires Partitions(batches, first, last, interval)
    ensures batches != [] && batches[0].0 == first
    ensures forall j :: 0 < j < |batches| ==> batches[0].1 < batches[j].0
  {
    var n := 1;
    while n < |batches|
      invariant 1 <= n <= |batches|
      invariant forall j :: 0 < j < n ==> batches[0].1 < batches[j].0
      invariant batches[0].1 <= batches[n - 1].1
    {
      assert batches[n - 1].1 + 1 == batches[n].0 <= batches[n].1;
      n := n + 1;
    }
  }
}
