/** The monitor of the total token supply, whose own persisted block keeps it from repeating an alert. */
module SupplyMonitor {
  import opened Arithmetic
  import opened Results
  import opened Sequences

  const TOTAL_SUPPLY_BLOCK_SPAN := 3600

  const TOTAL_SUPPLY_CHANGE_THRESHOLD := 10

  /** A high change of the supply between two blocks, in percent, rounded down. */
  datatype Alert = Alert(rise: bool, change: nat, threshold: nat, referenceBlock: int, currentBlock: int)

  datatype SupplyError = ReadFailed | DivisionByZero | UpdateFailed

  /** The block compared with: half a day before, or the block of the last alert when that is later. */
  function ReferenceBlock(last: int, toBlock: int): int {
    var usual := if toBlock - TOTAL_SUPPLY_BLOCK_SPAN > 0 then toBlock - TOTAL_SUPPLY_BLOCK_SPAN else 0;
    if last > usual then last else usual
  }

  /** Half the threshold when the compared window is shortened by the last alert. */
  function Threshold(last: int, toBlock: int): nat {
    if last > ReferenceBlock(0, toBlock) then TOTAL_SUPPLY_CHANGE_THRESHOLD / 2 else TOTAL_SUPPLY_CHANGE_THRESHOLD
  }

  function Abs(n: int): nat {
    if n < 0 then -n else n
  }

  /** The change is at least `threshold` percent of the reference supply. */
  predicate HighChange(reference: nat, current: nat, threshold: nat) {
    threshold * reference <= Abs(current - reference) * 100
  }

  lemma RoundedDownComparison(x: nat, reference: nat, threshold: nat)
    requires 0 < reference
    ensures threshold <= x / reference <==> threshold * reference <= x
  {
    DivisionBounds(x, reference);
    if threshold <= x / reference {
      MulLessEq(threshold, x / reference, reference);
    } else {
      MulLessEq(x / reference + 1, threshold, reference);
    }
  }

  /** The percentage that is compared, rounded down. */
  function Percentage(difference: int, reference: nat): nat
    requires 0 < reference
  {
    Abs(difference) * 100 / reference
  }

  /** The number of whole percents that the difference is of the reference. */
  predicate WholePercents(change: nat, difference: int, reference: nat) {
    change * reference <= Abs(difference) * 100 < (change + 1) * reference
  }

  lemma PercentageMeans(reference: nat, current: nat, threshold: nat)
    requires 0 < reference
    ensures threshold <= Percentage(current - reference, reference) <==> HighChange(reference, current, threshold)
    ensures WholePercents(Percentage(current - reference, reference), current - reference, reference)
  {
    RoundedDownComparison(Abs(current - reference) * 100, reference, threshold);
    DivisionBounds(Abs(current - reference) * 100, reference);
  }

  type Supply = int -> nat

  predicate Raises(last: int, toBlock: int, supply: Supply) {
    HighChange(supply(ReferenceBlock(last, toBlock)), supply(toBlock), Threshold(last, toBlock))
  }

  /** What one check meets: the block, the supplies on the chain, and the calls that fail. */
  datatype SupplyCheck =
    | NoCheck
    | SupplyCheck(toBlock: int, supply: Supply, readSucceeds: bool, updateSucceeds: bool)

  function AlertAt(last: int, toBlock: int, supply: Supply): Alert
    requires 0 < supply(ReferenceBlock(last, toBlock))
  {
    var reference := ReferenceBlock(last, toBlock);
    Alert(supply(reference) <= supply(toBlock), Percentage(supply(toBlock) - supply(reference), supply(reference)),
          Threshold(last, toBlock), reference, toBlock)
  }

  /** One check: the persisted block after it, and the alerts or the error. */
  function Step(last: int, c: SupplyCheck): (int, Result<seq<Alert>, SupplyError>) {
    if c.NoCheck? then (last, Ok([]))
    else if !c.readSucceeds then (last, Err(ReadFailed))
    else if c.supply(ReferenceBlock(last, c.toBlock)) == 0 then (last, Err(DivisionByZero))
    else if !Raises(last, c.toBlock, c.supply) then (last, Ok([]))
    else if !c.updateSucceeds then (last, Err(UpdateFailed))
    else (c.toBlock, Ok([AlertAt(last, c.toBlock, c.supply)]))
  }

  /** An alert about the change of the supply from `a` to `b`, in whole percents rounded down. */
  predicate IsAlert(alert: Alert, rise: bool, a: nat, b: nat, threshold: nat, referenceBlock: int, currentBlock: int) {
    && alert == Alert(rise, alert.change, threshold, referenceBlock, currentBlock)
    && alert.change * a <= 100 * (if rise then b - a else a - b) < (alert.change + 1) * a
  }

  /**
   One check in numbers. The block compared with is 3600 blocks back, or that of the last alert if this is later;
   then 5 percent are enough, else 10. An alert is only returned when its block was persisted.
   */
  predicate ReportsInNumbers(last: int, c: SupplyCheck, now: int, r: Result<seq<Alert>, SupplyError>)
    requires c.SupplyCheck?
  {
    var usual := if c.toBlock > 3600 then c.toBlock - 3600 else 0;
    var (block, threshold) := if last > usual then (last, 5) else (usual, 10);
    var a, b := c.supply(block), c.supply(c.toBlock);
    var rises, falls := (100 + threshold) * a <= 100 * b, 100 * b <= (100 - threshold) * a;
    if !c.readSucceeds then now == last && r == Err(ReadFailed)
    else if a == 0 then now == last && r == Err(DivisionByZero)
    else if !rises && !falls then now == last && r == Ok([])
    else if !c.updateSucceeds then now == last && r == Err(UpdateFailed)
    else now == c.toBlock && r.Ok? && |r.value| == 1 && IsAlert(r.value[0], rises, a, b, threshold, block, c.toBlock)
  }

  /** The change is high when the supply leaves the band of `threshold` percent around the reference. */
  lemma HighInNumbers(reference: nat, current: nat, threshold: nat)
    requires threshold == 5 || threshold == 10
    ensures HighChange(reference, current, threshold) <==>
              (100 + threshold) * reference <= 100 * current || 100 * current <= (100 - threshold) * reference
  {
  }

  lemma StepInNumbers(last: int, c: SupplyCheck)
    requires c.SupplyCheck?
    ensures ReportsInNumbers(last, c, Step(last, c).0, Step(last, c).1)
  {
    hide HighChange, Percentage;
    var block, threshold := ReferenceBlock(last, c.toBlock), Threshold(last, c.toBlock);
    var a, b := c.supply(block), c.supply(c.toBlock);
    HighInNumbers(a, b, threshold);
    if 0 < a {
      PercentageMeans(a, b, threshold);
    }
  }

  class Monitor {
    var lastHighTotalSupplyChangeBlock: int

    constructor ()
      ensures lastHighTotalSupplyChangeBlock == 0
    {
      lastHighTotalSupplyChangeBlock := 0;
    }

    /**
     The check compares a percentage that is rounded down; that is comparing the exact change, and an alert is
     returned exactly when that is high and its block could be persisted.
     */
    method Check(toBlock: int, supply: Supply, readSucceeds: bool, updateSucceeds: bool)
      returns (r: Result<seq<Alert>, SupplyError>)
      modifies this
      ensures var last := old(lastHighTotalSupplyChangeBlock);
              (lastHighTotalSupplyChangeBlock, r)
              == Step(last, SupplyCheck(toBlock, supply, readSucceeds, updateSucceeds))
      ensures ReportsInNumbers(old(lastHighTotalSupplyChangeBlock),
                               SupplyCheck(toBlock, supply, readSucceeds, updateSucceeds),
                               lastHighTotalSupplyChangeBlock, r)
    {
      hide HighChange, Percentage, WholePercents, ReportsInNumbers;
      StepInNumbers(lastHighTotalSupplyChangeBlock, SupplyCheck(toBlock, supply, readSucceeds, updateSucceeds));
      if !readSucceeds {
        return Err(ReadFailed);
      }
      var currentBlock := toBlock;
      var referenceBlock :=
        if currentBlock - TOTAL_SUPPLY_BLOCK_SPAN > 0 then currentBlock - TOTAL_SUPPLY_BLOCK_SPAN else 0;
      var threshold := TOTAL_SUPPLY_CHANGE_THRESHOLD;
      var lastEventBlock := lastHighTotalSupplyChangeBlock;
      if lastEventBlock > referenceBlock {
        referenceBlock := lastEventBlock;
        threshold := TOTAL_SUPPLY_CHANGE_THRESHOLD / 2;
      }
      var referenceSupply: nat, currentSupply: nat := supply(referenceBlock), supply(currentBlock);
      if referenceSupply == 0 {
        return Err(DivisionByZero);
      }
      var difference := currentSupply - referenceSupply;
      var change := Percentage(difference, referenceSupply);
      PercentageMeans(referenceSupply, currentSupply, threshold);
      var systemEvents: seq<Alert> := [];
      if change >= threshold {
        systemEvents := systemEvents + [Alert(difference >= 0, change, threshold, referenceBlock, currentBlock)];
        assert systemEvents == [AlertAt(lastEventBlock, toBlock, supply)];
        if !updateSucceeds {
          return Err(UpdateFailed);
        }
        lastHighTotalSupplyChangeBlock := currentBlock;
      }
      return Ok(systemEvents);
    }
  }

  /** A fall from 100 to 50 is reported; from then on, a fall to 48 is not enough and one to 47 is. */
  lemma FallsAreReported(supply: Supply)
    requires supply(1400) == 100 && supply(5000) == 50 && supply(5100) == 48 && supply(5200) == 47
    ensures Step(0, SupplyCheck(5000, supply, true, true)) == (5000, Ok([Alert(false, 50, 10, 1400, 5000)]))
    ensures Step(5000, SupplyCheck(5100, supply, true, true)) == (5000, Ok([]))
    ensures Step(5000, SupplyCheck(5200, supply, true, true)) == (5200, Ok([Alert(false, 6, 5, 5000, 5200)]))
  {
  }

  // -------------------------------------------------------------------------------------------
  // Alerts over any sequence of checks

  /** The persisted block and the alerts raised after the first `n` checks. */
  function After(last: int, checks: seq<SupplyCheck>, n: nat): (int, seq<Alert>)
    requires n <= |checks|
  {
    if n == 0 then (last, [])
    else
      var (l, alerts) := After(last, checks, n - 1);
      var (next, raised) := Step(l, checks[n - 1]);
      (next, if raised.Ok? then alerts + raised.value else alerts)
  }

  /** The checked blocks do not go back. */
  predicate Forward(last: int, checks: seq<SupplyCheck>) {
    && 0 <= last
    && (forall i :: 0 <= i < |checks| && checks[i].SupplyCheck? ==> last <= checks[i].toBlock)
    && (forall i, j :: 0 <= i < j < |checks| && checks[i].SupplyCheck? && checks[j].SupplyCheck?
                       ==> checks[i].toBlock <= checks[j].toBlock)
  }

  predicate PositiveSupply(checks: seq<SupplyCheck>) {
    forall i :: 0 <= i < |checks| && checks[i].SupplyCheck? ==> 0 < checks[i].supply(checks[i].toBlock)
  }

  /** A check that compares a block with itself, as one at the block of the last alert does, raises nothing. */
  lemma NoAlertAgainstItself(last: int, toBlock: int, supply: Supply)
    requires ReferenceBlock(last, toBlock) == toBlock && 0 < supply(toBlock)
    ensures !Raises(last, toBlock, supply)
  {
    MulLess(0, Threshold(last, toBlock), supply(toBlock));
  }

  /** Windows of alerts follow one another without overlap, each at most half a day long. */
  predicate Disjoint(alerts: seq<Alert>) {
    && (forall i :: 0 <= i < |alerts|
                    ==> 0 < alerts[i].currentBlock - alerts[i].referenceBlock <= TOTAL_SUPPLY_BLOCK_SPAN)
    && (forall i, j :: 0 <= i < j < |alerts| ==> alerts[i].currentBlock <= alerts[j].referenceBlock)
  }

  /** What one check does from a persisted block not above it. */
  lemma StepMoves(last: int, c: SupplyCheck)
    requires c.SupplyCheck? ==> 0 <= last <= c.toBlock && 0 < c.supply(c.toBlock)
    ensures var (next, raised) := Step(last, c);
            if raised.Ok? && raised.value != [] then
              && c.SupplyCheck? && |raised.value| == 1 && next == c.toBlock == raised.value[0].currentBlock
              && last <= raised.value[0].referenceBlock < c.toBlock
              && c.toBlock - raised.value[0].referenceBlock <= TOTAL_SUPPLY_BLOCK_SPAN
            else next == last
  {
    if c.SupplyCheck? && ReferenceBlock(last, c.toBlock) == c.toBlock {
      NoAlertAgainstItself(last, c.toBlock, c.supply);
    }
  }

  /** The alerts raised from the persisted block `last` on, up to the persisted block `now`. */
  predicate Trail(last: int, now: int, alerts: seq<Alert>) {
    && Disjoint(alerts)
    && 0 <= last <= now
    && (forall i :: 0 <= i < |alerts| ==> last <= alerts[i].referenceBlock && alerts[i].currentBlock <= now)
    && (if alerts == [] then now == last else now == alerts[|alerts| - 1].currentBlock)
  }

  lemma TrailNext(last: int, now: int, alerts: seq<Alert>, a: Alert)
    requires Trail(last, now, alerts)
    requires now <= a.referenceBlock < a.currentBlock <= a.referenceBlock + TOTAL_SUPPLY_BLOCK_SPAN
    ensures Trail(last, a.currentBlock, alerts + [a])
  {
  }

  /**
   For checks whose blocks do not go back, whatever fails and however the chain is reorganized in between: the
   alert windows are disjoint, so the alert blocks strictly increase and no change is reported twice, and the
   persisted block is the last of them.
   */
  lemma {:induction false} AlertsAreDisjoint(last: int, checks: seq<SupplyCheck>, n: nat)
    requires n <= |checks| && Forward(last, checks) && PositiveSupply(checks)
    ensures var (now, alerts) := After(last, checks, n);
            && Trail(last, now, alerts)
            && 0 <= now
            && forall i :: n <= i < |checks| && checks[i].SupplyCheck? ==> now <= checks[i].toBlock
  {
    hide Step, Trail;
    if n == 0 {
      assert Trail(last, last, []) by {
        NoAlertYet(last);
      }
    } else {
      AlertsAreDisjoint(last, checks, n - 1);
      var (now, alerts) := After(last, checks, n - 1);
      StepMoves(now, checks[n - 1]);
      var raised := Step(now, checks[n - 1]).1;
      if raised.Ok? {
        if raised.value == [] {
          NothingToAdd(alerts);
        } else {
          TrailNext(last, now, alerts, raised.value[0]);
          assert raised.value == [raised.value[0]];
        }
      }
    }
  }

  lemma NoAlertYet(last: int)
    requires 0 <= last
    ensures Trail(last, last, [])
  {
  }

  /** The persisted block never goes back. */
  lemma {:induction false} LastAlertGrows(last: int, checks: seq<SupplyCheck>, m: nat, n: nat)
    requires m <= n <= |checks| && Forward(last, checks) && PositiveSupply(checks)
    ensures After(last, checks, m).0 <= After(last, checks, n).0
    decreases n
  {
    hide Step;
    if m < n {
      LastAlertGrows(last, checks, m, n - 1);
      AlertsAreDisjoint(last, checks, n - 1);
      StepMoves(After(last, checks, n - 1).0, checks[n - 1]);
    }
  }

  /** What check number `i` returns. */
  function RaisedIn(last: int, checks: seq<SupplyCheck>, i: nat): Result<seq<Alert>, SupplyError>
    requires i < |checks|
  {
    Step(After(last, checks, i).0, checks[i]).1
  }

  lemma RaisedByCheck(last: int, checks: seq<SupplyCheck>, i: nat, a: Alert)
    requires i < |checks| && RaisedIn(last, checks, i) == Ok([a])
    ensures checks[i].SupplyCheck?
  {
  }

  /** An alert is raised by one check only. */
  lemma RaisedOnce(last: int, checks: seq<SupplyCheck>, i: nat, j: nat, a: Alert, b: Alert)
    requires i < j < |checks| && Forward(last, checks) && PositiveSupply(checks)
    requires RaisedIn(last, checks, i) == Ok([a]) && RaisedIn(last, checks, j) == Ok([b])
    ensures a.currentBlock < b.currentBlock
  {
    hide Step;
    AlertsAreDisjoint(last, checks, i);
    StepMoves(After(last, checks, i).0, checks[i]);
    LastAlertGrows(last, checks, i + 1, j);
    AlertsAreDisjoint(last, checks, j);
    StepMoves(After(last, checks, j).0, checks[j]);
  }
}
