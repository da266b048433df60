/** `validateBitcoinHeadersChain`: a walk over the headers against what an accepted chain is. */
module HeaderChain {
  import opened Arithmetic
  import opened HexBytes
  import opened Hashing
  import opened Header
  import opened Results
  import opened Target

  datatype ChainError =
    | BrokenLink(index: nat)
    | BadTarget(reason: TargetError)
    | InsufficientWork
    | UnknownDifficulty
    | NotCurrentDifficulty

  function HeaderHash(sha: Sha256, h: BitcoinHeader): Hash32 {
    Hash256(sha, Encode(h))
  }

  function Difficulty(h: BitcoinHeader): Result<nat, TargetError> {
    var target :- BitsToTarget(h.bits);
    TargetToDifficulty(target)
  }

  predicate IsAt(h: BitcoinHeader, difficulty: int) {
    Difficulty(h).Ok? && Difficulty(h).value == difficulty
  }

  /** The target is well formed and not zero, and the hash read as a little-endian number is at most the target. */
  predicate HasWork(sha: Sha256, h: BitcoinHeader) {
    var target := BitsToTarget(h.bits);
    target.Ok? && 0 < target.value && ToNatLE(HeaderHash(sha, h)) <= target.value
  }

  predicate LinksTo(sha: Sha256, first: BitcoinHeader, second: BitcoinHeader) {
    second.previousBlockHeaderHash == HeaderHash(sha, first)
  }

  /** Both difficulties 1: the test network, where difficulties are not checked. */
  predicate Testnet(previous: int, current: int) {
    previous == 1 && current == 1
  }

  predicate DifficultiesAllowed(headers: seq<BitcoinHeader>, previous: int, current: int) {
    && (forall i :: 0 <= i < |headers| ==> IsAt(headers[i], previous) || IsAt(headers[i], current))
    && (forall i :: 0 < i < |headers| && IsAt(headers[i - 1], current) ==> IsAt(headers[i], current))
  }

  predicate Accepted(sha: Sha256, headers: seq<BitcoinHeader>, previous: int, current: int) {
    && (forall i :: 0 <= i < |headers| ==> HasWork(sha, headers[i]))
    && (forall i :: 0 < i < |headers| ==> LinksTo(sha, headers[i - 1], headers[i]))
    && (Testnet(previous, current) || DifficultiesAllowed(headers, previous, current))
  }

  /** The error for header `i` when all headers before it are good. */
  function Fault(sha: Sha256, headers: seq<BitcoinHeader>, previous: int, current: int, i: nat): Option<ChainError>
    requires i < |headers|
  {
    var h := headers[i];
    if 0 < i && !LinksTo(sha, headers[i - 1], h) then Some(BrokenLink(i))
    else if BitsToTarget(h.bits).Err? then Some(BadTarget(NegativeExponent))
    else if ToNatLE(HeaderHash(sha, h)) > BitsToTarget(h.bits).value then Some(InsufficientWork)
    else if BitsToTarget(h.bits).value == 0 then Some(BadTarget(ZeroTarget))
    else if Testnet(previous, current) then None
    else if !IsAt(h, previous) && !IsAt(h, current) then Some(UnknownDifficulty)
    else if 0 < i && IsAt(headers[i - 1], current) && !IsAt(h, current) then Some(NotCurrentDifficulty)
    else None
  }

  /** The error is that of a header before which everything is accepted. */
  ghost predicate FirstFault(sha: Sha256, headers: seq<BitcoinHeader>, previous: int, current: int, e: ChainError) {
    exists i :: 0 <= i < |headers|
                && Accepted(sha, headers[..i], previous, current)
                && Fault(sha, headers, previous, current, i) == Some(e)
  }

  /** One more header: a chain of one joins the chain before it exactly when it has no fault. */
  lemma AcceptedStep(sha: Sha256, headers: seq<BitcoinHeader>, previous: int, current: int, i: nat)
    requires i < |headers|
    requires Accepted(sha, headers[..i], previous, current)
    ensures Accepted(sha, headers[..i + 1], previous, current) <==> Fault(sha, headers, previous, current, i).None?
  {
    hide IsAt, LinksTo, HeaderHash, BitsToTarget, ToNatLE;
    var before, one := headers[..i], [headers[i]];
    assert headers[..i + 1] == before + one;
    ConcatenationLaw(sha, before, one, previous, current);
    assert Accepted(sha, one, previous, current) <==>
      HasWork(sha, one[0]) && (Testnet(previous, current) || IsAt(one[0], previous) || IsAt(one[0], current));
    assert 0 < i ==> before[|before| - 1] == headers[i - 1];
    assert (forall j :: 0 <= j < |one| ==> IsAt(one[j], current)) <==> IsAt(one[0], current);
  }

  lemma NothingIsAccepted(sha: Sha256, previous: int, current: int)
    ensures Accepted(sha, [], previous, current)
  {
  }

  /** Accepts exactly the accepted chains; the error is that of the first header that spoils the chain. */
  method ValidateBitcoinHeadersChain(sha: Sha256, headers: seq<BitcoinHeader>, previousEpochDifficulty: int,
                                     currentEpochDifficulty: int)
    returns (r: Result<(), ChainError>)
    ensures r.Ok? <==> Accepted(sha, headers, previousEpochDifficulty, currentEpochDifficulty)
    ensures r.Err? ==> FirstFault(sha, headers, previousEpochDifficulty, currentEpochDifficulty, r.error)
  {
    hide Accepted, Encode, ToNatLE;
    NothingIsAccepted(sha, previousEpochDifficulty, currentEpochDifficulty);
    var requireCurrentDifficulty := false;
    var previousBlockHeaderHash: Hex := [0];
    for index := 0 to |headers|
      invariant Accepted(sha, headers[..index], previousEpochDifficulty, currentEpochDifficulty)
      invariant 0 < index ==> previousBlockHeaderHash == HeaderHash(sha, headers[index - 1])
      invariant requireCurrentDifficulty <==> (
          && 0 < index
          && !Testnet(previousEpochDifficulty, currentEpochDifficulty)
          && IsAt(headers[index - 1], currentEpochDifficulty))
    {
      AcceptedStep(sha, headers, previousEpochDifficulty, currentEpochDifficulty, index);
      PrefixAccepted(sha, headers, previousEpochDifficulty, currentEpochDifficulty, index + 1);
      var currentHeader := headers[index];
      if index != 0 {
        if previousBlockHeaderHash != currentHeader.previousBlockHeaderHash {
          return Err(BrokenLink(index));
        }
      }
      var difficultyTarget := BitsToTarget(currentHeader.bits);
      if difficultyTarget.Err? {
        return Err(BadTarget(difficultyTarget.error));
      }
      var raw := SerializeHeader(currentHeader);
      var currentBlockHeaderHash := Hash256(sha, raw);
      if ToNatLE(currentBlockHeaderHash) > difficultyTarget.value {
        return Err(InsufficientWork);
      }
      previousBlockHeaderHash := currentBlockHeaderHash;
      var difficulty := TargetToDifficulty(difficultyTarget.value);
      if difficulty.Err? {
        return Err(BadTarget(difficulty.error));
      }
      if previousEpochDifficulty == 1 && currentEpochDifficulty == 1 {
        continue;
      }
      if difficulty.value != previousEpochDifficulty && difficulty.value != currentEpochDifficulty {
        return Err(UnknownDifficulty);
      }
      if requireCurrentDifficulty && difficulty.value != currentEpochDifficulty {
        return Err(NotCurrentDifficulty);
      }
      requireCurrentDifficulty := difficulty.value == currentEpochDifficulty;
    }
    assert headers[..|headers|] == headers;
    return Ok(());
  }

  // -------------------------------------------------------------------------------------------
  // What acceptance means

  /** Headers before position `k` are at the previous difficulty only, and from `k` on at the current one. */
  predicate SwitchesAt(headers: seq<BitcoinHeader>, previous: int, current: int, k: nat) {
    && k <= |headers|
    && (forall i :: 0 <= i < k ==> IsAt(headers[i], previous) && !IsAt(headers[i], current))
    && (forall i :: k <= i < |headers| ==> IsAt(headers[i], current))
  }

  function FirstCurrent(headers: seq<BitcoinHeader>, current: int): (k: nat)
    ensures k <= |headers|
    ensures forall i :: 0 <= i < k ==> !IsAt(headers[i], current)
    ensures k < |headers| ==> IsAt(headers[k], current)
  {
    if headers == [] || IsAt(headers[0], current) then 0 else 1 + FirstCurrent(headers[1..], current)
  }

  lemma {:induction false} StaysCurrent(headers: seq<BitcoinHeader>, previous: int, current: int, k: nat, i: nat)
    requires DifficultiesAllowed(headers, previous, current)
    requires k <= i < |headers| && IsAt(headers[k], current)
    ensures IsAt(headers[i], current)
  {
    if k < i {
      StaysCurrent(headers, previous, current, k, i - 1);
      assert IsAt(headers[i - 1], current);
    }
  }

  /** Outside the test network there is at most one switch, from the previous difficulty to the current one. */
  lemma AtMostOneSwitch(headers: seq<BitcoinHeader>, previous: int, current: int)
    ensures DifficultiesAllowed(headers, previous, current) <==> exists k :: SwitchesAt(headers, previous, current, k)
  {
    if DifficultiesAllowed(headers, previous, current) {
      var k := FirstCurrent(headers, current);
      forall i | k <= i < |headers| ensures IsAt(headers[i], current) {
        StaysCurrent(headers, previous, current, k, i);
      }
      assert SwitchesAt(headers, previous, current, k);
    }
  }

  /** Every contiguous part of an accepted chain is accepted. */
  lemma SubChainAccepted(sha: Sha256, headers: seq<BitcoinHeader>, previous: int, current: int, lo: nat, hi: nat)
    requires lo <= hi <= |headers|
    requires Accepted(sha, headers, previous, current)
    ensures Accepted(sha, headers[lo..hi], previous, current)
  {
    hide IsAt, LinksTo, HasWork;
    var part := headers[lo..hi];
    assert forall j :: 0 <= j < |part| ==> part[j] == headers[lo + j];
    forall j | 0 < j < |part| ensures LinksTo(sha, part[j - 1], part[j]) {
      assert LinksTo(sha, headers[lo + j - 1], headers[lo + j]);
    }
    if !Testnet(previous, current) {
      forall j | 0 < j < |part| && IsAt(part[j - 1], current) ensures IsAt(part[j], current) {
        assert IsAt(headers[lo + j - 1], current);
      }
    }
  }

  lemma PrefixAccepted(sha: Sha256, headers: seq<BitcoinHeader>, previous: int, current: int, i: nat)
    requires i <= |headers|
    ensures Accepted(sha, headers, previous, current) ==> Accepted(sha, headers[..i], previous, current)
  {
    if Accepted(sha, headers, previous, current) {
      SubChainAccepted(sha, headers, previous, current, 0, i);
      assert headers[0..i] == headers[..i];
    }
  }

  /** What must hold between two accepted chains for their concatenation to be accepted. */
  predicate Joins(sha: Sha256, a: seq<BitcoinHeader>, b: seq<BitcoinHeader>, previous: int, current: int) {
    a != [] && b != [] ==>
      && LinksTo(sha, a[|a| - 1], b[0])
      && (!Testnet(previous, current) && IsAt(a[|a| - 1], current) ==> forall i :: 0 <= i < |b| ==> IsAt(b[i], current))
  }

  lemma JoinedAccepted(sha: Sha256, a: seq<BitcoinHeader>, b: seq<BitcoinHeader>, previous: int, current: int)
    requires Accepted(sha, a, previous, current) && Accepted(sha, b, previous, current)
    requires Joins(sha, a, b, previous, current)
    ensures Accepted(sha, a + b, previous, current)
  {
    hide IsAt, LinksTo, HasWork;
    var all := a + b;
    forall i | 0 < i < |all| ensures LinksTo(sha, all[i - 1], all[i]) {
      if i < |a| {
        assert LinksTo(sha, a[i - 1], a[i]);
      } else if i > |a| {
        assert LinksTo(sha, b[i - |a| - 1], b[i - |a|]);
      }
    }
    if !Testnet(previous, current) {
      forall i | 0 < i < |all| && IsAt(all[i - 1], current) ensures IsAt(all[i], current) {
        if i < |a| {
          assert IsAt(a[i - 1], current);
        } else if i > |a| {
          assert IsAt(b[i - |a| - 1], current);
        }
      }
    }
  }

  lemma AcceptedSplits(sha: Sha256, a: seq<BitcoinHeader>, b: seq<BitcoinHeader>, previous: int, current: int)
    requires Accepted(sha, a + b, previous, current)
    ensures Accepted(sha, a, previous, current) && Accepted(sha, b, previous, current)
    ensures Joins(sha, a, b, previous, current)
  {
    hide IsAt, LinksTo, HasWork;
    var all := a + b;
    SubChainAccepted(sha, all, previous, current, 0, |a|);
    SubChainAccepted(sha, all, previous, current, |a|, |all|);
    assert all[0..|a|] == a && all[|a|..|all|] == b;
    if a != [] && b != [] {
      assert LinksTo(sha, all[|a| - 1], all[|a|]);
      if !Testnet(previous, current) && IsAt(a[|a| - 1], current) {
        forall i | 0 <= i < |b| ensures IsAt(b[i], current) {
          StaysCurrent(all, previous, current, |a| - 1, |a| + i);
        }
      }
    }
  }

  /** Checking two chains one after the other is checking their concatenation. */
  lemma ConcatenationLaw(sha: Sha256, a: seq<BitcoinHeader>, b: seq<BitcoinHeader>, previous: int, current: int)
    ensures Accepted(sha, a + b, previous, current)
            <==> Accepted(sha, a, previous, current) && Accepted(sha, b, previous, current)
                 && Joins(sha, a, b, previous, current)
  {
    if Accepted(sha, a + b, previous, current) {
      AcceptedSplits(sha, a, b, previous, current);
    } else if Accepted(sha, a, previous, current) && Accepted(sha, b, previous, current) {
      if Joins(sha, a, b, previous, current) {
        JoinedAccepted(sha, a, b, previous, current);
      }
    }
  }

  /** Each header of an accepted chain carries the work that its difficulty names. */
  lemma AcceptedWork(sha: Sha256, headers: seq<BitcoinHeader>, previous: int, current: int, i: nat)
    requires Accepted(sha, headers, previous, current) && i < |headers|
    ensures Difficulty(headers[i]).Ok?
    ensures ToNatLE(HeaderHash(sha, headers[i])) * Difficulty(headers[i]).value <= DIFF1_TARGET
    ensures !(previous == 1 && current == 1) ==> Difficulty(headers[i]).value in {previous, current}
  {
    assert HasWork(sha, headers[i]);
    WorkBound(ToNatLE(HeaderHash(sha, headers[i])), BitsToTarget(headers[i].bits).value);
    assert !Testnet(previous, current) ==> IsAt(headers[i], previous) || IsAt(headers[i], current);
  }

  // -------------------------------------------------------------------------------------------
  // The same in numbers

  /** The target that the bits stand for; 0 when raising to a negative power would throw. */
  function TargetNumber(bits: U32): nat {
    if bits < 0x300_0000 then 0 else bits % 0x100_0000 * Pow256(bits / 0x100_0000 - 3)
  }

  function DifficultyNumber(target: nat): nat
    requires 0 < target
  {
    0xffff * Pow256(26) / target
  }

  lemma DifficultyInNumbers(h: BitcoinHeader, d: int)
    ensures BitsToTarget(h.bits).Ok? <==> 0x300_0000 <= h.bits
    ensures BitsToTarget(h.bits).Ok? ==> BitsToTarget(h.bits).value == TargetNumber(h.bits)
    ensures Difficulty(h).Ok? <==> 0 < TargetNumber(h.bits)
    ensures IsAt(h, d) <==> 0 < TargetNumber(h.bits) && DifficultyNumber(TargetNumber(h.bits)) == d
  {
    hide Pow256;
    Difficulty1();
  }

  /** Header `i` of an accepted chain, written with hashes and numbers. */
  predicate GoodHeader(sha: Sha256, headers: seq<BitcoinHeader>, previous: int, current: int, i: nat)
    requires i < |headers|
  {
    var target := TargetNumber(headers[i].bits);
    var before := if i == 0 then 0 else TargetNumber(headers[i - 1].bits);
    && (0 < i ==> headers[i].previousBlockHeaderHash == sha(sha(Encode(headers[i - 1]))))
    && 0 < target
    && ToNatLE(sha(sha(Encode(headers[i])))) <= target
    && (!(previous == 1 && current == 1) ==>
          && (DifficultyNumber(target) == previous || DifficultyNumber(target) == current)
          && (0 < before && DifficultyNumber(before) == current ==> DifficultyNumber(target) == current))
  }

  /** A good header is one of an accepted chain. */
  predicate Fits(sha: Sha256, headers: seq<BitcoinHeader>, previous: int, current: int, i: nat)
    requires i < |headers|
  {
    && HasWork(sha, headers[i])
    && (0 < i ==> LinksTo(sha, headers[i - 1], headers[i]))
    && (Testnet(previous, current) ||
        (&& (IsAt(headers[i], previous) || IsAt(headers[i], current))
         && (0 < i && IsAt(headers[i - 1], current) ==> IsAt(headers[i], current))))
  }

  lemma GoodHeaderFits(sha: Sha256, headers: seq<BitcoinHeader>, previous: int, current: int, i: nat)
    requires i < |headers|
    ensures GoodHeader(sha, headers, previous, current, i) <==> Fits(sha, headers, previous, current, i)
  {
    hide IsAt, Encode, ToNatLE, BitsToTarget, TargetNumber, DifficultyNumber;
    DifficultyInNumbers(headers[i], previous);
    DifficultyInNumbers(headers[i], current);
    SmallBits(headers[i].bits);
    if 0 < i {
      DifficultyInNumbers(headers[i - 1], current);
    }
  }

  /** What is accepted, without the notions of the validation. */
  lemma AcceptedInNumbers(sha: Sha256, headers: seq<BitcoinHeader>, previous: int, current: int)
    ensures Accepted(sha, headers, previous, current)
            <==> forall i :: 0 <= i < |headers| ==> GoodHeader(sha, headers, previous, current, i)
  {
    hide IsAt, HasWork, LinksTo, GoodHeader, Testnet;
    forall i | 0 <= i < |headers|
      ensures GoodHeader(sha, headers, previous, current, i) <==> Fits(sha, headers, previous, current, i)
    {
      GoodHeaderFits(sha, headers, previous, current, i);
    }
    if forall i :: 0 <= i < |headers| ==> Fits(sha, headers, previous, current, i) {
      forall i | 0 <= i < |headers|
        ensures HasWork(sha, headers[i]) && (0 < i ==> LinksTo(sha, headers[i - 1], headers[i]))
        ensures Testnet(previous, current) || IsAt(headers[i], previous) || IsAt(headers[i], current)
        ensures !Testnet(previous, current) && 0 < i && IsAt(headers[i - 1], current) ==> IsAt(headers[i], current)
      {
        assert Fits(sha, headers, previous, current, i);
      }
      assert Accepted(sha, headers, previous, current);
    } else {
      var i :| 0 <= i < |headers| && !Fits(sha, headers, previous, current, i);
      assert !GoodHeader(sha, headers, previous, current, i);
    }
  }

  lemma SmallBits(bits: U32)
    ensures bits < 0x300_0000 ==> TargetNumber(bits) == 0
  {
  }

  /** Which error header `i` causes when all headers before it are good, written with hashes and numbers. */
  lemma FaultInNumbers(sha: Sha256, headers: seq<BitcoinHeader>, previous: int, current: int, i: nat)
    requires i < |headers|
    ensures var h, fault := headers[i], Fault(sha, headers, previous, current, i);
            var linked := 0 < i ==> h.previousBlockHeaderHash == sha(sha(Encode(headers[i - 1])));
            var hash, target := ToNatLE(sha(sha(Encode(h)))), TargetNumber(h.bits);
            && (!linked ==> fault == Some(BrokenLink(i)))
            && (linked && h.bits < 0x300_0000 ==> fault == Some(BadTarget(NegativeExponent)))
            && (linked && 0x300_0000 <= h.bits && target < hash ==> fault == Some(InsufficientWork))
            && (linked && 0x300_0000 <= h.bits && target == hash == 0 ==> fault == Some(BadTarget(ZeroTarget)))
            && (linked && hash <= target && 0 < target && !GoodHeader(sha, headers, previous, current, i)
                ==> fault == Some(if DifficultyNumber(target) in {previous, current} then NotCurrentDifficulty
                                  else UnknownDifficulty))
            && (GoodHeader(sha, headers, previous, current, i) ==> fault == None)
  {
    hide IsAt, Encode, ToNatLE, BitsToTarget, TargetNumber, DifficultyNumber;
    DifficultyInNumbers(headers[i], previous);
    DifficultyInNumbers(headers[i], current);
    SmallBits(headers[i].bits);
    NegativeExponentOnly(headers[i].bits);
    if 0 < i {
      DifficultyInNumbers(headers[i - 1], current);
    }
  }

  lemma NegativeExponentOnly(bits: U32)
    ensures BitsToTarget(bits).Err? ==> BitsToTarget(bits).error == NegativeExponent
  {
  }

  /** The hash of an accepted header, in the order of its bytes, ends in zeros: as many as its bits leave out. */
  lemma AcceptedHashEndsInZeros(sha: Sha256, headers: seq<BitcoinHeader>, previous: int, current: int, i: nat, k: nat)
    requires Accepted(sha, headers, previous, current) && i < |headers|
    requires headers[i].bits / 0x100_0000 <= k < 32
    ensures sha(sha(Encode(headers[i])))[k] == 0
  {
    hide Encode, ToNatLE;
    var bits := headers[i].bits;
    var e := bits / 0x100_0000;
    assert HasWork(sha, headers[i]);
    DifficultyInNumbers(headers[i], current);
    Pow256Sum(3, e - 3);
    assert Pow256(3) == 0x100_0000;
    MulLess(bits % 0x100_0000, 0x100_0000, Pow256(e - 3));
    HighBytesZero(HeaderHash(sha, headers[i]), e);
  }

  lemma TargetOne(bits: U32)
    requires bits == 0x0300_0001
    ensures BitsToTarget(bits) == Ok(1)
  {
    assert Exponent(0x0300_0001) == 0 && Mantissa(0x0300_0001) == 1 && Pow256(0) == 1;
  }

  const ZEROS_31: Hex := seq(31, _ => 0)

  const ONE_FIRST: Sha256 := text => [1] + ZEROS_31

  const ONE_LAST: Sha256 := text => ZEROS_31 + [1]

  lemma OneInBothOrders()
    ensures ToNatLE([1] + ZEROS_31) == 1 < ToNatLE(ZEROS_31 + [1])
  {
    hide ToNatLE;
    HighBytesZero(ZEROS_31, 0);
    assert ([1] + ZEROS_31)[1..] == ZEROS_31;
    ToNatLEStep([1] + ZEROS_31);
    ToNatLEAppend(ZEROS_31, 1);
    Pow256Step(0, 31);
  }

  /**
   A header with target 1 is accepted when its hash is 1 followed by 31 zeros, and lacks work when its hash is
   31 zeros followed by 1.
   */
  lemma HashIsLittleEndian(h: BitcoinHeader)
    requires h.bits == 0x0300_0001
    ensures Accepted(ONE_FIRST, [h], 1, 1)
    ensures !Accepted(ONE_LAST, [h], 1, 1) && Fault(ONE_LAST, [h], 1, 1, 0) == Some(InsufficientWork)
  {
    hide Encode, ToNatLE, BitsToTarget;
    OneInBothOrders();
    TargetOne(h.bits);
    assert HasWork(ONE_FIRST, h) && !HasWork(ONE_LAST, [h][0]);
  }
}
