/** Raw transactions, and the four vectors that the transaction hash covers (BIP 141, section "Transaction ID"). */
module Transaction {
  import opened Arithmetic
  import opened HexBytes
  import opened Hashing
  import opened Results
  import opened Sequences
  import opened TxReader

  /** A script is shorter than 2^32 bytes, as every buffer of the source is. */
  type Script = h: Hex | |h| < 0x1_0000_0000 witness []

  type Satoshis = n: int | 0 <= n < 0x8000_0000_0000_0000

  datatype TxInput = TxInput(hash: Hash32, index: U32, script: Script, sequence: U32, witnessStack: seq<Hex>)

  datatype TxOutput = TxOutput(value: Satoshis, script: Script)

  type TxInputs = ins: seq<TxInput> | |ins| < 0x1_0000_0000 witness []

  type TxOutputs = outs: seq<TxOutput> | |outs| < 0x1_0000_0000 witness []

  datatype Tx = Tx(version: U32, ins: TxInputs, outs: TxOutputs, locktime: U32)

  datatype RawTxVectors = RawTxVectors(version: Hex, inputs: Hex, outputs: Hex, locktime: Hex)

  /** A variable-length count (developer reference, section "CompactSize Unsigned Integers"). */
  function CompactSize(n: U32): Hex {
    if n < 0xfd then [n]
    else if n <= 0xffff then [0xfd] + [n % 256, n / 256]
    else [0xfe] + U32LE(n)
  }

  function I64LE(n: Satoshis): (h: Hex)
    ensures |h| == 8
  {
    U32LE(n % 0x1_0000_0000) + U32LE(n / 0x1_0000_0000)
  }

  function VarBytes(script: Script): Hex {
    CompactSize(|script|) + script
  }

  function InputBytes(i: TxInput): Hex {
    var hash: Hex := i.hash;
    hash + U32LE(i.index) + VarBytes(i.script) + U32LE(i.sequence)
  }

  function OutputBytes(o: TxOutput): Hex {
    I64LE(o.value) + VarBytes(o.script)
  }

  function AllInputs(ins: seq<TxInput>): Hex {
    if ins == [] then [] else InputBytes(ins[0]) + AllInputs(ins[1..])
  }

  function AllOutputs(outs: seq<TxOutput>): Hex {
    if outs == [] then [] else OutputBytes(outs[0]) + AllOutputs(outs[1..])
  }

  lemma {:induction false} AllInputsNext(ins: seq<TxInput>, i: TxInput)
    ensures AllInputs(ins + [i]) == AllInputs(ins) + InputBytes(i)
  {
    if ins == [] {
      assert AllInputs([i]) == InputBytes(i) + AllInputs([]);
    } else {
      assert (ins + [i])[1..] == ins[1..] + [i];
      AllInputsNext(ins[1..], i);
    }
  }

  lemma {:induction false} AllOutputsNext(outs: seq<TxOutput>, o: TxOutput)
    ensures AllOutputs(outs + [o]) == AllOutputs(outs) + OutputBytes(o)
  {
    if outs == [] {
      assert AllOutputs([o]) == OutputBytes(o) + AllOutputs([]);
    } else {
      assert (outs + [o])[1..] == outs[1..] + [o];
      AllOutputsNext(outs[1..], o);
    }
  }

  function InputVector(ins: TxInputs): Hex {
    CompactSize(|ins|) + AllInputs(ins)
  }

  function OutputVector(outs: TxOutputs): Hex {
    CompactSize(|outs|) + AllOutputs(outs)
  }

  /** The serialization without witnesses. */
  function Legacy(tx: Tx): Hex {
    U32LE(tx.version) + InputVector(tx.ins) + OutputVector(tx.outs) + U32LE(tx.locktime)
  }

  function TxId(sha: Sha256, tx: Tx): Hash32 {
    Hash256(sha, Legacy(tx))
  }

  method WriteInput(buffer: Hex, input: TxInput) returns (written: Hex)
    ensures written == buffer + InputBytes(input)
  {
    written := buffer + input.hash;
    written := written + U32LE(input.index);
    written := written + VarBytes(input.script);
    written := written + U32LE(input.sequence);
    Regroup(input.hash, U32LE(input.index), VarBytes(input.script), U32LE(input.sequence), buffer);
  }

  method WriteOutput(buffer: Hex, output: TxOutput) returns (written: Hex)
    ensures written == buffer + OutputBytes(output)
  {
    written := buffer + I64LE(output.value);
    written := written + VarBytes(output.script);
    Assoc(buffer, I64LE(output.value), VarBytes(output.script));
  }

  method GetTxInputVector(ins: TxInputs) returns (buffer: Hex)
    ensures buffer == InputVector(ins)
  {
    buffer := CompactSize(|ins|);
    for k := 0 to |ins|
      invariant buffer == CompactSize(|ins|) + AllInputs(ins[..k])
    {
      buffer := WriteInput(buffer, ins[k]);
      AllInputsNext(ins[..k], ins[k]);
      Assoc(CompactSize(|ins|), AllInputs(ins[..k]), InputBytes(ins[k]));
      TakeNext(ins, k);
    }
    assert ins[..|ins|] == ins;
  }

  method GetTxOutputVector(outs: TxOutputs) returns (buffer: Hex)
    ensures buffer == OutputVector(outs)
  {
    buffer := CompactSize(|outs|);
    for k := 0 to |outs|
      invariant buffer == CompactSize(|outs|) + AllOutputs(outs[..k])
    {
      buffer := WriteOutput(buffer, outs[k]);
      AllOutputsNext(outs[..k], outs[k]);
      Assoc(CompactSize(|outs|), AllOutputs(outs[..k]), OutputBytes(outs[k]));
      TakeNext(outs, k);
    }
    assert outs[..|outs|] == outs;
  }

  method ExtractBitcoinRawTxVectors(tx: Tx) returns (v: RawTxVectors)
    ensures v == RawTxVectors(U32LE(tx.version), InputVector(tx.ins), OutputVector(tx.outs), U32LE(tx.locktime))
    ensures v.version + v.inputs + v.outputs + v.locktime == Legacy(tx)
    ensures |v.version| == |v.locktime| == 4 && ToNatLE(v.version) == tx.version && ToNatLE(v.locktime) == tx.locktime
    ensures ReadInputVector(v.inputs) == Ok((PlainInputs(tx.ins), []))
    ensures ReadOutputVector(v.outputs) == Ok((PlainOutputs(tx.outs), []))
    ensures ReadTx(v.version + v.inputs + v.outputs + v.locktime) == Ok((Plain(tx), []))
  {
    hide ReadInputVector, ReadOutputVector, ReadTx, ToNatLE;
    VectorsAreRead(tx);
    LegacyIsRead(tx);
    var inputs := GetTxInputVector(tx.ins);
    var outputs := GetTxOutputVector(tx.outs);
    v := RawTxVectors(U32LE(tx.version), inputs, outputs, U32LE(tx.locktime));
  }

  // -------------------------------------------------------------------------------------------
  // Reading back gives everything but the witnesses

  function PlainInputs(ins: seq<TxInput>): (plain: seq<PlainInput>)
    ensures |plain| == |ins|
    ensures forall k :: 0 <= k < |ins| ==>
              plain[k] == PlainInput(ins[k].hash, ins[k].index, ins[k].script, ins[k].sequence)
  {
    if ins == [] then []
    else [PlainInput(ins[0].hash, ins[0].index, ins[0].script, ins[0].sequence)] + PlainInputs(ins[1..])
  }

  function PlainOutputs(outs: seq<TxOutput>): (plain: seq<PlainOutput>)
    ensures |plain| == |outs|
    ensures forall k :: 0 <= k < |outs| ==> plain[k] == PlainOutput(outs[k].value, outs[k].script)
  {
    if outs == [] then [] else [PlainOutput(outs[0].value, outs[0].script)] + PlainOutputs(outs[1..])
  }

  function Plain(tx: Tx): PlainTx {
    PlainTx(tx.version, PlainInputs(tx.ins), PlainOutputs(tx.outs), tx.locktime)
  }

  lemma ReadsU32(n: U32, rest: Hex)
    ensures ReadNumber(U32LE(n) + rest, 4) == Ok((n, rest))
  {
    ReadsBytes(U32LE(n), rest);
    ToNatOfU32LE(n);
  }

  lemma ToNatOfI64LE(n: Satoshis)
    ensures ToNatLE(I64LE(n)) == n
  {
    var low, high := n % 0x1_0000_0000, n / 0x1_0000_0000;
    ToNatLEConcat(U32LE(low), U32LE(high));
    ToNatOfU32LE(low);
    ToNatOfU32LE(high);
    assert Pow256(4) == 0x1_0000_0000 by {
      assert Pow256(2) == 0x1_0000;
    }
  }

  /** The shortest of the three forms. */
  lemma CompactSizeIsShortest(n: U32)
    ensures |CompactSize(n)| == if n <= 252 then 1 else if n <= 65535 then 3 else 5
  {
  }

  lemma ReadsCount(n: U32, rest: Hex)
    ensures ReadCount(CompactSize(n) + rest) == Ok((n, rest))
  {
    hide ToNatLE, ReadNumber, U32LE;
    if n < 0xfd {
      OneByte(n);
      ReadsBytes([n], rest);
    } else if n <= 0xffff {
      TwoBytes(n);
      Marked(0xfd, [n % 256, n / 256], rest);
      ReadsBytes([n % 256, n / 256], rest);
    } else {
      Marked(0xfe, U32LE(n), rest);
      ReadsU32(n, rest);
    }
  }

  lemma Marked(mark: Byte, bytes: Hex, rest: Hex)
    ensures ReadNumber([mark] + bytes + rest, 1) == Ok((mark, bytes + rest))
  {
    hide ReadNumber;
    Assoc([mark], bytes, rest);
    OneByte(mark);
    ReadsBytes([mark], bytes + rest);
  }

  lemma OneByte(b: Byte)
    ensures ToNatLE([b]) == b
  {
    ToNatLEStep([b]);
  }

  lemma TwoBytes(n: U32)
    requires n <= 0xffff
    ensures ToNatLE([n % 256, n / 256]) == n
  {
    hide ToNatLE;
    var bytes: Hex := [n % 256, n / 256];
    ToNatLEStep(bytes);
    assert bytes[1..] == [n / 256];
    OneByte(n / 256);
  }

  lemma ReadsScript(script: Script, rest: Hex)
    ensures ReadScript(VarBytes(script) + rest) == Ok((script, rest))
  {
    Assoc(CompactSize(|script|), script, rest);
    ReadsCount(|script|, script + rest);
    ReadsBytes(script, rest);
  }

  lemma ReadsInput(i: TxInput, rest: Hex)
    ensures ReadInput(InputBytes(i) + rest) == Ok((PlainInput(i.hash, i.index, i.script, i.sequence), rest))
  {
    hide ReadNumber, ReadScript, U32LE, VarBytes;
    var hash: Hex := i.hash;
    var last := U32LE(i.sequence) + rest;
    Regroup(hash, U32LE(i.index), VarBytes(i.script), U32LE(i.sequence), rest);
    ReadsBytes(hash, U32LE(i.index) + (VarBytes(i.script) + last));
    ReadsU32(i.index, VarBytes(i.script) + last);
    ReadsScript(i.script, last);
    ReadsU32(i.sequence, rest);
  }

  lemma ReadsOutput(o: TxOutput, rest: Hex)
    ensures ReadOutput(OutputBytes(o) + rest) == Ok((PlainOutput(o.value, o.script), rest))
  {
    hide ReadNumber, ReadScript, I64LE, VarBytes;
    Assoc(I64LE(o.value), VarBytes(o.script), rest);
    ReadsBytes(I64LE(o.value), VarBytes(o.script) + rest);
    ToNatOfI64LE(o.value);
    ReadsScript(o.script, rest);
  }

  lemma {:induction false} ReadsInputs(ins: seq<TxInput>, rest: Hex)
    ensures ReadInputs(AllInputs(ins) + rest, |ins|) == Ok((PlainInputs(ins), rest))
  {
    hide ReadInput, InputBytes;
    if ins == [] {
      assert AllInputs(ins) + rest == rest;
    } else {
      Assoc(InputBytes(ins[0]), AllInputs(ins[1..]), rest);
      ReadsInput(ins[0], AllInputs(ins[1..]) + rest);
      ReadsInputs(ins[1..], rest);
    }
  }

  lemma {:induction false} ReadsOutputs(outs: seq<TxOutput>, rest: Hex)
    ensures ReadOutputs(AllOutputs(outs) + rest, |outs|) == Ok((PlainOutputs(outs), rest))
  {
    hide ReadOutput, OutputBytes;
    if outs == [] {
      assert AllOutputs(outs) + rest == rest;
    } else {
      Assoc(OutputBytes(outs[0]), AllOutputs(outs[1..]), rest);
      ReadsOutput(outs[0], AllOutputs(outs[1..]) + rest);
      ReadsOutputs(outs[1..], rest);
    }
  }

  lemma ReadsInputVector(ins: TxInputs, rest: Hex)
    ensures ReadInputVector(InputVector(ins) + rest) == Ok((PlainInputs(ins), rest))
  {
    hide ReadCount, ReadInputs, CompactSize, AllInputs;
    Assoc(CompactSize(|ins|), AllInputs(ins), rest);
    ReadsCount(|ins|, AllInputs(ins) + rest);
    ReadsInputs(ins, rest);
  }

  lemma ReadsOutputVector(outs: TxOutputs, rest: Hex)
    ensures ReadOutputVector(OutputVector(outs) + rest) == Ok((PlainOutputs(outs), rest))
  {
    hide ReadCount, ReadOutputs, CompactSize, AllOutputs;
    Assoc(CompactSize(|outs|), AllOutputs(outs), rest);
    ReadsCount(|outs|, AllOutputs(outs) + rest);
    ReadsOutputs(outs, rest);
  }

  lemma VectorsAreRead(tx: Tx)
    ensures ToNatLE(U32LE(tx.version)) == tx.version && ToNatLE(U32LE(tx.locktime)) == tx.locktime
    ensures ReadInputVector(InputVector(tx.ins)) == Ok((PlainInputs(tx.ins), []))
    ensures ReadOutputVector(OutputVector(tx.outs)) == Ok((PlainOutputs(tx.outs), []))
  {
    hide ReadInputVector, ReadOutputVector, InputVector, OutputVector;
    ToNatOfU32LE(tx.version);
    ToNatOfU32LE(tx.locktime);
    ReadsInputVector(tx.ins, []);
    ReadsOutputVector(tx.outs, []);
    NothingToAdd(InputVector(tx.ins));
    NothingToAdd(OutputVector(tx.outs));
  }

  /** The serialization, read by the published layout, is the transaction without its witnesses. */
  lemma LegacyIsRead(tx: Tx)
    ensures ReadTx(Legacy(tx)) == Ok((Plain(tx), []))
  {
    hide ReadNumber, ReadInputVector, ReadOutputVector, U32LE, InputVector, OutputVector, PlainInputs, PlainOutputs;
    var ins, outs, last := InputVector(tx.ins), OutputVector(tx.outs), U32LE(tx.locktime);
    Regroup(U32LE(tx.version), ins, outs, last, []);
    NothingToAdd(Legacy(tx));
    ReadsU32(tx.version, ins + (outs + (last + [])));
    ReadsInputVector(tx.ins, outs + (last + []));
    ReadsOutputVector(tx.outs, last + []);
    ReadsU32(tx.locktime, []);
  }

  predicate SameInput(x: TxInput, y: TxInput) {
    x.hash == y.hash && x.index == y.index && x.script == y.script && x.sequence == y.sequence
  }

  /** The same transaction up to the witnesses, which the transaction hash leaves out. */
  predicate SameButWitnesses(t: Tx, u: Tx) {
    && t.version == u.version
    && t.locktime == u.locktime
    && t.outs == u.outs
    && |t.ins| == |u.ins|
    && forall k :: 0 <= k < |t.ins| ==> SameInput(t.ins[k], u.ins[k])
  }

  lemma {:induction false} SameInputsSameBytes(a: seq<TxInput>, b: seq<TxInput>)
    requires |a| == |b| && forall k :: 0 <= k < |a| ==> SameInput(a[k], b[k])
    ensures AllInputs(a) == AllInputs(b)
  {
    if a != [] {
      SameInputsSameBytes(a[1..], b[1..]);
    }
  }

  /** Two transactions have the same four vectors exactly when they differ at most in their witnesses. */
  lemma LegacyDeterminesTx(t: Tx, u: Tx)
    ensures Legacy(t) == Legacy(u) <==> SameButWitnesses(t, u)
  {
    if Legacy(t) == Legacy(u) {
      LegacyIsRead(t);
      LegacyIsRead(u);
      SamePlain(t, u);
    } else if SameButWitnesses(t, u) {
      SameInputsSameBytes(t.ins, u.ins);
    }
  }

  lemma SamePlain(t: Tx, u: Tx)
    requires Plain(t) == Plain(u)
    ensures SameButWitnesses(t, u)
  {
    var a, b := PlainInputs(t.ins), PlainInputs(u.ins);
    var c, d := PlainOutputs(t.outs), PlainOutputs(u.outs);
    assert |t.ins| == |u.ins| && |t.outs| == |u.outs|;
    forall k | 0 <= k < |t.ins| ensures SameInput(t.ins[k], u.ins[k]) {
      assert a[k] == b[k];
    }
    forall k | 0 <= k < |t.outs| ensures t.outs[k] == u.outs[k] {
      assert c[k] == d[k];
    }
  }

  const ONE_INPUT := TxInput(ZERO_HASH, 0xffff_ffff, [0x51], 0xffff_ffff, [])

  const ONE_OUTPUT := TxOutput(1000, [0x51])

  /** One input with script 51 that spends nothing, and one output of 1000 satoshi with the same script. */
  lemma OneTransaction()
    ensures Legacy(Tx(1, [ONE_INPUT], [ONE_OUTPUT], 0))
            == [1, 0, 0, 0]
               + ([1] + (ZERO_HASH + [0xff, 0xff, 0xff, 0xff] + [1, 0x51] + [0xff, 0xff, 0xff, 0xff]))
               + ([1] + [0xe8, 3, 0, 0, 0, 0, 0, 0, 1, 0x51])
               + [0, 0, 0, 0]
  {
    hide InputBytes, OutputBytes, U32LE;
    OneInput();
    OneOutput();
    AllInputsNext([], ONE_INPUT);
    AllOutputsNext([], ONE_OUTPUT);
    assert [] + [ONE_INPUT] == [ONE_INPUT] && [] + [ONE_OUTPUT] == [ONE_OUTPUT];
    SmallNumbers();
  }

  lemma SmallNumbers()
    ensures U32LE(0) == [0, 0, 0, 0] && U32LE(1) == [1, 0, 0, 0]
  {
  }

  lemma OneInput()
    ensures InputBytes(ONE_INPUT) == ZERO_HASH + [0xff, 0xff, 0xff, 0xff] + [1, 0x51] + [0xff, 0xff, 0xff, 0xff]
  {
    assert U32LE(0xffff_ffff) == [0xff, 0xff, 0xff, 0xff];
    assert VarBytes([0x51]) == [1, 0x51];
  }

  lemma OneOutput()
    ensures OutputBytes(ONE_OUTPUT) == [0xe8, 3, 0, 0, 0, 0, 0, 0, 1, 0x51]
  {
    assert U32LE(1000) == [0xe8, 3, 0, 0] && U32LE(0) == [0, 0, 0, 0];
    assert VarBytes([0x51]) == [1, 0x51];
  }
}
