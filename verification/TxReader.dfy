/** Reads a raw transaction without witnesses (developer reference, section "Raw Transaction Format"). */
module TxReader {
  import opened HexBytes
  import opened Results

  datatype PlainInput = PlainInput(hash: Hex, index: nat, script: Hex, sequence: nat)

  datatype PlainOutput = PlainOutput(value: nat, script: Hex)

  /** What the transaction hash covers. */
  datatype PlainTx = PlainTx(version: nat, ins: seq<PlainInput>, outs: seq<PlainOutput>, locktime: nat)

  /** What was read and the bytes that follow it; `Err` when there are too few bytes. */
  type Reading<T> = Result<(T, Hex), ()>

  function ReadBytes(h: Hex, count: nat): Reading<Hex> {
    if |h| < count then Err(()) else Ok((h[..count], h[count..]))
  }

  /** A little-endian number of `width` bytes. */
  function ReadNumber(h: Hex, width: nat): Reading<nat> {
    var bytes :- ReadBytes(h, width);
    Ok((ToNatLE(bytes.0), bytes.1))
  }

  /** One byte, or 0xfd, 0xfe or 0xff and a number of 2, 4 or 8 bytes. */
  function ReadCount(h: Hex): Reading<nat> {
    var first :- ReadNumber(h, 1);
    if first.0 < 0xfd then Ok(first)
    else ReadNumber(first.1, if first.0 == 0xfd then 2 else if first.0 == 0xfe then 4 else 8)
  }

  function ReadScript(h: Hex): Reading<Hex> {
    var length :- ReadCount(h);
    ReadBytes(length.1, length.0)
  }

  function ReadInput(h: Hex): Reading<PlainInput> {
    var hash :- ReadBytes(h, 32);
    var index :- ReadNumber(hash.1, 4);
    var script :- ReadScript(index.1);
    var sequence :- ReadNumber(script.1, 4);
    Ok((PlainInput(hash.0, index.0, script.0, sequence.0), sequence.1))
  }

  function ReadOutput(h: Hex): Reading<PlainOutput> {
    var value :- ReadNumber(h, 8);
    var script :- ReadScript(value.1);
    Ok((PlainOutput(value.0, script.0), script.1))
  }

  function ReadInputs(h: Hex, count: nat): Reading<seq<PlainInput>> {
    if count == 0 then Ok(([], h))
    else
      var first :- ReadInput(h);
      var others :- ReadInputs(first.1, count - 1);
      Ok(([first.0] + others.0, others.1))
  }

  function ReadOutputs(h: Hex, count: nat): Reading<seq<PlainOutput>> {
    if count == 0 then Ok(([], h))
    else
      var first :- ReadOutput(h);
      var others :- ReadOutputs(first.1, count - 1);
      Ok(([first.0] + others.0, others.1))
  }

  function ReadInputVector(h: Hex): Reading<seq<PlainInput>> {
    var count :- ReadCount(h);
    ReadInputs(count.1, count.0)
  }

  function ReadOutputVector(h: Hex): Reading<seq<PlainOutput>> {
    var count :- ReadCount(h);
    ReadOutputs(count.1, count.0)
  }

  function ReadTx(h: Hex): Reading<PlainTx> {
    var version :- ReadNumber(h, 4);
    var ins :- ReadInputVector(version.1);
    var outs :- ReadOutputVector(ins.1);
    var locktime :- ReadNumber(outs.1, 4);
    Ok((PlainTx(version.0, ins.0, outs.0, locktime.0), locktime.1))
  }

  /** What was written as bytes of a known number is read back. */
  lemma ReadsBytes(bytes: Hex, rest: Hex)
    ensures ReadBytes(bytes + rest, |bytes|) == Ok((bytes, rest))
    ensures ReadNumber(bytes + rest, |bytes|) == Ok((ToNatLE(bytes), rest))
  {
    assert (bytes + rest)[..|bytes|] == bytes && (bytes + rest)[|bytes|..] == rest;
  }
}
