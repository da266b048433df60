/** Block headers and their 80-byte form (developer reference, section "Block Headers"). */
module Header {
  import opened HexBytes
  import opened Results

  datatype BitcoinHeader = BitcoinHeader(
    version: U32,
    previousBlockHeaderHash: Hash32,
    merkleRootHash: Hash32,
    time: U32,
    bits: U32,
    nonce: U32)

  datatype HeaderError = IncorrectLength | ReadOutOfRange

  function Encode(h: BitcoinHeader): (raw: Hex)
    ensures |raw| == 80
  {
    var previous: Hex, root: Hex := h.previousBlockHeaderHash, h.merkleRootHash;
    U32LE(h.version) + previous + root + U32LE(h.time) + U32LE(h.bits) + U32LE(h.nonce)
  }

  function Decode(raw: Hex): BitcoinHeader
    requires 80 <= |raw|
  {
    BitcoinHeader(ReadU32LE(raw, 0), raw[4..36], raw[36..68], ReadU32LE(raw, 68), ReadU32LE(raw, 72),
                  ReadU32LE(raw, 76))
  }

  method WriteUInt32LE(buffer: array<Byte>, value: U32, offset: nat)
    requires offset + 4 <= buffer.Length
    modifies buffer
    ensures buffer[..offset + 4] == old(buffer[..offset]) + U32LE(value)
    ensures buffer[offset + 4..] == old(buffer[offset + 4..])
  {
    buffer[offset] := value % 256;
    buffer[offset + 1] := value / 256 % 256;
    buffer[offset + 2] := value / 0x1_0000 % 256;
    buffer[offset + 3] := value / 0x100_0000;
  }

  method Copy(source: Hash32, buffer: array<Byte>, offset: nat)
    requires offset + 32 <= buffer.Length
    modifies buffer
    ensures buffer[..offset + 32] == old(buffer[..offset]) + source
    ensures buffer[offset + 32..] == old(buffer[offset + 32..])
  {
    for i := 0 to 32
      invariant buffer[..offset] == old(buffer[..offset])
      invariant buffer[offset..offset + i] == source[..i]
      invariant buffer[offset + i..] == old(buffer[offset + i..])
    {
      buffer[offset + i] := source[i];
      assert buffer[offset..offset + i + 1] == buffer[offset..offset + i] + [source[i]];
      assert buffer[offset + i + 1..] == old(buffer[offset + i..])[1..];
    }
  }

  method SerializeHeader(header: BitcoinHeader) returns (raw: Hex)
    ensures raw == Encode(header)
  {
    hide U32LE;
    var buffer := new Byte[80](_ => 0);
    WriteUInt32LE(buffer, header.version, 0);
    Copy(header.previousBlockHeaderHash, buffer, 4);
    Copy(header.merkleRootHash, buffer, 36);
    WriteUInt32LE(buffer, header.time, 68);
    WriteUInt32LE(buffer, header.bits, 72);
    WriteUInt32LE(buffer, header.nonce, 76);
    raw := buffer[..80];
  }

  /** Reading past the end of a buffer throws. */
  function DeserializeHeader(raw: Hex): (r: Result<BitcoinHeader, HeaderError>) {
    if |raw| < 80 then Err(ReadOutOfRange) else Ok(Decode(raw))
  }

  function EncodeAll(headers: seq<BitcoinHeader>): (parts: seq<Hex>)
    ensures |parts| == |headers|
    ensures forall i :: 0 <= i < |headers| ==> parts[i] == Encode(headers[i])
  {
    seq(|headers|, i requires 0 <= i < |headers| => Encode(headers[i]))
  }

  /** The raw headers chain: the 80-byte forms one after the other. */
  function EncodeChain(headers: seq<BitcoinHeader>): Hex {
    Concat(EncodeAll(headers))
  }

  lemma NoHeadersEncoded()
    ensures EncodeChain([]) == []
  {
  }

  lemma Aligned(i: nat, n: nat)
    requires i < n && i % 80 == 0 && n % 80 == 0
    ensures i + 80 <= n && (i + 80) % 80 == 0
  {
  }

  /** The headers are the only list whose raw chain is the input. */
  method DeserializeHeadersChain(rawHeadersChain: Hex) returns (r: Result<seq<BitcoinHeader>, HeaderError>)
    ensures r.Ok? <==> |rawHeadersChain| % 80 == 0
    ensures r.Ok? ==> EncodeChain(r.value) == rawHeadersChain
    ensures r.Err? ==> r.error == IncorrectLength
  {
    if |rawHeadersChain| % 80 != 0 {
      return Err(IncorrectLength);
    }
    hide Encode, Decode, EncodeChain;
    var headers: seq<BitcoinHeader> := [];
    NoHeadersEncoded();
    var i := 0;
    while i < |rawHeadersChain|
      invariant 0 <= i <= |rawHeadersChain| && i % 80 == 0
      invariant EncodeChain(headers) == rawHeadersChain[..i]
    {
      Aligned(i, |rawHeadersChain|);
      var raw := rawHeadersChain[i..i + 80];
      var header := DeserializeHeader(raw).value;
      EncodeOfDecode(raw);
      EncodeChainOne(headers, header);
      assert rawHeadersChain[..i + 80] == rawHeadersChain[..i] + raw;
      headers := headers + [header];
      i := i + 80;
    }
    assert rawHeadersChain[..i] == rawHeadersChain;
    return Ok(headers);
  }

  // -------------------------------------------------------------------------------------------
  // Round trips

  lemma ReadWithin(raw: Hex, offset: nat, word: Hex)
    requires offset + 4 <= |raw|
    requires word == raw[offset..offset + 4]
    ensures ReadU32LE(raw, offset) == ReadU32LE(word, 0)
  {
  }

  lemma DecodeOfEncode(h: BitcoinHeader)
    ensures DeserializeHeader(Encode(h)) == Ok(h)
  {
    var raw := Encode(h);
    assert raw[4..36] == h.previousBlockHeaderHash;
    assert raw[36..68] == h.merkleRootHash;
    ReadWithin(raw, 0, U32LE(h.version));
    ReadOfU32LE(h.version);
    ReadWithin(raw, 68, U32LE(h.time));
    ReadOfU32LE(h.time);
    ReadWithin(raw, 72, U32LE(h.bits));
    ReadOfU32LE(h.bits);
    ReadWithin(raw, 76, U32LE(h.nonce));
    ReadOfU32LE(h.nonce);
  }

  /** The offsets of the fields, which are numbers in little-endian order and hashes as they are. */
  lemma HeaderLayout(h: BitcoinHeader)
    ensures var raw := Encode(h);
            && ToNatLE(raw[0..4]) == h.version
            && raw[4..36] == h.previousBlockHeaderHash
            && raw[36..68] == h.merkleRootHash
            && ToNatLE(raw[68..72]) == h.time
            && ToNatLE(raw[72..76]) == h.bits
            && ToNatLE(raw[76..80]) == h.nonce
  {
    hide U32LE, ToNatLE;
    var raw := Encode(h);
    ToNatOfU32LE(h.version);
    ToNatOfU32LE(h.time);
    ToNatOfU32LE(h.bits);
    ToNatOfU32LE(h.nonce);
    assert raw[0..4] == U32LE(h.version) && raw[68..72] == U32LE(h.time);
    assert raw[72..76] == U32LE(h.bits) && raw[76..80] == U32LE(h.nonce);
  }

  lemma EncodeOfDecode(raw: Hex)
    requires |raw| == 80
    ensures Encode(Decode(raw)) == raw
  {
    U32LEOfRead(raw[0..4]);
    ReadWithin(raw, 0, raw[0..4]);
    U32LEOfRead(raw[68..72]);
    ReadWithin(raw, 68, raw[68..72]);
    U32LEOfRead(raw[72..76]);
    ReadWithin(raw, 72, raw[72..76]);
    U32LEOfRead(raw[76..80]);
    ReadWithin(raw, 76, raw[76..80]);
    assert raw == raw[0..4] + raw[4..36] + raw[36..68] + raw[68..72] + raw[72..76] + raw[76..80];
  }

  lemma EncodeChainOne(headers: seq<BitcoinHeader>, header: BitcoinHeader)
    ensures EncodeChain(headers + [header]) == EncodeChain(headers) + Encode(header)
  {
    assert EncodeAll(headers + [header]) == EncodeAll(headers) + [Encode(header)];
    ConcatOne(EncodeAll(headers), Encode(header));
  }

  lemma EncodeChainLength(headers: seq<BitcoinHeader>)
    ensures |EncodeChain(headers)| == 80 * |headers|
  {
    ConcatLength(EncodeAll(headers), 80);
  }

  /** With `DeserializeHeadersChain`: reading inverts concatenation for every list of headers. */
  lemma EncodeChainInjective(a: seq<BitcoinHeader>, b: seq<BitcoinHeader>)
    requires EncodeChain(a) == EncodeChain(b)
    ensures a == b
  {
    ChunksOfConcat(EncodeAll(a), 80);
    ChunksOfConcat(EncodeAll(b), 80);
    forall i | 0 <= i < |a| ensures a[i] == b[i] {
      DecodeOfEncode(a[i]);
      DecodeOfEncode(b[i]);
      assert EncodeAll(a)[i] == EncodeAll(b)[i];
    }
  }
}
