/** Assembling and checking the proof that a transaction is in a block with enough confirmations. */
module Spv {
  import opened Arithmetic
  import opened HexBytes
  import opened Hashing
  import opened Header
  import opened HeaderChain
  import opened MerkleProof
  import opened MerkleTree
  import opened Results
  import opened Target
  import opened Transaction

  datatype SpvError =
    | ClientFailed
    | NotEnoughConfirmations(confirmations: int, required: int)
    | RequiredBelowOne
    | CoinbaseOnAnotherLevel
    | WrongHeadersLength
    | WrongNumberOfConfirmations
    | BadMerkleProof(merkle: MerkleError)
    | BadHeaders(chain: ChainError)

  /**
   The answers of a Bitcoin client during one validation; any answer may be wrong, and `None` is a failed call.
   Merkle branches are asked for twice, and the answers need not agree when both are about one transaction.
   */
  datatype Client = Client(
    transaction: Hex -> Option<Tx>,
    confirmations: Hex -> Option<int>,
    latestBlockHeight: Option<int>,
    headersChain: (int, int) -> Option<Hex>,
    transactionMerkle: (Hex, int) -> Option<MerkleBranch>,
    coinbaseMerkle: (Hex, int) -> Option<MerkleBranch>,
    coinbaseTxHash: int -> Option<Hex>,
    rawTransaction: Hex -> Option<Tx>)

  datatype SpvProof = SpvProof(
    merkleProof: Hex,
    txIndexInBlock: int,
    bitcoinHeaders: Hex,
    coinbasePreimage: Hex,
    coinbaseProof: Hex)

  function Await<T>(answer: Option<T>): Result<T, SpvError> {
    match answer
    case None => Err(ClientFailed)
    case Some(value) => Ok(value)
  }

  /** What the client is asked for, given the height at which the transaction is believed to be. */
  datatype Answers = Answers(headers: Hex, branch: MerkleBranch, coinbase: Tx, coinbaseBranch: MerkleBranch)

  function AnswersAt(txHash: Hex, height: int, required: int, client: Client): Option<Answers> {
    var headers := client.headersChain(height, required - 1);
    var branch := client.transactionMerkle(txHash, height);
    var coinbaseHash := client.coinbaseTxHash(height);
    if headers.None? || branch.None? || coinbaseHash.None? then None
    else
      var coinbase := client.rawTransaction(coinbaseHash.value);
      var coinbaseBranch := client.coinbaseMerkle(coinbaseHash.value, height);
      if coinbase.None? || coinbaseBranch.None? then None
      else Some(Answers(headers.value, branch.value, coinbase.value, coinbaseBranch.value))
  }

  function Collected(txHash: Hex, required: int, client: Client): Result<Answers, SpvError> {
    var transaction, confirmations, latest := client.transaction(txHash), client.confirmations(txHash),
      client.latestBlockHeight;
    if transaction.None? || confirmations.None? then Err(ClientFailed)
    else if confirmations.value < required then Err(NotEnoughConfirmations(confirmations.value, required))
    else if latest.None? then Err(ClientFailed)
    else Await(AnswersAt(txHash, latest.value - confirmations.value + 1, required, client))
  }

  /** Every call must answer; the height asked for is computed from confirmations and tip. */
  lemma CollectedInWords(txHash: Hex, required: int, client: Client)
    requires client.transaction(txHash).Some? && client.confirmations(txHash).Some? && client.latestBlockHeight.Some?
    ensures var confirmations := client.confirmations(txHash).value;
            var height := client.latestBlockHeight.value - confirmations + 1;
            var headers, branch := client.headersChain(height, required - 1), client.transactionMerkle(txHash, height);
            var coinbaseHash := client.coinbaseTxHash(height);
            var r := Collected(txHash, required, client);
            && (confirmations < required <==> r == Err(NotEnoughConfirmations(confirmations, required)))
            && (r.Ok? <==> && required <= confirmations && headers.Some? && branch.Some? && coinbaseHash.Some?
                           && client.rawTransaction(coinbaseHash.value).Some?
                           && client.coinbaseMerkle(coinbaseHash.value, height).Some?)
            && (r.Ok? ==> r.value == Answers(headers.value, branch.value,
                                             client.rawTransaction(coinbaseHash.value).value,
                                             client.coinbaseMerkle(coinbaseHash.value, height).value))
  {
  }

  lemma NothingWithoutAnswers(txHash: Hex, required: int, client: Client)
    requires client.transaction(txHash).None? || client.confirmations(txHash).None? || client.latestBlockHeight.None?
    ensures Collected(txHash, required, client).Err?
  {
  }

  function ProofFrom(sha: Sha256, a: Answers): SpvProof {
    SpvProof(
      Concat(ReverseAll(a.branch.merkle)),
      a.branch.position,
      a.headers,
      sha(Legacy(a.coinbase)),
      Concat(ReverseAll(a.coinbaseBranch.merkle)))
  }

  method AssembleBitcoinSpvProof(sha: Sha256, txHash: Hex, required: int, client: Client)
    returns (r: Result<SpvProof, SpvError>)
    ensures var spec := Collected(txHash, required, client);
            r == if spec.Ok? then Ok(ProofFrom(sha, spec.value)) else Err(spec.error)
  {
    hide Legacy, InputVector, OutputVector, Plain, PlainInputs, PlainOutputs, ToNatLE, U32LE, Concat;
    var transaction :- Await(client.transaction(txHash));
    var confirmations :- Await(client.confirmations(txHash));
    if confirmations < required {
      return Err(NotEnoughConfirmations(confirmations, required));
    }
    var latestBlockHeight :- Await(client.latestBlockHeight);
    var txBlockHeight := latestBlockHeight - confirmations + 1;
    var headersChain :- Await(client.headersChain(txBlockHeight, required - 1));
    var merkleBranch :- Await(client.transactionMerkle(txHash, txBlockHeight));
    var merkleProof := CreateMerkleProof(merkleBranch);
    var coinbaseTxHash :- Await(client.coinbaseTxHash(txBlockHeight));
    var rawCoinbase :- Await(client.rawTransaction(coinbaseTxHash));
    var v := ExtractBitcoinRawTxVectors(rawCoinbase);
    var coinbasePreimage := sha(v.version + v.inputs + v.outputs + v.locktime);
    var coinbaseBranch :- Await(client.coinbaseMerkle(coinbaseTxHash, txBlockHeight));
    var coinbaseProof := CreateMerkleProof(coinbaseBranch);
    return Ok(SpvProof(merkleProof, merkleBranch.position, headersChain, coinbasePreimage, coinbaseProof));
  }

  /** What is checked of an assembled proof, `headers` being the headers it holds. */
  predicate ProofAccepted(sha: Sha256, txHash: Hex, required: int, previous: int, current: int,
                          proof: SpvProof, headers: seq<BitcoinHeader>)
  {
    && EncodeChain(headers) == proof.bitcoinHeaders
    && 1 <= |headers| == required
    && Accepted(sha, headers, previous, current)
    && |proof.merkleProof| == |proof.coinbaseProof|
    && ProofLeads(sha, txHash, headers[0].merkleRootHash, proof.merkleProof, proof.txIndexInBlock)
    && ProofLeads(sha, Reverse(sha(proof.coinbasePreimage)), headers[0].merkleRootHash, proof.coinbaseProof, 0)
  }

  ghost predicate SpvAccepted(sha: Sha256, txHash: Hex, required: int, previous: int, current: int, client: Client) {
    && Collected(txHash, required, client).Ok?
    && exists headers ::
         ProofAccepted(sha, txHash, required, previous, current,
                       ProofFrom(sha, Collected(txHash, required, client).value), headers)
  }

  /** The error of a Merkle proof that does not lead to the root. */
  function MerkleFault(proof: Hex): MerkleError {
    if |proof| % 32 != 0 then IncorrectProofLength else if proof == [] then InvalidMerkleTree else ProofNotValid
  }

  /** The error is that of the first check, in the order of the source, that the proof with these headers fails. */
  ghost predicate FailsWith(sha: Sha256, txHash: Hex, previous: int, current: int,
                            proof: SpvProof, headers: seq<BitcoinHeader>, e: SpvError)
    requires headers != []
  {
    var root := headers[0].merkleRootHash;
    if !ProofLeads(sha, txHash, root, proof.merkleProof, proof.txIndexInBlock) then
      e == BadMerkleProof(MerkleFault(proof.merkleProof))
    else if !Accepted(sha, headers, previous, current) then
      e.BadHeaders? && FirstFault(sha, headers, previous, current, e.chain)
    else
      && !ProofLeads(sha, Reverse(sha(proof.coinbasePreimage)), root, proof.coinbaseProof, 0)
      && e == BadMerkleProof(MerkleFault(proof.coinbaseProof))
  }

  /** The same for an assembled proof, whose headers are yet to be read. */
  ghost predicate RejectedWith(sha: Sha256, txHash: Hex, required: int, previous: int, current: int,
                               proof: SpvProof, e: SpvError)
  {
    if |proof.merkleProof| != |proof.coinbaseProof| then e == CoinbaseOnAnotherLevel
    else if |proof.bitcoinHeaders| % 80 != 0 then e == WrongHeadersLength
    else if |proof.bitcoinHeaders| != 80 * required then e == WrongNumberOfConfirmations
    else
      exists headers :: headers != [] && EncodeChain(headers) == proof.bitcoinHeaders
                        && FailsWith(sha, txHash, previous, current, proof, headers, e)
  }

  method ValidateBitcoinSpvProof(sha: Sha256, txHash: Hex, required: int, previous: int, current: int, client: Client)
    returns (r: Result<(), SpvError>)
    ensures r.Ok? <==> SpvAccepted(sha, txHash, required, previous, current, client)
    ensures required < 1 <==> r == Err(RequiredBelowOne)
    ensures 1 <= required && r.Err? ==>
              match Collected(txHash, required, client)
              case Err(error) => r.error == error
              case Ok(answers) =>
                RejectedWith(sha, txHash, required, previous, current, ProofFrom(sha, answers), r.error)
  {
    hide ProofFrom, ProofLeads, FailsWith, Accepted, AnswersAt;
    if required < 1 {
      return Err(RequiredBelowOne);
    }
    var proof :- AssembleBitcoinSpvProof(sha, txHash, required, client);
    if |proof.merkleProof| != |proof.coinbaseProof| {
      return Err(CoinbaseOnAnotherLevel);
    }
    r := ValidateAssembled(sha, txHash, required, previous, current, proof);
  }

  /** The checks of `ValidateBitcoinSpvProof` from the headers on. */
  method ValidateAssembled(sha: Sha256, txHash: Hex, required: int, previous: int, current: int, proof: SpvProof)
    returns (r: Result<(), SpvError>)
    requires 1 <= required && |proof.merkleProof| == |proof.coinbaseProof|
    ensures r.Ok? <==> exists headers :: ProofAccepted(sha, txHash, required, previous, current, proof, headers)
    ensures r.Err? ==> RejectedWith(sha, txHash, required, previous, current, proof, r.error)
    ensures r != Err(RequiredBelowOne)
  {
    hide FailsWith;
    var parsed := DeserializeHeadersChain(proof.bitcoinHeaders);
    if parsed.Err? {
      NoHeaders(sha, txHash, required, previous, current, proof);
      return Err(WrongHeadersLength);
    }
    OnlyHeaders(sha, txHash, required, previous, current, proof, parsed.value);
    EncodeChainLength(parsed.value);
    r := ValidateParsed(sha, txHash, required, previous, current, proof, parsed.value);
  }

  method ValidateParsed(sha: Sha256, txHash: Hex, required: int, previous: int, current: int,
                        proof: SpvProof, headers: seq<BitcoinHeader>)
    returns (r: Result<(), SpvError>)
    requires 1 <= required && |proof.merkleProof| == |proof.coinbaseProof|
    requires EncodeChain(headers) == proof.bitcoinHeaders
    ensures r.Ok? <==> ProofAccepted(sha, txHash, required, previous, current, proof, headers)
    ensures r.Err? ==> if |headers| != required then r.error == WrongNumberOfConfirmations
                       else FailsWith(sha, txHash, previous, current, proof, headers, r.error)
    ensures r != Err(RequiredBelowOne)
  {
    hide Accepted, ProofLeads, MerkleFault, FirstFault;
    if |headers| != required {
      return Err(WrongNumberOfConfirmations);
    }
    var root := headers[0].merkleRootHash;
    var tx := ValidateProofOf(sha, txHash, root, proof.merkleProof, proof.txIndexInBlock);
    if tx.Err? {
      return Err(BadMerkleProof(tx.error));
    }
    var chain := ValidateBitcoinHeadersChain(sha, headers, previous, current);
    if chain.Err? {
      return Err(BadHeaders(chain.error));
    }
    var coinbase := ValidateProofOf(sha, Reverse(sha(proof.coinbasePreimage)), root, proof.coinbaseProof, 0);
    if coinbase.Err? {
      return Err(BadMerkleProof(coinbase.error));
    }
    return Ok(());
  }

  predicate ProofLeads(sha: Sha256, txHash: Hex, root: Hex, proof: Hex, idx: int) {
    SplitProof(proof).Ok? && MerkleAccepts(sha, txHash, root, SplitProof(proof).value, idx)
  }

  method ValidateProofOf(sha: Sha256, txHash: Hex, root: Hex, proof: Hex, idx: int) returns (r: Result<(), MerkleError>)
    ensures r.Ok? <==> ProofLeads(sha, txHash, root, proof, idx)
    ensures r.Err? ==> r.error == MerkleFault(proof)
  {
    hide MerkleAccepts;
    var hashes :- SplitMerkleProof(proof);
    r := ValidateMerkleTree(sha, txHash, root, hashes, idx);
    assert hashes == [] <==> proof == [] by {
      FullChunks(proof, 32, |proof| / 32);
    }
  }

  lemma NoHeaders(sha: Sha256, txHash: Hex, required: int, previous: int, current: int, proof: SpvProof)
    requires |proof.bitcoinHeaders| % 80 != 0
    ensures !exists headers :: ProofAccepted(sha, txHash, required, previous, current, proof, headers)
  {
    forall headers ensures EncodeChain(headers) != proof.bitcoinHeaders {
      EncodeChainLength(headers);
    }
  }

  lemma OnlyHeaders(sha: Sha256, txHash: Hex, required: int, previous: int, current: int,
                    proof: SpvProof, headers: seq<BitcoinHeader>)
    requires EncodeChain(headers) == proof.bitcoinHeaders
    ensures (exists other :: ProofAccepted(sha, txHash, required, previous, current, proof, other))
            <==> ProofAccepted(sha, txHash, required, previous, current, proof, headers)
  {
    forall other | ProofAccepted(sha, txHash, required, previous, current, proof, other) ensures other == headers {
      EncodeChainInjective(other, headers);
    }
  }

  // -------------------------------------------------------------------------------------------
  // Soundness against any client

  /** The collision that `AcceptedProofIsSound` promises. */
  function SpvCollision(sha: Sha256, txHash: Hex, proof: SpvProof, coinbaseText: Hex, texts: seq<Hex>,
                        level: Level): (Hex, Hex)
    requires |texts| == |level|
    requires SplitProof(proof.merkleProof).Ok? && SplitProof(proof.coinbaseProof).Ok?
  {
    var coinbaseCollision := LengthCollision(sha, coinbaseText, SplitProof(proof.coinbaseProof).value, texts, level);
    if IsCollision(sha, coinbaseCollision) then coinbaseCollision
    else FoldCollision(sha, Reverse(txHash), SplitProof(proof.merkleProof).value, level, proof.txIndexInBlock)
  }

  lemma SameLengthSameCount(a: Hex, b: Hex)
    requires |a| == |b| && SplitProof(a).Ok? && SplitProof(b).Ok?
    ensures |SplitProof(a).value| == |SplitProof(b).value|
  {
    FullChunks(a, 32, |a| / 32);
    FullChunks(b, 32, |b| / 32);
  }

  /**
   Let an accepted proof come with `coinbaseText` as the serialized coinbase transaction, and let the first
   header be that of a block with the serialized transactions `texts`. Then the proven hash is that of the
   transaction that the index reaches and the coinbase is the one of the block; or one of the two coinbase
   transactions is 64 bytes long; or `SpvCollision` computes a collision. Nothing is assumed of the length
   of the branches: the coinbase branch, which must be as long, settles it.
   */
  lemma AcceptedProofIsSound(sha: Sha256, txHash: Hex, required: int, previous: int, current: int,
                             proof: SpvProof, headers: seq<BitcoinHeader>, coinbaseText: Hex, texts: seq<Hex>,
                             level: Level)
    requires ProofAccepted(sha, txHash, required, previous, current, proof, headers)
    requires proof.coinbasePreimage == sha(coinbaseText)
    requires HashesOf(sha, texts, level)
    requires headers[0].merkleRootHash == Root(sha, level)
    ensures || (txHash == Reverse(Hash256(sha, texts[Reached(|texts|, proof.txIndexInBlock)]))
                && coinbaseText == texts[0])
            || |coinbaseText| == 64
            || |texts[0]| == 64
            || IsCollision(sha, SpvCollision(sha, txHash, proof, coinbaseText, texts, level))
  {
    var branch, coinbaseBranch := SplitProof(proof.merkleProof).value, SplitProof(proof.coinbaseProof).value;
    SameLengthSameCount(proof.merkleProof, proof.coinbaseProof);
    ReverseTwice(Hash256(sha, coinbaseText));
    FirstLeafFixesLength(sha, coinbaseText, coinbaseBranch, texts, level);
    if |branch| == Depth(|level|) {
      AcceptedIsMember(sha, txHash, level, branch, proof.txIndexInBlock);
    }
  }

  /** The same for a whole validation against any client, with the confirmations it proves. */
  lemma AcceptedValidationIsSound(sha: Sha256, txHash: Hex, required: int, previous: int, current: int, client: Client,
                                  headers: seq<BitcoinHeader>, texts: seq<Hex>, level: Level)
    requires SpvAccepted(sha, txHash, required, previous, current, client)
    requires EncodeChain(headers) == Collected(txHash, required, client).value.headers
    requires HashesOf(sha, texts, level)
    requires headers != [] && headers[0].merkleRootHash == Root(sha, level)
    ensures |headers| == required && Accepted(sha, headers, previous, current)
    ensures var answers := Collected(txHash, required, client).value;
            var proof, coinbaseText := ProofFrom(sha, answers), Legacy(answers.coinbase);
            && SplitProof(proof.merkleProof).Ok? && SplitProof(proof.coinbaseProof).Ok?
            && (|| (txHash == Reverse(Hash256(sha, texts[Reached(|texts|, answers.branch.position)]))
                    && coinbaseText == texts[0])
                || |coinbaseText| == 64
                || |texts[0]| == 64
                || IsCollision(sha, SpvCollision(sha, txHash, proof, coinbaseText, texts, level)))
  {
    var answers := Collected(txHash, required, client).value;
    var proof := ProofFrom(sha, answers);
    OnlyHeaders(sha, txHash, required, previous, current, proof, headers);
    AcceptedProofIsSound(sha, txHash, required, previous, current, proof, headers, Legacy(answers.coinbase), texts,
                         level);
  }

  // -------------------------------------------------------------------------------------------
  // Completeness against an honest client

  datatype Block = Block(header: BitcoinHeader, txs: seq<Tx>)

  function TxIds(sha: Sha256, txs: seq<Tx>): (ids: seq<Hash32>)
    ensures |ids| == |txs|
    ensures forall i :: 0 <= i < |txs| ==> ids[i] == TxId(sha, txs[i])
  {
    seq(|txs|, i requires 0 <= i < |txs| => TxId(sha, txs[i]))
  }

  function HeadersOf(blocks: seq<Block>): (headers: seq<BitcoinHeader>)
    ensures |headers| == |blocks|
    ensures forall i :: 0 <= i < |blocks| ==> headers[i] == blocks[i].header
  {
    seq(|blocks|, i requires 0 <= i < |blocks| => blocks[i].header)
  }

  predicate CommitsToTxs(sha: Sha256, b: Block) {
    b.txs != [] && b.header.merkleRootHash == Root(sha, TxIds(sha, b.txs))
  }

  datatype HistoryEntry = HistoryEntry(txHash: Hex, height: int)

  function FindIn(history: seq<HistoryEntry>, txHash: Hex): Option<int> {
    if history == [] then None
    else if history[0].txHash == txHash then Some(history[0].height)
    else FindIn(history[1..], txHash)
  }

  /** The height in the first history that lists the transaction. */
  function FindHeight(histories: seq<seq<HistoryEntry>>, txHash: Hex): Option<int> {
    if histories == [] then None
    else if FindIn(histories[0], txHash).Some? then FindIn(histories[0], txHash)
    else FindHeight(histories[1..], txHash)
  }

  function Confirmations(height: int, latest: int): int {
    if 0 < height <= latest then latest - height + 1 else 0
  }

  predicate Listed(histories: seq<seq<HistoryEntry>>, txHash: Hex, k: int, j: int) {
    0 <= k < |histories| && 0 <= j < |histories[k]| && histories[k][j].txHash == txHash
  }

  /** The first entry that lists the transaction, history by history. */
  ghost predicate FirstListed(histories: seq<seq<HistoryEntry>>, txHash: Hex, k: int, j: int) {
    && Listed(histories, txHash, k, j)
    && forall l, m :: Listed(histories, txHash, l, m) ==> k < l || (k == l && j <= m)
  }

  lemma {:induction false} FirstInHistory(history: seq<HistoryEntry>, txHash: Hex, j: nat)
    requires j < |history| && history[j].txHash == txHash
    requires forall m :: 0 <= m < j ==> history[m].txHash != txHash
    ensures FindIn(history, txHash) == Some(history[j].height)
  {
    if j != 0 {
      FirstInHistory(history[1..], txHash, j - 1);
    }
  }

  lemma {:induction false} NotInHistory(history: seq<HistoryEntry>, txHash: Hex)
    requires forall m :: 0 <= m < |history| ==> history[m].txHash != txHash
    ensures FindIn(history, txHash) == None
  {
    if history != [] {
      NotInHistory(history[1..], txHash);
    }
  }

  lemma {:induction false} FirstIsFound(histories: seq<seq<HistoryEntry>>, txHash: Hex, k: int, j: int)
    requires FirstListed(histories, txHash, k, j)
    ensures FindHeight(histories, txHash) == Some(histories[k][j].height)
  {
    forall m | 0 <= m < |histories[0]| && (0 < k || m < j) ensures histories[0][m].txHash != txHash {
      assert !Listed(histories, txHash, 0, m);
    }
    if k == 0 {
      FirstInHistory(histories[0], txHash, j);
    } else {
      NotInHistory(histories[0], txHash);
      var rest := histories[1..];
      forall l, m | Listed(rest, txHash, l, m) ensures k - 1 < l || (k - 1 == l && j <= m) {
        assert Listed(histories, txHash, l + 1, m);
      }
      FirstIsFound(rest, txHash, k - 1, j);
    }
  }

  lemma {:induction false} UnlistedIsNotFound(histories: seq<seq<HistoryEntry>>, txHash: Hex)
    requires forall k, j :: !Listed(histories, txHash, k, j)
    ensures FindHeight(histories, txHash) == None
  {
    if histories != [] {
      forall m | 0 <= m < |histories[0]| ensures histories[0][m].txHash != txHash {
        assert !Listed(histories, txHash, 0, m);
      }
      NotInHistory(histories[0], txHash);
      var rest := histories[1..];
      forall k, j ensures !Listed(rest, txHash, k, j) {
        assert !Listed(histories, txHash, k + 1, j);
      }
      UnlistedIsNotFound(rest, txHash);
    }
  }

  /**
   `histories` has the history of each output script of the transaction. The first entry that lists the
   transaction decides: a height of 0 or -1 is that of a transaction that is not yet in a block.
   */
  method GetTransactionConfirmations(histories: seq<seq<HistoryEntry>>, txHash: Hex, latest: int)
    returns (r: Result<int, SpvError>)
    ensures (forall k, j :: !Listed(histories, txHash, k, j)) ==> r == Err(ClientFailed)
    ensures forall k, j :: FirstListed(histories, txHash, k, j) ==>
              var height := histories[k][j].height;
              r == Ok(if height <= 0 || latest < height then 0 else latest - height + 1)
    ensures forall height :: TrueHistories(histories, txHash, height) ==>
              r == Ok(if height <= 0 || latest < height then 0 else latest - height + 1)
    ensures match FindHeight(histories, txHash)
            case None => r == Err(ClientFailed)
            case Some(height) => r == Ok(Confirmations(height, latest))
  {
    hide FirstListed, TrueHistories, FindIn;
    FoundInWords(histories, txHash);
    var txBlockHeight: Option<int> := None;
    var k := 0;
    while k < |histories|
      invariant 0 <= k <= |histories|
      invariant txBlockHeight.None?
      invariant FindHeight(histories, txHash) == FindHeight(histories[k..], txHash)
    {
      var tx := FindIn(histories[k], txHash);
      assert histories[k..][1..] == histories[k + 1..];
      if tx.Some? {
        txBlockHeight := tx;
        break;
      }
      k := k + 1;
    }
    if txBlockHeight.None? {
      return Err(ClientFailed);
    }
    if txBlockHeight.value > 0 {
      if latest >= txBlockHeight.value {
        return Ok(latest - txBlockHeight.value + 1);
      }
    }
    return Ok(0);
  }

  /** Every history entry of the transaction has its height, and some output has one. */
  predicate TrueHistories(histories: seq<seq<HistoryEntry>>, txHash: Hex, height: int) {
    && (forall k, j :: 0 <= k < |histories| && 0 <= j < |histories[k]| && histories[k][j].txHash == txHash
          ==> histories[k][j].height == height)
    && (exists k, j :: 0 <= k < |histories| && 0 <= j < |histories[k]| && histories[k][j].txHash == txHash)
  }

  lemma {:induction false} FindInFinds(history: seq<HistoryEntry>, txHash: Hex, height: int)
    requires forall j :: 0 <= j < |history| && history[j].txHash == txHash ==> history[j].height == height
    ensures FindIn(history, txHash)
            == if exists j :: 0 <= j < |history| && history[j].txHash == txHash then Some(height) else None
  {
    if history != [] && history[0].txHash != txHash {
      FindInFinds(history[1..], txHash, height);
      if j :| 0 <= j < |history| && history[j].txHash == txHash {
        assert history[1..][j - 1].txHash == txHash;
      }
    }
  }

  lemma {:induction false} FindHeightFinds(histories: seq<seq<HistoryEntry>>, txHash: Hex, height: int)
    requires TrueHistories(histories, txHash, height)
    ensures FindHeight(histories, txHash) == Some(height)
  {
    FindInFinds(histories[0], txHash, height);
    if FindIn(histories[0], txHash).None? {
      var k: nat, j: nat :| 0 <= k < |histories| && 0 <= j < |histories[k]| && histories[k][j].txHash == txHash;
      var rest: seq<seq<HistoryEntry>> := histories[1..];
      assert rest[k - 1][j].txHash == txHash;
      FindHeightFinds(rest, txHash, height);
    }
  }

  /** What is found, in words: the height of the first entry, which is the true one if there is one. */
  lemma FoundInWords(histories: seq<seq<HistoryEntry>>, txHash: Hex)
    ensures (forall k, j :: !Listed(histories, txHash, k, j)) ==> FindHeight(histories, txHash) == None
    ensures forall k, j :: FirstListed(histories, txHash, k, j) ==>
              FindHeight(histories, txHash) == Some(histories[k][j].height)
    ensures forall height :: TrueHistories(histories, txHash, height) ==> FindHeight(histories, txHash) == Some(height)
  {
    hide FindHeight;
    if forall k, j :: !Listed(histories, txHash, k, j) {
      UnlistedIsNotFound(histories, txHash);
    }
    forall k, j | FirstListed(histories, txHash, k, j)
      ensures FindHeight(histories, txHash) == Some(histories[k][j].height)
    {
      FirstIsFound(histories, txHash, k, j);
    }
    forall height | TrueHistories(histories, txHash, height) ensures FindHeight(histories, txHash) == Some(height) {
      FindHeightFinds(histories, txHash, height);
    }
  }

  /** The client reads its confirmations from histories and the tip at the time. */
  predicate ReadsConfirmations(client: Client, txHash: Hex, histories: seq<seq<HistoryEntry>>, latest: int) {
    var height := FindHeight(histories, txHash);
    client.confirmations(txHash) == if height.None? then None else Some(Confirmations(height.value, latest))
  }

  /** A transaction that is in no block up to the tip is never accepted, whatever the client answers otherwise. */
  lemma UnconfirmedNeverAccepted(sha: Sha256, txHash: Hex, required: int, previous: int, current: int, client: Client,
                                 histories: seq<seq<HistoryEntry>>, height: int, latest: int)
    requires TrueHistories(histories, txHash, height) && (height <= 0 || latest < height)
    requires ReadsConfirmations(client, txHash, histories, latest)
    ensures !SpvAccepted(sha, txHash, required, previous, current, client)
    ensures 1 <= required && client.transaction(txHash).Some? ==>
              Collected(txHash, required, client) == Err(NotEnoughConfirmations(0, required))
  {
    FindHeightFinds(histories, txHash, height);
    if 1 <= required {
      NotAcceptedWithout(sha, txHash, required, previous, current, client);
    }
  }

  /** Confirmations and tip give back the height, off by exactly the blocks that arrived between the two readings. */
  lemma HeightRecovered(histories: seq<seq<HistoryEntry>>, txHash: Hex, height: int, tip: int, grown: int)
    requires TrueHistories(histories, txHash, height)
    requires 0 < height <= tip && 0 <= grown
    ensures FindHeight(histories, txHash).Some?
    ensures (tip + grown) - Confirmations(FindHeight(histories, txHash).value, tip) + 1 == height + grown
  {
    FindHeightFinds(histories, txHash, height);
  }

  /** The raw headers of `count` blocks from `height` on. */
  function RawHeaders(blocks: seq<Block>, height: nat, count: nat): Hex
    requires height + count <= |blocks|
  {
    EncodeChain(HeadersOf(blocks[height..height + count]))
  }

  /** `txHash` is the hash of transaction `i` of the block at `height`. */
  predicate InChain(sha: Sha256, blocks: seq<Block>, txHash: Hex, height: nat, i: nat) {
    && height < |blocks|
    && CommitsToTxs(sha, blocks[height])
    && i < |blocks[height].txs|
    && txHash == Reverse(TxId(sha, blocks[height].txs[i]))
  }

  /** What the client answers about that block when asked for `count` headers. */
  ghost predicate AnswersFrom(sha: Sha256, client: Client, blocks: seq<Block>, txHash: Hex, height: nat, i: nat,
                              count: nat)
  {
    && 1 <= count && height + count <= |blocks|
    && i < |blocks[height].txs|
    && var ids := TxIds(sha, blocks[height].txs);
    && client.headersChain(height, count - 1) == Some(RawHeaders(blocks, height, count))
    && client.transactionMerkle(txHash, height) == Some(MerkleBranch(height, HonestMerkle(sha, ids, i), i))
    && client.coinbaseTxHash(height) == Some(Reverse(ids[0]))
    && client.rawTransaction(Reverse(ids[0])) == Some(blocks[height].txs[0])
    && client.coinbaseMerkle(Reverse(ids[0]), height) == Some(MerkleBranch(height, HonestMerkle(sha, ids, 0), 0))
  }

  predicate KnowsTransaction(client: Client, txHash: Hex, height: int, tip: int) {
    && client.transaction(txHash).Some?
    && client.confirmations(txHash) == Some(Confirmations(height, tip))
    && client.latestBlockHeight == Some(tip)
  }

  /** It answers from one chain, whatever number of headers up to the tip it is asked for. */
  ghost predicate AnswersTruly(sha: Sha256, client: Client, blocks: seq<Block>, txHash: Hex, height: nat, i: nat) {
    forall count: nat :: 1 <= count && height + count <= |blocks|
                         ==> AnswersFrom(sha, client, blocks, txHash, height, i, count)
  }

  /** A client that answers from one chain throughout. */
  ghost predicate Honest(sha: Sha256, client: Client, blocks: seq<Block>, txHash: Hex, height: nat, i: nat) {
    && KnowsTransaction(client, txHash, height, |blocks| - 1)
    && AnswersTruly(sha, client, blocks, txHash, height, i)
  }

  /**
   A client that answers from one chain, but whose tip grew by `grown` blocks between the reading of the
   confirmations and that of the tip. The chain has the transaction in no other block.
   */
  ghost predicate HonestWhileGrowing(sha: Sha256, client: Client, blocks: seq<Block>, txHash: Hex,
                                     height: nat, i: nat, grown: nat)
  {
    && client.transaction(txHash).Some?
    && client.confirmations(txHash) == Some(Confirmations(height, |blocks| - 1 - grown))
    && client.latestBlockHeight == Some(|blocks| - 1)
    && AnswersTruly(sha, client, blocks, txHash, height, i)
    && forall h :: h != height ==> client.transactionMerkle(txHash, h).None?
  }

  /** The answers of an honest client: exactly `required` headers, all inside the tip. */
  function HonestAnswers(sha: Sha256, blocks: seq<Block>, height: nat, i: nat, required: nat): Answers
    requires height + required <= |blocks|
    requires height < |blocks| && i < |blocks[height].txs|
  {
    var ids := TxIds(sha, blocks[height].txs);
    Answers(
      RawHeaders(blocks, height, required),
      MerkleBranch(height, HonestMerkle(sha, ids, i), i),
      blocks[height].txs[0],
      MerkleBranch(height, HonestMerkle(sha, ids, 0), 0))
  }

  /** The height asked for is the true one plus what the tip grew between the two readings. */
  lemma CollectedAtHeight(txHash: Hex, required: int, client: Client, height: int, tip: int, grown: int)
    requires 0 < height <= tip
    requires client.transaction(txHash).Some?
    requires client.confirmations(txHash) == Some(Confirmations(height, tip))
    requires client.latestBlockHeight == Some(tip + grown)
    ensures Collected(txHash, required, client)
            == if tip - height + 1 < required then Err(NotEnoughConfirmations(tip - height + 1, required))
               else Await(AnswersAt(txHash, height + grown, required, client))
  {
    assert tip + grown - Confirmations(height, tip) + 1 == height + grown;
  }

  lemma HonestAnswersAt(sha: Sha256, client: Client, blocks: seq<Block>, txHash: Hex, height: nat, i: nat,
                        required: nat)
    requires AnswersFrom(sha, client, blocks, txHash, height, i, required)
    ensures AnswersAt(txHash, height, required, client) == Some(HonestAnswers(sha, blocks, height, i, required))
  {
  }

  lemma CollectedFrom(txHash: Hex, required: int, client: Client, height: int, tip: int, answers: Answers)
    requires KnowsTransaction(client, txHash, height, tip) && 0 < height && height + required <= tip + 1
    requires 1 <= required
    requires AnswersAt(txHash, height, required, client) == Some(answers)
    ensures Collected(txHash, required, client) == Ok(answers)
  {
    CollectedAtHeight(txHash, required, client, height, tip, 0);
  }

  /**
   Exactly `required` headers, all inside the tip, and the two branches of the right block are what an honest
   client gives; of the checks of the proof made from them only the one of the headers can fail.
   */
  lemma HonestEvidence(sha: Sha256, client: Client, blocks: seq<Block>, txHash: Hex, height: nat, i: nat,
                       required: nat, previous: int, current: int) returns (answers: Answers)
    requires InChain(sha, blocks, txHash, height, i) && i < 0x8000_0000
    requires Honest(sha, client, blocks, txHash, height, i)
    requires 1 <= required && height + required <= |blocks|
    ensures AnswersAt(txHash, height, required, client) == Some(answers)
    ensures var headers := HeadersOf(blocks[height..height + required]);
            && EncodeChain(headers) == answers.headers
            && (ProofAccepted(sha, txHash, required, previous, current, ProofFrom(sha, answers), headers)
                <==> Accepted(sha, headers, previous, current))
  {
    answers := HonestAnswers(sha, blocks, height, i, required);
    HonestAnswersAt(sha, client, blocks, txHash, height, i, required);
    HonestProofVerdict(sha, blocks, txHash, height, i, required, previous, current);
  }

  /**
   Against an honest client a transaction is accepted exactly when it has enough confirmations and the
   headers that confirm it form an accepted chain.
   */
  lemma HonestVerdict(sha: Sha256, client: Client, blocks: seq<Block>, txHash: Hex, height: nat, i: nat,
                      required: int, previous: int, current: int)
    requires InChain(sha, blocks, txHash, height, i)
    requires Honest(sha, client, blocks, txHash, height, i)
    requires 1 <= height && i < 0x8000_0000
    ensures SpvAccepted(sha, txHash, required, previous, current, client) <==>
            (1 <= required && height + required <= |blocks|
             && Accepted(sha, HeadersOf(blocks[height..height + required]), previous, current))
  {
    hide SpvAccepted, ProofAccepted, Accepted, ProofFrom, AnswersFrom, EncodeChain, AnswersAt;
    if 1 <= required && height + required <= |blocks| {
      var answers := HonestEvidence(sha, client, blocks, txHash, height, i, required, previous, current);
      CollectedFrom(txHash, required, client, height, |blocks| - 1, answers);
      AcceptedFrom(sha, txHash, required, previous, current, client, answers,
                   HeadersOf(blocks[height..height + required]));
    } else {
      CollectedAtHeight(txHash, required, client, height, |blocks| - 1, 0);
      NotAcceptedWithout(sha, txHash, required, previous, current, client);
    }
  }

  lemma NotAcceptedWithout(sha: Sha256, txHash: Hex, required: int, previous: int, current: int, client: Client)
    requires required < 1 || Collected(txHash, required, client).Err?
    ensures !SpvAccepted(sha, txHash, required, previous, current, client)
  {
  }

  lemma AcceptedFrom(sha: Sha256, txHash: Hex, required: int, previous: int, current: int, client: Client,
                     answers: Answers, headers: seq<BitcoinHeader>)
    requires Collected(txHash, required, client) == Ok(answers)
    requires EncodeChain(headers) == answers.headers
    ensures SpvAccepted(sha, txHash, required, previous, current, client)
            <==> ProofAccepted(sha, txHash, required, previous, current, ProofFrom(sha, answers), headers)
  {
    OnlyHeaders(sha, txHash, required, previous, current, ProofFrom(sha, answers), headers);
  }

  lemma HonestProofVerdict(sha: Sha256, blocks: seq<Block>, txHash: Hex, height: nat, i: nat,
                           required: nat, previous: int, current: int)
    requires 1 <= required && height + required <= |blocks|
    requires InChain(sha, blocks, txHash, height, i) && i < 0x8000_0000
    ensures var headers := HeadersOf(blocks[height..height + required]);
            var proof := ProofFrom(sha, HonestAnswers(sha, blocks, height, i, required));
            ProofAccepted(sha, txHash, required, previous, current, proof, headers)
            <==> Accepted(sha, headers, previous, current)
  {
    hide Accepted, MerkleAccepts, Root;
    var block := blocks[height];
    var ids := TxIds(sha, block.txs);
    assert HeadersOf(blocks[height..height + required])[0] == block.header;
    HonestLeads(sha, ids, i);
    HonestLeads(sha, ids, 0);
    SplitAfterCreate(HonestMerkle(sha, ids, i));
    SplitAfterCreate(HonestMerkle(sha, ids, 0));
  }

  lemma HonestLeads(sha: Sha256, level: Level, i: nat)
    requires i < |level| && i < 0x8000_0000
    ensures ProofLeads(sha, Reverse(level[i]), Root(sha, level), Concat(ReverseAll(HonestMerkle(sha, level, i))), i)
  {
    MemberIsAccepted(sha, level, i);
  }

  /**
   If the tip grows between the reading of the confirmations and that of the tip, the proof is sought in
   a block above the one that holds the transaction. So a transaction is accepted exactly when the tip did not
   grow and everything else is as in `HonestVerdict`.
   */
  lemma TipGrowthVerdict(sha: Sha256, client: Client, blocks: seq<Block>, txHash: Hex, height: nat, i: nat,
                         required: int, previous: int, current: int, grown: nat)
    requires InChain(sha, blocks, txHash, height, i)
    requires HonestWhileGrowing(sha, client, blocks, txHash, height, i, grown)
    requires 1 <= height && i < 0x8000_0000
    ensures SpvAccepted(sha, txHash, required, previous, current, client) <==>
            (grown == 0 && 1 <= required && height + required <= |blocks|
             && Accepted(sha, HeadersOf(blocks[height..height + required]), previous, current))
  {
    hide SpvAccepted, Accepted, AnswersFrom, InChain;
    if grown == 0 {
      HonestVerdict(sha, client, blocks, txHash, height, i, required, previous, current);
    } else {
      if height < |blocks| - grown {
        CollectedAtHeight(txHash, required, client, height, |blocks| - 1 - grown, grown);
        assert AnswersAt(txHash, height + grown, required, client).None?;
      }
      NotAcceptedWithout(sha, txHash, required, previous, current, client);
    }
  }

  // A concrete case: three blocks of one transaction each, and a hash function that is always zero.

  const ZERO_SHA: Sha256 := text => ZERO_HASH

  const COINBASE := Tx(1, [], [], 0)

  const EASY_BLOCK := Block(BitcoinHeader(1, ZERO_HASH, ZERO_HASH, 0, 0x0300_0001, 0), [COINBASE])

  const THREE_BLOCKS := [EASY_BLOCK, EASY_BLOCK, EASY_BLOCK]

  /** Answers from the three blocks about the transaction at height 1; only the number of confirmations varies. */
  function ThreeBlocksClient(confirmations: int): Client {
    Client(
      txHash => Some(COINBASE),
      txHash => Some(confirmations),
      Some(2),
      (first, more) =>
        if 0 <= first && 0 <= more && first + more < 3 then Some(RawHeaders(THREE_BLOCKS, first, more + 1)) else None,
      (txHash, height) => if height == 1 then Some(MerkleBranch(1, [], 0)) else None,
      (txHash, height) => if height == 1 then Some(MerkleBranch(1, [], 0)) else None,
      height => Some(ZERO_HASH),
      txHash => Some(COINBASE))
  }

  lemma {:induction false} ZeroIsZero(h: Hex)
    requires forall k :: 0 <= k < |h| ==> h[k] == 0
    ensures ToNatLE(h) == 0
  {
    if h != [] {
      ZeroIsZero(h[1..]);
    }
  }

  lemma EasyBlock()
    ensures Reverse(ZERO_HASH) == ZERO_HASH
    ensures TxIds(ZERO_SHA, [COINBASE]) == [ZERO_HASH] && Root(ZERO_SHA, [ZERO_HASH]) == ZERO_HASH
    ensures HonestMerkle(ZERO_SHA, [ZERO_HASH], 0) == []
  {
  }

  lemma EasyHeaderHasWork()
    ensures Accepted(ZERO_SHA, [EASY_BLOCK.header], 1, 1)
  {
    hide Encode;
    ZeroIsZero(ZERO_HASH);
    TargetOne(EASY_BLOCK.header.bits);
  }

  /**
   Required is one confirmation. If both readings are made at the tip 2, the transaction in block 1 is accepted; if
   the confirmations are read at the tip 1 and block 2 arrives before the tip is read, it is rejected.
   */
  lemma TipGrowthExample()
    ensures SpvAccepted(ZERO_SHA, ZERO_HASH, 1, 1, 1, ThreeBlocksClient(Confirmations(1, 2)))
    ensures !SpvAccepted(ZERO_SHA, ZERO_HASH, 1, 1, 1, ThreeBlocksClient(Confirmations(1, 1)))
  {
    hide SpvAccepted, Accepted, Reverse, TxIds, Root, HonestMerkle, RawHeaders;
    EasyBlock();
    EasyHeaderHasWork();
    assert HeadersOf(THREE_BLOCKS[1..2]) == [EASY_BLOCK.header];
    TipGrowthVerdict(ZERO_SHA, ThreeBlocksClient(2), THREE_BLOCKS, ZERO_HASH, 1, 0, 1, 1, 1, 0);
    TipGrowthVerdict(ZERO_SHA, ThreeBlocksClient(1), THREE_BLOCKS, ZERO_HASH, 1, 0, 1, 1, 1, 1);
  }
}
