/** Freshness proofs: the compact codec, the verifier that re-fetches blocks, and the
    provider chain that calls it (node/attestation/src/freshness.rs and lib.rs). */
module Freshness {
  import opened Bytes
  import opened Merkle

  datatype BlockRef = BlockRef(chainId: u64, blockNumber: u64)

  datatype Config = Config(requiredChains: seq<u64>, minBlocks: nat, enabled: bool)

  datatype Proof = Proof(
    blocks: seq<BlockInfo>,
    merkleRoot: Bytes,
    compact: Bytes,
    config: Config)

  datatype Commitment = Commitment(merkleRoot: Bytes, refs: seq<BlockRef>)

  /** A fixed snapshot of what the gateways answer for one chain id; `None` is a failed call. */
  type Gateway = u64 -> Option<seq<BlockInfo>>

  // ---------- Compact codec ----------

  function RefOf(b: BlockInfo): BlockRef {
    BlockRef(b.chainId, b.blockNumber)
  }

  function RefsOf(blocks: seq<BlockInfo>): (r: seq<BlockRef>)
    ensures |r| == |blocks|
    ensures forall i :: 0 <= i < |r| ==> r[i] == RefOf(blocks[i])
  {
    seq(|blocks|, i requires 0 <= i < |blocks| => RefOf(blocks[i]))
  }

  function EncodeRef(r: BlockRef): (b: Bytes)
    ensures |b| == 16
  {
    LeEncode(r.chainId, 8) + LeEncode(r.blockNumber, 8)
  }

  function EncodeRefs(refs: seq<BlockRef>): (b: Bytes)
    ensures |b| == 16 * |refs|
  {
    if refs == [] then [] else EncodeRef(refs[0]) + EncodeRefs(refs[1..])
  }

  /** Version, number of blocks truncated to one byte, root, references. */
  function EncodeCompact(root: Bytes, refs: seq<BlockRef>): Bytes {
    [1, |refs| % 256] + root + EncodeRefs(refs)
  }

  function DecodeRef(b: Bytes): BlockRef
    requires |b| == 16
  {
    Pow256Widths();
    LeDecodeBound(b[..8]);
    LeDecodeBound(b[8..]);
    BlockRef(LeDecode(b[..8]), LeDecode(b[8..]))
  }

  function DecodeRefs(b: Bytes): (r: seq<BlockRef>)
    requires |b| % 16 == 0
    ensures 16 * |r| == |b|
  {
    if b == [] then [] else [DecodeRef(b[..16])] + DecodeRefs(b[16..])
  }

  function ParseCompact(data: Bytes): Option<Commitment> {
    if |data| < 34 || data[0] != 1 || |data| != 34 + 16 * (data[1] as int) then None
    else Some(Commitment(data[2..34], DecodeRefs(data[34..])))
  }

  lemma {:induction false} EncodeRefsAppend(refs: seq<BlockRef>, r: BlockRef)
    ensures EncodeRefs(refs + [r]) == EncodeRefs(refs) + EncodeRef(r)
  {
    if refs == [] {
      assert [r][1..] == [];
      assert refs + [r] == [r];
    } else {
      assert (refs + [r])[1..] == refs[1..] + [r];
      EncodeRefsAppend(refs[1..], r);
    }
  }

  method CreateCompactRepresentation(blocks: seq<BlockInfo>, merkleRoot: Bytes) returns (compact: Bytes)
    ensures compact == EncodeCompact(merkleRoot, RefsOf(blocks))
  {
    compact := [1, |blocks| % 256];
    compact := compact + merkleRoot;
    ghost var head := compact;
    for k := 0 to |blocks|
      invariant compact == head + EncodeRefs(RefsOf(blocks[..k]))
    {
      compact := compact + LeEncode(blocks[k].chainId, 8);
      compact := compact + LeEncode(blocks[k].blockNumber, 8);
      EncodeRefsAppend(RefsOf(blocks[..k]), RefOf(blocks[k]));
      assert RefsOf(blocks[..k + 1]) == RefsOf(blocks[..k]) + [RefOf(blocks[k])];
    }
    assert blocks[..|blocks|] == blocks;
  }

  method ParseCompactData(data: Bytes) returns (r: Option<Commitment>)
    ensures r == ParseCompact(data)
  {
    if |data| < 34 {
      return None;
    }
    if data[0] != 1 {
      return None;
    }
    var numBlocks := data[1] as int;
    if |data| != 34 + numBlocks * 16 {
      return None;
    }
    var refs: seq<BlockRef> := [];
    for i := 0 to numBlocks
      invariant refs + DecodeRefs(data[34 + 16 * i..]) == DecodeRefs(data[34..])
    {
      var offset := 34 + i * 16;
      var tail := data[offset..];
      assert tail[16..] == data[34 + 16 * (i + 1)..];
      assert tail[..16] == data[offset..offset + 16];
      refs := refs + [DecodeRef(data[offset..offset + 16])];
    }
    assert data[34 + 16 * numBlocks..] == [] && refs + [] == refs;
    return Some(Commitment(data[2..34], refs));
  }

  lemma DecodeEncodeRef(r: BlockRef)
    ensures DecodeRef(EncodeRef(r)) == r
  {
    Pow256Widths();
    var b := EncodeRef(r);
    assert b[..8] == LeEncode(r.chainId, 8) && b[8..] == LeEncode(r.blockNumber, 8);
    LeDecodeEncode(r.chainId, 8);
    LeDecodeEncode(r.blockNumber, 8);
  }

  lemma {:induction false} DecodeEncodeRefs(refs: seq<BlockRef>)
    ensures DecodeRefs(EncodeRefs(refs)) == refs
  {
    if refs != [] {
      var b := EncodeRefs(refs);
      assert b[..16] == EncodeRef(refs[0]) && b[16..] == EncodeRefs(refs[1..]);
      DecodeEncodeRef(refs[0]);
      DecodeEncodeRefs(refs[1..]);
    }
  }

  lemma {:induction false} EncodeDecodeRefs(b: Bytes)
    requires |b| % 16 == 0
    ensures EncodeRefs(DecodeRefs(b)) == b
  {
    if b != [] {
      EncodeDecodeRefs(b[16..]);
      LeEncodeDecode(b[..16][..8]);
      LeEncodeDecode(b[..16][8..]);
      assert EncodeRef(DecodeRef(b[..16])) == b[..16];
      assert DecodeRefs(b)[1..] == DecodeRefs(b[16..]);
      assert b == b[..16] + b[16..];
    }
  }

  /** Encoding then parsing: up to 255 references come back, 256 or more are always refused
      (the count byte has wrapped, so the size check fails). */
  lemma CompactRoundTrip(root: Bytes, refs: seq<BlockRef>)
    requires |root| == 32
    ensures ParseCompact(EncodeCompact(root, refs)) ==
            if |refs| <= 255 then Some(Commitment(root, refs)) else None
  {
    var data := EncodeCompact(root, refs);
    assert data[2..34] == root && data[34..] == EncodeRefs(refs);
    assert data[0] == 1 && data[1] == |refs| % 256 && |data| == 34 + 16 * |refs|;
    DecodeEncodeRefs(refs);
  }

  /** Parsing then encoding: every accepted byte string is the encoding of what it parses to,
      so no two byte strings parse alike. */
  lemma AcceptedCompactIsCanonical(data: Bytes)
    requires ParseCompact(data).Some?
    ensures EncodeCompact(ParseCompact(data).value.merkleRoot, ParseCompact(data).value.refs) == data
  {
    EncodeDecodeRefs(data[34..]);
    HeadAndTail(data);
  }

  lemma HeadAndTail(data: Bytes)
    requires |data| >= 34
    ensures data == [data[0], data[1]] + data[2..34] + data[34..]
  {
  }

  // ---------- Building and fetching ----------

  ghost function NewProof(H: HashFn, blocks: seq<BlockInfo>, config: Config): Proof {
    var root := TreeRoot(H, blocks);
    Proof(blocks, root, EncodeCompact(root, RefsOf(blocks)), config)
  }

  method MakeProof(H: HashFn, blocks: seq<BlockInfo>, config: Config) returns (proof: Proof)
    ensures proof == NewProof(H, blocks, config)
  {
    var root := ComputeMerkleRoot(H, blocks);
    var compact := CreateCompactRepresentation(blocks, root);
    proof := Proof(blocks, root, compact, config);
  }

  function FirstOnChain(blocks: seq<BlockInfo>, chainId: u64): (r: Option<BlockInfo>)
    ensures r.None? ==> forall i :: 0 <= i < |blocks| ==> blocks[i].chainId != chainId
    ensures r.Some? ==> exists i :: 0 <= i < |blocks| && r.value == blocks[i] && blocks[i].chainId == chainId
                                    && forall j :: 0 <= j < i ==> blocks[j].chainId != chainId
  {
    if blocks == [] then None
    else if blocks[0].chainId == chainId then Some(blocks[0])
    else FirstOnChain(blocks[1..], chainId)
  }

  function FetchChainBlock(gw: Gateway, chainId: u64): (r: Option<BlockInfo>)
    ensures r.Some? ==> r.value.chainId == chainId && gw(chainId).Some? && r.value in gw(chainId).value
  {
    match gw(chainId)
    case None => None
    case Some(blocks) => FirstOnChain(blocks, chainId)
  }

  /** The verifier can fetch a block for every reference, and `blocks` are those blocks. */
  ghost predicate Fetches(gw: Gateway, refs: seq<BlockRef>, blocks: seq<BlockInfo>) {
    && |blocks| == |refs|
    && forall i :: 0 <= i < |refs| ==> FetchChainBlock(gw, refs[i].chainId) == Some(blocks[i])
  }

  /** The number in a reference is compared only to log a warning: the latest block is used. */
  method FetchBlocksByReferences(gw: Gateway, refs: seq<BlockRef>) returns (r: Option<seq<BlockInfo>>)
    ensures r.Some? ==> Fetches(gw, refs, r.value)
    ensures r.None? ==> exists i :: 0 <= i < |refs| && FetchChainBlock(gw, refs[i].chainId).None?
  {
    var blocks: seq<BlockInfo> := [];
    for k := 0 to |refs|
      invariant |blocks| == k
      invariant forall i :: 0 <= i < k ==> FetchChainBlock(gw, refs[i].chainId) == Some(blocks[i])
    {
      match FetchChainBlock(gw, refs[k].chainId)
      case Some(block) =>
        blocks := blocks + [block];
      case None =>
        return None;
    }
    return Some(blocks);
  }

  // ---------- Verification ----------

  ghost predicate StructureOk(H: HashFn, proof: Proof) {
    && (proof.config.enabled ==> |proof.blocks| >= proof.config.minBlocks)
    && TreeRoot(H, proof.blocks) == proof.merkleRoot
  }

  /** What `verify_freshness_proof` accepts, read off its own parse, fetch and root check. */
  ghost predicate Verifies(H: HashFn, proof: Proof, gw: Gateway) {
    proof.config.enabled ==>
      && StructureOk(H, proof)
      && var parsed := ParseCompact(proof.compact);
      && parsed.Some?
      && exists blocks :: Fetches(gw, parsed.value.refs, blocks) && TreeRoot(H, blocks) == parsed.value.merkleRoot
  }

  method VerifyFreshnessProof(H: HashFn, proof: Proof, gw: Gateway) returns (ok: bool)
    ensures ok <==> Verifies(H, proof, gw)
  {
    if !proof.config.enabled {
      return true;
    }
    if |proof.blocks| < proof.config.minBlocks {
      return false;
    }
    var computed := ComputeMerkleRoot(H, proof.blocks);
    if computed != proof.merkleRoot {
      return false;
    }
    var parsed := ParseCompactData(proof.compact);
    if parsed.None? {
      return false;
    }
    var fetched := FetchBlocksByReferences(gw, parsed.value.refs);
    if fetched.None? {
      return false;
    }
    var root := ComputeMerkleRoot(H, fetched.value);
    FetchesUnique(gw, parsed.value.refs, fetched.value);
    return parsed.value.merkleRoot == root;
  }

  lemma FetchesUnique(gw: Gateway, refs: seq<BlockRef>, blocks: seq<BlockInfo>)
    requires Fetches(gw, refs, blocks)
    ensures forall other :: Fetches(gw, refs, other) ==> other == blocks
  {
    forall other | Fetches(gw, refs, other) ensures other == blocks {
      forall i | 0 <= i < |refs| ensures other[i] == blocks[i] {
        assert Some(other[i]) == FetchChainBlock(gw, refs[i].chainId) == Some(blocks[i]);
      }
    }
  }

  /** The gateway's current block for the chain of `b` is `b` in chain, number and hash. */
  ghost predicate IsCurrent(gw: Gateway, b: BlockInfo) {
    var f := FetchChainBlock(gw, b.chainId);
    f.Some? && SameBlock(b, f.value)
  }

  ghost predicate AllCurrent(gw: Gateway, blocks: seq<BlockInfo>) {
    forall i :: 0 <= i < |blocks| ==> IsCurrent(gw, blocks[i])
  }

  ghost predicate NoCollisionWithFetched(H: HashFn, gw: Gateway, blocks: seq<BlockInfo>) {
    forall other :: Fetches(gw, RefsOf(blocks), other) ==> NoCollision(H, blocks, other)
  }

  /** Acceptance is exact: a proof built from `blocks` with freshness enabled verifies if and
      only if there are at least `minBlocks` and at most 255 of them and each is, in chain id,
      number and hash, the block the verifier fetches. */
  lemma FreshnessAcceptanceExact(H: HashFn, blocks: seq<BlockInfo>, config: Config, gw: Gateway)
    requires Digests32(H) && NoCollisionWithFetched(H, gw, blocks)
    requires config.enabled
    ensures Verifies(H, NewProof(H, blocks, config), gw) <==>
            config.minBlocks <= |blocks| <= 255 && AllCurrent(gw, blocks)
  {
    var proof := NewProof(H, blocks, config);
    var refs := RefsOf(blocks);
    RootLength(H, blocks);
    CompactRoundTrip(proof.merkleRoot, refs);
    if Verifies(H, proof, gw) {
      var fetched :| Fetches(gw, refs, fetched) && TreeRoot(H, fetched) == proof.merkleRoot;
      MerkleBinding(H, blocks, fetched);
      forall i | 0 <= i < |blocks| ensures IsCurrent(gw, blocks[i]) {
        assert FetchChainBlock(gw, refs[i].chainId) == Some(fetched[i]);
        assert SameBlock(blocks[i], fetched[i]);
      }
    }
    if config.minBlocks <= |blocks| <= 255 && AllCurrent(gw, blocks) {
      CurrentBlocksVerify(H, blocks, config, gw);
    }
  }

  /** The accepting half needs no assumption about collisions. */
  lemma CurrentBlocksVerify(H: HashFn, blocks: seq<BlockInfo>, config: Config, gw: Gateway)
    requires Digests32(H)
    requires config.minBlocks <= |blocks| <= 255 && AllCurrent(gw, blocks)
    ensures Verifies(H, NewProof(H, blocks, config), gw)
  {
    var proof := NewProof(H, blocks, config);
    var refs := RefsOf(blocks);
    RootLength(H, blocks);
    CompactRoundTrip(proof.merkleRoot, refs);
    var fetched := FetchCurrent(gw, blocks);
    SameBlocksSameRoot(H, blocks, fetched);
  }

  lemma FetchCurrent(gw: Gateway, blocks: seq<BlockInfo>) returns (fetched: seq<BlockInfo>)
    requires AllCurrent(gw, blocks)
    ensures Fetches(gw, RefsOf(blocks), fetched) && SameBlocks(blocks, fetched)
  {
    assert forall i :: 0 <= i < |blocks| ==> IsCurrent(gw, blocks[i]);
    fetched := seq(|blocks|, i requires 0 <= i < |blocks| => FetchChainBlock(gw, blocks[i].chainId).value);
  }

  // ---------- The collision hypothesis is met ----------

  /** The strings hashed for a list of two blocks are the two leaf inputs and the root's input. */
  lemma HashedOfTwo(H: HashFn, a: BlockInfo, b: BlockInfo, x: Bytes)
    requires Hashed(H, [a, b], x)
    ensures x == LeafInput(a) || x == LeafInput(b) || x == H(LeafInput(a)) + H(LeafInput(b))
  {
    var blocks, leaves := [a, b], Leaves(H, [a, b]);
    if h: nat, i: nat :| 0 < h <= Height(2) && i < Width(2, h) && x == NodeInput(H, leaves, h, i) {
      assert Height(2) == 1 + Height(1) == 1 && Width(2, 1) == 1;
      assert h == 1 && i == 0 && Right(2, 0, 0) == 1;
      assert Node(H, leaves, 0, 0) == leaves[0] && Node(H, leaves, 0, 1) == leaves[1];
    }
  }

  /** For any two blocks with 32-byte hashes on different chains there are a hash function and a gateway
      that meet the hypotheses of exact acceptance, and under which the proof is accepted. */
  lemma SomeProofIsAccepted(a: BlockInfo, b: BlockInfo) returns (H: HashFn, gw: Gateway, config: Config)
    requires a.chainId != b.chainId && |a.blockHash| == |b.blockHash| == 32
    ensures Digests32(H) && config.enabled && NoCollisionWithFetched(H, gw, [a, b])
    ensures Verifies(H, NewProof(H, [a, b], config), gw)
  {
    var blocks, la, lb := [a, b], LeafInput(a), LeafInput(b);
    LeafInputInjective(a, b);
    H := x => if x == la then Zeros(32) else if x == lb then seq(32, _ => 1) else seq(32, _ => 2);
    gw := c => if c == a.chainId then Some([a]) else if c == b.chainId then Some([b]) else None;
    config := Config([], 2, true);
    assert H(la)[0] == 0 && H(lb)[0] == 1 && |H(la) + H(lb)| == 64;
    forall other | Fetches(gw, RefsOf(blocks), other) ensures NoCollision(H, blocks, other) {
      assert other[0] == a && other[1] == b;
      assert other == blocks;
      forall x, y | Hashed(H, blocks, x) && Hashed(H, blocks, y) && H(x) == H(y) ensures x == y {
        HashedOfTwo(H, a, b, x);
        HashedOfTwo(H, a, b, y);
        assert x != la && x != lb ==> H(x)[0] == 2;
        assert y != la && y != lb ==> H(y)[0] == 2;
      }
    }
    assert IsCurrent(gw, a) && IsCurrent(gw, b);
    CurrentBlocksVerify(H, blocks, config, gw);
  }

  /** And for any block that is not the current one of its chain there are some under which the proof is
      refused. */
  lemma SomeProofIsRefused(stale: BlockInfo, current: BlockInfo) returns (H: HashFn, gw: Gateway, config: Config)
    requires stale.chainId == current.chainId && !SameBlock(stale, current)
    ensures Digests32(H) && config.enabled && config.minBlocks == 1 && NoCollisionWithFetched(H, gw, [stale])
    ensures FetchChainBlock(gw, stale.chainId) == Some(current)
    ensures !Verifies(H, NewProof(H, [stale], config), gw)
  {
    var past := LeafInput(stale);
    LeafInputInjective(stale, current);
    H := x => if x == past then Zeros(32) else seq(32, _ => 1);
    gw := c => Some([current]);
    config := Config([], 1, true);
    assert H(past)[0] == 0 && H(LeafInput(current))[0] == 1;
    forall other | Fetches(gw, RefsOf([stale]), other) ensures NoCollision(H, [stale], other) {
      assert other[0] == current && Height(1) == 0;
      assert forall x :: Hashed(H, [stale], x) ==> x == past;
      assert forall x :: Hashed(H, other, x) ==> x == LeafInput(current);
    }
    assert !IsCurrent(gw, [stale][0]);
    FreshnessAcceptanceExact(H, [stale], config, gw);
  }

  // ---------- The prover's side ----------

  /** `fetch_blocks_internal`: one block per reachable required chain, in order. */
  function ReachableBlocks(gw: Gateway, chains: seq<u64>): (r: seq<BlockInfo>)
    ensures |r| <= |chains|
    ensures forall b :: b in r ==> FetchChainBlock(gw, b.chainId) == Some(b)
  {
    if chains == [] then []
    else
      var rest := ReachableBlocks(gw, chains[1..]);
      match FetchChainBlock(gw, chains[0])
      case Some(b) => [b] + rest
      case None => rest
  }

  method FetchBlocksInternal(gw: Gateway, config: Config) returns (r: Option<seq<BlockInfo>>)
    ensures var bs := ReachableBlocks(gw, config.requiredChains);
            r == if |bs| < config.minBlocks then None else Some(bs)
  {
    var blocks: seq<BlockInfo> := [];
    var chains := config.requiredChains;
    for k := 0 to |chains|
      invariant blocks + ReachableBlocks(gw, chains[k..]) == ReachableBlocks(gw, chains)
    {
      assert chains[k..][1..] == chains[k + 1..];
      match FetchChainBlock(gw, chains[k])
      case Some(block) => blocks := blocks + [block];
      case None =>
    }
    assert chains[|chains|..] == [] && blocks + [] == blocks;
    assert chains[0..] == chains;
    if |blocks| < config.minBlocks {
      return None;
    }
    return Some(blocks);
  }

  /** The blocks of two lists of chains are those of the one followed by those of the other; a single chain
      gives its current block, if it has one.  So reachable chains keep their order, and no other matters. */
  lemma {:induction false} ReachableExactly(gw: Gateway, a: seq<u64>, b: seq<u64>, c: u64)
    ensures ReachableBlocks(gw, a + b) == ReachableBlocks(gw, a) + ReachableBlocks(gw, b)
    ensures ReachableBlocks(gw, [c]) ==
            if FetchChainBlock(gw, c).Some? then [FetchChainBlock(gw, c).value] else []
    decreases |a|
  {
    assert [c][1..] == [];
    if a == [] {
      assert a + b == b;
    } else {
      assert (a + b)[1..] == a[1..] + b;
      ReachableExactly(gw, a[1..], b, c);
    }
  }

  /** An honest prover and a verifier that see one snapshot agree, whatever chains are reachable, exactly
      when the reachable ones are enough and fit the count byte. */
  lemma HonestProofVerifies(H: HashFn, config: Config, gw: Gateway)
    requires Digests32(H) && config.enabled
    ensures var blocks := ReachableBlocks(gw, config.requiredChains);
      Verifies(H, NewProof(H, blocks, config), gw) <==> config.minBlocks <= |blocks| <= 255
  {
    var blocks := ReachableBlocks(gw, config.requiredChains);
    if config.minBlocks <= |blocks| <= 255 {
      CurrentBlocksVerify(H, blocks, config, gw);
    }
    RootLength(H, blocks);
    CompactRoundTrip(TreeRoot(H, blocks), RefsOf(blocks));
  }

  // ---------- The provider chain ----------

  datatype ProviderAnswer = Verified | Unsupported | Failed | Errored

  datatype UserData = UserData(ephemeralPublicKey: Bytes, blockHashes: seq<BlockInfo>)

  /** What the chain asks of the user data once a provider has vouched for it; `None` is user
      data that does not decode. */
  ghost predicate UserDataFresh(H: HashFn, userdata: Option<UserData>, config: Config, gw: Gateway) {
    && userdata.Some?
    && var blocks := userdata.value.blockHashes;
       if blocks != [] then Verifies(H, NewProof(H, blocks, config), gw) else !config.enabled
  }

  /** Provider `k` decides: those before it abstained or could not be asked. */
  ghost predicate Decides(answers: seq<ProviderAnswer>, k: nat) {
    && k < |answers|
    && (answers[k].Verified? || answers[k].Failed?)
    && forall j :: 0 <= j < k ==> answers[j].Unsupported? || answers[j].Errored?
  }

  /** The deciding provider vouches, and the user data is fresh enough. */
  ghost predicate Attests(answers: seq<ProviderAnswer>, userdata: Option<UserData>, H: HashFn, config: Config,
                          gw: Gateway) {
    (exists k: nat :: Decides(answers, k) && answers[k].Verified?) && UserDataFresh(H, userdata, config, gw)
  }

  method VerifyAttestation(answers: seq<ProviderAnswer>, userdata: Option<UserData>,
                           H: HashFn, config: Config, gw: Gateway) returns (ok: bool)
    ensures ok <==> Attests(answers, userdata, H, config, gw)
  {
    for k := 0 to |answers|
      invariant forall j :: 0 <= j < k ==> answers[j].Unsupported? || answers[j].Errored?
    {
      match answers[k]
      case Verified =>
        assert Decides(answers, k);
        if userdata.None? {
          return false;
        }
        if userdata.value.blockHashes != [] {
          var proof := MakeProof(H, userdata.value.blockHashes, config);
          ok := VerifyFreshnessProof(H, proof, gw);
          return;
        }
        return !config.enabled;
      case Unsupported =>
      case Failed =>
        assert forall j: nat :: Decides(answers, j) ==> j == k;
        return false;
      case Errored =>
    }
    return false;
  }

  /** End to end, with freshness required: user data passes exactly when it decodes and carries
      between one (and `minBlocks`) and 255 blocks, each current at the verifier's gateway. */
  lemma AttestationFreshnessExact(H: HashFn, userdata: Option<UserData>, config: Config, gw: Gateway)
    requires Digests32(H) && config.enabled
    requires userdata.Some? ==> NoCollisionWithFetched(H, gw, userdata.value.blockHashes)
    ensures UserDataFresh(H, userdata, config, gw) <==>
            && userdata.Some?
            && 0 < |userdata.value.blockHashes| <= 255
            && config.minBlocks <= |userdata.value.blockHashes|
            && AllCurrent(gw, userdata.value.blockHashes)
  {
    if userdata.Some? {
      FreshnessAcceptanceExact(H, userdata.value.blockHashes, config, gw);
    }
  }

  /** The whole chain: providers that abstain or cannot be asked decide nothing, and the first other one
      decides, whatever comes after it.  Its yes counts exactly if the user data decodes and, with freshness
      required, carries enough and not too many blocks, each current; with freshness not required, the
      blocks and the gateway do not matter at all. */
  lemma AttestationExact(before: seq<ProviderAnswer>, answer: ProviderAnswer, after: seq<ProviderAnswer>,
                         userdata: Option<UserData>, H: HashFn, config: Config, gw: Gateway)
    requires forall j :: 0 <= j < |before| ==> before[j].Unsupported? || before[j].Errored?
    requires answer.Verified? || answer.Failed?
    requires config.enabled && userdata.Some? ==>
      Digests32(H) && NoCollisionWithFetched(H, gw, userdata.value.blockHashes)
    ensures !Attests(before, userdata, H, config, gw)
    ensures Attests(before + [answer] + after, userdata, H, config, gw) <==>
            && answer.Verified? && userdata.Some?
            && (config.enabled ==>
                  && 0 < |userdata.value.blockHashes| <= 255
                  && config.minBlocks <= |userdata.value.blockHashes|
                  && AllCurrent(gw, userdata.value.blockHashes))
  {
    var all, k := before + [answer] + after, |before|;
    assert all[k] == answer && forall j :: 0 <= j < k ==> all[j] == before[j];
    assert Decides(all, k);
    assert forall j: nat :: Decides(all, j) ==> j == k;
    if config.enabled && userdata.Some? {
      AttestationFreshnessExact(H, userdata, config, gw);
    }
  }
}
