/** The genesis nodes setup as pure functions: how each initial node is
    decoded, which ordered checks the configuration must pass, how many shards
    there are, where every node is placed, and what the lookup tables and the
    read-only queries return. The class in nodes_setup.dfy is proved against
    these definitions. */
module NodesSetupSpec {
  import opened Wrappers
  import opened Uint32

  type Bytes = seq<bv8>

  /** A public-key converter: decodes text into bytes, or fails (None). */
  type Converter = string -> Option<Bytes>

  /** The shard id reserved for the metachain, distinct from every regular
      shard id; adding 1 to it wraps to 0 in uint32. */
  const MetachainShardId: uint32 := 0xFFFF_FFFF

  /** The error kinds of the sharding package that this core returns. */
  datatype Error =
    | ErrNilPubkeyConverter
    | ErrCouldNotParsePubKey
    | ErrCouldNotParseAddress
    | ErrNegativeOrZeroConsensusGroupSize
    | ErrMinNodesPerShardSmallerThanConsensusSize
    | ErrNodesSizeSmallerThanMinNoOfNodes
    | ErrShardIdOutOfRange
    | ErrNoPubKeys
    | ErrPublicKeyNotFoundInGenesis

  /** One entry of the configuration's `initialNodes` list, as loaded. */
  datatype RawNode = RawNode(pubKey: string, address: string)

  /** `InitialNode`: the loaded text plus the fields the setup derives
      (decoded key and address, assigned shard, eligibility). */
  datatype InitialNode = InitialNode(
    pubKeyText: string,
    addressText: string,
    pubKey: Option<Bytes>,
    address: Option<Bytes>,
    assignedShard: uint32,
    eligible: bool)

  /** `nodeInfo`: what the lookup tables hold for one node. */
  datatype NodeInfo = NodeInfo(assignedShard: uint32, eligible: bool, pubKey: Bytes, address: Bytes)

  /** The loaded configuration record. The float32 hysteresis is represented
      by the two products the setup truncates to uint32:
      hystMeta = uint32(float32(metaChainMinNodes) * hysteresis) and
      hystShard = uint32(float32(minNodesPerShard) * hysteresis). */
  datatype GenesisConfig = GenesisConfig(
    startTime: int64,
    roundDuration: uint64,
    consensusGroupSize: uint32,
    minNodesPerShard: uint32,
    metaChainConsensusGroupSize: uint32,
    metaChainMinNodes: uint32,
    hystMeta: uint32,
    hystShard: uint32,
    adaptivity: bool,
    initialNodes: seq<RawNode>)

  /** A lookup table: shard id to the ordered nodes of that shard. */
  type Table = map<uint32, seq<NodeInfo>>

  // ---------------------------------------------------------------------
  // Decoding
  // ---------------------------------------------------------------------

  /** The initial nodes as the loader hands them over: text only. */
  function Loaded(raw: seq<RawNode>): (r: seq<InitialNode>)
    ensures |r| == |raw|
    ensures forall i | 0 <= i < |r| ::
              && r[i].pubKeyText == raw[i].pubKey && r[i].addressText == raw[i].address
              && r[i].pubKey.None? && r[i].address.None?
              && r[i].assignedShard == 0 && !r[i].eligible
  {
    seq(|raw|, i requires 0 <= i < |raw| => InitialNode(raw[i].pubKey, raw[i].address, None, None, 0, false))
  }

  /** What decoding one node leaves in the node, and the error it raises. */
  datatype NodeDecoding = NodeDecoding(node: InitialNode, failure: Option<Error>)

  /** Decodes one node: key decode, then address decode, then the empty-key
      check, then the empty-address check; the first that fails wins. */
  function DecodeNode(n: InitialNode, validatorConverter: Converter, addressConverter: Converter): (r: NodeDecoding)
    ensures r.failure == Some(ErrCouldNotParsePubKey) <==>
              validatorConverter(n.pubKeyText).None?
              || (addressConverter(n.addressText).Some? && n.pubKeyText == "")
    ensures r.failure == Some(ErrCouldNotParseAddress) <==>
              validatorConverter(n.pubKeyText).Some?
              && (addressConverter(n.addressText).None? || (n.pubKeyText != "" && n.addressText == ""))
    ensures r.failure.None? <==>
              validatorConverter(n.pubKeyText).Some? && addressConverter(n.addressText).Some?
              && n.pubKeyText != "" && n.addressText != ""
    ensures r.failure.None? ==>
              r.node == n.(pubKey := validatorConverter(n.pubKeyText), address := addressConverter(n.addressText))
    ensures r.failure.Some? ==> r.node.pubKey.None? || r.node.address.None?
    ensures r.node.pubKeyText == n.pubKeyText && r.node.addressText == n.addressText
    ensures r.node.assignedShard == n.assignedShard && r.node.eligible == n.eligible
  {
    var pubKey := validatorConverter(n.pubKeyText);
    if pubKey.None? then
      NodeDecoding(n.(pubKey := pubKey), Some(ErrCouldNotParsePubKey))
    else
      var address := addressConverter(n.addressText);
      if address.None? then
        NodeDecoding(n.(pubKey := pubKey, address := address), Some(ErrCouldNotParseAddress))
      else if n.pubKeyText == "" then
        NodeDecoding(n.(pubKey := None, address := address), Some(ErrCouldNotParsePubKey))
      else if n.addressText == "" then
        NodeDecoding(n.(pubKey := pubKey, address := None), Some(ErrCouldNotParseAddress))
      else
        NodeDecoding(n.(pubKey := pubKey, address := address), None)
  }

  /** The index of the first node whose decoding fails, or |ns| if none does. */
  function FirstFailure(ns: seq<InitialNode>, validatorConverter: Converter, addressConverter: Converter): (k: nat)
    ensures k <= |ns|
    ensures forall i | 0 <= i < k :: DecodeNode(ns[i], validatorConverter, addressConverter).failure.None?
    ensures k < |ns| ==> DecodeNode(ns[k], validatorConverter, addressConverter).failure.Some?
  {
    if ns == [] then 0
    else if DecodeNode(ns[0], validatorConverter, addressConverter).failure.Some? then 0
    else 1 + FirstFailure(ns[1..], validatorConverter, addressConverter)
  }

  /** The failure index is determined by its two defining properties. */
  lemma FirstFailureAt(ns: seq<InitialNode>, validatorConverter: Converter, addressConverter: Converter, k: nat)
    requires k <= |ns|
    requires forall i | 0 <= i < k :: DecodeNode(ns[i], validatorConverter, addressConverter).failure.None?
    requires k < |ns| ==> DecodeNode(ns[k], validatorConverter, addressConverter).failure.Some?
    ensures FirstFailure(ns, validatorConverter, addressConverter) == k
  {
  }

  /** The node list once the first `count` nodes went through DecodeNode. */
  function DecodedUpTo(ns: seq<InitialNode>, validatorConverter: Converter, addressConverter: Converter, count: nat): (r: seq<InitialNode>)
    ensures |r| == |ns|
  {
    seq(|ns|, i requires 0 <= i < |ns| =>
      if i < count then DecodeNode(ns[i], validatorConverter, addressConverter).node else ns[i])
  }

  /** Every node decoded, after a successful decode pass. */
  function DecodedNodes(ns: seq<InitialNode>, validatorConverter: Converter, addressConverter: Converter): seq<InitialNode>
  {
    seq(|ns|, i requires 0 <= i < |ns| => DecodeNode(ns[i], validatorConverter, addressConverter).node)
  }

  // ---------------------------------------------------------------------
  // The ordered numeric checks
  // ---------------------------------------------------------------------

  /** The six checks run after decoding, in source order; the first that
      fails gives the error. The combined minimum is compared without
      wrap-around (see CountsErrorAsWritten for the uint32 sum). */
  function CountsError(config: GenesisConfig, nrOfNodes: nat): (r: Option<Error>)
    ensures r.None? <==>
              && 1 <= config.consensusGroupSize <= config.minNodesPerShard <= nrOfNodes
              && 1 <= config.metaChainConsensusGroupSize <= config.metaChainMinNodes
              && config.metaChainMinNodes + config.minNodesPerShard <= nrOfNodes
    ensures r.Some? ==> r.value in {ErrNegativeOrZeroConsensusGroupSize,
                                    ErrMinNodesPerShardSmallerThanConsensusSize,
                                    ErrNodesSizeSmallerThanMinNoOfNodes}
  {
    if config.consensusGroupSize < 1 then Some(ErrNegativeOrZeroConsensusGroupSize)
    else if config.minNodesPerShard < config.consensusGroupSize then Some(ErrMinNodesPerShardSmallerThanConsensusSize)
    else if nrOfNodes < config.minNodesPerShard then Some(ErrNodesSizeSmallerThanMinNoOfNodes)
    else if config.metaChainConsensusGroupSize < 1 then Some(ErrNegativeOrZeroConsensusGroupSize)
    else if config.metaChainMinNodes < config.metaChainConsensusGroupSize then Some(ErrMinNodesPerShardSmallerThanConsensusSize)
    else if nrOfNodes < config.metaChainMinNodes + config.minNodesPerShard then Some(ErrNodesSizeSmallerThanMinNoOfNodes)
    else None
  }

  /** The same checks as written in the source, where the combined minimum
      `MetaChainMinNodes + MinNodesPerShard` is a uint32 sum that can wrap. */
  function CountsErrorAsWritten(config: GenesisConfig, nrOfNodes: uint32): (r: Option<Error>)
    ensures r.None? <==>
              && 1 <= config.consensusGroupSize <= config.minNodesPerShard <= nrOfNodes
              && 1 <= config.metaChainConsensusGroupSize <= config.metaChainMinNodes
              && Add32(config.metaChainMinNodes, config.minNodesPerShard) <= nrOfNodes
    ensures r.Some? ==> r.value in {ErrNegativeOrZeroConsensusGroupSize,
                                    ErrMinNodesPerShardSmallerThanConsensusSize,
                                    ErrNodesSizeSmallerThanMinNoOfNodes}
  {
    if config.consensusGroupSize < 1 then Some(ErrNegativeOrZeroConsensusGroupSize)
    else if config.minNodesPerShard < config.consensusGroupSize then Some(ErrMinNodesPerShardSmallerThanConsensusSize)
    else if nrOfNodes < config.minNodesPerShard then Some(ErrNodesSizeSmallerThanMinNoOfNodes)
    else if config.metaChainConsensusGroupSize < 1 then Some(ErrNegativeOrZeroConsensusGroupSize)
    else if config.metaChainMinNodes < config.metaChainConsensusGroupSize then Some(ErrMinNodesPerShardSmallerThanConsensusSize)
    else if nrOfNodes < Add32(config.metaChainMinNodes, config.minNodesPerShard) then Some(ErrNodesSizeSmallerThanMinNoOfNodes)
    else None
  }

  /** The outcome of constructing a setup: the nil-converter checks, then
      the decode pass in list order, then the numeric checks. */
  function SetupError(config: GenesisConfig, addressConverter: Option<Converter>, validatorConverter: Option<Converter>): (r: Option<Error>)
    ensures r.Some? ==> r.value in {ErrNilPubkeyConverter, ErrCouldNotParsePubKey, ErrCouldNotParseAddress,
                                    ErrNegativeOrZeroConsensusGroupSize, ErrMinNodesPerShardSmallerThanConsensusSize,
                                    ErrNodesSizeSmallerThanMinNoOfNodes}
  {
    if addressConverter.None? || validatorConverter.None? then Some(ErrNilPubkeyConverter)
    else
      var ns := Loaded(config.initialNodes);
      var k := FirstFailure(ns, validatorConverter.value, addressConverter.value);
      if k < |ns| then DecodeNode(ns[k], validatorConverter.value, addressConverter.value).failure
      else CountsError(config, |ns|)
  }

  // ---------------------------------------------------------------------
  // Metachain committee and shard count
  // ---------------------------------------------------------------------

  /** How many of the given nodes have a decoded public key. */
  function KeyCount(ns: seq<InitialNode>): (r: nat)
    ensures r <= |ns|
  {
    if ns == [] then 0
    else KeyCount(ns[..|ns| - 1]) + (if ns[|ns| - 1].pubKey.Some? then 1 else 0)
  }

  /** The number of regular shards:
      (nrOfNodes - nrOfMetaChainNodes - hystMeta) / (minNodesPerShard + hystShard),
      with the numerator taken as 0 when hystMeta exceeds what is left and the
      denominator computed without wrap-around (see ShardCountAsWritten). */
  function ShardCount(nrOfNodes: nat, nrOfMetaChainNodes: nat, hystMeta: nat, minNodesPerShard: nat, hystShard: nat): (r: nat)
    requires minNodesPerShard >= 1 && nrOfMetaChainNodes <= nrOfNodes
    ensures r <= nrOfNodes - nrOfMetaChainNodes
  {
    if hystMeta <= nrOfNodes - nrOfMetaChainNodes then
      var q, d := nrOfNodes - nrOfMetaChainNodes - hystMeta, minNodesPerShard + hystShard;
      var r := q / d;
      DivBounds(q, d);
      MulMonotone(r, 1, d);
      r
    else 0
  }

  /** The shard count's committees fit after the metachain's, a non-zero
      count leaves room for the hysteresis of every shard, and one shard
      more would not fit once hysteresis is counted. */
  lemma ShardCountBounds(nrOfNodes: nat, nrOfMetaChainNodes: nat, hystMeta: nat, minNodesPerShard: nat, hystShard: nat)
    requires minNodesPerShard >= 1 && nrOfMetaChainNodes <= nrOfNodes
    ensures var r := ShardCount(nrOfNodes, nrOfMetaChainNodes, hystMeta, minNodesPerShard, hystShard);
            && nrOfMetaChainNodes + r * minNodesPerShard <= nrOfNodes
            && (r * (minNodesPerShard + hystShard) + hystMeta <= nrOfNodes - nrOfMetaChainNodes || r == 0)
            && (hystMeta <= nrOfNodes - nrOfMetaChainNodes ==>
                  nrOfNodes - nrOfMetaChainNodes - hystMeta < (r + 1) * (minNodesPerShard + hystShard))
  {
    var r := ShardCount(nrOfNodes, nrOfMetaChainNodes, hystMeta, minNodesPerShard, hystShard);
    if hystMeta <= nrOfNodes - nrOfMetaChainNodes {
      var q, d := nrOfNodes - nrOfMetaChainNodes - hystMeta, minNodesPerShard + hystShard;
      DivBounds(q, d);
      MulMonotone(r, minNodesPerShard, d);
    }
  }

  /** The shard count exactly as the source computes it, on uint32 values:
      both subtractions and the addition wrap. When the addition wraps to 0
      the source's integer division panics; that outcome is None. */
  function ShardCountAsWritten(nrOfNodes: uint32, nrOfMetaChainNodes: uint32, hystMeta: uint32, minNodesPerShard: uint32, hystShard: uint32): (r: Option<uint32>)
    ensures r.None? <==> minNodesPerShard + hystShard == 0 || minNodesPerShard + hystShard == Modulus
  {
    var numerator, divisor := Sub32(Sub32(nrOfNodes, nrOfMetaChainNodes), hystMeta), Add32(minNodesPerShard, hystShard);
    if divisor == 0 then None else Some(numerator / divisor)
  }

  /** Euclidean division brackets its dividend. */
  lemma DivBounds(q: nat, d: nat)
    requires d >= 1
    ensures (q / d) * d <= q < (q / d + 1) * d
  {
  }

  lemma MulMonotone(r: nat, a: nat, b: nat)
    requires a <= b
    ensures r * a <= r * b
  {
  }

  /** The placement parameters a successful setup reaches: at least one
      metachain node, a non-zero block size, and all eligible blocks inside
      a node list whose length fits in uint32. */
  predicate LayoutOk(nrOfNodes: nat, nrOfMetaChainNodes: nat, minNodesPerShard: nat, nrOfShards: nat)
  {
    && 1 <= nrOfMetaChainNodes
    && 1 <= minNodesPerShard
    && nrOfMetaChainNodes + nrOfShards * minNodesPerShard <= nrOfNodes
    && nrOfNodes < Modulus
  }

  /** Under LayoutOk the regular shard ids stay below the metachain id, so
      `nrOfShards + 1` does not wrap. */
  lemma LayoutShardsBelowMeta(nrOfNodes: nat, nrOfMetaChainNodes: nat, minNodesPerShard: nat, nrOfShards: nat)
    requires LayoutOk(nrOfNodes, nrOfMetaChainNodes, minNodesPerShard, nrOfShards)
    ensures nrOfShards < MetachainShardId
  {
    MulMonotone(nrOfShards, 1, minNodesPerShard);
  }

  // ---------------------------------------------------------------------
  // Placement of every node
  // ---------------------------------------------------------------------

  /** The shard of the k-th waiting node (k >= 1): k modulo (nrOfShards + 1),
      with the value nrOfShards standing for the metachain. */
  function WaitingShard(k: nat, nrOfShards: nat): (r: uint32)
    requires nrOfShards < MetachainShardId
    ensures r == MetachainShardId || r < nrOfShards
    ensures r == MetachainShardId <==> k % (nrOfShards + 1) == nrOfShards
    ensures r != MetachainShardId ==> r == k % (nrOfShards + 1)
  {
    var c := k % (nrOfShards + 1);
    if c == nrOfShards then MetachainShardId else c
  }

  /** Where node i ends up: the first nrOfMetaChainNodes nodes in the
      metachain, then blocks of minNodesPerShard nodes for shards
      0 .. nrOfShards-1, then the rest round-robin over the waiting lists. */
  function ShardOf(i: nat, nrOfMetaChainNodes: nat, minNodesPerShard: nat, nrOfShards: nat): (r: uint32)
    requires minNodesPerShard >= 1 && nrOfShards < MetachainShardId
    ensures r == MetachainShardId || r < nrOfShards
  {
    if i < nrOfMetaChainNodes then MetachainShardId
    else if i < nrOfMetaChainNodes + nrOfShards * minNodesPerShard then
      var s := (i - nrOfMetaChainNodes) / minNodesPerShard;
      DivBelow(i - nrOfMetaChainNodes, minNodesPerShard, nrOfShards);
      s
    else WaitingShard(i - (nrOfMetaChainNodes + nrOfShards * minNodesPerShard) + 1, nrOfShards)
  }

  lemma DivBelow(x: nat, d: nat, n: nat)
    requires d >= 1 && x < n * d
    ensures x / d < n
  {
    DivBounds(x, d);
    if x / d >= n {
      MulMonotone(d, n, x / d);
    }
  }

  /** Whether node i is in an active committee: the metachain's nodes
      always are, and without shard blocks no other node is. */
  predicate EligibleAt(i: nat, nrOfMetaChainNodes: nat, minNodesPerShard: nat, nrOfShards: nat): (r: bool)
    ensures i < nrOfMetaChainNodes ==> r
    ensures nrOfShards == 0 || minNodesPerShard == 0 ==> (r <==> i < nrOfMetaChainNodes)
  {
    i < nrOfMetaChainNodes + nrOfShards * minNodesPerShard
  }

  /** Index of the first node of a shard's eligible committee: the
      metachain block starts the list, shard s's block follows the blocks
      of the shards before it. */
  function CommitteeStart(shardId: uint32, nrOfMetaChainNodes: nat, minNodesPerShard: nat): nat
  {
    if shardId == MetachainShardId then 0 else nrOfMetaChainNodes + shardId * minNodesPerShard
  }

  /** processMetaChainAssigment's effect on the node list: the nodes among
      the first nrOfMetaChainNodes that have a decoded key become eligible
      metachain nodes; all others are unchanged. */
  function WithMetachainCommittee(ns: seq<InitialNode>, metaChainMinNodes: nat): (r: seq<InitialNode>)
    ensures |r| == |ns|
  {
    seq(|ns|, i requires 0 <= i < |ns| =>
      if i < metaChainMinNodes && ns[i].pubKey.Some? then ns[i].(assignedShard := MetachainShardId, eligible := true)
      else ns[i])
  }

  /** The nodes with those at indices lo .. hi-1 given the shard of ShardOf
      and the role of EligibleAt; all others unchanged. */
  function PlaceRange(ns: seq<InitialNode>, M: nat, P: nat, S: nat, lo: nat, hi: nat): (r: seq<InitialNode>)
    requires P >= 1 && S < MetachainShardId
    ensures |r| == |ns|
  {
    seq(|ns|, i requires 0 <= i < |ns| =>
      if lo <= i < hi then ns[i].(assignedShard := ShardOf(i, M, P, S), eligible := EligibleAt(i, M, P, S)) else ns[i])
  }

  /** The decoded nodes with their placement filled in. */
  function Assign(ns: seq<InitialNode>, nrOfMetaChainNodes: nat, minNodesPerShard: nat, nrOfShards: nat): (r: seq<InitialNode>)
    requires minNodesPerShard >= 1 && nrOfShards < MetachainShardId
    ensures |r| == |ns|
  {
    seq(|ns|, i requires 0 <= i < |ns| =>
      ns[i].(assignedShard := ShardOf(i, nrOfMetaChainNodes, minNodesPerShard, nrOfShards),
             eligible := EligibleAt(i, nrOfMetaChainNodes, minNodesPerShard, nrOfShards)))
  }

  /** The shard count of a configuration that passed every check. */
  function Shards(config: GenesisConfig): (r: nat)
    requires CountsError(config, |config.initialNodes|).None?
    requires |config.initialNodes| < Modulus
    ensures LayoutOk(|config.initialNodes|, config.metaChainMinNodes, config.minNodesPerShard, r)
    ensures r < MetachainShardId
  {
    ShardCountBounds(|config.initialNodes|, config.metaChainMinNodes, config.hystMeta, config.minNodesPerShard, config.hystShard);
    LayoutShardsBelowMeta(|config.initialNodes|, config.metaChainMinNodes, config.minNodesPerShard,
                          ShardCount(|config.initialNodes|, config.metaChainMinNodes, config.hystMeta, config.minNodesPerShard, config.hystShard));
    ShardCount(|config.initialNodes|, config.metaChainMinNodes, config.hystMeta, config.minNodesPerShard, config.hystShard)
  }

  /** The initial nodes of a successful setup, decoded and placed. */
  function Genesis(config: GenesisConfig, validatorConverter: Converter, addressConverter: Converter): (r: seq<InitialNode>)
    requires SetupError(config, Some(addressConverter), Some(validatorConverter)).None?
    requires |config.initialNodes| < Modulus
    ensures |r| == |config.initialNodes|
  {
    var s := Shards(config);
    LayoutShardsBelowMeta(|config.initialNodes|, config.metaChainMinNodes, config.minNodesPerShard, s);
    Assign(DecodedNodes(Loaded(config.initialNodes), validatorConverter, addressConverter),
           config.metaChainMinNodes, config.minNodesPerShard, s)
  }

  // ---------------------------------------------------------------------
  // Lookup tables
  // ---------------------------------------------------------------------

  /** Whether a node goes into the tables at all: key and address decoded. */
  predicate Listed(n: InitialNode)
  {
    n.pubKey.Some? && n.address.Some?
  }

  function Info(n: InitialNode): NodeInfo
    requires Listed(n)
  {
    NodeInfo(n.assignedShard, n.eligible, n.pubKey.value, n.address.value)
  }

  /** Go's `m[k] = append(m[k], x)`: a missing entry reads as empty. */
  function Append(t: Table, shard: uint32, info: NodeInfo): (r: Table)
    ensures r.Keys == t.Keys + {shard}
    ensures forall s | s in t && s != shard :: r[s] == t[s]
  {
    t[shard := (if shard in t then t[shard] else []) + [info]]
  }

  /** The `eligible` and `waiting` tables built by one pass over the nodes.
      An entry only comes into being by an append, so none is empty. */
  function Tables(ns: seq<InitialNode>): (r: (Table, Table))
    ensures forall s | s in r.0 :: r.0[s] != []
    ensures forall s | s in r.1 :: r.1[s] != []
  {
    if ns == [] then (map[], map[])
    else
      var prev := Tables(ns[..|ns| - 1]);
      var n := ns[|ns| - 1];
      if !Listed(n) then prev
      else if n.eligible then (Append(prev.0, n.assignedShard, Info(n)), prev.1)
      else (prev.0, Append(prev.1, n.assignedShard, Info(n)))
  }

  /** An independent description of one bucket: the listed nodes with the
      given shard and role, in list order. */
  function Bucket(ns: seq<InitialNode>, shard: uint32, eligible: bool): seq<NodeInfo>
  {
    if ns == [] then []
    else
      var n := ns[|ns| - 1];
      Bucket(ns[..|ns| - 1], shard, eligible)
        + (if Listed(n) && n.eligible == eligible && n.assignedShard == shard then [Info(n)] else [])
  }

  /** The node infos of a slice of nodes, in order. */
  function Infos(ns: seq<InitialNode>): (r: seq<NodeInfo>)
    requires forall i | 0 <= i < |ns| :: Listed(ns[i])
    ensures |r| == |ns|
  {
    seq(|ns|, i requires 0 <= i < |ns| => Info(ns[i]))
  }

  /** How many nodes go into the tables. */
  function ListedCount(ns: seq<InitialNode>): (r: nat)
    ensures r <= |ns|
  {
    if ns == [] then 0
    else ListedCount(ns[..|ns| - 1]) + (if Listed(ns[|ns| - 1]) then 1 else 0)
  }

  /** The total number of entries over all buckets of a table. */
  ghost function SizeSum(t: Table): nat
    decreases t.Keys
  {
    if t == map[] then 0
    else
      var s :| s in t;
      |t[s]| + SizeSum(t - {s})
  }

  // ---------------------------------------------------------------------
  // Queries
  // ---------------------------------------------------------------------

  /** `string(info.PubKey())` for each node of a bucket, in order. */
  function PubKeys(infos: seq<NodeInfo>): (r: seq<Bytes>)
    ensures |r| == |infos|
  {
    seq(|infos|, j requires 0 <= j < |infos| => infos[j].pubKey)
  }

  /** InitialNodesPubKeys: the eligible keys of every shard. */
  function AllPubKeys(eligible: Table): (r: map<uint32, seq<Bytes>>)
    ensures r.Keys == eligible.Keys
    ensures forall s | s in r :: |r[s]| == |eligible[s]|
  {
    map s | s in eligible :: PubKeys(eligible[s])
  }

  /** InitialEligibleNodesPubKeysForShard on a given eligible table. */
  function EligiblePubKeysForShard(eligible: Table, shardId: uint32): (r: Result<seq<Bytes>, Error>)
    ensures r.Success? <==> shardId in eligible && eligible[shardId] != []
    ensures r.Success? ==> |r.value| == |eligible[shardId]|
                           && forall j | 0 <= j < |r.value| :: r.value[j] == eligible[shardId][j].pubKey
  {
    if shardId !in eligible then Failure(ErrShardIdOutOfRange)
    else if |eligible[shardId]| == 0 then Failure(ErrNoPubKeys)
    else Success(PubKeys(eligible[shardId]))
  }

  /** InitialNodesInfoForShard on given tables: the eligible bucket and the
      waiting bucket (empty when the shard has no waiting entry). */
  function NodesInfoForShard(eligible: Table, waiting: Table, shardId: uint32): (r: Result<(seq<NodeInfo>, seq<NodeInfo>), Error>)
    ensures r.Success? <==> shardId in eligible && eligible[shardId] != []
    ensures r.Success? ==> r.value.0 == eligible[shardId]
  {
    if shardId !in eligible then Failure(ErrShardIdOutOfRange)
    else if |eligible[shardId]| == 0 then Failure(ErrNoPubKeys)
    else Success((eligible[shardId], if shardId in waiting then waiting[shardId] else []))
  }

  /** GetShardIDForPubKey: the shard of the first node whose decoded key is
      the given one. */
  function ShardForPubKey(ns: seq<InitialNode>, pubKey: Bytes): (r: Result<uint32, Error>)
    ensures r.Failure? <==> forall i | 0 <= i < |ns| :: ns[i].pubKey != Some(pubKey)
    ensures r.Failure? ==> r.error == ErrPublicKeyNotFoundInGenesis
    ensures r.Success? ==>
              exists i | 0 <= i < |ns| ::
                && ns[i].pubKey == Some(pubKey)
                && r.value == ns[i].assignedShard
                && forall j | 0 <= j < i :: ns[j].pubKey != Some(pubKey)
  {
    if ns == [] then Failure(ErrPublicKeyNotFoundInGenesis)
    else if ns[0].pubKey.Some? && ns[0].pubKey.value == pubKey then Success(ns[0].assignedShard)
    else
      var r := ShardForPubKey(ns[1..], pubKey);
      if r.Success? then
        ghost var i :| 0 <= i < |ns| - 1 && ns[1..][i].pubKey == Some(pubKey) && r.value == ns[1..][i].assignedShard
                      && forall j | 0 <= j < i :: ns[1..][j].pubKey != Some(pubKey);
        assert ns[i + 1].pubKey == Some(pubKey);
        r
      else r
  }

  /** MinNumberOfNodes: nrOfShards * MinNodesPerShard + MetaChainMinNodes on uint32. */
  function MinNumberOfNodes(nrOfShards: uint32, minNodesPerShard: uint32, metaChainMinNodes: uint32): (r: uint32)
    ensures nrOfShards * minNodesPerShard + metaChainMinNodes < Modulus ==>
              r == nrOfShards * minNodesPerShard + metaChainMinNodes
  {
    Add32(Mul32(nrOfShards, minNodesPerShard), metaChainMinNodes)
  }
}
