/** The `NodesSetup` object of the sharding package: construction decodes
    the initial nodes in place, checks the configuration, places the
    metachain committee, the shard committees and the waiting lists, and
    builds the two lookup tables; the queries read them back. Each step is
    proved against the definitions of NodesSetupSpec. */
module Sharding {
  import opened Wrappers
  import opened Uint32
  import opened NodesSetupSpec
  import opened NodesSetupProofs

  class NodesSetup {
    /** The loaded configuration (everything the JSON file holds). */
    const config: GenesisConfig
    const validatorPubkeyConverter: Converter
    const addressPubkeyConverter: Converter
    /** `InitialNodes`: the loaded nodes, whose derived fields the setup fills in. */
    const initialNodes: array<InitialNode>

    var nrOfShards: uint32
    var nrOfNodes: uint32
    var nrOfMetaChainNodes: uint32
    var eligible: Table
    var waiting: Table

    /** The object as it stands once the configuration file is loaded. */
    constructor (config: GenesisConfig, addressPubkeyConverter: Converter, validatorPubkeyConverter: Converter)
      ensures this.config == config
      ensures this.addressPubkeyConverter == addressPubkeyConverter
      ensures this.validatorPubkeyConverter == validatorPubkeyConverter
      ensures fresh(initialNodes) && initialNodes[..] == Loaded(config.initialNodes)
      ensures nrOfShards == 0 && nrOfNodes == 0 && nrOfMetaChainNodes == 0
      ensures eligible == map[] && waiting == map[]
    {
      this.config := config;
      this.addressPubkeyConverter := addressPubkeyConverter;
      this.validatorPubkeyConverter := validatorPubkeyConverter;
      var loaded := Loaded(config.initialNodes);
      initialNodes := new InitialNode[|loaded|](i requires 0 <= i < |loaded| => loaded[i]);
      nrOfShards, nrOfNodes, nrOfMetaChainNodes := 0, 0, 0;
      eligible, waiting := map[], map[];
    }

    /** processConfig: decodes every node in list order, stopping at the first
        node that fails, counts the decoded nodes, then runs the numeric
        checks. */
    method ProcessConfig() returns (err: Option<Error>)
      requires initialNodes.Length < Modulus
      modifies this`nrOfNodes, this`nrOfMetaChainNodes, initialNodes
      ensures var ns := old(initialNodes[..]);
              var k := FirstFailure(ns, validatorPubkeyConverter, addressPubkeyConverter);
              && nrOfNodes as int == k
              && nrOfMetaChainNodes == 0
              && initialNodes[..] == DecodedUpTo(ns, validatorPubkeyConverter, addressPubkeyConverter, k + 1)
              && (k < |ns| ==> err == DecodeNode(ns[k], validatorPubkeyConverter, addressPubkeyConverter).failure && err.Some?)
              && (k == |ns| ==> err == CountsError(config, k))
    {
      ghost var ns := initialNodes[..];
      nrOfNodes := 0;
      nrOfMetaChainNodes := 0;
      var i := 0;
      while i < initialNodes.Length
        invariant 0 <= i <= initialNodes.Length
        invariant nrOfNodes as int == i && nrOfMetaChainNodes == 0
        invariant forall j | 0 <= j < i :: DecodeNode(ns[j], validatorPubkeyConverter, addressPubkeyConverter).failure.None?
        invariant initialNodes[..] == DecodedUpTo(ns, validatorPubkeyConverter, addressPubkeyConverter, i)
      {
        DecodedUpToStep(ns, validatorPubkeyConverter, addressPubkeyConverter, i);
        var failure := DecodeInitialNode(i);
        if failure.Some? {
          FirstFailureAt(ns, validatorPubkeyConverter, addressPubkeyConverter, i);
          return failure;
        }
        nrOfNodes := Add32(nrOfNodes, 1);
        i := i + 1;
      }
      FirstFailureAt(ns, validatorPubkeyConverter, addressPubkeyConverter, i);
      DecodedUpToAll(ns, validatorPubkeyConverter, addressPubkeyConverter, i);
      DecodedUpToAll(ns, validatorPubkeyConverter, addressPubkeyConverter, i + 1);

      if config.consensusGroupSize < 1 {
        return Some(ErrNegativeOrZeroConsensusGroupSize);
      }
      if config.minNodesPerShard < config.consensusGroupSize {
        return Some(ErrMinNodesPerShardSmallerThanConsensusSize);
      }
      if nrOfNodes < config.minNodesPerShard {
        return Some(ErrNodesSizeSmallerThanMinNoOfNodes);
      }
      if config.metaChainConsensusGroupSize < 1 {
        return Some(ErrNegativeOrZeroConsensusGroupSize);
      }
      if config.metaChainMinNodes < config.metaChainConsensusGroupSize {
        return Some(ErrMinNodesPerShardSmallerThanConsensusSize);
      }
      // compared without wrap-around: see CountsErrorAsWritten
      var totalMinNodes: int := config.metaChainMinNodes as int + config.minNodesPerShard as int;
      if (nrOfNodes as int) < totalMinNodes {
        return Some(ErrNodesSizeSmallerThanMinNoOfNodes);
      }
      return None;
    }

    /** One iteration of processConfig's decode loop: decodes node i's key,
        then its address, then refuses an empty key or address text. */
    method DecodeInitialNode(i: nat) returns (failure: Option<Error>)
      requires i < initialNodes.Length
      modifies initialNodes
      ensures var d := DecodeNode(old(initialNodes[i]), validatorPubkeyConverter, addressPubkeyConverter);
              && initialNodes[..] == old(initialNodes[..])[i := d.node]
              && failure == d.failure
    {
      var node := initialNodes[i];
      var pubKey := validatorPubkeyConverter(node.pubKeyText);
      initialNodes[i] := node.(pubKey := pubKey);
      if pubKey.None? {
        return Some(ErrCouldNotParsePubKey);
      }
      var address := addressPubkeyConverter(node.addressText);
      initialNodes[i] := node.(pubKey := pubKey, address := address);
      if address.None? {
        return Some(ErrCouldNotParseAddress);
      }
      // the converters accept the empty string; an empty key or address is refused here
      if node.pubKeyText == "" {
        initialNodes[i] := node.(pubKey := None, address := address);
        return Some(ErrCouldNotParsePubKey);
      }
      if node.addressText == "" {
        initialNodes[i] := node.(pubKey := pubKey, address := None);
        return Some(ErrCouldNotParseAddress);
      }
      return None;
    }

    /** processMetaChainAssigment: the first MetaChainMinNodes nodes with a
        decoded key join the metachain committee; then the number of regular
        shards is derived from what is left. */
    method ProcessMetaChainAssignment()
      requires config.metaChainMinNodes <= nrOfNodes && nrOfNodes as int <= initialNodes.Length
      requires config.minNodesPerShard >= 1
      modifies this`nrOfMetaChainNodes, this`nrOfShards, initialNodes
      ensures nrOfMetaChainNodes as int == KeyCount(old(initialNodes[..])[..config.metaChainMinNodes])
      ensures initialNodes[..] == WithMetachainCommittee(old(initialNodes[..]), config.metaChainMinNodes as int)
      ensures nrOfShards as int == ShardCount(nrOfNodes as int, nrOfMetaChainNodes as int, config.hystMeta as int,
                                              config.minNodesPerShard as int, config.hystShard as int)
    {
      ghost var ns := initialNodes[..];
      nrOfMetaChainNodes := 0;
      var id: uint32 := 0;
      while id < config.metaChainMinNodes
        invariant id <= config.metaChainMinNodes
        invariant nrOfMetaChainNodes as int == KeyCount(ns[..id])
        invariant initialNodes[..] == WithMetachainCommittee(ns, id as int)
      {
        KeyCountStep(ns, id as int);
        MetachainCommitteeStep(ns, id as int);
        if initialNodes[id].pubKey.Some? {
          initialNodes[id] := initialNodes[id].(assignedShard := MetachainShardId, eligible := true);
          nrOfMetaChainNodes := Add32(nrOfMetaChainNodes, 1);
        }
        id := id + 1;
      }

      // (nrOfNodes - nrOfMetaChainNodes - hystMeta) / (MinNodesPerShard + hystShard),
      // without the wrap-around of the uint32 arithmetic: see ShardCountAsWritten
      var rest := nrOfNodes - nrOfMetaChainNodes;
      var numerator: uint32 := if config.hystMeta <= rest then rest - config.hystMeta else 0;
      var denominator: int := config.minNodesPerShard as int + config.hystShard as int;
      var shards := numerator as int / denominator;
      assert shards == ShardCount(nrOfNodes as int, nrOfMetaChainNodes as int, config.hystMeta as int,
                                  config.minNodesPerShard as int, config.hystShard as int);
      nrOfShards := shards as uint32;
    }

    /** processShardAssignment: after the metachain committee, blocks of
        MinNodesPerShard nodes fill the regular shards in order; the nodes left
        go round-robin to the waiting lists of shards 1, 2, ..., the metachain,
        0, 1, ... */
    method ProcessShardAssignment()
      requires LayoutOk(initialNodes.Length, nrOfMetaChainNodes as int, config.minNodesPerShard as int, nrOfShards as int)
      requires nrOfNodes as int == initialNodes.Length
      requires forall i | 0 <= i < initialNodes.Length :: initialNodes[i].pubKey.Some?
      modifies initialNodes
      ensures nrOfShards < MetachainShardId
      ensures initialNodes[..] == PlaceRange(old(initialNodes[..]), nrOfMetaChainNodes as int, config.minNodesPerShard as int,
                                             nrOfShards as int, nrOfMetaChainNodes as int, initialNodes.Length)
    {
      ghost var ns := initialNodes[..];
      ghost var M, P, S := nrOfMetaChainNodes as int, config.minNodesPerShard as int, nrOfShards as int;
      LayoutShardsBelowMeta(initialNodes.Length, M, P, S);
      assert forall i | 0 <= i < |ns| :: ns[i].pubKey.Some?;

      var currentShard: uint32 := 0;
      var countSetNodes := nrOfMetaChainNodes;
      while currentShard < nrOfShards
        invariant currentShard <= nrOfShards
        invariant M <= countSetNodes as int == M + currentShard as int * P
        invariant initialNodes[..] == PlaceRange(ns, M, P, S, M, countSetNodes as int)
      {
        BlockEndFits(|ns|, M, P, S, currentShard as int);
        var blockEnd := Add32(nrOfMetaChainNodes, Mul32(Add32(currentShard, 1), config.minNodesPerShard));
        assert blockEnd as int == countSetNodes as int + P <= |ns|;
        var id := countSetNodes;
        while id < blockEnd
          invariant countSetNodes <= blockEnd && id == countSetNodes
          invariant blockEnd as int <= |ns|
          invariant M <= M + currentShard as int * P <= id as int
          invariant initialNodes[..] == PlaceRange(ns, M, P, S, M, id as int)
        {
          PlaceRangeStep(ns, M, P, S, M, id as int);
          // consider only nodes with a decoded key
          if initialNodes[id].pubKey.Some? {
            BlockMembership(id as int, M, P, S, currentShard as int);
            initialNodes[id] := initialNodes[id].(assignedShard := currentShard, eligible := true);
            countSetNodes := countSetNodes + 1;
          }
          id := id + 1;
        }
        currentShard := currentShard + 1;
      }

      // allocate the rest to the waiting lists
      ghost var E := countSetNodes as int;
      assert E == M + S * P;
      currentShard := 0;
      var i := countSetNodes;
      while i < nrOfNodes
        invariant M <= E <= i as int <= |ns| == nrOfNodes as int
        invariant currentShard == if i as int == E then 0 else WaitingShard(i as int - E, S)
        invariant initialNodes[..] == PlaceRange(ns, M, P, S, M, i as int)
      {
        WaitingShardStep(i as int - E, nrOfShards);
        WaitingPlacement(i as int, M, P, S, E);
        PlaceRangeStep(ns, M, P, S, M, i as int);
        currentShard := Add32(currentShard, 1) % Add32(nrOfShards, 1);
        if currentShard == nrOfShards {
          currentShard := MetachainShardId;
        }
        if initialNodes[i].pubKey.Some? {
          initialNodes[i] := initialNodes[i].(assignedShard := currentShard, eligible := false);
        }
        i := i + 1;
      }
    }

    /** createInitialNodesInfo: one pass over the nodes appends every node
        with a decoded key and address to its shard's eligible or waiting
        entry. */
    method CreateInitialNodesInfo()
      modifies this`eligible, this`waiting
      ensures (eligible, waiting) == Tables(initialNodes[..])
    {
      eligible, waiting := map[], map[];
      for i := 0 to initialNodes.Length
        invariant (eligible, waiting) == Tables(initialNodes[..i])
      {
        var node := initialNodes[i];
        if node.pubKey.Some? && node.address.Some? {
          var info := NodeInfo(node.assignedShard, node.eligible, node.pubKey.value, node.address.value);
          if node.eligible {
            eligible := eligible[node.assignedShard := (if node.assignedShard in eligible then eligible[node.assignedShard] else []) + [info]];
          } else {
            waiting := waiting[node.assignedShard := (if node.assignedShard in waiting then waiting[node.assignedShard] else []) + [info]];
          }
        }
        assert initialNodes[..i + 1][..i] == initialNodes[..i];
      }
      assert initialNodes[..initialNodes.Length] == initialNodes[..];
    }

    /** The steps of NewNodesSetup after processConfig succeeded: the
        metachain committee, the shard committees and waiting lists, and the
        lookup tables. */
    method AssignNodes()
      requires initialNodes.Length == |config.initialNodes| < Modulus
      requires SetupError(config, Some(addressPubkeyConverter), Some(validatorPubkeyConverter)).None?
      requires initialNodes[..] == DecodedUpTo(Loaded(config.initialNodes), validatorPubkeyConverter, addressPubkeyConverter,
                                               initialNodes.Length + 1)
      requires nrOfNodes as int == initialNodes.Length
      modifies this`nrOfMetaChainNodes, this`nrOfShards, this`eligible, this`waiting, initialNodes
      ensures Ready()
    {
      ConstructionSteps(config, validatorPubkeyConverter, addressPubkeyConverter);
      ProcessMetaChainAssignment();
      assert nrOfMetaChainNodes == config.metaChainMinNodes;
      assert nrOfShards as int == Shards(config);
      ProcessShardAssignment();
      assert initialNodes[..] == Genesis(config, validatorPubkeyConverter, addressPubkeyConverter);
      CreateInitialNodesInfo();
    }

    /** The state a successful NewNodesSetup leaves: the nodes decoded and
        placed, the counters set, the tables built from the nodes. */
    ghost predicate Ready()
      reads this, initialNodes
    {
      && initialNodes.Length < Modulus
      && |config.initialNodes| == initialNodes.Length
      && SetupError(config, Some(addressPubkeyConverter), Some(validatorPubkeyConverter)).None?
      && initialNodes[..] == Genesis(config, validatorPubkeyConverter, addressPubkeyConverter)
      && nrOfNodes as int == initialNodes.Length
      && nrOfMetaChainNodes == config.metaChainMinNodes
      && nrOfShards as int == Shards(config)
      && (eligible, waiting) == Tables(initialNodes[..])
    }

    /** InitialNodesPubKeys: an entry for the metachain and for every regular
        shard, each holding what InitialEligibleNodesPubKeysForShard returns
        for that shard. */
    function InitialNodesPubKeys(): (r: map<uint32, seq<Bytes>>)
      reads this, initialNodes
      requires Ready()
      ensures forall s: uint32 :: s in r <==> s == MetachainShardId || s < nrOfShards
      ensures forall s | s in r :: InitialEligibleNodesPubKeysForShard(s) == Success(r[s])
    {
      GenesisPlaced(config, validatorPubkeyConverter, addressPubkeyConverter);
      LayoutTables(initialNodes[..], config.metaChainMinNodes as int, config.minNodesPerShard as int, nrOfShards as int);
      AllPubKeys(eligible)
    }

    /** InitialNodesInfo: the eligible and waiting tables. Every node is in
        exactly one entry, each entry is the nodes of that shard and role in
        list order, and only the metachain and the regular shards have
        entries. */
    function InitialNodesInfo(): (r: (Table, Table))
      reads this, initialNodes
      requires Ready()
      ensures forall s: uint32 :: s in r.0 <==> s == MetachainShardId || s < nrOfShards
      ensures forall s: uint32 :: s in r.1 ==> s == MetachainShardId || s < nrOfShards
      ensures forall s | s in r.0 :: r.0[s] == Bucket(initialNodes[..], s, true)
      ensures forall s | s in r.1 :: r.1[s] == Bucket(initialNodes[..], s, false)
      ensures SizeSum(r.0) + SizeSum(r.1) == initialNodes.Length
    {
      GenesisPlaced(config, validatorPubkeyConverter, addressPubkeyConverter);
      LayoutTables(initialNodes[..], config.metaChainMinNodes as int, config.minNodesPerShard as int, nrOfShards as int);
      TablesAreBuckets(initialNodes[..]);
      (eligible, waiting)
    }

    /** InitialEligibleNodesPubKeysForShard: the decoded keys of the shard's
        committee block, in list order; ErrShardIdOutOfRange for an id that
        is neither the metachain nor a regular shard. */
    function InitialEligibleNodesPubKeysForShard(shardId: uint32): (r: Result<seq<Bytes>, Error>)
      reads this, initialNodes
      requires Ready()
      ensures var start := CommitteeStart(shardId, config.metaChainMinNodes as int, config.minNodesPerShard as int);
              && (r.Success? <==> shardId == MetachainShardId || shardId < nrOfShards)
              && (r.Failure? ==> r.error == ErrShardIdOutOfRange)
              && (r.Success? ==>
                    && |r.value| == (if shardId == MetachainShardId then config.metaChainMinNodes else config.minNodesPerShard) as int
                    && start + |r.value| <= |config.initialNodes|
                    && forall j | 0 <= j < |r.value| ::
                         Some(r.value[j]) == validatorPubkeyConverter(config.initialNodes[start + j].pubKey))
    {
      GenesisPlaced(config, validatorPubkeyConverter, addressPubkeyConverter);
      DecodedEligibleKeysQuery(initialNodes[..], config.initialNodes, validatorPubkeyConverter,
                               config.metaChainMinNodes as int, config.minNodesPerShard as int, nrOfShards as int, shardId);
      EligiblePubKeysForShard(eligible, shardId)
    }

    /** InitialNodesInfoForShard: the shard's eligible and waiting nodes;
        ErrShardIdOutOfRange for an id that is neither the metachain nor a
        regular shard. */
    function InitialNodesInfoForShard(shardId: uint32): (r: Result<(seq<NodeInfo>, seq<NodeInfo>), Error>)
      reads this, initialNodes
      requires Ready()
      ensures r.Success? <==> shardId == MetachainShardId || shardId < nrOfShards
      ensures r.Failure? ==> r.error == ErrShardIdOutOfRange
      ensures r.Success? ==> r.value == (Bucket(initialNodes[..], shardId, true), Bucket(initialNodes[..], shardId, false))
    {
      GenesisPlaced(config, validatorPubkeyConverter, addressPubkeyConverter);
      LayoutNodesInfoQuery(initialNodes[..], config.metaChainMinNodes as int, config.minNodesPerShard as int, nrOfShards as int, shardId);
      NodesInfoForShard(eligible, waiting, shardId)
    }

    /** NumberOfShards: below the metachain id, its committees fit in the
        node list, and one more shard would not fit once hysteresis is
        counted. */
    function NumberOfShards(): (r: uint32)
      reads this, initialNodes
      requires Ready()
      ensures r < MetachainShardId
      ensures config.metaChainMinNodes as int + r as int * config.minNodesPerShard as int <= initialNodes.Length
      ensures config.hystMeta as int <= initialNodes.Length - config.metaChainMinNodes as int ==>
                initialNodes.Length - config.metaChainMinNodes as int - config.hystMeta as int
                  < (r as int + 1) * (config.minNodesPerShard as int + config.hystShard as int)
    {
      ShardCountBounds(initialNodes.Length, config.metaChainMinNodes as int, config.hystMeta as int,
                       config.minNodesPerShard as int, config.hystShard as int);
      LayoutShardsBelowMeta(initialNodes.Length, config.metaChainMinNodes as int, config.minNodesPerShard as int, nrOfShards as int);
      nrOfShards
    }

    /** MinNumberOfNodes: nrOfShards * MinNodesPerShard + MetaChainMinNodes,
        which does not wrap and never exceeds the node count. */
    function MinNumberOfNodes(): (r: uint32)
      reads this, initialNodes
      requires Ready()
      ensures r as int == nrOfShards as int * config.minNodesPerShard as int + config.metaChainMinNodes as int
      ensures r as int <= initialNodes.Length
    {
      MinNumberOfNodesFits(initialNodes.Length, nrOfShards, config.minNodesPerShard, config.metaChainMinNodes);
      NodesSetupSpec.MinNumberOfNodes(nrOfShards, config.minNodesPerShard, config.metaChainMinNodes)
    }

    /** GetShardIDForPubKey: the assigned shard of the first node whose key
        decodes to the argument, or ErrPublicKeyNotFoundInGenesis. */
    function GetShardIDForPubKey(pubKey: Bytes): (r: Result<uint32, Error>)
      reads this, initialNodes
      requires Ready()
      ensures r == Failure(ErrPublicKeyNotFoundInGenesis) <==>
                forall i | 0 <= i < |config.initialNodes| :: validatorPubkeyConverter(config.initialNodes[i].pubKey) != Some(pubKey)
      ensures forall i | 0 <= i < |config.initialNodes| && validatorPubkeyConverter(config.initialNodes[i].pubKey) == Some(pubKey)
                         && (forall j | 0 <= j < i :: validatorPubkeyConverter(config.initialNodes[j].pubKey) != Some(pubKey)) ::
                r == Success(ShardOf(i, config.metaChainMinNodes as int, config.minNodesPerShard as int, nrOfShards as int))
    {
      GenesisPubKeyLookup(config, validatorPubkeyConverter, addressPubkeyConverter, pubKey);
      ShardForPubKey(initialNodes[..], pubKey)
    }

    function GetStartTime(): int64
      reads this
    {
      config.startTime
    }

    function GetRoundDuration(): uint64
      reads this
    {
      config.roundDuration
    }

    function GetShardConsensusGroupSize(): uint32
      reads this
    {
      config.consensusGroupSize
    }

    function GetMetaConsensusGroupSize(): uint32
      reads this
    {
      config.metaChainConsensusGroupSize
    }
  }

  /** NewNodesSetup on an already loaded configuration: a nil converter is
      refused first, then the first decode or check failure is returned;
      otherwise the setup is complete. */
  method NewNodesSetup(config: GenesisConfig, addressPubkeyConverter: Option<Converter>, validatorPubkeyConverter: Option<Converter>)
    returns (r: Result<NodesSetup, Error>)
    requires |config.initialNodes| < Modulus
    ensures r.Failure? <==> SetupError(config, addressPubkeyConverter, validatorPubkeyConverter).Some?
    ensures r.Failure? ==> SetupError(config, addressPubkeyConverter, validatorPubkeyConverter) == Some(r.error)
    ensures r.Success? ==>
              && fresh(r.value) && fresh(r.value.initialNodes)
              && r.value.config == config
              && Some(r.value.addressPubkeyConverter) == addressPubkeyConverter
              && Some(r.value.validatorPubkeyConverter) == validatorPubkeyConverter
              && r.value.Ready()
  {
    if addressPubkeyConverter.None? {
      return Failure(ErrNilPubkeyConverter);
    }
    if validatorPubkeyConverter.None? {
      return Failure(ErrNilPubkeyConverter);
    }
    var vc, ac := validatorPubkeyConverter.value, addressPubkeyConverter.value;
    var nodes := new NodesSetup(config, ac, vc);
    ConstructionSteps(config, vc, ac);
    var err := nodes.ProcessConfig();
    if err.Some? {
      return Failure(err.value);
    }
    nodes.AssignNodes();
    return Success(nodes);
  }
}
