/** Properties of the genesis nodes setup, stated over the definitions in
    NodesSetupSpec: the error order of construction, the placement of every
    node, the shape of the lookup tables, and what the queries return on a
    setup that was constructed successfully. */
module NodesSetupProofs {
  import opened Wrappers
  import opened Uint32
  import opened NodesSetupSpec

  function Min(a: nat, b: nat): nat { if a <= b then a else b }

  // ---------------------------------------------------------------------
  // Construction errors
  // ---------------------------------------------------------------------

  /** Construction succeeds exactly when both converters are present, every
      node's key and address decode and neither text is empty, and the
      numeric checks pass on the node count. */
  lemma SetupSucceeds(config: GenesisConfig, addressConverter: Option<Converter>, validatorConverter: Option<Converter>)
    ensures SetupError(config, addressConverter, validatorConverter).None? <==>
              && addressConverter.Some? && validatorConverter.Some?
              && (forall i | 0 <= i < |config.initialNodes| ::
                    && validatorConverter.value(config.initialNodes[i].pubKey).Some?
                    && addressConverter.value(config.initialNodes[i].address).Some?
                    && config.initialNodes[i].pubKey != ""
                    && config.initialNodes[i].address != "")
              && CountsError(config, |config.initialNodes|).None?
  {
    if addressConverter.Some? && validatorConverter.Some? {
      var ns := Loaded(config.initialNodes);
      var k := FirstFailure(ns, validatorConverter.value, addressConverter.value);
      if k < |ns| {
        assert ns[k].pubKeyText == config.initialNodes[k].pubKey;
        assert ns[k].addressText == config.initialNodes[k].address;
      } else {
        assert forall i | 0 <= i < |ns| ::
          ns[i].pubKeyText == config.initialNodes[i].pubKey && ns[i].addressText == config.initialNodes[i].address;
      }
    }
  }

  /** Once both converters are present and every node decodes, a zero
      consensus group size is reported first, and a block size below the
      consensus size second. */
  lemma ConsensusSizeErrors(config: GenesisConfig, addressConverter: Converter, validatorConverter: Converter)
    requires forall i | 0 <= i < |config.initialNodes| ::
               && validatorConverter(config.initialNodes[i].pubKey).Some?
               && addressConverter(config.initialNodes[i].address).Some?
               && config.initialNodes[i].pubKey != ""
               && config.initialNodes[i].address != ""
    ensures config.consensusGroupSize == 0 ==>
              SetupError(config, Some(addressConverter), Some(validatorConverter)) == Some(ErrNegativeOrZeroConsensusGroupSize)
    ensures 1 <= config.consensusGroupSize && config.minNodesPerShard < config.consensusGroupSize ==>
              SetupError(config, Some(addressConverter), Some(validatorConverter)) == Some(ErrMinNodesPerShardSmallerThanConsensusSize)
  {
    var ns := Loaded(config.initialNodes);
    FirstFailureAt(ns, validatorConverter, addressConverter, |ns|);
  }

  /** Checks 3 to 6 of the node counts: once every node decodes and the
      earlier checks pass, the first failing check's error is the setup's. */
  lemma LaterCheckErrors(config: GenesisConfig, addressConverter: Converter, validatorConverter: Converter)
    requires forall i | 0 <= i < |config.initialNodes| ::
               && validatorConverter(config.initialNodes[i].pubKey).Some?
               && addressConverter(config.initialNodes[i].address).Some?
               && config.initialNodes[i].pubKey != ""
               && config.initialNodes[i].address != ""
    ensures var n := |config.initialNodes|;
            1 <= config.consensusGroupSize <= config.minNodesPerShard && n < config.minNodesPerShard as int
            ==> SetupError(config, Some(addressConverter), Some(validatorConverter)) == Some(ErrNodesSizeSmallerThanMinNoOfNodes)
    ensures var n := |config.initialNodes|;
            1 <= config.consensusGroupSize <= config.minNodesPerShard && config.minNodesPerShard as int <= n
            && config.metaChainConsensusGroupSize == 0
            ==> SetupError(config, Some(addressConverter), Some(validatorConverter)) == Some(ErrNegativeOrZeroConsensusGroupSize)
    ensures var n := |config.initialNodes|;
            1 <= config.consensusGroupSize <= config.minNodesPerShard && config.minNodesPerShard as int <= n
            && 1 <= config.metaChainConsensusGroupSize && config.metaChainMinNodes < config.metaChainConsensusGroupSize
            ==> SetupError(config, Some(addressConverter), Some(validatorConverter)) == Some(ErrMinNodesPerShardSmallerThanConsensusSize)
    ensures var n := |config.initialNodes|;
            1 <= config.consensusGroupSize <= config.minNodesPerShard && config.minNodesPerShard as int <= n
            && 1 <= config.metaChainConsensusGroupSize <= config.metaChainMinNodes
            && n < config.metaChainMinNodes as int + config.minNodesPerShard as int
            ==> SetupError(config, Some(addressConverter), Some(validatorConverter)) == Some(ErrNodesSizeSmallerThanMinNoOfNodes)
  {
    var ns := Loaded(config.initialNodes);
    FirstFailureAt(ns, validatorConverter, addressConverter, |ns|);
  }

  /** A node whose address is the empty string stops construction with
      ErrCouldNotParseAddress when every earlier node decoded and its own key
      decodes, even if the address converter accepts the empty string. */
  lemma EmptyAddressFails(config: GenesisConfig, addressConverter: Converter, validatorConverter: Converter, j: nat)
    requires j < |config.initialNodes|
    requires forall i | 0 <= i < j ::
               && validatorConverter(config.initialNodes[i].pubKey).Some?
               && addressConverter(config.initialNodes[i].address).Some?
               && config.initialNodes[i].pubKey != ""
               && config.initialNodes[i].address != ""
    requires validatorConverter(config.initialNodes[j].pubKey).Some? && config.initialNodes[j].pubKey != ""
    requires config.initialNodes[j].address == "" && addressConverter("").Some?
    ensures SetupError(config, Some(addressConverter), Some(validatorConverter)) == Some(ErrCouldNotParseAddress)
  {
    var ns := Loaded(config.initialNodes);
    FirstFailureAt(ns, validatorConverter, addressConverter, j);
  }

  /** Without wrap-around of MetaChainMinNodes + MinNodesPerShard, the
      corrected checks and the checks as written agree. */
  lemma CountsErrorAgreesWithoutWrap(config: GenesisConfig, nrOfNodes: uint32)
    requires config.metaChainMinNodes + config.minNodesPerShard < Modulus
    ensures CountsErrorAsWritten(config, nrOfNodes) == CountsError(config, nrOfNodes)
  {
  }

  /** The wrap-around lets a configuration through whose metachain size
      exceeds the node list, so the metachain scan would index past it. */
  lemma TotalMinNodesWraps()
    ensures var config := GenesisConfig(0, 0, 1, 2, 1, 0xFFFF_FFFF, 0, 0, false, [RawNode("a", "x"), RawNode("b", "y")]);
            && CountsErrorAsWritten(config, 2).None?
            && CountsError(config, 2) == Some(ErrNodesSizeSmallerThanMinNoOfNodes)
            && config.metaChainMinNodes > |config.initialNodes|
  {
  }

  // ---------------------------------------------------------------------
  // Shard count
  // ---------------------------------------------------------------------

  /** Outside the wrap-around cases the corrected shard count is the one the
      source computes. */
  lemma ShardCountAgreesWithoutWrap(nrOfNodes: uint32, nrOfMetaChainNodes: uint32, hystMeta: uint32, minNodesPerShard: uint32, hystShard: uint32)
    requires minNodesPerShard >= 1 && nrOfMetaChainNodes <= nrOfNodes
    requires hystMeta <= nrOfNodes - nrOfMetaChainNodes
    requires minNodesPerShard + hystShard < Modulus
    ensures ShardCountAsWritten(nrOfNodes, nrOfMetaChainNodes, hystMeta, minNodesPerShard, hystShard)
            == Some(ShardCount(nrOfNodes, nrOfMetaChainNodes, hystMeta, minNodesPerShard, hystShard))
  {
  }

  /** With 101 nodes, a 100-node metachain, blocks of 1 and hystMeta = 90
      (hysteresis 0.9) the uint32 numerator wraps: the source derives
      4294967207 shards, whose eligible blocks run far past the 101 nodes. */
  lemma ShardCountUnderflows()
    ensures ShardCountAsWritten(101, 100, 90, 1, 0) == Some(4294967207)
    ensures 100 + 4294967207 * 1 > 101
    ensures ShardCount(101, 100, 90, 1, 0) == 0
  {
  }

  /** With MetaChainMinNodes = 1, MinNodesPerShard = 256 and Hysteresis =
      16777215 the hysteresis reserves are 16777215 and 4294967040, and the
      uint32 divisor 256 + 4294967040 wraps to 0: the source's division by
      zero panics on 257 nodes, where the corrected count is 0. */
  lemma ShardCountDivisorWraps()
    ensures Add32(256, 4294967040) == 0
    ensures ShardCountAsWritten(257, 1, 16777215, 256, 4294967040).None?
    ensures ShardCount(257, 1, 16777215, 256, 4294967040) == 0
  {
  }

  // ---------------------------------------------------------------------
  // Placement
  // ---------------------------------------------------------------------

  lemma DivIs(x: nat, d: nat, s: nat)
    requires d >= 1
    ensures x / d == s <==> s * d <= x < s * d + d
  {
    DivBounds(x, d);
    if x / d < s {
      MulMonotone(d, x / d + 1, s);
    } else if x / d > s {
      MulMonotone(d, s + 1, x / d);
    }
  }

  /** Node i is an eligible member of regular shard s exactly when it lies
      in the s-th block of minNodesPerShard nodes after the metachain. */
  lemma BlockMembership(i: nat, nrOfMetaChainNodes: nat, minNodesPerShard: nat, nrOfShards: nat, s: nat)
    requires minNodesPerShard >= 1 && nrOfShards < MetachainShardId && s < nrOfShards
    ensures (EligibleAt(i, nrOfMetaChainNodes, minNodesPerShard, nrOfShards)
             && ShardOf(i, nrOfMetaChainNodes, minNodesPerShard, nrOfShards) == s)
            <==> nrOfMetaChainNodes + s * minNodesPerShard <= i < nrOfMetaChainNodes + s * minNodesPerShard + minNodesPerShard
  {
    MulMonotone(minNodesPerShard, s + 1, nrOfShards);
    if nrOfMetaChainNodes <= i < nrOfMetaChainNodes + nrOfShards * minNodesPerShard {
      DivIs(i - nrOfMetaChainNodes, minNodesPerShard, s);
    }
  }

  lemma ModOf(x: nat, m: nat, q: nat, r: nat)
    requires m >= 1 && x == q * m + r && r < m
    ensures x % m == r
  {
    DivIs(x, m, q);
  }

  /** Incrementing steps the remainder by one, or wraps it to 0 after m - 1. */
  lemma ModStep(k: nat, m: nat)
    requires m >= 1
    ensures k % m == m - 1 ==> (k + 1) % m == 0
    ensures k % m < m - 1 ==> (k + 1) % m == k % m + 1
  {
    var q, r := k / m, k % m;
    assert k == q * m + r;
    if r == m - 1 {
      ModOf(k + 1, m, q + 1, 0);
    } else {
      ModOf(k + 1, m, q, r + 1);
    }
  }

  /** One step of the round-robin cursor on uint32, as the source writes it
      (`(currentShard + 1) % (nrOfShards + 1)`, then the value nrOfShards is
      replaced by the metachain id), moves from the shard of the k-th waiting
      node to that of the (k+1)-th; the step after the metachain relies on
      MetachainShardId + 1 wrapping to 0. */
  lemma WaitingShardStep(k: nat, nrOfShards: uint32)
    requires nrOfShards < MetachainShardId
    ensures var current: uint32 := if k == 0 then 0 else WaitingShard(k, nrOfShards);
            var next := Add32(current, 1) % Add32(nrOfShards, 1);
            (if next == nrOfShards then MetachainShardId else next) == WaitingShard(k + 1, nrOfShards)
  {
    var m := nrOfShards + 1;
    assert Add32(nrOfShards, 1) == m;
    ModStep(k, m);
    if k == 0 {
      assert Add32(0, 1) == 1;
    } else if k % m == nrOfShards {
      assert WaitingShard(k, nrOfShards) == MetachainShardId;
      assert Add32(MetachainShardId, 1) == 0;
    } else {
      assert WaitingShard(k, nrOfShards) == k % m;
      assert Add32(k % m, 1) == k % m + 1;
      ModOf(k % m + 1, m, 0, k % m + 1);
    }
  }

  /** Decoding one more node. */
  lemma DecodedUpToStep(ns: seq<InitialNode>, validatorConverter: Converter, addressConverter: Converter, k: nat)
    requires k < |ns|
    ensures DecodedUpTo(ns, validatorConverter, addressConverter, k)[k] == ns[k]
    ensures DecodedUpTo(ns, validatorConverter, addressConverter, k + 1)
            == DecodedUpTo(ns, validatorConverter, addressConverter, k)[k := DecodeNode(ns[k], validatorConverter, addressConverter).node]
  {
  }

  /** A full decode pass gives the decoded nodes. */
  lemma DecodedUpToAll(ns: seq<InitialNode>, validatorConverter: Converter, addressConverter: Converter, count: nat)
    requires count >= |ns|
    ensures DecodedUpTo(ns, validatorConverter, addressConverter, count) == DecodedNodes(ns, validatorConverter, addressConverter)
  {
  }

  /** Counting one more node adds one exactly when its key is decoded. */
  lemma KeyCountStep(ns: seq<InitialNode>, k: nat)
    requires k < |ns|
    ensures KeyCount(ns[..k + 1]) == KeyCount(ns[..k]) + (if ns[k].pubKey.Some? then 1 else 0)
    ensures KeyCount(ns[..k]) <= k
  {
    assert ns[..k + 1][..k] == ns[..k];
  }

  /** Past the committee blocks, node i is the (i - E + 1)-th waiting node,
      E being the end of the blocks. */
  lemma WaitingPlacement(i: nat, nrOfMetaChainNodes: nat, minNodesPerShard: nat, nrOfShards: nat, blocksEnd: nat)
    requires minNodesPerShard >= 1 && nrOfShards < MetachainShardId
    requires blocksEnd == nrOfMetaChainNodes + nrOfShards * minNodesPerShard <= i
    ensures ShardOf(i, nrOfMetaChainNodes, minNodesPerShard, nrOfShards) == WaitingShard(i - blocksEnd + 1, nrOfShards)
    ensures !EligibleAt(i, nrOfMetaChainNodes, minNodesPerShard, nrOfShards)
  {
  }

  /** KeyCount reaches the length exactly when every key decoded. */
  lemma {:induction false} KeyCountAll(ns: seq<InitialNode>)
    ensures KeyCount(ns) == |ns| <==> forall i | 0 <= i < |ns| :: ns[i].pubKey.Some?
  {
    if ns != [] {
      var init := ns[..|ns| - 1];
      KeyCountAll(init);
      assert forall i | 0 <= i < |init| :: init[i] == ns[i];
    }
  }

  /** Taking one more node into account for the metachain committee. */
  lemma MetachainCommitteeStep(ns: seq<InitialNode>, k: nat)
    requires k < |ns|
    ensures WithMetachainCommittee(ns, k)[k] == ns[k]
    ensures WithMetachainCommittee(ns, k + 1)
            == WithMetachainCommittee(ns, k)[k := if ns[k].pubKey.Some? then ns[k].(assignedShard := MetachainShardId, eligible := true)
                                                  else ns[k]]
  {
  }

  /** The three construction steps compose to the nodes of the successful
      setup: decoding, then the metachain committee, then the placement of
      everything after it. */
  lemma GenesisFromSteps(config: GenesisConfig, validatorConverter: Converter, addressConverter: Converter)
    requires SetupError(config, Some(addressConverter), Some(validatorConverter)).None?
    requires |config.initialNodes| < Modulus
    ensures var decoded := DecodedNodes(Loaded(config.initialNodes), validatorConverter, addressConverter);
            var M, P, S := config.metaChainMinNodes as int, config.minNodesPerShard as int, Shards(config);
            && S < MetachainShardId
            && PlaceRange(WithMetachainCommittee(decoded, M), M, P, S, M, |decoded|)
               == Genesis(config, validatorConverter, addressConverter)
  {
    var decoded := DecodedNodes(Loaded(config.initialNodes), validatorConverter, addressConverter);
    var M, P, S := config.metaChainMinNodes as int, config.minNodesPerShard as int, Shards(config);
    LayoutShardsBelowMeta(|decoded|, M, P, S);
    var F := PlaceRange(WithMetachainCommittee(decoded, M), M, P, S, M, |decoded|);
    var G := Genesis(config, validatorConverter, addressConverter);
    forall i | 0 <= i < |F|
      ensures F[i] == G[i]
    {
      assert decoded[i].pubKey.Some?;
      if i < M {
        assert ShardOf(i, M, P, S) == MetachainShardId && EligibleAt(i, M, P, S) by {
          MulMonotone(S, 0, P);
        }
      }
    }
  }

  /** The construction steps on given converters: the setup's outcome is
      the failure of the first node that does not decode, or else the
      numeric checks' verdict; and on a configuration that passes, the
      metachain step finds MetaChainMinNodes keys and the configuration's
      shard count, the placement step's preconditions hold, and placing ends
      in Genesis. Stated on the exact node lists the steps leave. */
  lemma ConstructionSteps(config: GenesisConfig, validatorConverter: Converter, addressConverter: Converter)
    requires |config.initialNodes| < Modulus
    ensures var ns := Loaded(config.initialNodes);
            var k := FirstFailure(ns, validatorConverter, addressConverter);
            && (k < |ns| ==> SetupError(config, Some(addressConverter), Some(validatorConverter))
                               == DecodeNode(ns[k], validatorConverter, addressConverter).failure)
            && (k == |ns| ==> SetupError(config, Some(addressConverter), Some(validatorConverter)) == CountsError(config, k))
    ensures SetupError(config, Some(addressConverter), Some(validatorConverter)).None? ==>
            var ns := Loaded(config.initialNodes);
            var n, M, P := |ns|, config.metaChainMinNodes as int, config.minNodesPerShard as int;
            var committee := WithMetachainCommittee(DecodedUpTo(ns, validatorConverter, addressConverter, n + 1), M);
            && FirstFailure(ns, validatorConverter, addressConverter) == n
            && M <= n && P >= 1
            && KeyCount(DecodedUpTo(ns, validatorConverter, addressConverter, n + 1)[..M]) == M
            && ShardCount(n, M, config.hystMeta as int, P, config.hystShard as int) == Shards(config)
            && LayoutOk(n, M, P, Shards(config))
            && (forall i | 0 <= i < n :: committee[i].pubKey.Some?)
            && PlaceRange(committee, M, P, Shards(config), M, n) == Genesis(config, validatorConverter, addressConverter)
  {
    var ns := Loaded(config.initialNodes);
    var n, M := |ns|, config.metaChainMinNodes as int;
    if SetupError(config, Some(addressConverter), Some(validatorConverter)).None? {
      FirstFailureAt(ns, validatorConverter, addressConverter, n);
      DecodedUpToAll(ns, validatorConverter, addressConverter, n + 1);
      var decoded := DecodedNodes(ns, validatorConverter, addressConverter);
      assert forall i | 0 <= i < n :: decoded[i].pubKey.Some?;
      KeyCountAll(decoded[..M]);
      GenesisFromSteps(config, validatorConverter, addressConverter);
    }
  }

  /** Placing node k extends the placed range by one. */
  lemma PlaceRangeStep(ns: seq<InitialNode>, M: nat, P: nat, S: nat, lo: nat, k: nat)
    requires P >= 1 && S < MetachainShardId
    requires lo <= k < |ns|
    ensures PlaceRange(ns, M, P, S, lo, k)[k] == ns[k]
    ensures PlaceRange(ns, M, P, S, lo, k + 1)
            == PlaceRange(ns, M, P, S, lo, k)[k := ns[k].(assignedShard := ShardOf(k, M, P, S), eligible := EligibleAt(k, M, P, S))]
  {
  }

  /** The block of regular shard c ends inside the node list, and the
      uint32 bound the source computes for it does not wrap. */
  lemma BlockEndFits(n: nat, M: nat, P: nat, S: nat, c: nat)
    requires LayoutOk(n, M, P, S) && c < S
    ensures (c + 1) * P == c * P + P
    ensures M + (c + 1) * P <= n < Modulus
  {
    MulMonotone(P, c + 1, S);
  }

  /** The placement of every node of a successful setup. */
  lemma GenesisNodes(config: GenesisConfig, validatorConverter: Converter, addressConverter: Converter)
    requires SetupError(config, Some(addressConverter), Some(validatorConverter)).None?
    requires |config.initialNodes| < Modulus
    ensures var F := Genesis(config, validatorConverter, addressConverter);
            var M, P, S := config.metaChainMinNodes, config.minNodesPerShard, Shards(config);
            forall i | 0 <= i < |F| ::
              && Listed(F[i])
              && F[i].pubKey == validatorConverter(config.initialNodes[i].pubKey)
              && F[i].address == addressConverter(config.initialNodes[i].address)
              && F[i].assignedShard == ShardOf(i, M, P, S)
              && F[i].eligible == EligibleAt(i, M, P, S)
  {
  }

  /** Only the first nrOfMetaChainNodes positions are eligible metachain
      positions. */
  lemma MetachainPosition(i: nat, nrOfMetaChainNodes: nat, minNodesPerShard: nat, nrOfShards: nat)
    requires minNodesPerShard >= 1 && nrOfShards < MetachainShardId
    ensures (ShardOf(i, nrOfMetaChainNodes, minNodesPerShard, nrOfShards) == MetachainShardId
             && EligibleAt(i, nrOfMetaChainNodes, minNodesPerShard, nrOfShards))
            <==> i < nrOfMetaChainNodes
  {
    if nrOfMetaChainNodes <= i < nrOfMetaChainNodes + nrOfShards * minNodesPerShard {
      DivBelow(i - nrOfMetaChainNodes, minNodesPerShard, nrOfShards);
    }
  }

  /** The metachain committee is exactly the first MetaChainMinNodes nodes;
      every other node is in a regular shard's committee or waiting. */
  lemma GenesisMetachainCommittee(config: GenesisConfig, validatorConverter: Converter, addressConverter: Converter)
    requires SetupError(config, Some(addressConverter), Some(validatorConverter)).None?
    requires |config.initialNodes| < Modulus
    ensures var F := Genesis(config, validatorConverter, addressConverter);
            forall i | 0 <= i < |F| ::
              (F[i].assignedShard == MetachainShardId && F[i].eligible) <==> i < config.metaChainMinNodes
    ensures var F := Genesis(config, validatorConverter, addressConverter);
            forall i | 0 <= i < |F| ::
              F[i].assignedShard == MetachainShardId || F[i].assignedShard < Shards(config)
  {
    GenesisNodes(config, validatorConverter, addressConverter);
    var F := Genesis(config, validatorConverter, addressConverter);
    var M, P, S := config.metaChainMinNodes as int, config.minNodesPerShard as int, Shards(config);
    forall i | 0 <= i < |F|
      ensures (F[i].assignedShard == MetachainShardId && F[i].eligible) <==> i < M
      ensures F[i].assignedShard == MetachainShardId || F[i].assignedShard < S
    {
      MetachainPosition(i, M, P, S);
    }
  }

  // ---------------------------------------------------------------------
  // Buckets and tables
  // ---------------------------------------------------------------------

  /** A bucket whose members are exactly the nodes of one contiguous block
      holds those nodes' infos in order. */
  lemma {:induction false} BucketOfBlock(ns: seq<InitialNode>, shard: uint32, eligible: bool, lo: nat, hi: nat, k: nat)
    requires lo <= hi <= |ns| && k <= |ns|
    requires forall i | 0 <= i < |ns| :: Listed(ns[i])
    requires forall i | 0 <= i < |ns| ::
               (ns[i].eligible == eligible && ns[i].assignedShard == shard) <==> lo <= i < hi
    ensures Bucket(ns[..k], shard, eligible) == Infos(ns[Min(lo, k)..Min(hi, k)])
  {
    if k > 0 {
      BucketOfBlock(ns, shard, eligible, lo, hi, k - 1);
      var n := ns[k - 1];
      BucketPrefixStep(ns, shard, eligible, k);
      if k - 1 < lo {
        assert Min(lo, k) == Min(hi, k) == k;
      } else if hi <= k - 1 {
        assert Min(lo, k) == lo && Min(hi, k) == hi;
      } else {
        assert Min(lo, k) == lo && Min(hi, k) == k && Min(hi, k - 1) == k - 1;
        SliceSnoc(ns, lo, k);
        InfosAppend(ns[lo..k - 1], n);
      }
    }
  }

  lemma SliceSnoc<T>(s: seq<T>, lo: nat, hi: nat)
    requires lo < hi <= |s|
    ensures s[lo..hi] == s[lo..hi - 1] + [s[hi - 1]]
  {
  }

  /** The bucket of a prefix one node longer. */
  lemma BucketPrefixStep(ns: seq<InitialNode>, shard: uint32, eligible: bool, k: nat)
    requires 0 < k <= |ns|
    ensures var n := ns[k - 1];
            Bucket(ns[..k], shard, eligible)
            == Bucket(ns[..k - 1], shard, eligible) + (if Listed(n) && n.eligible == eligible && n.assignedShard == shard then [Info(n)] else [])
  {
    assert ns[..k][..k - 1] == ns[..k - 1];
  }

  lemma InfosAppend(ns: seq<InitialNode>, n: InitialNode)
    requires forall i | 0 <= i < |ns| :: Listed(ns[i])
    requires Listed(n)
    ensures Infos(ns + [n]) == Infos(ns) + [Info(n)]
  {
  }

  /** The tables are the buckets: a shard has an entry exactly when its
      bucket is non-empty, and the entry is the bucket, in list order. */
  lemma {:induction false} TablesAreBuckets(ns: seq<InitialNode>)
    ensures forall s :: s in Tables(ns).0 <==> Bucket(ns, s, true) != []
    ensures forall s :: s in Tables(ns).1 <==> Bucket(ns, s, false) != []
    ensures forall s | s in Tables(ns).0 :: Tables(ns).0[s] == Bucket(ns, s, true)
    ensures forall s | s in Tables(ns).1 :: Tables(ns).1[s] == Bucket(ns, s, false)
  {
    if ns != [] {
      var init := ns[..|ns| - 1];
      TablesAreBuckets(init);
    }
  }

  /** TablesAreBuckets at one shard id of the eligible table. */
  lemma EligibleEntry(ns: seq<InitialNode>, s: uint32)
    ensures s in Tables(ns).0 <==> Bucket(ns, s, true) != []
    ensures s in Tables(ns).0 ==> Tables(ns).0[s] == Bucket(ns, s, true)
  {
    TablesAreBuckets(ns);
  }

  lemma {:induction false} SizeSumRemove(t: Table, s: uint32)
    requires s in t
    ensures SizeSum(t) == |t[s]| + SizeSum(t - {s})
    decreases t.Keys
  {
    var s' :| s' in t && SizeSum(t) == |t[s']| + SizeSum(t - {s'});
    if s' != s {
      SizeSumRemove(t - {s'}, s);
      SizeSumRemove(t - {s}, s');
      assert t - {s'} - {s} == t - {s} - {s'};
    }
  }

  /** Appending to one entry adds exactly one to the total size. */
  lemma SizeSumAppend(t: Table, s: uint32, info: NodeInfo)
    ensures SizeSum(Append(t, s, info)) == SizeSum(t) + 1
  {
    var u := Append(t, s, info);
    SizeSumRemove(u, s);
    assert u - {s} == t - {s};
    if s in t {
      SizeSumRemove(t, s);
    } else {
      assert t - {s} == t;
    }
  }

  /** Every listed node lands in exactly one entry of the two tables: the
      sizes of all buckets add up to the number of listed nodes. */
  lemma {:induction false} TablesSize(ns: seq<InitialNode>)
    ensures SizeSum(Tables(ns).0) + SizeSum(Tables(ns).1) == ListedCount(ns)
  {
    if ns != [] {
      var init := ns[..|ns| - 1];
      TablesSize(init);
      var prev, n := Tables(init), ns[|ns| - 1];
      if Listed(n) {
        SizeSumAppend(if n.eligible then prev.0 else prev.1, n.assignedShard, Info(n));
      }
    }
  }

  lemma {:induction false} ListedCountAll(ns: seq<InitialNode>)
    requires forall i | 0 <= i < |ns| :: Listed(ns[i])
    ensures ListedCount(ns) == |ns|
  {
    if ns != [] {
      ListedCountAll(ns[..|ns| - 1]);
    }
  }

  /** The nodes carry the placement of ShardOf and EligibleAt, and all of
      them go into the tables. */
  ghost predicate Placed(F: seq<InitialNode>, nrOfMetaChainNodes: nat, minNodesPerShard: nat, nrOfShards: nat)
    requires minNodesPerShard >= 1 && nrOfShards < MetachainShardId
  {
    forall i :: PlacedAt(F, i, nrOfMetaChainNodes, minNodesPerShard, nrOfShards)
  }

  /** Node i (when it exists) is placed and goes into the tables. Kept as a
      predicate of its own so that Placed is instantiated only at the
      indices a proof names. */
  ghost predicate PlacedAt(F: seq<InitialNode>, i: int, nrOfMetaChainNodes: nat, minNodesPerShard: nat, nrOfShards: nat)
    requires minNodesPerShard >= 1 && nrOfShards < MetachainShardId
  {
    0 <= i < |F| ==>
      && Listed(F[i])
      && F[i].assignedShard == ShardOf(i, nrOfMetaChainNodes, minNodesPerShard, nrOfShards)
      && F[i].eligible == EligibleAt(i, nrOfMetaChainNodes, minNodesPerShard, nrOfShards)
  }

  /** A placed layout of a raw node list: the blocks fit, every node is
      placed and listed, and each node's key is the decoded key of the raw
      node at the same index. */
  ghost predicate PlacedLayout(F: seq<InitialNode>, raw: seq<RawNode>, validatorConverter: Converter,
                               nrOfMetaChainNodes: nat, minNodesPerShard: nat, nrOfShards: nat)
  {
    && LayoutOk(|F|, nrOfMetaChainNodes, minNodesPerShard, nrOfShards)
    && nrOfShards < MetachainShardId
    && Placed(F, nrOfMetaChainNodes, minNodesPerShard, nrOfShards)
    && |F| == |raw|
    && forall i | 0 <= i < |F| :: F[i].pubKey == validatorConverter(raw[i].pubKey)
  }

  /** The metachain's eligible bucket is the first nrOfMetaChainNodes nodes. */
  lemma MetaBucket(F: seq<InitialNode>, M: nat, P: nat, S: nat)
    requires LayoutOk(|F|, M, P, S)
    requires S < MetachainShardId && Placed(F, M, P, S)
    ensures forall i | 0 <= i < |F| :: Listed(F[i])
    ensures M <= |F| && Bucket(F, MetachainShardId, true) == Infos(F[..M])
    ensures |Bucket(F, MetachainShardId, true)| == M
    ensures forall j | 0 <= j < M :: Some(Bucket(F, MetachainShardId, true)[j].pubKey) == F[j].pubKey
  {
    forall i | 0 <= i < |F|
      ensures Listed(F[i]) && ((F[i].eligible == true && F[i].assignedShard == MetachainShardId) <==> 0 <= i < M)
    {
      assert PlacedAt(F, i, M, P, S);
    }
    assert F[..|F|] == F;
    BucketOfBlock(F, MetachainShardId, true, 0, M, |F|);
  }

  /** The eligible members of regular shard s are the nodes of its block. */
  lemma ShardBlock(F: seq<InitialNode>, M: nat, P: nat, S: nat, s: nat)
    requires P >= 1 && S < MetachainShardId && Placed(F, M, P, S) && s < S
    ensures forall i | 0 <= i < |F| ::
              Listed(F[i]) && ((F[i].eligible == true && F[i].assignedShard == s) <==> M + s * P <= i < M + s * P + P)
  {
    forall i | 0 <= i < |F|
      ensures Listed(F[i]) && ((F[i].eligible == true && F[i].assignedShard == s) <==> M + s * P <= i < M + s * P + P)
    {
      assert PlacedAt(F, i, M, P, S);
      BlockMembership(i, M, P, S, s);
    }
  }

  /** Regular shard s's eligible bucket is the s-th block of P nodes after
      the metachain. */
  lemma ShardBucket(F: seq<InitialNode>, M: nat, P: nat, S: nat, s: nat)
    requires LayoutOk(|F|, M, P, S)
    requires S < MetachainShardId && Placed(F, M, P, S) && s < S
    ensures forall i | 0 <= i < |F| :: Listed(F[i])
    ensures M + s * P + P <= |F| && Bucket(F, s, true) == Infos(F[M + s * P..M + s * P + P])
    ensures |Bucket(F, s, true)| == P
    ensures forall j | 0 <= j < P :: Some(Bucket(F, s, true)[j].pubKey) == F[M + s * P + j].pubKey
  {
    BlockEndFits(|F|, M, P, S, s);
    ShardBlock(F, M, P, S, s);
    var start := M + s * P;
    assert F[..|F|] == F;
    BucketOfBlock(F, s, true, start, start + P, |F|);
    forall j | 0 <= j < P
      ensures Some(Bucket(F, s, true)[j].pubKey) == F[start + j].pubKey
    {
      assert F[start..start + P][j] == F[start + j];
    }
  }

  /** A shard id that is neither the metachain nor a regular shard has empty
      buckets. */
  lemma OtherBucket(F: seq<InitialNode>, M: nat, P: nat, S: nat, s: uint32, eligible: bool)
    requires LayoutOk(|F|, M, P, S)
    requires S < MetachainShardId && Placed(F, M, P, S)
    requires s != MetachainShardId && s >= S
    ensures Bucket(F, s, eligible) == []
  {
    forall i | 0 <= i < |F|
      ensures Listed(F[i]) && !(F[i].eligible == eligible && F[i].assignedShard == s)
    {
      assert PlacedAt(F, i, M, P, S);
    }
    assert F[..|F|] == F;
    BucketOfBlock(F, s, eligible, 0, 0, |F|);
  }

  /** Which shard ids have an entry in the tables of a placed layout. */
  lemma LayoutTableKey(F: seq<InitialNode>, M: nat, P: nat, S: nat, s: uint32)
    requires LayoutOk(|F|, M, P, S)
    requires S < MetachainShardId && Placed(F, M, P, S)
    ensures s in Tables(F).0 <==> s == MetachainShardId || s < S
    ensures s in Tables(F).1 ==> s == MetachainShardId || s < S
  {
    TablesAreBuckets(F);
    if s == MetachainShardId {
      MetaBucket(F, M, P, S);
    } else if s < S {
      ShardBucket(F, M, P, S, s);
    } else {
      OtherBucket(F, M, P, S, s, true);
      OtherBucket(F, M, P, S, s, false);
    }
  }

  /** The tables of a placed layout: the eligible table has an entry for the
      metachain and for each regular shard and nothing else, the waiting
      table has no other ids, no entry is empty, and the two tables together
      hold every node once. */
  lemma LayoutTables(F: seq<InitialNode>, M: nat, P: nat, S: nat)
    requires LayoutOk(|F|, M, P, S)
    requires S < MetachainShardId && Placed(F, M, P, S)
    ensures forall s: uint32 :: s in Tables(F).0 <==> s == MetachainShardId || s < S
    ensures forall s: uint32 :: s in Tables(F).1 ==> s == MetachainShardId || s < S
    ensures forall s | s in Tables(F).0 :: Tables(F).0[s] != []
    ensures forall s | s in Tables(F).1 :: Tables(F).1[s] != []
    ensures SizeSum(Tables(F).0) + SizeSum(Tables(F).1) == |F|
  {
    forall s: uint32
      ensures s in Tables(F).0 <==> s == MetachainShardId || s < S
      ensures s in Tables(F).1 ==> s == MetachainShardId || s < S
    {
      LayoutTableKey(F, M, P, S, s);
    }
    TablesAreBuckets(F);
    TablesSize(F);
    forall i | 0 <= i < |F|
      ensures Listed(F[i])
    {
      assert PlacedAt(F, i, M, P, S);
    }
    ListedCountAll(F);
  }

  /** A successful setup's initial nodes are placed on a valid layout. */
  lemma GenesisPlaced(config: GenesisConfig, validatorConverter: Converter, addressConverter: Converter)
    requires SetupError(config, Some(addressConverter), Some(validatorConverter)).None?
    requires |config.initialNodes| < Modulus
    ensures PlacedLayout(Genesis(config, validatorConverter, addressConverter), config.initialNodes, validatorConverter,
                         config.metaChainMinNodes, config.minNodesPerShard, Shards(config))
  {
    var S := Shards(config);
    LayoutShardsBelowMeta(|config.initialNodes|, config.metaChainMinNodes, config.minNodesPerShard, S);
    GenesisNodes(config, validatorConverter, addressConverter);
  }

  // ---------------------------------------------------------------------
  // Queries on a successful setup
  // ---------------------------------------------------------------------

  /** InitialEligibleNodesPubKeysForShard on a placed layout: it succeeds
      exactly for the metachain and the regular shards, otherwise reports
      ErrShardIdOutOfRange (never ErrNoPubKeys), and returns the keys of the
      shard's committee block in list order. */
  lemma LayoutEligibleKeysQuery(F: seq<InitialNode>, M: nat, P: nat, S: nat, shardId: uint32)
    requires LayoutOk(|F|, M, P, S)
    requires S < MetachainShardId && Placed(F, M, P, S)
    ensures var r := EligiblePubKeysForShard(Tables(F).0, shardId);
            var start := CommitteeStart(shardId, M, P);
            && (r.Success? <==> shardId == MetachainShardId || shardId < S)
            && (r.Failure? ==> r.error == ErrShardIdOutOfRange)
            && (r.Success? ==>
                  && |r.value| == (if shardId == MetachainShardId then M else P)
                  && start + |r.value| <= |F|
                  && forall j | 0 <= j < |r.value| :: Some(r.value[j]) == F[start + j].pubKey)
  {
    LayoutTableKey(F, M, P, S, shardId);
    EligibleEntry(F, shardId);
    if shardId == MetachainShardId {
      MetaBucket(F, M, P, S);
    } else if shardId < S {
      ShardBucket(F, M, P, S, shardId);
    }
  }

  /** The query on a placed layout whose keys are the decoded keys of a raw
      list: the returned keys are the decoded keys of the committee block. */
  lemma DecodedEligibleKeysQuery(F: seq<InitialNode>, raw: seq<RawNode>, validatorConverter: Converter,
                                 M: nat, P: nat, S: nat, shardId: uint32)
    requires PlacedLayout(F, raw, validatorConverter, M, P, S)
    ensures var r := EligiblePubKeysForShard(Tables(F).0, shardId);
            var start := CommitteeStart(shardId, M, P);
            && (r.Success? <==> shardId == MetachainShardId || shardId < S)
            && (r.Failure? ==> r.error == ErrShardIdOutOfRange)
            && (r.Success? ==>
                  && |r.value| == (if shardId == MetachainShardId then M else P)
                  && start + |r.value| <= |raw|
                  && forall j | 0 <= j < |r.value| :: Some(r.value[j]) == validatorConverter(raw[start + j].pubKey))
  {
    LayoutEligibleKeysQuery(F, M, P, S, shardId);
    var r := EligiblePubKeysForShard(Tables(F).0, shardId);
    if r.Success? {
      var start := CommitteeStart(shardId, M, P);
      forall j | 0 <= j < |r.value|
        ensures Some(r.value[j]) == validatorConverter(raw[start + j].pubKey)
      {
        assert Some(r.value[j]) == F[start + j].pubKey;
      }
    }
  }

  /** InitialNodesInfoForShard on a placed layout: the same success
      condition, and on success the shard's eligible and waiting buckets. */
  lemma LayoutNodesInfoQuery(F: seq<InitialNode>, M: nat, P: nat, S: nat, shardId: uint32)
    requires LayoutOk(|F|, M, P, S)
    requires S < MetachainShardId && Placed(F, M, P, S)
    ensures var r := NodesInfoForShard(Tables(F).0, Tables(F).1, shardId);
            && (r.Success? <==> shardId == MetachainShardId || shardId < S)
            && (r.Failure? ==> r.error == ErrShardIdOutOfRange)
            && (r.Success? ==> r.value == (Bucket(F, shardId, true), Bucket(F, shardId, false)))
  {
    LayoutTables(F, M, P, S);
    TablesAreBuckets(F);
  }

  /** GetShardIDForPubKey on a successful setup: the first node whose key
      decodes to the argument gives its assigned shard; a key no node
      decodes to gives ErrPublicKeyNotFoundInGenesis. */
  lemma GenesisPubKeyLookup(config: GenesisConfig, validatorConverter: Converter, addressConverter: Converter, pubKey: Bytes)
    requires SetupError(config, Some(addressConverter), Some(validatorConverter)).None?
    requires |config.initialNodes| < Modulus
    ensures var r := ShardForPubKey(Genesis(config, validatorConverter, addressConverter), pubKey);
            r == Failure(ErrPublicKeyNotFoundInGenesis) <==>
              forall i | 0 <= i < |config.initialNodes| :: validatorConverter(config.initialNodes[i].pubKey) != Some(pubKey)
    ensures forall i | 0 <= i < |config.initialNodes| && validatorConverter(config.initialNodes[i].pubKey) == Some(pubKey)
                       && (forall j | 0 <= j < i :: validatorConverter(config.initialNodes[j].pubKey) != Some(pubKey)) ::
              ShardForPubKey(Genesis(config, validatorConverter, addressConverter), pubKey)
                == Success(ShardOf(i, config.metaChainMinNodes, config.minNodesPerShard, Shards(config)))
  {
    var F := Genesis(config, validatorConverter, addressConverter);
    var raw := config.initialNodes;
    GenesisNodes(config, validatorConverter, addressConverter);
    var r := ShardForPubKey(F, pubKey);
    forall i | 0 <= i < |raw| && validatorConverter(raw[i].pubKey) == Some(pubKey)
               && (forall j | 0 <= j < i :: validatorConverter(raw[j].pubKey) != Some(pubKey))
      ensures r == Success(ShardOf(i, config.metaChainMinNodes, config.minNodesPerShard, Shards(config)))
    {
      assert F[i].pubKey == Some(pubKey);
      var k :| 0 <= k < |F| && F[k].pubKey == Some(pubKey) && r.value == F[k].assignedShard
               && forall j | 0 <= j < k :: F[j].pubKey != Some(pubKey);
      assert F[k].pubKey == validatorConverter(raw[k].pubKey);
      assert k == i;
    }
  }

  /** MinNumberOfNodes does not wrap on a valid layout and never exceeds the
      node count. */
  lemma MinNumberOfNodesFits(nrOfNodes: nat, nrOfShards: uint32, minNodesPerShard: uint32, metaChainMinNodes: uint32)
    requires LayoutOk(nrOfNodes, metaChainMinNodes, minNodesPerShard, nrOfShards)
    ensures MinNumberOfNodes(nrOfShards, minNodesPerShard, metaChainMinNodes) == nrOfShards * minNodesPerShard + metaChainMinNodes
    ensures MinNumberOfNodes(nrOfShards, minNodesPerShard, metaChainMinNodes) <= nrOfNodes
  {
  }

  // ---------------------------------------------------------------------
  // Worked examples
  // ---------------------------------------------------------------------

  /** Blocks of 2, one metachain node, no hysteresis. With 7 nodes: 3 shards,
      node 0 in the metachain, nodes 1-2, 3-4, 5-6 in shards 0, 1, 2, all
      eligible. With 8 nodes: still 3 shards, and node 7 is the first waiting
      node, placed in shard 1. */
  lemma SmallNetworkExample()
    ensures ShardCount(7, 1, 0, 2, 0) == 3
    ensures ShardCount(8, 1, 0, 2, 0) == 3
    ensures ShardOf(0, 1, 2, 3) == MetachainShardId
    ensures forall i | 1 <= i < 7 :: ShardOf(i, 1, 2, 3) == (i - 1) / 2 && EligibleAt(i, 1, 2, 3)
    ensures ShardOf(7, 1, 2, 3) == 1 && !EligibleAt(7, 1, 2, 3)
  {
  }
}
