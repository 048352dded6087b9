# Genesis nodes setup

A Dafny model of the genesis nodes setup of the sharding package
(`sharding/nodesSetup.go`). Every node of the network derives the same
genesis topology from one configuration: it decodes the initial validators'
public keys and addresses, checks the consensus sizes, fills the metachain
committee, derives the number of regular shards from the hysteresis-buffered
formula, fills each shard's committee in list order, deals the remaining
validators round-robin into waiting lists, and builds the eligible and
waiting lookup tables that the query methods answer from.

Files:

- `wrappers.dfy`: `Option` and `Result`.
- `uint32.dfy`: the Go `uint32` type and its wrapping `+`, `-` and `*`.
- `nodes_setup_spec.dfy` (module `NodesSetupSpec`): the entities
  (`RawNode`, `InitialNode`, `NodeInfo`, `GenesisConfig`, the errors) and
  the definitions the setup is proved against: the decoding of one node and
  of the list, the ordered numeric checks, the metachain committee, the
  shard count, the placement of every node (`ShardOf`, `EligibleAt`), the
  tables and the queries on them.
- `nodes_setup_proofs.dfy` (module `NodesSetupProofs`): lemmas about those
  definitions. They cover the error order, the placement, the shape of the
  tables, what the queries return on a constructed setup, and the two
  findings below.
- `nodes_setup.dfy` (module `Sharding`): the `NodesSetup` class. Its fields
  are the source's (`InitialNodes` as an array, the three counters, the two
  tables). Its construction steps are methods with loops that are proved
  against the definitions above. The queries are functions that read the
  object.

`NewNodesSetup` takes the already loaded configuration instead of a file
path. The decode loop's body is the method `DecodeInitialNode`, and the
three steps after `processConfig` are grouped in `AssignNodes`. Both keep
the source's statement order.

## Model

| member | source | states |
|---|---|---|
| Uint32.Add32 | sharding/nodesSetup.go:159 | uint32 addition: the sum when it fits, otherwise the sum minus 2^32, which is smaller than either operand |
| Uint32.Sub32 | sharding/nodesSetup.go:180 | uint32 subtraction: the difference when it is non-negative, otherwise the difference plus 2^32, which is larger than the minuend |
| Uint32.Mul32 | sharding/nodesSetup.go:188 | uint32 multiplication is the product whenever the product fits |
| NodesSetupSpec.Loaded | sharding/nodesSetup.go:87-95 | the loaded list has one node per configured entry, carrying that entry's key and address text, with no decoded key or address, shard 0 and not eligible |
| NodesSetupSpec.DecodeNode | sharding/nodesSetup.go:115-137 | one node's decode fails with ErrCouldNotParsePubKey exactly when the key does not decode, or the address decodes and the key text is empty. It fails with ErrCouldNotParseAddress exactly when the key decodes and then the address does not decode, or the address decodes too, the key text is non-empty and the address text is empty. It succeeds exactly when both decode and neither text is empty; the node then holds both decoded values. A failed node is left with a nil key or a nil address, and its texts and placement are untouched |
| NodesSetupSpec.FirstFailure | sharding/nodesSetup.go:114-140 | the index where the decode loop stops: every node before it decodes, and the node at it (if any) fails |
| NodesSetupSpec.FirstFailureAt | sharding/nodesSetup.go:114-140 | that index is unique: any index with those two properties is FirstFailure |
| NodesSetupSpec.CountsError | sharding/nodesSetup.go:142-164 | the six checks pass exactly when 1 <= ConsensusGroupSize <= MinNodesPerShard <= nrOfNodes, 1 <= MetaChainConsensusGroupSize <= MetaChainMinNodes and MetaChainMinNodes + MinNodesPerShard <= nrOfNodes; a failure is one of the three check errors |
| NodesSetupSpec.CountsErrorAsWritten | sharding/nodesSetup.go:142-162 | the six checks with the uint32 sum of line 159: they pass exactly when the consensus and block-size conditions of CountsError hold and the wrapped sum MetaChainMinNodes + MinNodesPerShard is at most nrOfNodes; a failure is one of the three count errors |
| NodesSetupSpec.SetupError | sharding/nodesSetup.go:74-107 | construction fails only with one of the six errors the source names |
| NodesSetupSpec.KeyCount | sharding/nodesSetup.go:168-175 | the metachain count never exceeds the number of candidate nodes examined |
| NodesSetupSpec.ShardCount | sharding/nodesSetup.go:177-180 | the shard count never exceeds the number of nodes left after the metachain, so it fits in uint32 |
| NodesSetupSpec.ShardCountBounds | sharding/nodesSetup.go:177-180 | the metachain block plus one block of MinNodesPerShard per shard fits in the node list. A non-zero count leaves room for hystMeta and for hystShard in every shard. One shard more would not fit once hysteresis is counted |
| NodesSetupSpec.ShardCountAsWritten | sharding/nodesSetup.go:177-180 | the shard count on uint32 values: no count (the division by zero panics) exactly when MinNodesPerShard + hystShard is 0 or exactly 2^32, so that the uint32 sum is 0 |
| NodesSetupSpec.LayoutShardsBelowMeta | sharding/nodesSetup.go:187-203 | when the blocks fit in a uint32-sized list, the shard count is below MetachainShardId, so no regular shard id equals the metachain id |
| NodesSetupSpec.WaitingShard | sharding/nodesSetup.go:199-204 | the k-th waiting node goes to the metachain exactly when k mod (nrOfShards + 1) equals nrOfShards, otherwise to shard k mod (nrOfShards + 1) |
| NodesSetupSpec.EligibleAt | sharding/nodesSetup.go:172-208 | the nodes of the metachain block are always eligible, and with no shard blocks (no shards or MinNodesPerShard 0) exactly those are; BlockMembership and MetachainPosition relate it to the blocks |
| NodesSetupSpec.ShardOf | sharding/nodesSetup.go:169-210 | every node is assigned the metachain or a regular shard below nrOfShards |
| NodesSetupSpec.WithMetachainCommittee | sharding/nodesSetup.go:169-175 | the metachain step keeps the node list's length |
| NodesSetupSpec.PlaceRange | sharding/nodesSetup.go:187-210 | the shard step keeps the node list's length |
| NodesSetupSpec.Assign | sharding/nodesSetup.go:167-210 | the whole placement keeps the node list's length |
| NodesSetupSpec.Shards | sharding/nodesSetup.go:177-180 | the shard count of a configuration that passes the checks leaves a layout whose blocks fit in the list, and is below MetachainShardId |
| NodesSetupSpec.Genesis | sharding/nodesSetup.go:97-104 | a successful setup has one initial node per configured node |
| NodesSetupSpec.Tables | sharding/nodesSetup.go:213-228 | the eligible and waiting tables built in one pass never hold an empty entry; TablesAreBuckets states their contents |
| NodesSetupSpec.Append | sharding/nodesSetup.go:222-224 | appending to a shard's entry adds that shard's key and leaves every other entry unchanged |
| NodesSetupSpec.Infos | sharding/nodesSetup.go:220 | one nodeInfo per node |
| NodesSetupSpec.ListedCount | sharding/nodesSetup.go:219 | at most every node enters the tables |
| NodesSetupSpec.PubKeys | sharding/nodesSetup.go:259-263 | one key per nodeInfo |
| NodesSetupSpec.AllPubKeys | sharding/nodesSetup.go:231-243 | the key map has the eligible table's shard ids and the same number of keys per shard |
| NodesSetupSpec.EligiblePubKeysForShard | sharding/nodesSetup.go:251-266 | succeeds exactly when the shard has a non-empty eligible entry, and then returns that entry's keys in order |
| NodesSetupSpec.NodesInfoForShard | sharding/nodesSetup.go:269-278 | succeeds exactly when the shard has a non-empty eligible entry, and then returns that entry as the eligible part |
| NodesSetupSpec.ShardForPubKey | sharding/nodesSetup.go:291-298 | ErrPublicKeyNotFoundInGenesis exactly when no node has that decoded key; otherwise the assigned shard of the first node that has it |
| NodesSetupSpec.MinNumberOfNodes | sharding/nodesSetup.go:286-288 | nrOfShards * MinNodesPerShard + MetaChainMinNodes whenever that does not wrap |
| NodesSetupProofs.SetupSucceeds | sharding/nodesSetup.go:74-165 | construction succeeds exactly when both converters are present, every key and address decodes with neither text empty, and the numeric checks pass on the node count |
| NodesSetupProofs.ConsensusSizeErrors | sharding/nodesSetup.go:142-147 | when every node decodes, a zero ConsensusGroupSize gives ErrNegativeOrZeroConsensusGroupSize, and otherwise MinNodesPerShard < ConsensusGroupSize gives ErrMinNodesPerShardSmallerThanConsensusSize |
| NodesSetupProofs.LaterCheckErrors | sharding/nodesSetup.go:148-162 | when every node decodes and the earlier checks pass: too few nodes for one block gives ErrNodesSizeSmallerThanMinNoOfNodes, a zero MetaChainConsensusGroupSize gives ErrNegativeOrZeroConsensusGroupSize, MetaChainMinNodes below it gives ErrMinNodesPerShardSmallerThanConsensusSize, and fewer nodes than MetaChainMinNodes + MinNodesPerShard gives ErrNodesSizeSmallerThanMinNoOfNodes |
| NodesSetupProofs.EmptyAddressFails | sharding/nodesSetup.go:133-137 | an empty address that the converter accepts fails the setup with ErrCouldNotParseAddress once the nodes before it decode |
| NodesSetupProofs.CountsErrorAgreesWithoutWrap | sharding/nodesSetup.go:159-162 | when the uint32 sum does not wrap, the checks as written and the corrected checks agree |
| NodesSetupProofs.TotalMinNodesWraps | sharding/nodesSetup.go:159-162 | finding 1: a configuration the checks as written accept although the metachain needs more nodes than the list holds |
| NodesSetupProofs.ShardCountAgreesWithoutWrap | sharding/nodesSetup.go:180 | when neither the subtraction nor the addition wraps, the shard count as written and the corrected one agree |
| NodesSetupProofs.ShardCountUnderflows | sharding/nodesSetup.go:180 | finding 2: an input where the numerator wraps and the shard blocks run past the list, while the corrected count is 0 |
| NodesSetupProofs.ShardCountDivisorWraps | sharding/nodesSetup.go:180 | finding 2: an input where the uint32 divisor MinNodesPerShard + hystShard wraps to 0, so the source divides by zero, while the corrected count is 0 |
| NodesSetupProofs.BlockMembership | sharding/nodesSetup.go:187-195 | node i is an eligible member of regular shard s exactly when it lies in the s-th block of MinNodesPerShard nodes after the metachain |
| NodesSetupProofs.BlockEndFits | sharding/nodesSetup.go:188 | the uint32 block bound of each filled shard does not wrap and stays inside the node list |
| NodesSetupProofs.WaitingShardStep | sharding/nodesSetup.go:199-204 | one step of the source's cursor moves WaitingShard(k) to WaitingShard(k + 1). The step is a uint32 increment modulo nrOfShards + 1, remapped to the metachain, and includes the wrap from MetachainShardId + 1 to 0 |
| NodesSetupProofs.WaitingPlacement | sharding/nodesSetup.go:198-210 | past the committee blocks, node i goes to the waiting list of WaitingShard(i - E + 1), where E is the end of the blocks, and is not eligible |
| NodesSetupProofs.KeyCountAll | sharding/nodesSetup.go:168-175 | the metachain count equals the number of candidates exactly when every candidate has a decoded key |
| NodesSetupProofs.GenesisFromSteps | sharding/nodesSetup.go:102-103 | placing the metachain committee and then the shard ranges on the decoded list gives Genesis |
| NodesSetupProofs.ConstructionSteps | sharding/nodesSetup.go:97-104 | the error of construction is the failing node's decode error, or the checks' verdict if every node decodes. On success, every node decodes and the metachain step finds MetaChainMinNodes keys and the configured shard count. The placement step's preconditions then hold, and placing ends in Genesis |
| NodesSetupProofs.GenesisNodes | sharding/nodesSetup.go:109-210 | every node of a successful setup enters the tables. It holds the decoded key and address of the configured node at the same index, shard ShardOf(i) and eligibility EligibleAt(i) |
| NodesSetupProofs.MetachainPosition | sharding/nodesSetup.go:169-175 | a position is an eligible metachain position exactly when it is below nrOfMetaChainNodes |
| NodesSetupProofs.GenesisMetachainCommittee | sharding/nodesSetup.go:167-175 | in a successful setup the eligible metachain nodes are exactly the first MetaChainMinNodes nodes, and every node is in the metachain or a regular shard |
| NodesSetupProofs.BucketOfBlock | sharding/nodesSetup.go:218-227 | a table entry whose members are exactly one contiguous block of nodes holds those nodes' infos in list order |
| NodesSetupProofs.TablesAreBuckets | sharding/nodesSetup.go:213-227 | a shard has an eligible (waiting) entry exactly when it has eligible (waiting) nodes, and the entry is those nodes in list order |
| NodesSetupProofs.SizeSumAppend | sharding/nodesSetup.go:222-224 | one append adds exactly one to the total size of a table |
| NodesSetupProofs.TablesSize | sharding/nodesSetup.go:213-227 | the sizes of all entries of both tables add up to the number of nodes with a decoded key and address |
| NodesSetupProofs.MetaBucket | sharding/nodesSetup.go:169-175 | the metachain's eligible entry is the first nrOfMetaChainNodes nodes, in order |
| NodesSetupProofs.ShardBucket | sharding/nodesSetup.go:187-195 | regular shard s's eligible entry is the s-th block: MinNodesPerShard nodes in list order |
| NodesSetupProofs.OtherBucket | sharding/nodesSetup.go:218-227 | no shard id other than the metachain and the regular shards receives nodes |
| NodesSetupProofs.LayoutTableKey | sharding/nodesSetup.go:213-227 | a shard id has an eligible entry exactly when it is the metachain or a regular shard, and a waiting entry only then |
| NodesSetupProofs.LayoutTables | sharding/nodesSetup.go:213-227 | the eligible keys are exactly the metachain and the regular shards, and the waiting keys are among them. No entry is empty, and the entry sizes add up to the number of nodes |
| NodesSetupProofs.GenesisPlaced | sharding/nodesSetup.go:97-104 | a successful setup's node list is a placed layout of the configured nodes with their decoded keys |
| NodesSetupProofs.LayoutEligibleKeysQuery | sharding/nodesSetup.go:251-266 | on a placed layout the keys query succeeds exactly for the metachain and the regular shards, and otherwise fails with ErrShardIdOutOfRange, never ErrNoPubKeys. It returns the keys of the shard's committee block in order, MetaChainMinNodes or MinNodesPerShard of them |
| NodesSetupProofs.DecodedEligibleKeysQuery | sharding/nodesSetup.go:251-266 | the same, with the returned keys being the decoded keys of the configured nodes of the committee block |
| NodesSetupProofs.LayoutNodesInfoQuery | sharding/nodesSetup.go:269-278 | the info query succeeds exactly for the metachain and the regular shards (ErrShardIdOutOfRange otherwise, never ErrNoPubKeys) and returns the shard's eligible and waiting nodes |
| NodesSetupProofs.GenesisPubKeyLookup | sharding/nodesSetup.go:291-298 | on a successful setup, a key is not found exactly when no configured key decodes to it, and otherwise the lookup returns ShardOf of the first node whose key does |
| NodesSetupProofs.MinNumberOfNodesFits | sharding/nodesSetup.go:286-288 | on a layout that fits, the uint32 expression does not wrap and never exceeds the node count |
| NodesSetupProofs.SmallNetworkExample | sharding/nodesSetup.go:177-210 | blocks of 2, one metachain node, no hysteresis: 7 or 8 nodes give 3 shards. Node 0 is the metachain, nodes 1-6 fill shards 0-2 in pairs, and node 7 is the first waiting node, in shard 1 |
| Sharding.NodesSetup.constructor | sharding/nodesSetup.go:87-95 | the object as loaded: the configuration, the converters, the undecoded nodes, zero counters, empty tables |
| Sharding.NodesSetup.ProcessConfig | sharding/nodesSetup.go:109-165 | nrOfNodes is the index of the first failing node (or the list length), and every node up to and including that one is decoded in place. The error is that node's decode error, or the numeric checks' verdict when every node decodes |
| Sharding.NodesSetup.DecodeInitialNode | sharding/nodesSetup.go:115-137 | one iteration of the decode loop leaves DecodeNode's result in node i, changes no other node, and returns its error |
| Sharding.NodesSetup.ProcessMetaChainAssignment | sharding/nodesSetup.go:167-181 | nrOfMetaChainNodes counts the decoded keys among the first MetaChainMinNodes nodes, and exactly those nodes become eligible metachain nodes. nrOfShards is the (corrected) shard count |
| Sharding.NodesSetup.ProcessShardAssignment | sharding/nodesSetup.go:183-211 | the nodes after the metachain committee are placed as ShardOf and EligibleAt say: FIFO blocks of MinNodesPerShard eligible nodes per shard, then the round-robin waiting lists |
| Sharding.NodesSetup.CreateInitialNodesInfo | sharding/nodesSetup.go:213-228 | the eligible and waiting tables are those of the node list: every node with a decoded key and address is appended, in list order, to its shard's entry |
| Sharding.NodesSetup.AssignNodes | sharding/nodesSetup.go:102-104 | after a successful processConfig, the three placement steps leave the complete setup |
| Sharding.NodesSetup.InitialNodesPubKeys | sharding/nodesSetup.go:231-243 | an entry for exactly the metachain and every regular shard, each equal to what InitialEligibleNodesPubKeysForShard returns for it |
| Sharding.NodesSetup.InitialNodesInfo | sharding/nodesSetup.go:246-248 | the eligible table has exactly the metachain and the regular shards, and the waiting table has only those. Each entry is that shard's nodes of that role in list order, and every node is in exactly one entry |
| Sharding.NodesSetup.InitialEligibleNodesPubKeysForShard | sharding/nodesSetup.go:251-266 | succeeds exactly for the metachain and the regular shards, with the decoded keys of the configured nodes of that shard's committee block, in order. Otherwise it fails with ErrShardIdOutOfRange |
| Sharding.NodesSetup.InitialNodesInfoForShard | sharding/nodesSetup.go:269-278 | succeeds exactly for the metachain and the regular shards, with that shard's eligible and waiting nodes. Otherwise it fails with ErrShardIdOutOfRange |
| Sharding.NodesSetup.NumberOfShards | sharding/nodesSetup.go:281-283 | below MetachainShardId, its committees fit in the node list, and one more shard would not fit once hysteresis is counted |
| Sharding.NodesSetup.MinNumberOfNodes | sharding/nodesSetup.go:286-288 | nrOfShards * MinNodesPerShard + MetaChainMinNodes without wrap-around, never more than the node count |
| Sharding.NodesSetup.GetShardIDForPubKey | sharding/nodesSetup.go:291-298 | ErrPublicKeyNotFoundInGenesis exactly when no configured key decodes to the argument, otherwise the shard of the first node whose key does |
| Sharding.NewNodesSetup | sharding/nodesSetup.go:74-107 | fails exactly when SetupError says so, with that error: a nil converter first, then the first node's decode error, then the numeric checks. On success the object holds the configuration and the converters, its nodes are Genesis, its counters are the node count, MetaChainMinNodes and the shard count, and its tables are built from the nodes |

## Left out

- Loading the JSON file (`core.LoadJsonFile`, lines 92-95) is file I/O. NewNodesSetup takes the loaded configuration as a parameter, and a load error is not modelled.
- The public key converters are function values from text to an optional byte string. A nil converter is `None`. The converter's own error text is dropped.
- Error wrapping with `fmt.Errorf` is not modelled. The model returns the wrapped sentinel error, which is what `errors.Is` tests.
- `Hysteresis` is a float32. The model takes the two truncated products `uint32(float32(MetaChainMinNodes) * Hysteresis)` and `uint32(float32(MinNodesPerShard) * Hysteresis)` as the configuration fields `hystMeta` and `hystShard`. Float32 rounding is not modelled.
- Sharding.NewNodesSetup: requires fewer than 2^32 initial nodes, because the uint32 node counter would otherwise wrap.
- Sharding.NodesSetup.ProcessShardAssignment: requires the layout that a checked configuration leaves. The source's behaviour under the uncorrected shard count of finding 2 (indexing past the list) is shown only by ShardCountUnderflows.
- Sharding.NodesSetup.ProcessConfig and Sharding.NodesSetup.ProcessMetaChainAssignment compute the corrected comparison and shard count of the two findings, not the wrapping uint32 ones. The as-written versions are CountsErrorAsWritten and ShardCountAsWritten.
- Nodes with a nil key after construction are not modelled. A converter in the model cannot return a nil key without an error, so every node that decodes has a key. The `pubKey != nil` guards (lines 170, 190, 206, 219, 293) therefore never skip a node, and Sharding.NodesSetup.ProcessShardAssignment requires every key decoded. In the source, a nil key among the first MetaChainMinNodes nodes would shift the shard blocks; that sparse placement is not modelled.
- InitialNodesPubKeys and InitialEligibleNodesPubKeysForShard return `string(pubKey)` in the source. The model returns the bytes.
- Go maps are unordered, and so are Dafny maps. Nothing in the model depends on iteration order.
- Go's nil slice and empty slice are not distinguished. Table entries are only created by an append, so an entry is never empty; the `ErrNoPubKeys` branch is modelled and proved unreachable.
- GetStartTime, GetRoundDuration, GetShardConsensusGroupSize and GetMetaConsensusGroupSize are modelled as field reads without a contract.
- The `nodeInfo` accessors (lines 30-43), both `IsInterfaceNil` methods and the interface conformance declarations (lines 12-13) are not modelled; they are trivial accessors and Go interface plumbing.
- The `Adaptivity` flag is carried in the configuration but not read by any modelled operation, as in the source.
- node/node_test.go and process/interceptors/processor/txInterceptorProcessor.go are not part of this model.

## Findings

| source | as written | input that shows it | evidently intended | confidence | as-written member | corrected member |
|---|---|---|---|---|---|---|
| sharding/nodesSetup.go:159 | `totalMinNodes := MetaChainMinNodes + MinNodesPerShard` is a uint32 sum that can wrap, so the last check passes | 2 nodes, MetaChainMinNodes = 0xFFFFFFFF, MinNodesPerShard = 2, both consensus sizes 1: the sum wraps to 1, construction passes the checks, and the metachain loop then indexes node 2 of 2 | the list must hold the metachain's and one shard's minimum, compared without wrap-around | not executed | NodesSetupSpec.CountsErrorAsWritten, NodesSetupProofs.TotalMinNodesWraps | NodesSetupSpec.CountsError, NodesSetupProofs.CountsErrorAgreesWithoutWrap |
| sharding/nodesSetup.go:180 | `(nrOfNodes - nrOfMetaChainNodes - hystMeta) / (MinNodesPerShard + hystShard)` in uint32: the numerator wraps when hystMeta exceeds the nodes left after the metachain, and the divisor wraps to 0 when MinNodesPerShard + hystShard reaches 2^32 | 101 nodes, MetaChainMinNodes = 100, MinNodesPerShard = 1, hysteresis 0.9 (hystMeta = 90, hystShard = 0): nrOfShards = 4294967207, and the shard loop indexes far past the 101 nodes. 257 nodes, MetaChainMinNodes = 1, MinNodesPerShard = 256, Hysteresis = 16777215 (hystMeta = 16777215, hystShard = 4294967040): the divisor wraps to 0 and the division panics | no shards when the hysteresis reserve is not covered: the numerator taken as 0, the denominator computed without wrap-around | not executed | NodesSetupSpec.ShardCountAsWritten, NodesSetupProofs.ShardCountUnderflows, NodesSetupProofs.ShardCountDivisorWraps | NodesSetupSpec.ShardCount, NodesSetupSpec.ShardCountBounds |
