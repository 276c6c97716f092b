# Verification of the node's core

A Dafny model of the parts of this wallet and node whose correctness is least
visible in the code: chain switching with undo, the address manager, 256-bit
arithmetic and compact targets, stake-modifier selection, and the tree and
string codecs. `dafny verify dfyconfig.toml` checks all of it.

The code that changes state is modelled by classes and methods with loops; each
is proved against a specification, and what the specification promises is proved
beside it.

## The chain and its transaction index

`BlockTree`, `Ledger`, `Replay` and `ChainState` model `CBlockIndex`, `CTxIndex`,
`CTxDB` and the functions that connect, disconnect and reorganise blocks. The
database is a pair of an accepted state and, inside a transaction, a pending one.
`ReplayTo(h)` is the index one gets by connecting the chain of `h` block by block
from its root. `Chain.Valid` says that the stored index is the replay of the active
chain, that `pnext` links exactly that chain, and that every active block's money
supply is the value of the outputs that were unspent there.

`ChainSpec` says what has to be indexed, and which block has to be the tip, after any
sequence of new blocks, forced switches, lookups and failures, as a function of that
sequence (`After`), and which events leave a postponed block unconnected (`Breaks`).
`ChainState.Run` proves that the program refines it: the state is `After` of the
events, the index is the replay of its tip, and the run ends early exactly at the
first event that breaks, with the index the replay of the last block that connected.

Two claims one might expect are false, and are stated exactly:

* Connecting and then disconnecting a block restores the index if and only if none
  of its transaction ids was indexed before (`Ledger.ConnectThenDisconnect`). The
  duplicate check admits an id whose outputs are all spent; `Ledger.ReusedIdIsLost`
  is such a block, and it is accepted. The index is therefore proved to be a replay for chains in which
  ids do not repeat, which is the condition `Admissible` on new blocks.
* After a reorganisation memory points at the new block even when one of the
  postponed blocks did not connect. The index is that of the new tip if and only if
  all of them connected (`ChainState.Chain.SetBestChain`);
  `PostponedFailure.PostponedCanFail` is a run of four blocks in which one does not,
  and `PostponedFailure.IndexBehindTip` what the program is left with.

`Pools` models the memory pool and the orphan pool with their side indexes, and
`SyncCheckpoint` the synchronized checkpoint, both over the same transactions and
block tree.

## The address manager

`AddrTables` holds the five redundant structures as values with the invariant
`TablesOk`; `AddrMan` is the class that changes them in place, its random choices
being arbitrary; `AddrCheck` is the program's own consistency check, proved to
return 0 exactly when what it looks at holds; `AddrSer` is the stored form. Every
run of calls and restarts keeps the check at 0. Reading a written manager gives it
back with its ids renamed, and loses no entry.

## Arithmetic, targets and selection

`Limbs` and `Arith256` model `base_uint<256>` as eight 32-bit limbs changed in
place; words are bounded types, so every intermediate value is proved to fit its
word. `operator*=` reads its argument after zeroing `*this`, so multiplying a number
by itself in place gives 0: `ArithUint256.Mul` states the result for both cases.
`Compact` covers the compact form in its two implementations, `Retarget` the choice
of the next target, `StakeModifier` the selection of the 64 modifier bits.

## Codecs and trees

`Merkle`, `Base58` and `VarInt` (with compact sizes) prove soundness of branches and
round trips in both directions.

## What stays abstract

Hashes, signatures, scripts, rewards, fees and coin age are function-valued
parameters (`Env`, `Key`, `Combine`, `Checksum`, `SelectionHash`), so every result
holds for all of them. Random choices and clock readings are arbitrary. Blocks that
cannot be read from disk are those outside a set `readable`. Only `Merkle` assumes an
injective hash, and only where it says so.

## Model

| member | source | states |
|---|---|---|
| `BlockTree.AncestorsLinear` | src/main.cpp:1960-1971 | any two ancestors of one block are ancestor and descendant of each other, which makes the fork loop meaningful |
| `BlockTree.FindFork` | src/main.cpp:1960-1971 | the fork loop ends at the last common ancestor of the two blocks, and fails exactly when they have none |
| `BlockTree.LastCommonAncestorUnique` | src/main.cpp:1960-1971 | two blocks have at most one last common ancestor |
| `BlockTree.Descend` | src/main.cpp:1973-1982 | the lists of blocks to disconnect and to connect hold exactly the path above the fork, in order |
| `BlockTree.CollectPostponed` | src/main.cpp:2103-2115 | the blocks postponed by a long reorganisation are exactly those between the intermediate block and the new tip |
| `Ledger.UndoTxInverse` | src/main.cpp:1476-1509 | undoing one transaction right after applying it restores the index, if its id was free and it spent unspent outputs |
| `Ledger.ConnectThenDisconnect` | src/main.cpp:1794-1816 | disconnecting a block just connected succeeds and restores the index if and only if none of its ids was indexed before |
| `Ledger.ReusedIdIsLost` | src/main.cpp:1857-1864 | a block that is accepted although it reuses a fully spent id, and whose undo loses the old entry |
| `Ledger.MarkSpends` | src/main.cpp:1704-1711 | marking distinct unspent inputs lowers the value of the unspent outputs by exactly their value |
| `Ledger.TxConserves` | src/main.cpp:1893-1904 | applying a transaction changes the unspent value by its outputs minus its inputs |
| `Ledger.BlockConserves` | src/main.cpp:1848-1909 | the unspent value grows by the block's outputs minus its inputs, spends of outputs made in the same block included |
| `Ledger.AcceptedIsSound` | src/main.cpp:1818-1952 | a block that ConnectBlock accepts spends only unspent outputs, each once, and reuses only fully spent ids |
| `Ledger.AcceptedAmounts` | src/main.cpp:1713-1739 | with good inputs a transaction is accepted exactly if it pays its fee out of them, or, as a coinstake, gains no more than its limit |
| `Ledger.AcceptedInput` | src/main.cpp:1645-1712 | every input of an accepted transaction is unspent, in range, not younger, signed for, and 30 blocks deep if it comes from a coinbase or coinstake |
| `Ledger.RecentMeans` | src/main.cpp:1655-1659 | the maturity loop looks at exactly the last 30 blocks of the chain |
| `Ledger.MintBounded` | src/main.cpp:1893-1926 | an accepted block mints no more than the reward and the gain of its coinstake; in a proof-of-stake block only the latter |
| `Ledger.UnspentGrowthBounded` | src/main.cpp:1893-1926 | so the unspent value grows by no more than that less the minimum fees |
| `Ledger.BlockShape` | src/main.cpp:2445-2475 | an accepted block has one coinbase, the first transaction, at most one coinstake, the second, and no transaction younger than it |
| `Ledger.SigOpsLimited` | src/main.cpp:1866-1888 | signature operations, those behind the inputs included, are counted per transaction and limited |
| `Ledger.PositionsFollow` | src/main.cpp:1842-1849 | transactions follow each other in the block file |
| `Replay.ReplayKeys` | src/main.cpp:1904-1926 | the replayed index knows exactly the transactions of the connected blocks of the chain |
| `Replay.DisconnectTip` | src/main.cpp:1987-2001 | disconnecting the tip leads to the replay of its parent |
| `Replay.ReplayDiffers` | src/main.cpp:2179-2180 | a block and its proper ancestor never have the same replayed index, so a wrong tip is a wrong index |
| `Replay.SupplyUp` | src/main.cpp:1907-1909 | connecting a block keeps every active block's money supply equal to the value unspent there |
| `Replay.SupplyDown` | src/main.cpp:1987-2001 | so does disconnecting one |
| `Replay.PnextUp` | src/main.cpp:2033-2036 | linking a connected block keeps pnext set exactly on the proper ancestors of the tip |
| `Replay.PnextDown` | src/main.cpp:2028-2031 | so does unlinking a disconnected one |
| `Replay.WalkTo` | src/main.cpp:1120-1123 | the two walking loops reach the active block at the wanted height from any active start |
| `Replay.SwitchDecided` | src/main.cpp:1987-2026 | whether a reorganisation succeeds is decided by the blocks on the two paths alone |
| `Replay.SwitchKeepsRoot` | src/main.cpp:1960-1971 | a switch never leaves the tree of the genesis block |
| `Replay.ReplayGrows` | src/main.cpp:2302-2418 | indexing a new block changes no existing block's replay |
| `ChainSpec.HaltsAtGoal` | src/main.cpp:2136-2152 | a switch halts at its goal exactly when every postponed block connects |
| `ChainSpec.HaltsOnce` | src/main.cpp:2136-2152 | everything below the halting point connects and the block above it does not, so there is only one such point |
| `ChainSpec.BrokenTip` | src/main.cpp:2179-2180 | after a break the tip is a proper descendant of the block the index stands for |
| `ChainSpec.TipMoves` | src/main.cpp:2377-2380 | a new block moves the tip exactly if its chain has strictly more trust than the tip and the switch starts, and then to itself |
| `ChainSpec.FirstTip` | src/main.cpp:2377-2380 | the first block with positive trust becomes the tip |
| `ChainSpec.GoalIsLowest` | src/main.cpp:2103-2115 | the first goal of a switch is the lowest block of the new chain with more trust than the old tip, or the new tip itself |
| `ChainSpec.TrustAlwaysAddsUp` | src/main.cpp:2317-2318 | over any run no block has less trust than its parent |
| `ChainSpec.TrustNeverFalls` | src/main.cpp:2377-2380 | without forced switches the chain trust of the tip never falls over any run |
| `ChainState.TxDb.TxnBegin` | src/main.cpp:2083-2084 | a database transaction starts from the accepted state |
| `ChainState.TxDb.TxnCommit` | src/main.cpp:2064-2065 | commit accepts all pending changes together |
| `ChainState.TxDb.TxnAbort` | src/main.cpp:2125-2130 | abort drops them all |
| `ChainState.Chain.FetchInputs` | src/main.cpp:1512-1585 | succeeds exactly when every input names an existing output, and then returns the entries seen through the queued changes |
| `ChainState.Chain.IsRecent` | src/main.cpp:1655-1659 | the maturity loop finds exactly outputs mined on this chain within the maturity span |
| `ChainState.Chain.CheckInputs` | src/main.cpp:1645-1670 | accepts exactly the plausible inputs and sums their values |
| `ChainState.Chain.SpendInputs` | src/main.cpp:1674-1712 | accepts exactly unspent inputs with good signatures, and then has marked each of them spent |
| `ChainState.Chain.ConnectInputs` | src/main.cpp:1633-1744 | accepts exactly transactions with good inputs that pay their fee out of them, or gain no more than the coinstake limit, and spends their inputs and no others |
| `ChainState.Chain.DisconnectInputs` | src/main.cpp:1476-1509 | gives back the inputs and forgets the transaction, failing exactly when an input is not indexed |
| `ChainState.Chain.DisconnectBlock` | src/main.cpp:1794-1816 | the pending index becomes the undone one, transactions taken in reverse, and the accepted state stays |
| `ChainState.Chain.GetValueIn` | src/main.cpp:1602-1614 | the sum of the values of the spent outputs |
| `ChainState.Chain.QueueTx` | src/main.cpp:1853-1905 | one transaction of a block: accepted exactly by the rules, its effect queued |
| `ChainState.Chain.QueueBlock` | src/main.cpp:1848-1905 | all transactions: the queue over the database is the block applied to it, and the sums are those of the block |
| `ChainState.Chain.ConnectBlock` | src/main.cpp:1818-1952 | succeeds exactly on acceptable blocks; the index, nMint and nMoneySupply are then those of the block, the mint bounded by reward and stake, and nothing is accepted yet |
| `ChainState.Chain.SetBestChainInner` | src/main.cpp:2053-2075 | a block on the tip becomes the accepted tip with the replayed index, or nothing that counts changes |
| `ChainState.Chain.Reorganize` | src/main.cpp:1955-2049 | succeeds exactly when every block can be read and connected, and then the index is the replay of the new branch; a failure changes neither index nor links |
| `ChainState.Chain.DisconnectBranch` | src/main.cpp:1987-2001 | the pending index goes down to the replay of the fork |
| `ChainState.Chain.ConnectBranch` | src/main.cpp:2003-2026 | and up to the replay of the new branch |
| `ChainState.Chain.Relink` | src/main.cpp:2028-2036 | pnext ends up on exactly the proper ancestors of the new tip |
| `ChainState.Chain.ConnectPostponed` | src/main.cpp:2136-2152 | stops below the first postponed block that cannot be read or connected, with the index the replay of the one below it |
| `ChainState.Chain.SwitchBranch` | src/main.cpp:2101-2153 | the whole switch: when it starts, which block it halts at, and that halting early is exactly a postponed failure |
| `ChainState.Chain.SetBestChain` | src/main.cpp:2078-2230 | a failure changes nothing; a success makes h the tip, with the index the replay of the block the switch halts at, which is h if and only if every postponed block connected |
| `ChainState.Chain.AddToBlockIndex` | src/main.cpp:2302-2418 | exactly the specified step for a new block: indexed once, the tip only if its chain has strictly more trust than the old tip, broken exactly by a postponed failure |
| `ChainState.Chain.InsertBlock` | src/main.cpp:2309-2324 | parent, height and chain trust of the new entry follow the parent, and the accepted chain is untouched |
| `ChainState.Chain.TipIsReplay` | src/main.h:1247-1250 | in every valid state the index is the replay of the tip, its supply the unspent value, and IsInMainChain holds exactly for its ancestors |
| `ChainState.Chain.FindBlockByHeight` | src/main.cpp:1111-1126 | returns the one ancestor of the tip at that height, whatever the cached start |
| `ChainState.Chain.Handle` | src/main.cpp:2302-2418 | any event takes a valid state to the specified one, which is valid unless exactly the specified break happened |
| `ChainState.Run` | src/main.cpp:1955-2230 | any run refines the specification; its index, supply and pnext are those of the tip, and it ends early exactly at the first event with a failing postponed block, the index then that of the block it halted at |
| `PostponedFailure.PostponedCanFail` | src/main.cpp:2137-2152 | a run of four blocks in which the switch to block 2 commits and block 3, readable but claiming too much, fails |
| `PostponedFailure.IndexBehindTip` | src/main.cpp:2179-2180 | the program on that run ends with block 3 as tip and the index of block 2 |
| `AddrTables.Key.TriedBucket` | src/addrman.cpp:9-21 | a tried bucket number is in range |
| `AddrTables.Key.NewBucket` | src/addrman.cpp:23-35 | a new bucket number is in range |
| `AddrTables.CountUpdate` | src/addrman.cpp:475-484 | changing one bucket changes an id's reference count by its membership there |
| `AddrTables.TablesUnref` | src/addrman.cpp:160-172 | dropping one reference keeps all structures in agreement, the entry going with its last one |
| `AddrTables.TablesPush` | src/addrman.cpp:222-227 | moving an entry to a tried bucket with room keeps them in agreement |
| `AddrTables.TablesReplace` | src/addrman.cpp:231-259 | so does replacing a tried entry that goes back to the new table |
| `AddrTables.TablesCreate` | src/addrman.cpp:93-103 | so does a new entry that owes its first bucket |
| `AddrTables.TablesStore` | src/addrman.cpp:360-366 | entering the owed bucket settles the count |
| `AddrCheck.CheckEntries` | src/addrman.cpp:441-460 | the loop over entries reports 0 exactly when every entry is consistent |
| `AddrCheck.CheckTried` | src/addrman.cpp:465-473 | the tried buckets list each tried id once and nothing else, or an error is reported |
| `AddrCheck.CheckNew` | src/addrman.cpp:475-487 | the new buckets hold each id as often as it is counted, or an error is reported |
| `AddrCheck.Check_` | src/addrman.cpp:434-490 | returns 0 if and only if everything it looks at holds |
| `AddrCheck.ValidChecks` | src/addrman.cpp:434-490 | the invariant of the manager makes the check return 0 |
| `AddrCheck.CheckDecides` | src/addrman.cpp:434-490 | apart from what the check does not look at, it reports 0 exactly on consistent tables |
| `AddrTables.TerribleRule` | src/addrman.cpp:37-55 | when an entry is worth keeping, in numbers |
| `AddrMan.AddrMan.Find` | src/addrman.cpp:80-91 | finds an address exactly when some entry has it |
| `AddrMan.AddrMan.SwapRandom` | src/addrman.cpp:105-123 | swaps two positions and keeps positions and ids inverse to each other |
| `AddrMan.AddrMan.Unref` | src/addrman.cpp:160-172 | deletes an entry with its last reference, all tables following |
| `AddrMan.AddrMan.ShrinkNew` | src/addrman.cpp:149-201 | removes one reference from the bucket: that of the first terrible entry, or else of the one last seen earliest among four positions |
| `AddrMan.AddrMan.SelectTried` | src/addrman.cpp:125-147 | only reorders the bucket and returns a valid position |
| `AddrMan.AddrMan.MakeTried` | src/addrman.cpp:203-259 | the entry leaves every new bucket and enters its tried bucket, evicting at most one entry, which goes back |
| `AddrMan.AddrMan.Evict` | src/addrman.cpp:231-259 | the evicted entry ends in one new bucket with one reference |
| `AddrMan.AddrMan.Good_` | src/addrman.cpp:261-310 | exactly the addressed entry becomes tried and fresh; the exit for a missing bucket is unreachable |
| `AddrMan.AddrMan.Add_` | src/addrman.cpp:312-368 | a new address gets the next id and its reported fields; a known one takes a report that is newer by an hour, or a day if it is old, and may enter one more bucket; only one other entry may go |
| `AddrMan.AddrMan.RefreshRule` | src/addrman.cpp:322-331 | when a report changes the time of an entry, and to what |
| `AddrMan.AddrMan.Create` | src/addrman.cpp:93-103 | a new entry with the next id at the end of the random order |
| `AddrMan.AddrMan.Store` | src/addrman.cpp:358-366 | exactly this entry enters and at most one leaves the bucket, in which case it was full |
| `AddrMan.AddrMan.Attempt_` | src/addrman.cpp:370-387 | exactly the addressed entry counts one more attempt |
| `AddrMan.AddrMan.Connected_` | src/addrman.cpp:509-527 | exactly the addressed entry's time is refreshed, if it is old enough |
| `AddrMan.AddrMan.GetAddr_` | src/addrman.cpp:493-507 | returns distinct known addresses, as many as the limits say |
| `AddrMan.AddrMan.Check` | src/addrman.cpp:434-490 | on a valid manager the check reports 0 |
| `AddrMan.AddrMan.Save` | src/addrman.h:270-317 | writes the stored form of the manager, changing nothing |
| `AddrMan.AddrMan.Load` | src/addrman.h:318-378 | a loaded manager is valid and equal to the stored one up to renaming |
| `AddrMan.RoundTrip` | src/addrman.h:270-379 | saving and loading gives the same manager with its ids renamed to their places in the file |
| `AddrMan.Run` | src/addrman.cpp:93-368 | after any sequence of calls and restarts the manager is valid, and every check on the way returned 0 |
| `AddrSer.WriteInfos` | src/addrman.h:283-306 | the entry loops write each new, or each tried, entry once in id order |
| `AddrSer.WriteBucket` | src/addrman.h:309-316 | a bucket is written as the indices of its entries |
| `AddrSer.Write` | src/addrman.h:279-317 | the stored form holds all entries, counters and bucket members, each in id order |
| `AddrSer.WrittenUnique` | src/addrman.h:279-317 | that determines every value in the file |
| `AddrSer.ReadNew` | src/addrman.h:327-340 | every new entry comes back under its position in the file |
| `AddrSer.TriedNext` | src/addrman.h:346-347 | the tried bucket of the next entry always has room |
| `AddrSer.ReadTried` | src/addrman.h:341-360 | every tried entry comes back in its bucket; none is lost |
| `AddrSer.CountingNext` | src/addrman.h:370-375 | the limit of four references is never reached while reading |
| `AddrSer.ReadBucket` | src/addrman.h:361-377 | a new bucket gets back exactly its members |
| `AddrSer.RenamedValid` | src/addrman.h:318-378 | a renamed consistent manager is consistent |
| `AddrSer.Read` | src/addrman.h:318-378 | what is read is the written manager renamed, valid, with nLost 0 |
| `Limbs.NumLess` | src/arith_uint256.cpp:114-119 | the most significant differing limb decides the order of two numbers |
| `Limbs.OrDisjoint` | src/arith_uint256.cpp:35-37 | or-ing words without common bits adds them |
| `Arith256.ArithUint256.Set` | src/arith_uint256.h:94-101 | assigns a 64-bit value |
| `Arith256.ArithUint256.AddAssign` | src/arith_uint256.h:141-151 | the sum modulo 2^256, also when both operands are one object |
| `Arith256.ArithUint256.Complement` | src/arith_uint256.h:75-81 | 2^256 - 1 minus the value |
| `Arith256.ArithUint256.Neg` | src/arith_uint256.h:83-90 | the negative modulo 2^256 |
| `Arith256.ArithUint256.SubAssign` | src/arith_uint256.h:153-157 | the difference modulo 2^256 |
| `Arith256.ArithUint256.Inc` | src/arith_uint256.h:179-186 | adds 1 modulo 2^256 |
| `Arith256.ArithUint256.Dec` | src/arith_uint256.h:196-203 | subtracts 1 modulo 2^256 |
| `Arith256.ArithUint256.Mul32` | src/arith_uint256.cpp:57-67 | the product with a word modulo 2^256 |
| `Arith256.ProductFits` | src/arith_uint256.cpp:77-78 | carry + limb + product of two limbs fits 64 bits, and its upper half a limb |
| `Arith256.ArithUint256.Mul` | src/arith_uint256.cpp:69-83 | the product modulo 2^256 of distinct objects, and 0 for one object |
| `Arith256.ArithUint256.CompareTo` | src/arith_uint256.cpp:111-121 | the order of the values |
| `Arith256.ArithUint256.EqualTo` | src/arith_uint256.cpp:123-135 | equality with a 64-bit value |
| `Arith256.ArithUint256.GetLow64` | src/arith_uint256.h:251-255 | the value modulo 2^64 |
| `Arith256.ArithUint256.Bits` | src/arith_uint256.cpp:173-186 | the position of the highest bit plus one, bounding the value on both sides |
| `Arith256.ArithUint256.Shl` | src/arith_uint256.cpp:23-38 | the product with a power of two modulo 2^256, for any shift |
| `Arith256.ArithUint256.Shr` | src/arith_uint256.cpp:40-55 | the quotient by a power of two, for any shift |
| `Arith256.ArithUint256.Div` | src/arith_uint256.cpp:85-109 | quotient times divisor plus a remainder below the divisor is the old value; dividing by 0 fails and leaves 0 |
| `Arith256.Aligned` | src/arith_uint256.cpp:98-99 | the first shift loses no bit of the divisor and puts it in reach of the dividend |
| `Arith256.ArithUint256.SetCompact` | src/arith_uint256.cpp:206-224 | the decoded value modulo 2^256, and flags that say negative and does not fit |
| `Arith256.ArithUint256.GetCompact` | src/arith_uint256.cpp:226-247 | the compact form of the value; both of its assertions hold |
| `Compact.EncodeIsSimple` | src/arith_uint256.cpp:236-241 | moving the sign bit out of the mantissa is choosing the size that leaves room for it |
| `Compact.DecodeEncode` | src/arith_uint256.cpp:206-247 | decoding an encoded number never exceeds it and misses less than one part in 2^15 |
| `Compact.EncodeIdempotent` | src/arith_uint256.cpp:206-247 | encoding again what was decoded changes nothing |
| `Compact.EncodeMonotone` | src/arith_uint256.cpp:226-247 | compact forms, and what they decode to, are ordered like the numbers |
| `Compact.OverflowExact` | src/arith_uint256.cpp:219-222 | the overflow flag is set exactly when the number needs more than 256 bits |
| `Compact.DecodeMeans` | src/arith_uint256.cpp:206-226 | the mantissa of 23 bits moved by the size in bytes less three |
| `Compact.MpiRoundTrip` | src/bignum.h:273-298 | the byte form of a signed number loses nothing |
| `Compact.SetCompact` | src/bignum.h:300-310 | the byte-based decoding is the signed number the compact form stands for |
| `Compact.GetCompact` | src/bignum.h:312-323 | the byte-based encoding is that of GetCompact for every number, in 32 bits |
| `Compact.FormsAgree` | src/bignum.h:300-310 | the two decodings agree if and only if neither flag is set |
| `Retarget.GetLastBlockIndex` | src/main.cpp:1318-1323 | the loop finds the last block of a kind |
| `Retarget.LastIsNearest` | src/main.cpp:1318-1323 | it is an ancestor of that kind, or the root, with no block of the kind above it |
| `Retarget.LastUnique` | src/main.cpp:1318-1323 | and there is only one such block |
| `Retarget.GetNextTargetRequired` | src/main.cpp:1328-1374 | returns the compact form of the required target in all branches |
| `Retarget.RetargetBounds` | src/main.cpp:1363-1371 | within the limit, below three times the old target, and not below old * (I - 1) / (I + 1) unless capped |
| `Retarget.RetargetMonotone` | src/main.cpp:1363-1371 | slower blocks never give a harder target, nor does an easier old target |
| `Retarget.RetargetDirection` | src/main.cpp:1363-1371 | on schedule the target stays; early blocks never raise it, late ones never lower it below the cap |
| `Retarget.FirstTargets` | src/main.cpp:1338-1346 | after no block, and for the first and second block of a kind, the target is the limit |
| `Retarget.TargetFollowsTimes` | src/main.cpp:1348-1371 | on the tree: blocks on schedule keep the target, slower ones never make it harder, faster ones never easier |
| `Retarget.TargetMonotoneInTimes` | src/main.cpp:1348-1371 | on the tree: the later the last block, the easier the target |
| `Retarget.TargetStep` | src/main.cpp:1363-1371 | on the tree: the exact step from the times of the last two blocks of the kind |
| `Retarget.SpacingIs` | src/main.cpp:1365 | blocks of proof of work aim at the spacing of all blocks since the last of their kind, up to a minute |
| `Retarget.SpacingTooLarge` | src/main.cpp:1362-1365 | with a spacing beyond the timespan the target is negative exactly for blocks that came too fast, which the positive spacings below it exclude |
| `Retarget.RoundedBounds` | src/main.cpp:1370-1373 | the bounds that survive rounding to compact form |
| `Retarget.TargetsWithinLimit` | src/main.cpp:2545-2546 | on a tree whose blocks carry the required targets no target is negative or above its limit |
| `Retarget.ComputeMaxBits` | src/main.cpp:1281-1296 | the base doubled at once and once per started day, capped at the limit |
| `Retarget.DaysDouble` | src/main.cpp:1286-1293 | the base is doubled once and once more for every started day |
| `Retarget.MaxTargetMonotone` | src/main.cpp:1281-1296 | more time never lowers that bound, which stays within the limit |
| `StakeModifier.GetStakeModifierSelectionInterval` | src/kernel.cpp:60-68 | the length of all sections together |
| `StakeModifier.SectionsGrow` | src/kernel.cpp:52-57 | sections never shrink, from a third of the interval to all of it |
| `StakeModifier.SectionLength` | src/kernel.cpp:52-57 | the length of a section, rounded down |
| `StakeModifier.IntervalStarts` | src/kernel.cpp:157 | the selection interval ends at the last multiple of the modifier interval |
| `StakeModifier.SortedByTime` | src/kernel.cpp:166 | the candidates are in order of time, then of hash |
| `StakeModifier.WindowGrows` | src/kernel.cpp:170-175 | the window only grows and ends where the current modifier interval starts |
| `StakeModifier.WindowBlocks` | src/kernel.cpp:158-163 | candidates are the block and the ancestors right below it with times inside the selection interval, up to the first older one |
| `StakeModifier.SameCandidates` | src/kernel.cpp:165-166 | sorting keeps them known and different |
| `StakeModifier.SelectBlockFromCandidates` | src/kernel.cpp:73-117 | selects the least selection hash among free candidates in the window, or the first free one if none is inside, and fails exactly when none is free |
| `StakeModifier.PicksUnique` | src/kernel.cpp:82-113 | the rule leaves no choice |
| `StakeModifier.PickedIsLeast` | src/kernel.cpp:84-111 | the selected block has the least selection hash of all free ones in the window, hashes of proof of stake being divided by 2^32 |
| `StakeModifier.StakeFavored` | src/kernel.cpp:96-100 | with 256-bit hashes a block of proof of work wins over one of proof of stake only below 2^224 |
| `StakeModifier.FreeLeft` | src/kernel.cpp:172-178 | in every round some candidate is free |
| `StakeModifier.Select` | src/kernel.cpp:168-187 | exactly min(64, n) rounds run, none fails, and bit k is the entropy bit of round k |
| `StakeModifier.PickedDistinct` | src/kernel.cpp:181-182 | the selected blocks are pairwise distinct |
| `StakeModifier.LastGeneratedIsNearest` | src/kernel.cpp:42-45 | the block found is the highest ancestor that generated a modifier, if there is one |
| `StakeModifier.GetLastStakeModifier` | src/kernel.cpp:38-50 | the modifier of the nearest block that generated one, or an error |
| `StakeModifier.ComputeNextStakeModifier` | src/kernel.cpp:132-217 | keeps the modifier within an interval and otherwise generates one by the rounds |
| `StakeModifier.GeneratesUnique` | src/kernel.cpp:153-187 | the new modifier is determined by the chain |
| `Merkle.Block.BuildMerkleTree` | src/main.h:972-989 | the flat vector holds every level of the tree, and the root is that of the leaves |
| `Merkle.Block.GetMerkleBranch` | src/main.h:991-1005 | the siblings on the way up, read from the flat vector |
| `Merkle.CheckMerkleBranch` | src/main.h:1007-1020 | climbs from a hash along a branch |
| `Merkle.BranchLeadsToRoot` | src/main.h:991-1020 | every leaf's branch leads to the root, odd levels included |
| `Merkle.RootSplits` | src/main.h:972-989 | the root over two full trees is the hash of their roots, left before right |
| `Merkle.BranchChecks` | src/main.h:972-1020 | the three functions agree on any block and index |
| `Merkle.BranchBinds` | src/main.h:1007-1020 | with an injective hash a branch of that length checks exactly for the leaf at that place and its own branch |
| `Merkle.RootBinds` | src/main.h:972-989 | with an injective hash equal roots over equally many leaves mean equal leaves |
| `Merkle.LastRepeated` | src/main.h:981-985 | without that an odd number of leaves has the root of the same leaves with the last one repeated |
| `VarInt.WriteVarInt` | src/n_serialize.h:316-331 | appends the digits of the number; the temporary array never overflows |
| `VarInt.EncodeLength` | src/n_serialize.h:319 | a number of k bits has at most (k + 6) / 7 digits |
| `VarInt.EncodeMeans` | src/n_serialize.h:276-285 | the documented sum of the digits is the number, and the top bit says whether more follow |
| `VarInt.EncodeExamples` | src/n_serialize.h:294-297 | the documented examples of up to two bytes |
| `VarInt.LongExamples` | src/n_serialize.h:297-298 | and the longer ones |
| `VarInt.ReadVarInt` | src/n_serialize.h:333-352 | parses the rest of the stream and leaves what follows the number |
| `VarInt.Bijection` | src/n_serialize.h:316-352 | the reader accepts a stream with a number exactly if it starts with what the writer emits for it |
| `VarInt.GetSizeOfVarInt` | src/n_serialize.h:300-311 | the number of bytes written |
| `VarInt.GetSizeOfCompactSize` | src/n_serialize.h:209-215 | the number of bytes of a compact size |
| `VarInt.WriteCompactSize` | src/n_serialize.h:219-242 | appends the compact size of any 64-bit number |
| `VarInt.CompactLayout` | src/n_serialize.h:200-242 | the mark and the little-endian bytes of every size |
| `VarInt.ReadCompactSize` | src/n_serialize.h:244-274 | parses one, or says why not |
| `VarInt.CompactExact` | src/n_serialize.h:219-274 | accepted are exactly the shortest forms of numbers up to MAX_SIZE |
| `Base58.RecodeRoundTrip` | src/base58.h:27-119 | recoding digits to another base and back returns them, leading zeros included |
| `Base58.NotNegative` | src/base58.h:33-40 | the extra zero byte makes the bytes a non-negative number |
| `Base58.TrimmedVch` | src/base58.h:103-108 | trimming the sign byte leaves exactly the bytes of the number |
| `Base58.EncodeBase58` | src/base58.h:27-65 | the number of the bytes in base 58 after a one for each leading zero byte |
| `Base58.DecodeBase58` | src/base58.h:75-119 | succeeds exactly on base58 characters with white space around them, and then returns their bytes |
| `Base58.EncodingMeans` | src/base58.h:27-65 | the string spells the number of the bytes, after a one for each leading zero byte and no other |
| `Base58.DecodeEncoded` | src/base58.h:27-119 | decoding the encoding of any byte vector returns it |
| `Base58.EncodeDecoded` | src/base58.h:27-119 | encoding what a string without white space decodes to returns the string |
| `Base58.EncodeBase58Check` | src/base58.h:132-139 | the encoding of the bytes with their checksum |
| `Base58.DecodeBase58Check` | src/base58.h:143-160 | succeeds exactly if the checksum is right |
| `Base58.CheckDecodeEncoded` | src/base58.h:132-160 | the checksummed round trip |
| `Base58.CheckEncodeDecoded` | src/base58.h:132-160 | a string is accepted only if it is the checked encoding of the result |
| `Pools.NoDoubleSpend` | src/main.cpp:806-832 | no two pooled transactions spend one outpoint |
| `Pools.AddKeeps` | src/main.cpp:926-938 | adding unchecked keeps the index right if and only if no input is spent in the pool |
| `Pools.TxMemPool.AddUnchecked` | src/main.cpp:926-938 | the transaction is pooled and each input entered |
| `Pools.TxMemPool.Accept` | src/main.cpp:770-919 | exactly which transactions enter the pool, and that a refusal changes nothing |
| `Pools.TxMemPool.Remove` | src/main.cpp:941-955 | the transaction and exactly its entries go |
| `Pools.RemoveUndoesAdd` | src/main.cpp:926-955 | removing what was added gives the pool there was |
| `Pools.RunPool` | src/main.cpp:770-966 | after every step the side index agrees with the pool, which holds no coinbase, coinstake or amount out of range |
| `Pools.OrphanPool.Add` | src/main.cpp:384-415 | stores an orphan exactly if it is unknown and small, under each transaction it spends |
| `Pools.OrphanPool.Erase` | src/main.cpp:417-432 | takes it out of both maps |
| `Pools.OrphanPool.Limit` | src/main.cpp:434-448 | evicts random orphans until the cap is met, and no more |
| `Pools.LowerBound` | src/main.cpp:441-443 | the victim is the first orphan from the random hash on, cyclically |
| `Pools.RunOrphans` | src/main.cpp:384-448 | the index agrees with the orphans and the cap holds over any run |
| `SyncCheckpoint.SyncCheckpoint.ValidateSyncCheckpoint` | src/checkpoints.cpp:87-127 | allows exactly proper descendants of the checkpoint, and marks exactly conflicting blocks |
| `SyncCheckpoint.SyncCheckpoint.AcceptPendingSyncCheckpoint` | src/checkpoints.cpp:146-188 | when the pending checkpoint is taken, kept or dropped |
| `SyncCheckpoint.SyncCheckpoint.CheckSync` | src/checkpoints.cpp:205-230 | above the checkpoint passes exactly what builds on it; everything passes on the test net |
| `SyncCheckpoint.SyncCheckpoint.ProcessSyncCheckpoint` | src/checkpoints.cpp:401-450 | when a received checkpoint is taken, kept pending or refused |
| `SyncCheckpoint.PassedDescends` | src/checkpoints.cpp:205-230 | a block above the checkpoint that passed descends from it and from all earlier ones |
| `SyncCheckpoint.PassingBuildsOnIt` | src/checkpoints.cpp:205-230 | a block not yet known passes exactly if it builds on the checkpoint |
| `SyncCheckpoint.Run` | src/checkpoints.cpp:146-450 | over any run the checkpoint after each step is the one after any earlier step or a strict descendant of it |

## Left out

- ConnectBlock without writing (`fJustCheck`) and the memory-pool branches of FetchInputs and ConnectInputs: the miner and the pool use them only to ask; `Pools.TxMemPool.Accept` takes their verdict as a parameter.
- Failures of database calls themselves: begin, commit and write always succeed; only blocks that cannot be read are modelled.
- The stored block index (`hashNext` on disk): written outside the database transaction.
- `CBlockIndex` objects: a pointer is a block hash in a map, so aliasing of nodes is not modelled.
- Wallet and memory-pool updates after a reorganisation, time stamps and the checkpoint hooks of AddToBlockIndex.
- `Ledger.CheckTransaction` and `CheckBlock` are predicates; proof of work, clocks, the Merkle root and the block signature are one parameter of them.
- ChainState.Run: does not follow a node that goes on after a break, with an index behind its tip; the run ends there.
- Overflow of 64-bit sums of amounts: sums are integers; the range checks are the code's own.
- `DiskTxPos`: the null position is a value of its own instead of `nFile == -1`.
- AddrMan.AddrMan.SelectTried: does not say that the returned entry is the oldest of the four picked, because the position is recorded after the swap and the code does not establish it.
- `Select_` and `GetChance` of the address manager: floating point.
- Reading an address file with another number of new buckets, and the version byte: the manager writes only its own count.
- AddrMan.AddrMan.Create: counts the first reference of the new entry, which the code counts right after the call.
- `getdouble`, hexadecimal strings and the bitwise operators of `base_uint` other than the ones above: no property beyond single words.
- Rule lookups: the target spacing is any positive number.
- `GetKernelStakeModifier`, kernel hashing and coin age: they only read what is modelled, through unseen hashing.
- StakeModifier.SelectBlockFromCandidates: has no branch for a candidate missing from the block index, because its only caller takes the candidates from there.
- Transaction replacement in the memory pool: disabled in the code before it can be reached.
- Pools.TxMemPool.Accept: the rate limiter for free transactions is part of the verdict on the inputs.
- The dropping of a checkpoint by command, alerts, the ban list, coin control, key storage, sockets, RPC and user interface.
