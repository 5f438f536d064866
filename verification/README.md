# Pqcoin: verified models of the node's data structures and codecs

This project models, in Dafny, the parts of the Pqcoin node that keep several redundant pieces of
state in agreement or encode something that must be recovered exactly, and proves what each of them
promises: the cache of unspent coins, the address manager and its file, the block assembler, the
verification queue, partial Merkle trees, the signature cache, 256-bit arithmetic and compact
targets, the block index with its skip pointers and the active chain, message framing and sending,
the rolling Bloom filter, Base58, compact blocks, and the records of the coin database.

Objects that the node updates in place are classes with the same fields; loops are loops.  Each such
method is proved against a function or predicate on values, and the properties are proved about
those.  Hash functions, random draws, clocks and what a socket accepts are parameters that may be
anything.  Integers are unbounded except where a width is written out.

`dafny verify dfyconfig.toml` checks the whole project.

| file | about |
|---|---|
| Transactions, CoinsCache | coins, the stack of caches over the database |
| Streams, CoinsCodec | variable-length integers on bytes; records of the coin database, amounts |
| AddrTables, AddrMan, AddrFile, AddrManFile | the address manager, its consistency check, its file |
| Mempool, Miner | the memory pool as a DAG, the block assembler |
| CheckQueue | the verification queue as a state machine |
| PartialMerkle, MerkleBlock, MerkleSize | partial Merkle trees on trees and on indexes, and their size |
| CuckooCache | the cuckoo cache with its epochs |
| Limbs, ArithUint256, CompactTarget | limb arithmetic, compact targets, block proofs |
| SkipHeights, Chain | skip heights, block index, active chain, locators |
| Framing, Net | the byte stream as messages, receiving and sending |
| RollingBloom | the rolling Bloom filter |
| Positional, Base58 | positional notation, Base58 |
| CompactBlocks | compact blocks of BIP 152 |
| Numbers, Sets, Bits | arithmetic, finite sets, bits of bytes |

## Model

| member | source | states |
|---|---|---|
| Transactions.Cleanup | src/coins.h:114-119 | drops exactly the spent outputs at the end |
| Transactions.Spend | src/coins.cpp:35-42 | succeeds exactly on an unspent output; afterwards exactly that one is no longer available, and the record is trimmed |
| Transactions.CleanedFacts | src/coins.h:114-119 | trimming is idempotent, changes no availability, and makes "nothing unspent" mean "no outputs" |
| Transactions.RereadFacts | src/coins.h:188-217 | what the database gives back of a record is clean, settled and has the same unspent outputs; it is the trimmed record if and only if neither version nor height is negative |
| CoinsCache.CoinsDatabase.BatchWrite | src/txdb.cpp:47-68 | dirty entries are erased or stored as they are read back, trimmed and with a negative version or height replaced, all others stay; the best block changes unless it is null |
| CoinsCache.WriteBackSound | src/coins.cpp:188-243 | for one id and three levels: with sound flags a dirty entry is never misapplied, and afterwards the parent shows the child's coins with sound flags |
| CoinsCache.FlushSound | src/coins.cpp:188-250 | for whole maps: writing a child into its parent keeps the parent's flags sound over the grandparent and makes the parent's view the child's |
| CoinsCache.NewEntrySound | src/coins.cpp:134-153 | marking a new entry FRESH is sound if and only if the level below has no unspent outputs of that id (BIP 30), or it is a coinbase, or the entry was known |
| CoinsCache.RepeatedComesBack | src/coins.cpp:134-243 | without BIP 30: a repeated transaction that is created and spent in a cache brings the coins of the older one back |
| CoinsCache.CoinsViewCache.FetchCoins | src/coins.cpp:72-88 | loading an entry changes no view of the stack and returns what this view shows, from the database exactly what it holds |
| CoinsCache.CoinsViewCache.GetCoins | src/coins.cpp:90-97 | returns what the view shows, pruned meaning absent; up to what the database makes of negative numbers, and exactly where none is ever written |
| CoinsCache.CoinsViewCache.HaveCoins | src/coins.cpp:164-171 | its test for a non-empty vector is exact for closed entries |
| CoinsCache.CoinsViewCache.ModifyCoins | src/coins.cpp:99-121 | opens a modifier without changing any view; the entry starts with what the view shows |
| CoinsCache.CoinsViewCache.ModifyNewCoins | src/coins.cpp:134-153 | the assertion fails exactly for a known unspent entry of a non-coinbase; otherwise the id is removed from the view and a modifier is open |
| CoinsCache.CoinsViewCache.Uncache | src/coins.cpp:252-259 | forgets only entries without flags; no view changes |
| CoinsCache.CoinsViewCache.BatchWrite | src/coins.cpp:188-243 | the exception is thrown exactly if some entry is FRESH over unspent coins of the parent; otherwise every entry is written back |
| CoinsCache.CoinsViewCache.GetBestBlock | src/coins.cpp:178-182 | the first block set from the top down, remembered on the way, no view changed |
| CoinsCache.CoinsViewCache.SetBestBlock | src/coins.cpp:184-186 | sets the block of this level and nothing else |
| CoinsCache.CoinsViewCache.Flush | src/coins.cpp:245-250 | never throws, leaves the view below showing what this view showed, and keeps the best block if and only if this cache knows its block, or lies on the database, or the cache below has set none, or has set the one below it |
| CoinsCache.BestBlockLost | src/coins.cpp:178-250 | a two-level stack on which flushing loses the best block |
| CoinsCache.FlushThenGet | src/coins.cpp:72-250 | a record fetched, flushed into the database and fetched again is the same if and only if neither version nor height is negative |
| CoinsCache.NegativeVersion | src/coins.cpp:72-250 | a new transaction of version -1 has version 127 once it is flushed |
| CoinsCache.CoinsModifier.constructor | src/coins.cpp:317-320 | opening a modifier changes no view |
| CoinsCache.CoinsModifier.Write | src/coins.h:363-365 | writing through the modifier replaces exactly one record of the view |
| CoinsCache.CoinsModifier.Close | src/coins.cpp:322-334 | trimming the entry, or dropping it if FRESH and spent, changes no view and restores the invariant; the entry is the record written, trimmed |
| CoinsCache.CoinsViewCache.Run | src/coins.cpp:72-334 | every sequence of fetches, modifications, new coins, uncaching and flushes at any depth of a stack means what the same updates mean on one plain map, in which records are as the database gives them back; if nothing negative is written, that is the records themselves |
| Streams.WriteVarInt | src/serialize.h:316-331 | the digits of a number in the order of the stream, from a buffer that is large enough for every number of the type |
| Streams.ReadVarInt | src/serialize.h:333-345 | for every stream and type: the number the digits stand for, wrapped to the type |
| Streams.ReadWritten | src/serialize.h:316-345 | what was written of n is read back as n if and only if n is not negative, otherwise as n modulo 128, and reading stops right after it |
| Streams.OneForm | src/serialize.h:277-292 | every number has one form: the bytes read are those that would have been written for the number read |
| Streams.MinusOne | src/serialize.h:316-331 | the bytes of -1 are those of 127 |
| CoinsCodec.CompressAmount | src/compressor.cpp:142-159 | the code of an amount, in 64 bits |
| CoinsCodec.DecompressAmount | src/compressor.cpp:161-185 | the amount of a code, in 64 bits |
| CoinsCodec.DecompressCompress | src/compressor.cpp:142-185 | decompressing a compressed amount gives the amount, for all naturals |
| CoinsCodec.CompressDecompress | src/compressor.cpp:142-185 | compressing a decompressed code gives the code, for all naturals: the two are bijections |
| CoinsCodec.MoneyLasts | src/compressor.cpp:142-185 | the code of every amount up to MAX_MONEY fits 64 bits, and so does the amount |
| CoinsCodec.CalcMaskSize | src/coins.cpp:17-33 | the length of the mask without trailing zero bytes, and how many of its bytes are not zero |
| CoinsCodec.Serialize | src/coins.h:157-186 | for every record with something to spend, whatever its version, height and amounts: version, header code, mask, unspent outputs and height on bytes; the assertion that there is something to write holds |
| CoinsCodec.Unserialize | src/coins.h:188-217 | reads any stream, failing exactly where it ends or holds the wrong thing, and trims the result |
| CoinsCodec.HeaderCodeFacts | src/coins.h:163-201 | the header code gives back all three flags and the mask count, including the "one less" coding |
| CoinsCodec.DecodeEncode | src/coins.h:157-217 | reading what was written, whatever follows, stops right after it and gives the trimmed record if and only if neither version nor height is negative; a negative one comes back modulo 128 |
| CoinsCodec.EncodeInjective | src/coins.h:157-217 | for trimmed records: one code is a prefix of another if and only if the codes are the same, if and only if the same is read back of both records; without negative numbers, if and only if the records are the same |
| CoinsCodec.StoreThenLoad | src/coins.h:157-217 | the two methods in sequence return the record if and only if neither version nor height is negative |
| CoinsCodec.ValidIsStorable | src/validation.cpp:535-560 | the records of valid transactions, of any version, are among those the round trip is about |
| CoinsCodec.NegativeVersion | src/coins.h:157-217 | a record of version -1 is read back with version 127 |
| AddrMan.CAddrMan.constructor | src/addrman.h:451-475 | a fresh manager is empty and satisfies the invariant |
| AddrMan.CAddrMan.Find | src/addrman.cpp:68-79 | finds exactly the known addresses, and the right entry |
| AddrMan.CAddrMan.Create | src/addrman.cpp:81-91 | a new id, known to all indexes, with no slot yet |
| AddrMan.CAddrMan.SwapRandom | src/addrman.cpp:93-111 | exchanges two positions and keeps vector and positions inverse to each other |
| AddrMan.CAddrMan.Delete | src/addrman.cpp:113-125 | forgets exactly one entry without slots; keeps the invariant if it held, and the vector index in any case |
| AddrMan.CAddrMan.ClearNew | src/addrman.cpp:127-140 | empties a slot; its holder loses one reference and is forgotten with the last |
| AddrMan.CAddrMan.RemoveFromNew | src/addrman.cpp:142-152 | takes an entry out of every new bucket and nothing else out of any |
| AddrMan.CAddrMan.MakeTried | src/addrman.cpp:142-188 | the entry moves to its tried slot; a holder of that slot goes back to the new bucket its source chose, displacing at most one reference there |
| AddrMan.CAddrMan.FindBucket | src/addrman.cpp:219-235 | the search from a random bucket on always finds one, so the bail-out is never taken |
| AddrMan.CAddrMan.Good | src/addrman.cpp:190-240 | stamps the entry and moves it to the tried table unless it is there; unknown services change nothing |
| AddrMan.CAddrMan.Reference | src/addrman.cpp:295-312 | one more reference in the chosen bucket, or the entry is dropped if it has none and may not displace the holder |
| AddrMan.Lucky | src/addrman.cpp:278-283 | with n references already, exactly one draw in 2^n is accepted |
| AddrMan.CAddrMan.Add | src/addrman.cpp:242-313 | returns true exactly for routable addresses that were unknown; at most one entry is forgotten, and only a terrible one with its last reference; says exactly when the new address is kept; time and services of a known entry are refreshed, and a newcomer has the slot of its announcer, one reference and the announced data |
| AddrMan.AddedAndGone | src/addrman.cpp:242-313 | an address announced as new that is not known afterwards |
| AddrMan.CAddrMan.Attempt | src/addrman.cpp:315-335 | updates the counters of exactly this service |
| AddrMan.CAddrMan.Connected | src/addrman.cpp:483-501 | moves the time of exactly this service, and only after twenty minutes |
| AddrMan.CAddrMan.SetServices | src/addrman.cpp:503-519 | replaces the services of exactly this service |
| AddrMan.CAddrMan.GetAddr | src/addrman.cpp:462-481 | a sample without repetition of entries that are not terrible, within both limits; the shuffle keeps the invariant |
| AddrMan.CAddrMan.Check | src/addrman.cpp:385-459 | returns zero if and only if the state is consistent, for any state whose tables have their shape |
| AddrMan.CAddrMan.ValidIsConsistent | src/addrman.cpp:385-459 | the invariant implies everything the consistency check tests |
| AddrMan.CAddrMan.Run | src/addrman.cpp:81-519 | after every run of operations the invariant holds and the consistency check returns zero |
| AddrFile.WithinLimits | src/addrman.h:366-372 | no manager in order exceeds the limits that the reader imposes |
| AddrFile.RoundTrip | src/addrman.h:296-449 | reading what was written, whatever follows, gives a manager in order that is the same up to renumbered ids: key, counts, entries, references, and every slot of both tables |
| AddrManFile.Serialize | src/addrman.h:296-343 | writes exactly the file form; the assertions on the counts hold |
| AddrManFile.ReadNewEntries | src/addrman.h:374-392 | the new entries of any stream, in order, with the fallback placement |
| AddrManFile.ReadTriedEntries | src/addrman.h:394-413 | the tried entries of any stream; one whose slot is taken is lost and not counted |
| AddrManFile.ReadBuckets | src/addrman.h:415-431 | the positions in the new table of any stream, used only if version and bucket count allow |
| AddrManFile.Prune | src/addrman.h:433-444 | forgets exactly the entries that neither table holds; with none, the state is untouched |
| AddrManFile.Clear | src/addrman.h:451-470 | resets everything except the two maps |
| AddrManFile.Unserialize | src/addrman.h:346-449 | on any stream fails exactly where the format is broken or a limit exceeded, and otherwise holds what the stream says less the entries without a slot |
| AddrManFile.SaveThenLoad | src/addrman.h:296-449 | for every valid manager: a fresh one that reads its file is valid and the same up to renumbered ids, with nothing lost or pruned |
| Miner.BlockAssembler.constructor | src/miner.cpp:90-125 | the limits are clamped into their ranges, and size accounting is on exactly if the size limit is below its maximum |
| Miner.BlockAssembler.ResetBlock | src/miner.cpp:127-144 | an empty block with the reserved amounts |
| Miner.BlockAssembler.IsStillDependent | src/miner.cpp:264-273 | true exactly if some parent in the pool is not in the block |
| Miner.BlockAssembler.TestPackageTransactions | src/miner.cpp:303-320 | accepts exactly packages of final transactions, without witness unless allowed, that fit the size limit |
| Miner.BlockAssembler.TestForBlock | src/miner.cpp:322-372 | accepts exactly final transactions within all limits, and declares the block finished only when it is nearly full |
| Miner.BlockAssembler.AddToBlock | src/miner.cpp:374-398 | appends one transaction after its parents; all totals stay the reserved amounts plus the sums over the block |
| Miner.BlockAssembler.UpdatePackagesForAdded | src/miner.cpp:400-426 | cached sizes and signature costs never understate what is missing of a package; every descendant is tracked; cached fees stay what is missing plus what the total counts too much, with modified fees taken off first and plain fees afterwards |
| Miner.BlockAssembler.SortForBlock | src/miner.cpp:444-453 | a permutation of the package in which every transaction follows its ancestors |
| Miner.BlockAssembler.AddPackageTxs | src/miner.cpp:465-593 | terminates for every order of candidates; the block stays in order and below its limits; if not cut short, every entry left out has no room or is not admissible; if it stops for fees, the fees compared are those of the missing package, plus those of what was in the block when the entry was last turned away, plus the deltas of all but one of the other ancestors in the block |
| Miner.NoDeltas | src/miner.cpp:400-426 | without fee deltas it makes no difference which fees are taken off |
| Miner.StaleFees | src/miner.cpp:400-593 | a pool and an order for which a failed entry is tracked again with a total of 10 where 3 is missing |
| Miner.DeltaLost | src/miner.cpp:400-426 | a pool with fee deltas for which the total of an entry with two parents in the block is 103 where 3 is missing |
| Miner.BlockAssembler.AddPriorityTxs | src/miner.cpp:595-675 | terminates and keeps the block in order and below its limits |
| Miner.BlockAssembler.CreateNewBlock | src/miner.cpp:147-262 | for every pool: no transaction twice, each after its parents, weight and signature cost (and size if accounted) equal to the reserved amounts plus the sums and at most their limits, and below them unless the block is empty |
| CheckQueue.NextKeeps | src/checkqueue.h:69-161 | every atomic step of every thread keeps the invariant |
| CheckQueue.Safety | src/checkqueue.h:69-161 | after every interleaving of the master and any number of workers: nTodo is what is queued or in flight, no check is lost or taken twice, every Wait returned true exactly if all checks of its round pass, and a master asleep and not notified has a worker at work |
| CheckQueue.CanProgress | src/checkqueue.h:69-161 | while the master waits, some thread has a useful step |
| CheckQueue.WaitReturns | src/checkqueue.h:69-161 | from every state in order, however useful steps are scheduled, they end within a bound, and then the master has returned |
| MerkleBlock.CPartialMerkleTree.CalcHash | src/merkleblock.cpp:61-76 | the hash of the subtree at an address |
| MerkleBlock.CPartialMerkleTree.TraverseAndBuild | src/merkleblock.cpp:78-94 | appends the encoding of the subtree |
| MerkleBlock.CPartialMerkleTree.TraverseAndExtract | src/merkleblock.cpp:96-132 | consumes the encoding of a subtree from any bits and hashes, flagging exactly what is malformed |
| MerkleBlock.CPartialMerkleTree.Encode | src/merkleblock.cpp:134-146 | the encoding of the whole tree |
| MerkleBlock.CPartialMerkleTree.ExtractMatches | src/merkleblock.cpp:150-181 | root, matches and indexes if every check passes, the null hash otherwise and for an object already marked bad; the null hash is returned if and only if something failed or the root is null |
| MerkleBlock.PackBits | src/merkleblock.h:99-103 | bit p of the bytes is flag p, and the padding is zero |
| MerkleBlock.UnpackBits | src/merkleblock.h:92-98 | flag p is bit p of the bytes |
| MerkleBlock.ShapeCovers | src/merkleblock.h:66-68 | the subtree at an address covers exactly its range of leaves, at its depth |
| MerkleBlock.RoundTrip | src/merkleblock.cpp:61-181 | building, packing, unpacking and extracting returns the full root and exactly the matched ids with their indexes, in order, if and only if no two sibling hashes that are both visited coincide |
| MerkleBlock.Soundness | src/merkleblock.cpp:96-181 | with an injective pair hash, anything accepted under the root of a list consists of elements of that list at their indexes |
| MerkleBlock.Exchange | src/merkleblock.cpp:61-181 | both ends in sequence, through the packed bytes: root, ids and indexes if no two visited siblings coincide, the null hash otherwise |
| MerkleBlock.NullRoot | src/merkleblock.cpp:150-181 | a tree of one null id passes every check and returns the null hash |
| PartialMerkle.BuildSize | src/merkleblock.h:36-40 | at most one hash per leaf, and no more hashes than bits |
| PartialMerkle.BuildSizeMatched | src/merkleblock.h:36-40 | at most one plus matches times height hashes |
| MerkleBlock.BitsBound | src/merkleblock.h:47 | the bound of two bits per hash less one holds if and only if no match lies under a node with one child |
| MerkleBlock.BitsExceed | src/merkleblock.h:47 | three transactions with the last one matched exceed it |
| MerkleSize.LonesAtMost | src/merkleblock.h:66-68 | above any match there is at most one node with one child on each level |
| MerkleSize.SizeBound | src/merkleblock.h:31-48 | for every block, the promised size of 10 plus 32.25 bytes for each hash holds if and only if there are at most 252 bytes of flag bits or the flag bits fit into a quarter of a byte for each hash |
| MerkleSize.SizeExceeds | src/merkleblock.h:31-48 | 1012 transactions, all matched, take one byte more than promised |
| CuckooCache.BitPackedFlags.Set | src/cuckoocache.h:92-95 | sets one flag and no other of the byte |
| CuckooCache.BitPackedFlags.Unset | src/cuckoocache.h:103-106 | clears one flag and no other of the byte |
| CuckooCache.BitPackedFlags.IsSet | src/cuckoocache.h:113-117 | reads one flag |
| CuckooCache.Cache.constructor | src/cuckoocache.h:310-330 | an empty cache of a power-of-two size, with epochs of 45 percent of it if and only if 45 times the size fits 32 bits |
| CuckooCache.EpochShort | src/cuckoocache.h:324-325 | with 2^27 slots an epoch has 17448304 elements, not 60397977 |
| CuckooCache.Cache.EpochCheck | src/cuckoocache.h:264-296 | ages the cache exactly if the recent elements fill an epoch; the sum of recent elements and counter stays bounded |
| CuckooCache.Cache.NextSlot | src/cuckoocache.h:391-406 | the slot after the one last used, so that with distinct slots an element just stored is not displaced at once |
| CuckooCache.Cache.Insert | src/cuckoocache.h:368-416 | every live element sits in one of its eight slots, once; besides ageing, at most one live element disappears, and none if and only if the element is there already or the chain of displacements reaches an open slot within its limit |
| CuckooCache.Cache.Contains | src/cuckoocache.h:443-453 | finds exactly what is in a slot of its own, also if marked for collection; erasing affects no other element |
| CuckooCache.Cache.EraseThenLook | src/cuckoocache.h:426-453 | an erased element is still found until it is overwritten |
| CuckooCache.Run | src/cuckoocache.h:264-453 | after every run, at most twice an epoch plus a sixteenth of it is live |
| ArithUint256.ArithUint256.ShlAssign | src/arith_uint256.cpp:22-37 | multiplication by a power of two modulo 2^256, for any shift |
| ArithUint256.ArithUint256.ShrAssign | src/arith_uint256.cpp:39-54 | division by a power of two, for any shift |
| ArithUint256.ArithUint256.MulAssign32 | src/arith_uint256.cpp:56-66 | product with a limb modulo 2^256 |
| ArithUint256.ArithUint256.MulAssign | src/arith_uint256.cpp:68-82 | the product modulo 2^256 if and only if the factor is another object or the square is zero anyway |
| ArithUint256.SquareLost | src/arith_uint256.cpp:68-82 | one multiplied into itself gives zero |
| ArithUint256.ArithUint256.DivAssign | src/arith_uint256.cpp:84-107 | fails exactly for a zero divisor; otherwise the quotient |
| ArithUint256.ArithUint256.DivLoop | src/arith_uint256.cpp:84-107 | shift and subtract: quotient and remainder of the division, which add up to the dividend |
| ArithUint256.ArithUint256.CompareTo | src/arith_uint256.cpp:110-119 | the order of the values |
| ArithUint256.ArithUint256.EqualTo | src/arith_uint256.cpp:122-133 | equality with a 64-bit number |
| ArithUint256.ArithUint256.Bits | src/arith_uint256.cpp:172-183 | the number of binary digits |
| ArithUint256.ArithUint256.Complement | src/arith_uint256.h:69-75 | 2^256 - 1 minus the value |
| ArithUint256.ArithUint256.Negate | src/arith_uint256.h:77-84 | the negative modulo 2^256 |
| ArithUint256.ArithUint256.AddAssign | src/arith_uint256.h:135-145 | the sum modulo 2^256, also with itself |
| ArithUint256.ArithUint256.SubAssign | src/arith_uint256.h:147-151 | the difference modulo 2^256, also with itself |
| ArithUint256.ArithUint256.Increment | src/arith_uint256.h:173-180 | plus one modulo 2^256 |
| ArithUint256.ArithUint256.Decrement | src/arith_uint256.h:190-197 | minus one modulo 2^256 |
| CompactTarget.SetCompact | src/arith_uint256.cpp:204-222 | the meaning of size and mantissa modulo 2^256; overflow exactly if it does not fit; negative exactly if signed and not zero |
| CompactTarget.OverflowExact | src/arith_uint256.cpp:218-220 | the test on size and mantissa is true if and only if the number is at least 2^256 |
| CompactTarget.GetCompact | src/arith_uint256.cpp:224-245 | the encoding of the value; both assertions hold |
| CompactTarget.DecodeEncode | src/arith_uint256.cpp:204-245 | decoding an encoding gives the number truncated to its leading mantissa bytes |
| CompactTarget.EncodeTwice | src/arith_uint256.cpp:204-245 | encoding what was decoded gives the same code |
| CompactTarget.EncodeMono | src/arith_uint256.cpp:224-245 | the encoding is monotone |
| CompactTarget.WriteThenRead | src/arith_uint256.cpp:204-245 | the two methods in sequence: truncation, no overflow, not negative |
| CompactTarget.GetBlockProof | src/chain.cpp:150-163 | zero for targets that are negative, overflowing or zero |
| CompactTarget.WorkOf | src/chain.cpp:150-163 | otherwise 2^256 divided by target plus one, rounded down, computed without leaving 256 bits |
| CompactTarget.Sparse | src/chain.cpp:150-163 | no compact target is 2^256 - 1, so target plus one never wraps to zero |
| SkipHeights.InvertsLowestOne | src/chain.cpp:99-100 | clears the lowest one: the last digit of an odd number, the same one of half of an even number |
| SkipHeights.InvertIsCleared | src/chain.cpp:99-100 | the bitwise form is the digit-by-digit one, for all naturals |
| SkipHeights.WalkNext | src/chain.cpp:103-137 | one round of the walk in terms of the skip heights |
| SkipHeights.WalkSteps | src/chain.cpp:103-137 | from any height to any below, the walk takes at most the square of the number of binary digits |
| Chain.BlockIndex.GetAncestor | src/chain.cpp:113-142 | the block that walking back reaches, null exactly out of range; with all skip pointers set, within that many steps |
| Chain.BlockIndex.BuildSkip | src/chain.cpp:144-148 | the skip pointer is the ancestor at the skip height |
| Chain.BlockTree.AddToBlockIndex | src/validation.cpp:2763-2796 | adds a block on top of its predecessor, with a correct skip pointer; a known block is returned unchanged |
| Chain.CChain.SetTip | src/chain.cpp:41-51 | stopping early leaves exactly the ancestors of the tip, at their heights |
| Chain.CChain.ContainsIsAncestor | src/chain.h:461-464 | a block is in the chain if and only if it is an ancestor of the tip |
| Chain.CChain.Next | src/chain.h:466-472 | the successor in the chain, null exactly for the tip and blocks outside |
| Chain.CChain.FindFork | src/chain.cpp:81-90 | the highest common ancestor, null exactly if there is none |
| Chain.CChain.GetLocator | src/chain.cpp:53-79 | exactly the hashes of the ancestors ten single steps and then doubling steps back, up to the first that is genesis; their number is logarithmic in the height |
| Chain.LocatorFalls | src/chain.cpp:64-75 | the heights of a locator fall strictly until they reach zero |
| Framing.FeedConcat | src/net.cpp:686-735 | feeding two pieces is feeding their concatenation |
| Framing.FeedIsWhole | src/net.cpp:686-811 | byte by byte the parser finds what cutting the whole stream finds |
| Framing.PrefixReads | src/net.cpp:686-811 | a prefix of a stream of messages reads as the first of them and a partial one, never as a rejection |
| Net.NetMessage.ReadHeader | src/net.cpp:765-794 | takes the header bytes it can, goes on to data exactly with a complete header of allowed size |
| Net.NetMessage.ReadData | src/net.cpp:796-811 | takes the payload bytes it can, in place, growing the buffer as needed |
| Net.NetMessage.CompleteIsExact | src/net.h:549-554 | a complete message holds exactly its payload |
| Net.Receiver.ReceiveMsgBytes | src/net.cpp:686-735 | on any chunk: accepted exactly if the parser does not reject, and then the state of the parser; complete exactly if a message was finished |
| Net.ReceiveAll | src/net.cpp:686-735 | for every way of cutting a stream into chunks: the same messages, the same outcome and the same count as the stream in one piece |
| Net.HeaderSize | src/protocol.h:38-69 | the size field of a written header reads back |
| Net.Sender.SocketSendData | src/net.cpp:830-880 | what was handed to the socket is a prefix of what was queued, longer by exactly what the socket accepts, and nSendSize is what is left |
| Net.Sender.PushMessage | src/net.cpp:2787-2822 | queues header and payload; writes at once only if nothing was waiting |
| Net.SendAll | src/net.cpp:830-880 | in any order of pushes and writes, with a socket that behaves differently in every call, the bytes sent are a prefix of the messages in order |
| Net.Transfer | src/net.cpp:686-880 | from one end to the other the first messages arrive intact and in order, and all of them once the queue is empty |
| RollingBloom.RollingBloomFilter.constructor | src/bloom.cpp:217-242 | an empty filter whose generations hold at least half the promised number |
| RollingBloom.RollingBloomFilter.Wipe | src/bloom.cpp:257-268 | the masked loop clears exactly the positions of one generation |
| RollingBloom.RollingBloomFilter.Insert | src/bloom.cpp:249-277 | the key is recorded, and no position of a younger generation is lost |
| RollingBloom.RollingBloomFilter.Contains | src/bloom.cpp:285-297 | true exactly if all positions of the key are set |
| RollingBloom.RollingBloomFilter.FindRecent | src/bloom.cpp:249-297 | each of the last two generations' worth of keys, hence of the last nElements, is found |
| RollingBloom.RollingBloomFilter.FoundMeans | src/bloom.cpp:249-297 | true exactly if each position is covered by some recent key; never on an empty filter |
| RollingBloom.RollingBloomFilter.Reset | src/bloom.cpp:305-314 | forgets everything |
| Base58.EncodeBase58 | src/base58.cpp:71-109 | the Base58 form of any bytes; the carry is zero at the end of every pass |
| Base58.DecodeBase58 | src/base58.cpp:21-69 | the bytes of any string, with surrounding spaces, or failure; the carry is zero at the end of every pass |
| Base58.EncodeSizeSuffices | src/base58.cpp:80-81 | 138/100 of the length, rounded down, plus one digit suffices for every length |
| Base58.DecodeSizeSuffices | src/base58.cpp:34-35 | 733/1000 of the length, rounded down, plus one byte suffices for every length |
| Base58.DecodeEncode | src/base58.cpp:21-109 | decoding an encoding gives the bytes, for all bytes |
| Base58.EncodeDecode | src/base58.cpp:21-109 | encoding a decoded string without spaces gives the string |
| Base58.EncodeBase58Check | src/base58.cpp:121-128 | the encoding of the bytes and their checksum |
| Base58.DecodeBase58Check | src/base58.cpp:130-145 | the bytes before a matching checksum, failure exactly if there are none |
| Base58.CheckRoundTrip | src/base58.cpp:121-145 | checked encoding then decoding gives the bytes, for any checksum of four bytes |
| CompactBlocks.EncodeIndexes | src/blockencodings.h:62-66 | the differences, as 64-bit numbers |
| CompactBlocks.DecodeIndexes | src/blockencodings.h:38-61 | the indexes, or failure where a number does not fit 16 bits |
| CompactBlocks.DecodedAscends | src/blockencodings.h:55-61 | what is decoded ascends strictly if and only if the differences do not reach beyond index 65535, where the 16-bit offset wraps |
| CompactBlocks.NotAscending | src/blockencodings.h:55-61 | the differences 65535 and 0 are accepted and do not ascend |
| CompactBlocks.IndexRoundTrip | src/blockencodings.h:38-68 | encoding then decoding is the identity if and only if the list ascends strictly; other lists are refused |
| CompactBlocks.PlacePrefilled | src/blockencodings.cpp:58-77 | accepts exactly acceptable prefilled transactions and puts each at its index |
| CompactBlocks.SkipFilled | src/blockencodings.cpp:86-87 | with a 16-bit offset: finds the next empty slot in bounds, or never ends, exactly if more slots are filled than 16 bits count |
| CompactBlocks.MapShortIds | src/blockencodings.cpp:83-106 | never ends exactly with a short id and more than 65535 filled slots; fails exactly for equal short ids or a crowded bucket; otherwise maps the short ids in order onto the empty slots, modulo 65536 |
| CompactBlocks.PlacementExact | src/blockencodings.cpp:82-88 | the stored slots are the empty slots if and only if the block has at most 65536 transactions |
| CompactBlocks.PartiallyDownloadedBlock.InitData | src/blockencodings.cpp:50-170 | says exactly when it ends, when it refuses and when it fails; a slot without a match is as it was; with matches it holds the first one, unless another one of the memory pool or an extra one with another witness follows; up to 65536 transactions, prefilled slots are kept, every other slot belongs to one short id, and mempool_count is the number of those filled; extra_count is the number of slots an extra transaction fills less those of the memory pool it emptied, in 64 bits |
| CompactBlocks.PartiallyDownloadedBlock.CountExact | src/blockencodings.cpp:135-165 | extra_count is the number of slots that extra transactions fill if and only if none of them emptied a slot of the memory pool |
| CompactBlocks.CounterBelowZero | src/blockencodings.cpp:109-165 | one short id, a match in the memory pool and an extra one with another witness: extra_count ends at 2^64 - 1 |
| CompactBlocks.PartiallyDownloadedBlock.FillBlock | src/blockencodings.cpp:178-199 | refuses exactly a wrong number of transactions; otherwise every slot gets its own transaction or the next missing one, and the object cannot be filled again |
| CompactBlocks.Reassembles | src/blockencodings.cpp:178-199 | with the transactions of the empty slots in order, every transaction of the block is in its place |
| CompactBlocks.Relay | src/blockencodings.cpp:20-199 | announcement, request, answer: fails if and only if short ids coincide, a bucket is crowded or the block is found corrupt, and otherwise the receiver ends up with exactly the block |
| CompactBlocks.EndlessSearch | src/blockencodings.cpp:50-88 | an accepted announcement for which the search for slots never ends |
| CompactBlocks.LastSlotWraps | src/blockencodings.cpp:82-88 | with one prefilled transaction and 65536 short ids the last short id is stored with slot zero |
| CompactBlocks.PrefilledOverwritten | src/blockencodings.cpp:82-130 | on that announcement a pool transaction takes the place of the prefilled one |

## Findings

What the code promises or seems to promise and does not do; each with an input and the exact
condition.

- `x *= x` gives zero instead of the square, because the accumulator is cleared before the factor is
  read (src/arith_uint256.cpp:68-82). `ArithUint256.SquareLost` shows it for one; the last clause of
  `MulAssign` is the condition.
- A transaction may have a negative version; only the relay policy asks for one of at least 1
  (src/coins.h:94, src/policy/policy.cpp:62). A negative version does not survive the database:
  VARINT stops at once on a negative number (src/serialize.h:316-331), and -1 comes back as 127.
  `CoinsCodec.NegativeVersion` and `CoinsCache.NegativeVersion` show it; `CoinsCodec.DecodeEncode` and
  `CoinsCache.FlushThenGet` are the condition. The node works around it when it disconnects a block
  (src/validation.cpp:1669-1673).
- Flushing a cache that never asked for its best block, over a cache that has set one, replaces that
  block by null (src/coins.cpp:188-250). `CoinsCache.BestBlockLost` shows it; the last clause of
  `Flush` is the condition.
- ModifyNewCoins marks an entry FRESH without looking at the level below (src/coins.cpp:134-153).
  `CoinsCache.RepeatedComesBack` shows what happens if BIP 30 does not hold for that id;
  `CoinsCache.NewEntrySound` is the condition.
- The 16-bit offset in InitData never reaches an empty slot if 65536 transactions are prefilled and a
  short id is left (src/blockencodings.cpp:83-87; the limit at line 53 allows 100000 transactions).
  `CompactBlocks.EndlessSearch` shows it; the first clause of `InitData` is the condition.
- The 16-bit slots of InitData are wrong in blocks of more than 65536 transactions, and a prefilled
  transaction can be overwritten (src/blockencodings.cpp:82-130). `CompactBlocks.PrefilledOverwritten`
  shows it; `CompactBlocks.PlacementExact` is the condition.
- extra_count is decremented when an extra transaction contradicts one from the memory pool, so the
  unsigned counter can go below zero (src/blockencodings.cpp:143-157); it is only logged.
  `CompactBlocks.CounterBelowZero` shows it; `PartiallyDownloadedBlock.CountExact` is the condition.
- A request for transactions can decode to a list that does not ascend: after index 65535 the 16-bit
  offset starts again at zero (src/blockencodings.h:55-61). `CompactBlocks.NotAscending` shows it;
  `CompactBlocks.DecodedAscends` is the condition. No encoded list decodes that way.
- Add_ returns true also when the new entry is deleted again (src/addrman.cpp:307-312).
  `AddrMan.AddedAndGone` shows it; the contract of `Add` says exactly when the address is kept.
- Entries that failed once can be tracked again with totals that still count ancestors in the block
  (src/miner.cpp:410-423, 545, 570). `Miner.StaleFees` shows it. The entry stays rejected because room
  only shrinks.
- The total of a tracked entry starts with modified fees, of which the fees of the first ancestor are
  taken off modified and those of all others plain (src/miner.cpp:416, src/miner.h:126).
  `Miner.DeltaLost` shows it. The condition for both: the fees that are compared are right if and only
  if the fees of what was in the block when the entry was last turned away, and the deltas of all but
  one of its other ancestors in the block, add up to zero (`BlockAssembler.FeesOf`, which
  `AddPackageTxs` ensures).
- The epoch of the signature cache is 45 percent of its table only while 45 times the size fits 32
  bits (src/cuckoocache.h:325). `CuckooCache.EpochShort` shows it for 2^27 slots; the constructor's
  last clause is the condition.
- The comment at src/cuckoocache.h:395-396 starts displacement at the first slot; the code starts at
  the second (src/cuckoocache.h:406), which is what `NextSlot` states.
- The bound of two bits per hash less one in the comment at src/merkleblock.h:47 fails as soon as a
  match lies under a node with one child. `MerkleBlock.BitsExceed` shows it for three transactions;
  `MerkleBlock.BitsBound` is the condition. The bounds on the number of hashes hold.
- The size that src/merkleblock.h:31-34 guarantees is exceeded because of that.
  `MerkleSize.SizeExceeds` shows it for 1012 transactions; `MerkleSize.SizeBound` is the condition.
- ExtractMatches reports failure by the null hash, so a tree whose root is the null hash cannot be
  told from a failure (src/merkleblock.cpp:150-181). `MerkleBlock.NullRoot` shows it; the last clause
  of `ExtractMatches` is the condition.

## Left out

- AddToBlockIndex: its `requires hash != hashPrevBlock` excludes a header that names its own hash as
  predecessor, which the hash function rules out.
- Relay: blocks of up to 65536 transactions; beyond that the slots are not exact (see Findings).
- InitData: whether a bucket of the hash map is crowded is a parameter, since it depends on the
  library's hashing.
- Unserialize: in AddrManFile nothing is said about the half-filled object after a failure; the node
  discards it. It needs a manager whose two maps are empty, as Clear does not empty them.
- Serialize: in CoinsCodec the form a script takes in the stream (script compression) is not modelled;
  the stream of AddrManFile is a sequence of whole fields, without the bytes of single fields.
- DecodeEncode: in CoinsCodec it is about amounts that the 64-bit code can hold and header codes of 32
  bits; ValidIsStorable shows that every record of a valid transaction is among them.
- CalcHash: pair hashing is an arbitrary function; Soundness asks for it to be injective.
- CoinsViewCache.Run: cachedCoinsUsage, which only estimates memory, is not modelled.
- CheckQueue.Safety: threads are steps under the mutex; the interrupting of threads at shutdown is not
  modelled.
- AddPackageTxs: scores are arbitrary, so that the choice among candidates is any choice; fee rates are
  a function of the size.
- Cache.constructor: the depth is a parameter from 1 to 31, in place of a floating-point logarithm.
- RollingBloomFilter.constructor: the number of hash functions and words is a parameter, in place of
  floating-point sizing, and nElements + 1 fits its type; the rate of false positives is not modelled.
- SocketSendData: the socket is a function of the buffer and its length in each call, without the
  operating system's reasons.
- CAddrMan::Select_ and GetChance: probabilistic, with floating point.
- CBloomFilter and its updates from transactions: depend on script parsing; insertion and lookup alone
  would only add easy members.
- AttemptToEvictConnection: a chain of sorts and cuts over peers, without state of its own.
- GetBlockProofEquivalentTime, FindEarliestAtLeast, GetPriority, SetHex and GetHex: easy once the rest
  is there.
- Block and transaction validation, scripts, keys and signatures, chain parameters, RPC, wallet,
  sockets, threads, files and databases.
