# Verified model of the Koto full node's core

Koto is a full node of the Zcash/Bitcoin family. This project models the parts of it whose
correctness is not visible in any single function: the stack of write-back coins caches, the
address manager and its file format, the partial Merkle tree, the walk over the history tree, the
parallel check queue, 256-bit arithmetic with compact targets and retargeting, the rolling bloom
filter, the weighted eviction tree, the block index with the active chain, Bech32, Base58, the
compact format of unspent outputs, and the selection of transactions for a block template.

Each part comes as a specification on values, with the theorems about it, and, where the source
works by changing things, as classes and methods with loops that are proved to do what the
specification says.

| files | part |
|---|---|
| CoinsTypes, CoinsStack, NullifierStack, AnchorStack, HashStack, HistoryStack, CoinsWorld, CoinsLaws, CoinsViewCache | coins views: every run of a stack of caches, of any depth, agrees with plain snapshots |
| AddrManSpec, AddrManView, AddrManCheck, AddrMan, AddrManStream, AddrManCodec | address manager: its consistency check passes after every run, its linked tables do what a plain view of addresses and slots says, and saving and loading loses nothing |
| MerkleSpec, BlockMerkle, PartialMerkleTree | the Merkle tree of a block and its branches; partial Merkle trees: sound for any input, complete for any block and mask |
| HistoryTreeSpec, HistoryTree | peaks and right slope of the Merkle mountain range |
| CheckQueueSpec, CheckQueue | the check queue under every interleaving |
| Powers, Limbs, LimbShifts, ArithUint256, Compact, Pow | 256-bit numbers, compact targets, difficulty |
| RollingBloomSpec, RollingBloom | the rolling bloom filter never forgets a recent key |
| WeightedTxTreeSpec, WeightedTxTree | eviction with probability in proportion to weight |
| Chain | skip pointers, the active chain, forks, locators |
| Folds, Bech32Poly, Bech32, Bech32Code | Bech32 and its checksum |
| Base58Spec, Base58 | Base58 and the sizes of its buffers |
| Amounts, CoinsCodecSpec, CoinsCodec | the stored form of unspent outputs |
| MinerSpec, Miner | block templates |
| Basics | what several parts share |

`dafny verify dfyconfig.toml` checks everything.

## Results about the code

Where the code does less than a reader may expect, the model keeps the code and states the exact
condition:

* `ModifyNewCoins` marks its entry fresh without asking the base. The cache invariant survives
  exactly when the base has nothing unspent there (`CoinsStack.ModifyNewExact`); otherwise coins made
  and then spent in one cache come back from the base (`CoinsStack.SpendAfterModifyNew`).
* A flush hands the best hash to the parent exactly when `HashStack.FlushOk` holds: a child that never
  asked for the hash makes the parent forget it (`HashStack.FlushExact`, `HashStack.FlushForgets`).
* Popping an anchor keeps the anchor invariant exactly when the popped root is not that of the empty tree
  (`AnchorStack.RemoveExact`); after a flush the data base shows the empty tree again
  (`AnchorStack.EmptyRootReturns`).
* `Attempt_` keeps the address manager consistent exactly when its time is not negative or nothing
  matches (`AddrManSpec.AttemptExact`), and `Good_` exactly when its time is positive or nothing matches
  (`AddrManSpec.GoodExact`).
* `Check_` does not notice stale addresses (`AddrManCheck.StaleUnnoticed`) or ids out of range; with those
  it accepts exactly the consistent managers (`AddrManCheck.CheckExact`).
* The documented bound of 2N-1 flag bits of a partial Merkle tree holds exactly when no node without a
  right child is walked through (`MerkleSpec.FlagBits`, with a failing example in `MerkleSpec.FlagBitsExample`).
* `a *= a` clears a 256-bit number (`ArithUint256.ArithUint256.MulAssign`), and division by zero clears
  the dividend before it throws (`ArithUint256.ArithUint256.DivAssign`).
* The eviction search truncates sums to int: it finds the right transaction for every value below the
  total exactly when every sum it may compare fits (`WeightedTxTreeSpec.SearchExact`, with a failing tree
  and value in `WeightedTxTreeSpec.SearchExample`). The random draw is truncated to int as well before the
  search: every draw below the total meets its owner exactly when these sums fit and the total is at most
  2^31 (`WeightedTxTreeSpec.DrawExact`), and among sums that fit a single draw does so exactly when it is
  below 2^31 (`WeightedTxTreeSpec.DrawMeets`; `WeightedTxTreeSpec.DrawExample` is a failing tree and draw).
* A stored number in variable-length form comes back exactly when it is not negative
  (`CoinsCodecSpec.VarIntBack`), and an amount exactly when its code fits 64 bits (`Amounts.AmountExact`).
  A stored entry comes back, after Cleanup, exactly when version and height are not negative, and every
  output's amount fits, its script has at most 10000 bytes, and a spent one is cleared
  (`CoinsCodecSpec.StoredExact`).

## Model

| member | source | states |
|---|---|---|
| CoinsWorld.RunRefines | src/coins.cpp:129-970 | for every run of reads, writes, spends, anchor and history changes, new caches, flushes and discards on a stack of any depth: no assertion fires, the invariant holds at the end, and each level of the stack shows what a plain stack of snapshots shows |
| CoinsWorld.AlwaysRefines | src/coins.cpp:129-970 | the same for every run from the view of a new data base, where the empty root of each pool stands for the empty tree |
| CoinsWorld.NewRefines | src/txdb.cpp:60-161 | a new data base meets the invariant, shows empty snapshots and knows its best anchors |
| CoinsWorld.PopOfEmptyRuns | src/coins.cpp:636-666 | a run on a new data base may pop to the empty root while that is the best anchor |
| CoinsWorld.StepRefines | src/coins.cpp:129-970 | one operation of any kind keeps the invariant, fires no assertion, and does to the snapshots what its specification says; best anchors stay known |
| CoinsWorld.FlushStep | src/coins.cpp:947-970 | a flush of coins, nullifiers, anchors, best hashes and history together makes the parent show what the child showed |
| CoinsWorld.PopAnchorStep | src/coins.cpp:636-689 | popping to the current best anchor changes nothing; otherwise exactly the old best anchor is removed, and its assertion holds because best anchors are always known |
| CoinsWorld.BestAnchorsStayKnown | src/coins.cpp:270-302 | the snapshots keep every best anchor among the known anchors, as long as callers pop to a known one |
| CoinsWorld.PopToKnown | src/coins.cpp:636-666 | after a pop every best anchor is known if and only if the pop went to a known one |
| CoinsLaws.Committed | src/coins.cpp:883-970 | whatever operations ran in a new cache: flushed and dropped, it leaves what they would have left without it |
| CoinsLaws.Abandoned | src/coins.cpp:110-115 | whatever operations ran in a new cache: dropped without a flush, it leaves no trace |
| CoinsLaws.OnlyTop | src/coins.cpp:129-799 | an operation depends on the top view alone and changes only that |
| CoinsLaws.PopUndoesPush | src/coins.cpp:270-302 | popping to the anchor before a new one was pushed takes the push back |
| CoinsLaws.CutUndoesAppend | src/coins.cpp:522-634 | cutting a history to its former length and root takes appended nodes back |
| CoinsLaws.UnspendUndoesSpend | src/coins.cpp:691-709 | marking a new nullifier and unmarking it leaves everything as before |
| CoinsStack.FetchKeeps | src/coins.cpp:129-145 | pulling an entry through all levels changes no view and keeps the invariant |
| CoinsStack.HaveCoinsExact | src/coins.cpp:759-766 | looking only at an empty vout is exact on every kept stack: it says whether something is unspent |
| CoinsStack.OpenShows | src/coins.cpp:720-739 | the modifier shows the caller what the view held, or nothing unspent |
| CoinsStack.ModifyKeeps | src/coins.cpp:1134-1146 | after a modifier closes, the view has the cleaned new coins at one txid, all other views of the stack are as before, and the invariant holds |
| CoinsStack.ModifyNewKeeps | src/coins.cpp:741-748 | the same for ModifyNewCoins when the base has nothing unspent |
| CoinsStack.ModifyNewExact | src/coins.h:578-586 | the stated assumption of ModifyNewCoins is exactly what keeps the invariant |
| CoinsStack.SpendAfterModifyNew | src/coins.cpp:741-748 | creating with ModifyNewCoins and then spending shows whatever the base had: gone if and only if the base had nothing |
| CoinsStack.AssertNeverFires | src/coins.cpp:900-905 | on a kept stack, a dirty unpruned child entry the parent lacks is fresh |
| CoinsStack.MergeShows | src/coins.cpp:896-928 | merging a child's entries into the parent gives the parent the child's view at every txid |
| CoinsStack.WriteDbShows | src/txdb.cpp:265-313 | writing the dirty entries to the data base gives it the cache's view |
| CoinsStack.FlushKeeps | src/coins.cpp:947-970 | a flush keeps every view, gives the parent the child's, and keeps the invariant of the whole stack |
| CoinsStack.FlushRefines | src/coins.cpp:947-970 | on snapshots a flush copies the top one down by one level |
| NullifierStack.MarkAllSets | src/coins.cpp:691-709 | afterwards exactly the given nullifiers have the new status and no other changed |
| NullifierStack.SpendsSet | src/coins.cpp:691-709 | in each pool exactly the nullifiers the transaction reveals get the new status |
| NullifierStack.FetchKeeps | src/coins.cpp:217-243 | asking for a nullifier changes no view at any depth |
| NullifierStack.MarkKeeps | src/coins.cpp:691-709 | marking changes the top snapshot's set of spent nullifiers at one key |
| NullifierStack.FlushKeeps | src/coins.cpp:801-820 | a flush gives the parent the child's set of spent nullifiers |
| AnchorStack.TreeByRoot | src/coins.cpp:148-215 | every anchor the stack shows has the tree of its root, and the empty root is always known |
| AnchorStack.FetchKeeps | src/coins.cpp:148-215 | asking for an anchor changes no view at any depth |
| AnchorStack.EnterKeeps | src/coins.cpp:270-302 | entering an anchor adds exactly that one to the top snapshot |
| AnchorStack.RemoveKeeps | src/coins.cpp:636-666 | removing takes exactly that one away |
| AnchorStack.RemoveExact | src/coins.cpp:636-666 | removing keeps the invariant if and only if the root is not that of the empty tree |
| AnchorStack.EmptyRootReturns | src/txdb.cpp:60-94 | a removed anchor is gone from the cache and, after a flush, from the data base too, unless it is the root of the empty tree |
| AnchorStack.FlushKeeps | src/coins.cpp:822-852 | a flush gives the parent the child's anchors although the tree of an entry it already has is not copied |
| AnchorStack.FlushKeepsParentTree | src/coins.cpp:841-847 | without one tree per root the flush shows the child's tree if and only if both trees are the same |
| HashStack.FlushExact | src/coins.cpp:940-943 | the parent ends up with the child's best hash if and only if FlushOk holds |
| HashStack.FlushForgets | src/coins.cpp:940-943 | for every pair of different hashes, a child that never asked makes its parent fall back to the data base's hash |
| HashStack.FlushKeeps | src/coins.cpp:940-943 | under FlushOk the snapshots copy the best hash down |
| HistoryStack.MergeShows | src/coins.cpp:854-881 | replaying a child's changes gives the parent the child's nodes, length and root |
| HistoryStack.LengthsMatch | src/coins.cpp:871-872 | the assertion on the replayed length never fires on a kept stack |
| HistoryStack.ReadFinds | src/coins.cpp:250-264 | a node is found in the appended part, or below, or beyond the length, exactly where the view has it |
| HistoryStack.ReadKeeps | src/coins.cpp:250-264 | reading a node changes no view at any depth |
| HistoryStack.PushKeeps | src/coins.cpp:522-560 | pushing appends the nodes and sets the root of one epoch |
| HistoryStack.PopKeeps | src/coins.cpp:562-634 | popping cuts the nodes to the new length and sets the root |
| HistoryStack.FlushKeeps | src/coins.cpp:854-881 | a flush gives the parent the child's history of every epoch |
| CoinsTypes.Cleanup | src/coins.h:114-120 | nothing spent is left at the end, the same outputs are available with the same values and scripts, all other fields stay, and an entry is pruned exactly when nothing is left |
| CoinsTypes.Spend | src/coins.cpp:39-46 | succeeds exactly for an available output; then exactly that one is no longer available, the others keep values and scripts, and coinbase flag, height and version stay; otherwise nothing changes |
| CoinsViewCache.BatchWriteCoins | src/coins.cpp:896-928 | the loop over the child's entries gives the merged map, and its assertion holds |
| CoinsViewCache.BatchWriteNullifiers | src/coins.cpp:801-820 | the loop gives the merged nullifiers |
| CoinsViewCache.BatchWriteAnchors | src/coins.cpp:822-852 | the loop gives the merged anchors |
| CoinsViewCache.BatchWriteHistory | src/coins.cpp:854-881 | the loop gives the merged history caches |
| CoinsViewCache.ReplayHistory | src/coins.cpp:861-875 | truncating and appending node by node gives the merged cache |
| CoinsViewCache.CoinsViewDB.BatchWrite | src/txdb.cpp:265-313 | what the cache and the data base show together stays the same when the cache is written and emptied |
| CoinsViewCache.CoinsViewCache.constructor | src/coins.cpp:110 | a new cache shows what its base shows |
| CoinsViewCache.CoinsViewCache.GetCoins | src/coins.cpp:129-145 | returns what the stack holds and caches it at every level on the way |
| CoinsViewCache.CoinsViewCache.HaveCoins | src/coins.cpp:759-766 | true exactly when the view has something unspent |
| CoinsViewCache.CoinsViewCache.ModifyCoins | src/coins.cpp:720-739 | opens a modifier on the view's coins and changes nothing else |
| CoinsViewCache.CoinsViewCache.ModifyNewCoins | src/coins.cpp:741-748 | opens a fresh, empty entry without asking the base |
| CoinsViewCache.CoinsViewCache.FinishModify | src/coins.cpp:1134-1146 | writes the cleaned coins, or drops a fresh pruned entry |
| CoinsViewCache.CoinsViewCache.GetNullifier | src/coins.cpp:217-243 | returns the view's status of a nullifier |
| CoinsViewCache.CoinsViewCache.SetNullifiers | src/coins.cpp:691-709 | marks the nullifiers of all joinsplits, Sapling spends and Orchard actions in the top cache, in that order |
| CoinsViewCache.CoinsViewCache.GetBestBlock | src/coins.cpp:768-772 | returns the best block of the stack and remembers it at every level |
| CoinsViewCache.CoinsViewCache.SetBestBlock | src/coins.cpp:797-799 | sets the top cache's best block only |
| CoinsViewCache.CoinsViewCache.GetBestAnchor | src/coins.cpp:775-795 | returns the best anchor of a pool and remembers it at every level |
| CoinsViewCache.CoinsViewCache.GetAnchorAt | src/coins.cpp:148-215 | returns the tree of an entered anchor, or nothing |
| CoinsViewCache.CoinsViewCache.PushAnchor | src/coins.cpp:270-302 | enters a new best anchor unless it is the current one |
| CoinsViewCache.CoinsViewCache.PopAnchor | src/coins.cpp:668-689 | takes the best anchor back; for the Orchard pool it refuses and changes nothing |
| CoinsViewCache.CoinsViewCache.SelectHistoryCache | src/coins.cpp:507-520 | every cache on the way down gets an entry for the epoch, and no view changes |
| CoinsViewCache.CoinsViewCache.GetHistoryAt | src/coins.cpp:250-264 | returns the node of the view, or refuses an index beyond the length |
| CoinsViewCache.CoinsViewCache.PushHistory | src/coins.cpp:522-560 | appends the computed nodes and root to the epoch |
| CoinsViewCache.CoinsViewCache.PopHistory | src/coins.cpp:562-634 | truncates the epoch to the computed length and root |
| CoinsViewCache.CoinsViewCache.BatchWrite | src/coins.cpp:883-945 | the parent's content becomes the merge of its own and the child's; what lies below is untouched |
| CoinsViewCache.CoinsViewCache.Flush | src/coins.cpp:947-970 | the whole stack of objects, data base or parent cache below, becomes what FlushStep speaks of: the parent has the merge, this cache is empty but for its hashes |
| AddrManSpec.AlwaysConsistent | src/addrman.cpp:397-471 | every run of Add_, Good_, Attempt_, Connected_ and GetAddr_ from a new manager passes the whole consistency check |
| AddrManSpec.RunConsistent | src/addrman.cpp:397-471 | every run from a consistent manager ends in a consistent one |
| AddrManSpec.StepKeeps | src/addrman.cpp:196-513 | each operation keeps reference counts, slots, index and counters consistent |
| AddrManView.AlwaysShows | src/addrman.cpp:196-513 | for every run from a new manager, what is known of each address and which address is in which slot is what the same operations on a plain view, without ids, reference counts and orders, give |
| AddrManView.RunShows | src/addrman.cpp:196-513 | the same for every run from a consistent manager |
| AddrManView.ShowAdd | src/addrman.cpp:245-311 | Add_ on the view: an unknown address is entered, a known one hears its news, and either may take a slot; the flag is set for an unknown one |
| AddrManView.UnknownEnters | src/addrman.cpp:281-304 | an unknown address whose slot is free is known afterwards with its services, source and penalized time, in that slot, and nothing else changes |
| AddrManView.UnknownTakes | src/addrman.cpp:286-309 | an unknown address takes a held slot if and only if the holder is terrible or has another one; the holder is forgotten if and only if it had no other; otherwise nothing changes |
| AddrManView.KnownHears | src/addrman.cpp:253-280 | a known address gains services, may move its time, and takes at most the slot of the source; eight references or the tried table rule that out |
| AddrManView.ShowPlace | src/addrman.cpp:286-309 | taking the slot a source selects, or losing the entry, on the view |
| AddrManView.ShowGood | src/addrman.cpp:196-243 | Good_ on the view, for every time: stamped, out of all new slots, into the tried slot, whose holder goes back to the new slot of its source |
| AddrManView.ShowAttempt | src/addrman.cpp:313-330 | Attempt_ sets the time of the last try and counts one attempt more of an exact match, and nothing else |
| AddrManView.ShowConnected | src/addrman.cpp:495-513 | Connected_ moves the time of an exact match that is more than twenty minutes old, and nothing else |
| AddrManView.ShowShuffled | src/addrman.cpp:473-493 | GetAddr_ changes nothing but the order |
| AddrManView.OnlyKnownTold | src/addrman.cpp:473-493 | an answer lists only known addresses that are not terrible, with their services and times |
| AddrManView.AllKnownTold | src/addrman.cpp:473-493 | an answer from the whole order lists all of them |
| AddrManView.TerribleIs | src/addrman.cpp:32-51 | the exact times and numbers of attempts that make an entry terrible |
| AddrManSpec.AddKeeps | src/addrman.cpp:245-311 | Add_ keeps consistency for every address, source, penalty, time and draw |
| AddrManSpec.GoodExact | src/addrman.cpp:196-243 | Good_ for any time: consistent afterwards if and only if the time is positive or nothing matches; a matching entry is tried |
| AddrManSpec.AttemptExact | src/addrman.cpp:313-330 | Attempt_ keeps consistency if and only if its time is not negative or nothing matches |
| AddrManSpec.ConnectedKeeps | src/addrman.cpp:495-513 | Connected_ keeps consistency |
| AddrManSpec.MakeTriedExact | src/addrman.cpp:148-194 | the entry is tried afterwards, the displaced one is listed in the new table again, and all is consistent if and only if the entry's own times are |
| AddrManSpec.EvictKeeps | src/addrman.cpp:166-188 | evicting the holder of a tried slot frees exactly that slot and keeps the rest consistent |
| AddrManSpec.ClearNewKeeps | src/addrman.cpp:133-146 | clearing a new slot drops its holder when that was its last reference |
| AddrManSpec.DeleteKeeps | src/addrman.cpp:119-131 | deletion takes exactly one id out and leaves all others as they were |
| AddrManSpec.HolderOk | src/addrman.cpp:133-146 | whoever holds a new slot is known, untried and referenced, so the asserts there hold |
| AddrManSpec.ShuffledAlike | src/addrman.cpp:474-493 | the partial shuffle of GetAddr_ changes no entry but its position |
| AddrManSpec.GetAddrLimit | src/addrman.cpp:476-478 | the largest number within 23 percent of the size and 2500 |
| AddrManSpec.UsableAll | src/addrman.cpp:474-493 | when all positions were read, every address that is not terrible is in the answer |
| AddrMan.AddrMan.constructor | src/addrman.h:445-464 | a new manager is the empty one |
| AddrMan.AddrMan.Create | src/addrman.cpp:87-97 | one new entry with the next id, known by its address and last in the random order; nothing else changes |
| AddrMan.AddrMan.SwapRandom | src/addrman.cpp:99-117 | two positions of the random order and the back links of their entries change places |
| AddrMan.AddrMan.Delete | src/addrman.cpp:119-131 | the entry, its address and its position go, the last entry of the random order takes its place, and one new entry less is counted |
| AddrMan.AddrMan.ClearNew | src/addrman.cpp:133-146 | the slot is free afterwards, its holder has one reference less or is gone |
| AddrMan.AddrMan.UnlistAll | src/addrman.cpp:150-157 | one pass over all buckets takes the entry out of every new slot it holds |
| AddrMan.AddrMan.MakeTried | src/addrman.cpp:148-194 | out of every new bucket into the tried slot its address selects; a displaced entry is back in the new slot its own source selects, over whoever was there |
| AddrMan.AddrMan.Good | src/addrman.cpp:196-243 | does what the specification and the view say, for every time; its assertions hold; consistent afterwards if and only if the time is positive or nothing matches |
| AddrMan.AddrMan.NeverMissing | src/addrman.cpp:222-237 | an untried entry of a consistent manager is found in some new bucket, from any random start |
| AddrMan.AddrMan.Add | src/addrman.cpp:245-311 | for a known address and a new one alike, tables and result are those of the specification, and what is known and held afterwards is what the view says, for every draw; consistency is kept |
| AddrMan.AddrMan.Place | src/addrman.cpp:289-309 | the entry is listed in the slot its source selects, or dropped when the slot is taken by a good one |
| AddrMan.AddrMan.Attempt | src/addrman.cpp:313-330 | only an exactly matching entry changes: the time of the attempt and one more attempt |
| AddrMan.AddrMan.Connected | src/addrman.cpp:495-513 | only an exactly matching entry changes, and only when its time is more than twenty minutes old |
| AddrMan.AddrMan.GetAddr | src/addrman.cpp:474-493 | returns the usable addresses of a shuffled prefix, at most the limit, and all of them when fewer were found |
| AddrManCheck.CheckExact | src/addrman.cpp:397-471 | a manager is consistent if and only if it passes the check, its ids are in range, and its addresses are all those of entries |
| AddrManCheck.StaleUnnoticed | src/addrman.cpp:397-471 | for every address and id: a manager with only that stale address passes the check and is not consistent |
| AddrManCheck.TriedNext | src/addrman.cpp:436-448 | a slot of the tried table passes if and only if its id is tried, not met before, and hashes to the slot |
| AddrManCheck.NewNext | src/addrman.cpp:450-461 | a slot of the new table counts one reference off, and a failure there means that slots and reference counts disagree |
| AddrManCheck.NothingLeft | src/addrman.cpp:463-466 | nothing is left to be met if and only if every entry is in exactly its slots |
| AddrMan.AddrMan.CheckEntry | src/addrman.cpp:405-429 | one entry by itself; a lookup may enter an address but changes no other lookup |
| AddrMan.AddrMan.CheckTried | src/addrman.cpp:436-448 | the loop over the tried table meets each tried id once, or the tables are wrong |
| AddrMan.AddrMan.CheckNew | src/addrman.cpp:450-461 | the loop over the new table counts all references off, or the tables are wrong |
| AddrMan.AddrMan.Check | src/addrman.cpp:397-471 | returns 0 if and only if every entry, count and slot agrees and the key is set; on a consistent manager it changes nothing |
| AddrManStream.RoundTrip | src/addrman.h:289-443 | for every consistent manager, loading what was saved reads the whole stream, loses and prunes nothing, and puts the same entries into the same slots of both tables |
| AddrManStream.RestoredConsistent | src/addrman.h:340-443 | the loaded manager passes the consistency check |
| AddrManStream.SameSlots | src/addrman.h:340-443 | a slot of either table is taken before exactly when after, by the same entry |
| AddrManStream.SameAddresses | src/addrman.h:340-443 | the same addresses are known, with the same saved fields, place and number of references |
| AddrManStream.RestoredView | src/addrman.h:290-456 | what is known and held after loading is what was saved, but for the times of the last tries |
| AddrManStream.Layout | src/addrman.h:294-322 | the numbers at the start of the stream, and new entries before tried ones behind them |
| AddrManStream.PlacedBySource | src/addrman.h:368-386 | without usable positions a new entry goes to the slot of its source if that is free, and nowhere else |
| AddrManStream.LostWhenTaken | src/addrman.h:389-407 | a tried entry whose slot is taken is lost and counted |
| AddrManStream.CountsExact | src/addrman.h:303-322 | as many entries are written as the counters say, so the asserts in Serialize hold |
| AddrManStream.WithinLimits | src/addrman.h:360-366 | the counters are within the size of the tables, so loading does not refuse them |
| AddrManStream.PutIndexBack | src/addrman.h:409-425 | each written position finds its slot free and its entry with references to spare |
| AddrManStream.PruneNothing | src/addrman.h:427-437 | nothing is pruned when every entry has a place |
| AddrManCodec.WriteEntries | src/addrman.h:303-322 | writes the entries of one kind in the order of ids and numbers them by rank |
| AddrManCodec.WriteBuckets | src/addrman.h:323-336 | writes for every bucket how many slots are taken and by whom |
| AddrManCodec.Serialize | src/addrman.h:289-337 | writes the whole stream |
| AddrManCodec.LoadNew | src/addrman.h:368-386 | reads the new entries, or fails on a stream that does not fit |
| AddrManCodec.LoadTried | src/addrman.h:388-407 | reads the tried entries and counts the ones whose slot is taken |
| AddrManCodec.LoadBuckets | src/addrman.h:409-425 | reads the bucket lists |
| AddrManCodec.Unserialize | src/addrman.h:340-443 | for every stream, does what the specification of loading says |
| AddrManCodec.SaveAndLoad | src/addrman.h:289-443 | the two loops together restore the manager and keep it consistent |
| MerkleSpec.Soundness | src/merkleblock.cpp:148-179 | with an injective hash, any bits and hashes accepted for the true root yield a selection of the block's txids in block order; for distinct txids this holds for every claimed number of transactions that gives a tree as high, thanks to the check for equal siblings |
| MerkleSpec.CombineSound | src/merkleblock.cpp:119-128 | two children that combine without complaint into a node's hash are its two children |
| MerkleSpec.LoneSound | src/merkleblock.cpp:115-118 | a node claimed to have one child has one |
| MerkleSpec.Refused | src/merkleblock.cpp:148-179 | wrong numbers, a bad object, and hashes or whole bytes left over are refused |
| MerkleSpec.BuildFormat | src/merkleblock.cpp:78-94 | the first bit of a subtree tells whether anything in it matches; without a match only its hash is there; the left subtree comes first |
| BlockMerkle.RootIsBlockRoot | src/primitives/block.cpp:37-98 | the root that partial trees speak of is the one computed level by level from consecutive pairs |
| BlockMerkle.UnmutatedUnique | src/primitives/block.cpp:37-98 | without collisions, two lists of equally high trees with one root and neither flagged as mutated are the same |
| BlockMerkle.RepeatedFlagged | src/primitives/block.cpp:37-98 | repeating the last hash of an odd list gives the same root and is flagged |
| BlockMerkle.BranchComplete | src/primitives/block.cpp:100-130 | the branch of a transaction leads to the root |
| BlockMerkle.BranchSound | src/primitives/block.cpp:116-130 | without collisions no other hash and no other branch as long leads there |
| BlockMerkle.Block.BuildMerkleTree | src/primitives/block.cpp:37-98 | all levels in one vector, the root, and the flag exactly when a level ends in twins |
| BlockMerkle.Block.GetMerkleBranch | src/primitives/block.cpp:100-114 | the hashes beside the way to the root |
| BlockMerkle.Block.CheckMerkleBranch | src/primitives/block.cpp:116-130 | the root a hash and a branch lead to, or null for the index -1 |
| MerkleSpec.SubtreeSound | src/merkleblock.cpp:96-130 | a subtree read without complaint whose hash is right adds only true txids of its range, in order |
| MerkleSpec.BadStays | src/merkleblock.cpp:96-130 | once something is wrong the walk stays wrong |
| MerkleSpec.Completeness | src/merkleblock.cpp:132-179 | for every non-empty list of distinct txids within the limit and every mask: build, pack, unpack and extract give the root and exactly the matched txids |
| MerkleSpec.SubtreeComplete | src/merkleblock.cpp:78-130 | extraction reads back, bit for bit, what building wrote for a subtree |
| MerkleSpec.HashesDiffer | src/merkleblock.cpp:61-76 | different nodes of one height have different hashes |
| MerkleSpec.DistinctNoTwins | src/merkleblock.cpp:119-123 | the check for equal left and right hashes never fires on a real block |
| MerkleSpec.HashBounds | src/merkleblock.h:36-40 | at most one hash per transaction, and at most 1 + matched * height |
| MerkleSpec.FlagBits | src/merkleblock.h:47 | the documented bound on flag bits holds if and only if no walked node lacks a right child |
| MerkleSpec.FlagBitsExample | src/merkleblock.h:47 | three transactions with the third matched take 4 bits and 2 hashes |
| MerkleSpec.WidthExact | src/merkleblock.h:66-68 | a position is within the width of a level exactly when its first leaf exists |
| PartialMerkleTree.PartialMerkleTree.constructor | src/merkleblock.cpp:132-144 | the object holds the encoding of the masked txids |
| PartialMerkleTree.PartialMerkleTree.TraverseAndBuild | src/merkleblock.cpp:78-94 | appends the encoding of a subtree |
| PartialMerkleTree.PartialMerkleTree.TraverseAndExtract | src/merkleblock.cpp:96-130 | for any bits and hashes, the walk and the flag are those of the specification |
| PartialMerkleTree.PartialMerkleTree.ExtractMatches | src/merkleblock.cpp:148-179 | root and matches are those of the specification, a null root on any fault |
| PartialMerkleTree.PartialMerkleTree.FindHeight | src/merkleblock.cpp:137-140 | the least height whose level has one node |
| PartialMerkleTree.PartialMerkleTree.ParentOfMatch | src/merkleblock.cpp:79-82 | true exactly when a leaf below the node is matched |
| PartialMerkleTree.Pack | src/merkleblock.h:99-104 | every bit lands in its place and padding is clear |
| PartialMerkleTree.Unpack | src/merkleblock.h:92-98 | every bit of every byte is read |
| PartialMerkleTree.RoundTrip | src/merkleblock.h:88-105 | a tree sent over the wire gives the block's root and the matched txids at the other end |
| HistoryTreeSpec.GrownLength | src/coins.cpp:391-465 | a tree with n leaves has 2n - popcount(n) nodes and one peak for each set bit of n, of that altitude, strictly falling; the last node is the last peak |
| HistoryTreeSpec.GrownShaped | src/coins.cpp:408-445 | every tree grown leaf by leaf is a row of perfect trees of falling altitude |
| HistoryTreeSpec.DeletionPeaks | src/coins.cpp:487-502 | the peaks left after deleting the last leaf are the other peaks and the left children along the right slope of the last peak |
| HistoryTree.PreloadHistoryTree | src/coins.cpp:391-505 | for every number of leaves: the entries are exactly the peaks, then, if asked, both children at each level of the last peak's right slope; every index is below the length and child links are the true children |
| HistoryTree.PeakWalk | src/coins.cpp:446-465 | the walk right to a sibling or down to an existing left child ends and lists exactly the peaks; no position computed on the way is beyond 32 bits for a tree of fewer than 2^31 nodes |
| HistoryTree.SlopeWalk | src/coins.cpp:487-502 | lists left and right child at each level below the last peak |
| HistoryTree.NextPeak | src/coins.cpp:446-465 | a candidate position lies within the tree if and only if it is the next peak |
| HistoryTree.FirstAltitude | src/coins.cpp:421-428 | the first guess of the altitude is that of the highest peak |
| HistoryTree.FloorLog2 | src/coins.cpp:378-383 | the position of the highest set bit |
| HistoryTree.Altitude | src/coins.cpp:387-389 | the altitude of the largest perfect tree |
| HistoryTree.DraftChildren | src/coins.cpp:361-375 | the drafted child links are the children of a perfect tree's top |
| CheckQueueSpec.EveryRun | src/checkqueue.h:70-162 | in every interleaving of a master and any number of workers, nTodo is what is queued plus what is in work, and each result the master gets is the conjunction of all checks added since the previous one |
| CheckQueueSpec.StepKeeps | src/checkqueue.h:70-162 | each critical section keeps the invariant and the honesty of the results |
| CheckQueueSpec.SettleReturns | src/checkqueue.h:92-101 | when the master leaves, its answer is true exactly when no pending check is false |
| CheckQueueSpec.SettleWorks | src/checkqueue.h:106-120 | taking a batch moves checks without losing any |
| CheckQueueSpec.FinishArrives | src/checkqueue.h:79-86 | accounting for a batch keeps the counts, and the last worker wakes the master |
| CheckQueueSpec.BatchFits | src/checkqueue.h:106-111 | a batch is never empty, never larger than the queue, and within the batch size |
| CheckQueueSpec.BatchShare | src/checkqueue.h:106-111 | a batch is the thread's share of the queue, rounded down, within one and the batch size |
| CheckQueueSpec.SomeoneMoves | src/checkqueue.h:92-105 | while the master waits somebody can move; while it sleeps a worker has a batch to finish |
| CheckQueueSpec.MoveShrinks | src/checkqueue.h:70-128 | every such move brings the master's return nearer, whoever makes it |
| CheckQueueSpec.WaitEnds | src/checkqueue.h:144-147 | no schedule of steps other than spurious wake-ups keeps the master waiting longer than a bound fixed by the state |
| CheckQueue.CheckQueue.Add | src/checkqueue.h:150-162 | the checks are queued and counted, and one or all workers are notified |
| CheckQueue.CheckQueue.Begin | src/checkqueue.h:87-121 | the first critical section of a thread: it is counted, then returns, sleeps or takes a batch as the state machine decides |
| CheckQueue.CheckQueue.Resume | src/checkqueue.h:92-121 | the critical section after a sleep: no longer idle, then the same decision |
| CheckQueue.CheckQueue.Report | src/checkqueue.h:79-121 | the critical section after a batch: result and count are entered before the decision, and a worker that leaves nothing to do notifies the master |
| CheckQueue.CheckQueue.TakeBatch | src/checkqueue.h:112-118 | the last checks of the queue, in the order they are taken |
| CheckQueue.RunBatch | src/checkqueue.h:123-125 | once a check fails the rest are skipped |
| ArithUint256.ArithUint256.AddAssign | src/arith_uint256.h:135-145 | addition modulo 2^256, also of a number to itself |
| ArithUint256.ArithUint256.SubAssign | src/arith_uint256.h:147-151 | subtraction modulo 2^256 |
| ArithUint256.ArithUint256.Negate | src/arith_uint256.h:77-84 | two's complement |
| ArithUint256.ArithUint256.Not | src/arith_uint256.h:69-75 | complement to 2^256 - 1 |
| ArithUint256.ArithUint256.Increment | src/arith_uint256.h:173-180 | one more, modulo 2^256 |
| ArithUint256.ArithUint256.MulUint32 | src/arith_uint256.cpp:56-65 | product with a 32-bit number modulo 2^256 |
| ArithUint256.ArithUint256.MulAssign | src/arith_uint256.cpp:68-81 | product modulo 2^256 of two different numbers; a number times itself in place is cleared |
| ArithUint256.ArithUint256.ShiftLeftAssign | src/arith_uint256.cpp:22-36 | multiplication by any power of two modulo 2^256 |
| ArithUint256.ArithUint256.ShiftRightAssign | src/arith_uint256.cpp:39-53 | floor division by any power of two |
| ArithUint256.ArithUint256.DivAssign | src/arith_uint256.cpp:84-107 | floor division; it fails exactly for a zero divisor |
| ArithUint256.ArithUint256.CompareTo | src/arith_uint256.cpp:110-119 | the order of the numbers |
| ArithUint256.ArithUint256.BitCount | src/arith_uint256.cpp:172-185 | the number of bits |
| ArithUint256.ArithUint256.GetLow64 | src/arith_uint256.h:245-249 | the number modulo 2^64 |
| LimbShifts.ShiftLeftValue | src/arith_uint256.cpp:22-36 | moving limbs and bits up is multiplication modulo the range, for any number of limbs |
| LimbShifts.ShiftRightValue | src/arith_uint256.cpp:39-53 | moving limbs and bits down is floor division, for any number of limbs |
| Limbs.HighestDecides | src/arith_uint256.cpp:110-119 | the highest differing limb decides the order of the numbers |
| Compact.SetCompact | src/arith_uint256.cpp:205-223 | decoded number and both flags for every 32-bit code |
| Compact.OverflowExact | src/arith_uint256.cpp:217-222 | the overflow flag is set if and only if the exact value does not fit 256 bits, and otherwise the value is exact |
| Compact.ExactIs | src/arith_uint256.cpp:205-223 | a code is a size, a sign and a mantissa that counts 256 to the power of the size less three |
| Compact.GetCompact | src/arith_uint256.cpp:225-246 | the code of the number, with the sign bit if asked for and the number is not zero |
| Compact.DecodeEncodeSigned | src/arith_uint256.cpp:205-246 | decoding an encoded number gives it rounded down with its sign; zero has none |
| Compact.DecodeEncode | src/arith_uint256.cpp:205-246 | decoding an encoded number gives it rounded down, with neither flag set |
| Compact.RoundsDown | src/arith_uint256.cpp:225-246 | rounding loses at most x / 2^15 and keeps the number of bits |
| Compact.EncodeStable | src/arith_uint256.cpp:225-246 | encoding what was kept gives the same code |
| Compact.EncodeMonotone | src/arith_uint256.cpp:225-246 | rounding and the codes themselves keep the order of numbers |
| Compact.EncodeSteps | src/arith_uint256.cpp:227-241 | the two steps of the code give the size and mantissa of the definition |
| Pow.GetBlockProof | src/pow.cpp:141-154 | for every code: 2^256 / (target + 1) rounded down for a valid target, else zero |
| Pow.WorkFits | src/pow.cpp:149-153 | the formula that stays within 256 bits equals 2^256 / (target + 1) |
| Pow.TargetBelow | src/pow.cpp:141-154 | a decoded target plus one never wraps |
| Pow.CheckProofOfWork | src/pow.cpp:122-139 | true if and only if the code is a valid target within the limit that the hash meets |
| Pow.LimitTimespan | src/pow.cpp:74-87 | the bound nearest to a timespan that deviates a quarter as much as the actual one, with division toward zero |
| Pow.SpanBounds | src/pow.cpp:77-87 | exactly one timespan is the expected one plus a quarter of the deviation without the rest, and exactly one is nearest to it within the bounds: those that are computed |
| Pow.SpanMonotone | src/pow.cpp:77-87 | a longer actual timespan never gives a shorter one |
| Pow.CalculateNextWorkRequired | src/pow.cpp:69-100 | the code of the next target, wrap-around included |
| Pow.RetargetExact | src/pow.cpp:69-100 | when the window times the limit fits 256 bits and the maximal timespan is at most the window's, nothing wraps: the result is the mean per second times the timespan, between the minimal and maximal timespan and capped at the limit |
| Pow.DoubleFloor | src/pow.cpp:55-61 | rounding twice is rounding once |
| Pow.TargetWithinLimit | src/pow.cpp:89-99 | the returned code decodes without a flag to a target within the limit |
| Pow.GetNextWorkRequired | src/pow.cpp:15-67 | every branch: no block, minimum difficulty, no retargeting, short chain, and the window |
| Pow.SumTargets | src/pow.cpp:41-53 | the sum of the window's targets modulo 2^256, or how far the chain went |
| Pow.NextWorkExact | src/pow.cpp:15-100 | under the same two conditions, on a chain with targets within the limit, one formula with a single rounding gives the required target |
| Pow.NextWorkFixed | src/pow.cpp:15-39 | the limit for the first blocks and for late blocks where they may be easy, the last target without retargeting |
| Pow.TotalIsLast | src/pow.cpp:41-53 | the targets summed are those of the last blocks |
| RollingBloomSpec.RecentContained | src/bloom.cpp:213-262 | after any insertions the filter contains every key of the last two full generations and the current one |
| RollingBloomSpec.PromisedContained | src/bloom.cpp:173-198 | at least the last nElements keys are contained |
| RollingBloomSpec.RecentGeneration | src/bloom.cpp:213-230 | such a key was inserted at most two generations ago |
| RollingBloomSpec.Wiped | src/bloom.cpp:215-230 | starting a generation clears exactly the marks that carry its number |
| RollingBloomSpec.CellInRange | src/bloom.cpp:209-240 | every position computed from a hash is within the filter |
| RollingBloomSpec.CellExact | src/bloom.cpp:209-240 | the bit is the hash modulo 64 and the word grows in proportion to the hash |
| RollingBloomSpec.ContainedCause | src/bloom.cpp:244-257 | nothing is contained without a cause: each cell was set by a key of the last three generations |
| RollingBloom.MaskWipes | src/bloom.cpp:221-228 | the two bit masks clear a cell if and only if its two bits spell the generation's number |
| RollingBloom.SettingBit | src/bloom.cpp:239-240 | setting one bit of a word leaves the others |
| RollingBloom.RollingBloomFilter.Insert | src/bloom.cpp:213-242 | the cells are those of one more key |
| RollingBloom.RollingBloomFilter.Wipe | src/bloom.cpp:221-229 | clears the cells with a generation's number and no other |
| RollingBloom.RollingBloomFilter.Contains | src/bloom.cpp:250-262 | true exactly when all cells of the key are marked |
| RollingBloom.RollingBloomFilter.Reset | src/bloom.cpp:270-276 | an empty filter with a new tweak |
| WeightedTxTreeSpec.InsertKeeps | src/mempool_limit.cpp:82-93 | adding keeps every child sum and the index exact |
| WeightedTxTreeSpec.RemoveKeeps | src/mempool_limit.cpp:95-121 | removing keeps every child sum and the index exact |
| WeightedTxTreeSpec.RemoveTotal | src/mempool_limit.cpp:95-121 | removing takes exactly the transaction's weights from the totals |
| WeightedTxTreeSpec.RemoveOthers | src/mempool_limit.cpp:95-121 | all others stay with their weights |
| WeightedTxTreeSpec.RootSum | src/mempool_limit.cpp:76-79 | the sum at the root is the total |
| WeightedTxTreeSpec.SelectsOne | src/mempool_limit.cpp:60-74 | no value selects two transactions |
| WeightedTxTreeSpec.OffsetBounds | src/mempool_limit.cpp:60-74 | each transaction has an interval as long as its eviction weight within the total |
| WeightedTxTreeSpec.SearchExact | src/mempool_limit.cpp:60-74 | the search finds the owner of every value below the total if and only if every sum up to a node fits an int |
| WeightedTxTreeSpec.SearchFinds | src/mempool_limit.cpp:60-74 | when the sums fit, the search from any node finds the owner of every value below that node's sum |
| WeightedTxTreeSpec.SearchExample | src/mempool_limit.cpp:60-74 | two transactions with weights INT_MAX and 1: the value 1 belongs to the first, and the search leaves the tree |
| WeightedTxTreeSpec.DrawExact | src/mempool_limit.cpp:60-74 | with the draw truncated before the search: every draw below the total ends at its owner if and only if every compared sum fits an int and the total is at most 2^31 |
| WeightedTxTreeSpec.DrawMeets | src/mempool_limit.cpp:123-131 | when the sums fit, a draw ends at its owner if and only if it fits an int, and never ends if and only if its truncation is negative |
| WeightedTxTreeSpec.DrawLost | src/mempool_limit.cpp:60-74 | in every tree that weighs more than 2^31 some draw is lost |
| WeightedTxTreeSpec.DrawExample | src/mempool_limit.cpp:123-131 | three transactions of weight 10^9: all sums fit, the draw 2^31 belongs to the last, and the search leaves the tree |
| WeightedTxTreeSpec.TotalFits | src/mempool_limit.cpp:60-74 | a total within int range is enough for every step |
| WeightedTxTreeSpec.PropagateAt | src/mempool_limit.cpp:52-58 | exactly the sums above the node change |
| WeightedTxTree.WeightedTxTree.Insert | src/mempool_limit.cpp:82-93 | the arrays and the index are those of the tree with the transaction appended; a known one is not added again |
| WeightedTxTree.WeightedTxTree.Remove | src/mempool_limit.cpp:95-121 | the last transaction takes the place of the removed one and all sums follow; an unknown one changes nothing |
| WeightedTxTree.WeightedTxTree.BackPropagate | src/mempool_limit.cpp:52-58 | adds the difference to all sums above |
| WeightedTxTree.WeightedTxTree.FindByEvictionWeight | src/mempool_limit.cpp:60-74 | for all weights: ends where the search on truncated sums ends, or leaves the tree, where the source does not return |
| WeightedTxTree.WeightedTxTree.Pick | src/mempool_limit.cpp:130-131 | searches with the draw truncated to int; when the sums fit, ends at the owner if and only if the draw fits, and every draw does so if and only if sums and total fit |
| WeightedTxTree.WeightedTxTree.GetTotalWeight | src/mempool_limit.cpp:76-79 | both sums over all transactions |
| WeightedTxTree.WeightedTxTree.MaybeDropRandom | src/mempool_limit.cpp:123-136 | drops nothing within the capacity, else exactly the transaction the search ends at, or does not return; when the sums fit it drops the owner of the draw if and only if the draw fits an int, and does not return if and only if the truncated draw is negative; every draw would drop its owner if and only if sums and total fit |
| WeightedTxTree.WeightedTxTree.EnsureSizeLimit | src/txmempool.cpp:968-977 | repeated drops end with the cost within the capacity, always so when sums and draws fit; exactly the dropped transactions and their descendants are gone, and the others keep their weights |
| WeightedTxTree.WeightedTxTree.RemoveAll | src/txmempool.cpp:326-328 | exactly the listed transactions are gone from the tree, each removed once however often it is listed |
| Chain.InvertBelow | src/chain.cpp:60 | clearing the lowest one makes a number smaller and keeps it even |
| Chain.InvertExact | src/chain.cpp:60 | exactly the lowest set bit is cleared |
| Chain.SkipExact | src/chain.cpp:63-71 | an even height skips its lowest set bit, an odd one the two lowest of the height below |
| Chain.SkipBelow | src/chain.cpp:63-71 | a skip leads strictly down |
| Chain.BlockIndex.constructor | src/chain.cpp:104-108 | the skip pointer is the ancestor at the skip height |
| Chain.BlockIndex.GetAncestor | src/chain.cpp:73-97 | over skip pointers it finds the block a plain walk back finds, and nothing out of range |
| Chain.Chain.SetTip | src/chain.cpp:11-21 | although it stops early, the chain holds the tip's ancestor at every height |
| Chain.Chain.ContainsIff | src/chain.h:623-625 | a block is in the chain if and only if it is the tip's ancestor at its height |
| Chain.Chain.FindFork | src/chain.cpp:51-57 | the highest block that the chain and the branch share, if any |
| Chain.Chain.GetLocator | src/chain.cpp:23-49 | the ancestors at the first eleven heights and then at distances 9 + 2^k, down to genesis; strictly descending and at most 12 + log2(height + 1) |
| Chain.Chain.LocatorLength | src/chain.cpp:23-49 | doubling steps after the tenth bound the length |
| Bech32Poly.StepLinear | src/bech32.cpp:37-94 | a step of the checksum polynomial is linear |
| Bech32Poly.StepInjective | src/bech32.cpp:37-94 | a step with nothing added takes only zero to zero |
| Bech32Poly.ReduceIsGenerator | src/bech32.cpp:45-94 | the constants are the documented generator polynomial times the powers of a in GF(32) |
| Bech32Poly.ChecksumExact | src/bech32.cpp:128-139 | six values make the remainder one if and only if they are the checksum |
| Bech32Poly.BurstDetected | src/bech32.cpp:37-94 | a change within six consecutive values changes the remainder, at any length |
| Bech32.VerifiesIff | src/bech32.cpp:118-139 | data with six more values verifies if and only if these are its checksum |
| Bech32.BurstNoticed | src/bech32.cpp:118-125 | a valid string changed within six consecutive values is not valid |
| Bech32.RoundTrip | src/bech32.cpp:147-192 | decoding undoes encoding for every allowed human-readable part, with separators inside too, up to 1023 characters |
| Bech32.Canonical | src/bech32.cpp:147-192 | whatever decodes is, but for upper case, the encoding of what it decodes to |
| Bech32.DecodeExact | src/bech32.cpp:162-192 | a string decodes to a human-readable part and values if and only if it is their encoding in letters of one case with at most 1023 characters |
| Bech32.Charset | src/bech32.cpp:13 | the character of each value |
| Bech32.ExpandAt | src/bech32.cpp:103-115 | high bits of all characters, a zero, low bits of all characters |
| Bech32Code.PolyMod | src/bech32.cpp:37-94 | the loop computes the fold of the step |
| Bech32Code.Expand | src/bech32.cpp:103-115 | the characters split into high and low bits around a zero, as the checksum wants them |
| Bech32Code.Create | src/bech32.cpp:128-139 | six values that make the whole verify |
| Bech32Code.EncodeText | src/bech32.cpp:147-159 | the encoding of the specification, empty for a value out of range |
| Bech32Code.DecodeText | src/bech32.cpp:162-192 | the decoding of the specification for every string |
| Base58Spec.DecodeEncode | src/base58.cpp:16-95 | decoding undoes encoding for every byte string |
| Base58Spec.EncodeDecode | src/base58.cpp:16-95 | encoding undoes decoding for every string of the alphabet |
| Base58Spec.Fits58 | src/base58.cpp:70-71 | 256^n is at most 58 to the buffer size, for every n |
| Base58Spec.Fits256 | src/base58.cpp:27-28 | 58^n is at most 256 to the buffer size, for every n |
| Base58Spec.NothingOut | src/base58.cpp:76-81 | when the result fits, one round carries nothing out and gives the exact number |
| Base58Spec.StrippedIs | src/base58.cpp:84-87 | a buffer without leading zeros is the shortest form of its number |
| Base58Spec.CharOfDigit | src/base58.cpp:14 | characters of the alphabet and digits correspond, and none is a space |
| Base58Spec.Alphabet | src/base58.cpp:14 | digits and letters in the order of their codes, without 0, I, O and l |
| Base58Spec.ValueFront | src/base58.cpp:29-44 | each digit weighs the base to the power of the digits behind it |
| Base58Spec.SameNumber | src/base58.cpp:62-95 | text and bytes stand for the same number, with as many ones in front as zero bytes |
| Base58Spec.SpacesAside | src/base58.cpp:19-51 | spaces around a text of the alphabet do not matter |
| Base58Spec.OnlyBetweenSpaces | src/base58.cpp:16-60 | nothing else decodes |
| Base58.MulAddInPlace | src/base58.cpp:76-80 | the reverse loop multiplies the buffer and adds, with the carry that is left |
| Base58.RoundFits | src/base58.cpp:72-83 | with the chosen buffer size the next symbol always fits |
| Base58.DigitsFromBytes | src/base58.cpp:70-83 | the buffer holds the number of the bytes; the assertion on the carry holds |
| Base58.BytesFromDigits | src/base58.cpp:27-44 | the same for decoding, or failure at the first foreign character |
| Base58.EncodeText | src/base58.cpp:62-95 | gives the encoding, and it decodes to the input |
| Base58.DecodeText | src/base58.cpp:16-60 | gives the decoding for every string, spaces and errors included |
| CoinsCodecSpec.RoundTrip | src/coins.h:157-218 | for every entry with something left, any version, height and amounts, whatever follows in the stream: reading gives the restored entry and the rest of the stream |
| CoinsCodecSpec.StoredExact | src/coins.h:157-218 | reading what was written gives the cleaned original if and only if version and height are not negative and each output is safe: its amount's code fits, its script is not overlong, a spent one is cleared |
| CoinsCodecSpec.KeptExact | src/compressor.h:106-118 | one output comes back if and only if it is safe |
| CoinsCodecSpec.SomethingLeft | src/coins.h:159-163 | the assertion in Serialize fails exactly for a fully spent entry |
| CoinsCodecSpec.CodeBack | src/coins.h:164-197 | all fields of the packed header code can be read back |
| CoinsCodecSpec.MaskBack | src/coins.h:198-208 | the availability mask, trimmed of trailing zero bytes, is read back to its last byte and no further |
| CoinsCodecSpec.BeyondMask | src/coins.cpp:21-37 | no output is left beyond the trimmed mask |
| CoinsCodecSpec.OutsBack | src/coins.h:209-214 | the outputs land at their positions |
| Amounts.DecompressCompress | src/compressor.cpp:142-185 | decompressing undoes compressing for every amount, without overflow |
| Amounts.CompressDecompress | src/compressor.cpp:142-185 | compressing undoes decompressing for every code, without overflow |
| Amounts.CompressExact | src/compressor.cpp:133-159 | the code of a number with up to eight zeros, digit by digit |
| Amounts.CompressRound | src/compressor.cpp:133-159 | the code of a number with nine zeros or more |
| Amounts.CompressFits | src/compressor.cpp:142-159 | the code is at most nine times the amount and fits 64 bits for all money amounts |
| Amounts.AmountExact | src/compressor.cpp:142-185 | with both directions modulo 2^64: a 64-bit amount comes back if and only if its code fits 64 bits |
| CoinsCodecSpec.DecompressCompressed | src/compressor.cpp:48-131 | each of the special scripts comes back from its short form |
| CoinsCodecSpec.ScriptBack | src/compressor.h:58-89 | every script comes back, an overlong one as a short unspendable one, with the stream at the right place |
| CoinsCodecSpec.VarIntBack | src/serialize.h:362-391 | a number comes back exactly when it is not negative; a negative one is cut to seven bits |
| CoinsCodecSpec.VarIntForms | src/serialize.h:325-344 | the forms of one, two and three bytes |
| CoinsCodecSpec.CompressForms | src/compressor.cpp:48-86 | numbers and contents of the short forms of the special scripts |
| CoinsCodecSpec.LowestFirst | src/coins.h:169-177 | the lowest bit of a mask byte stands for the first of its outputs |
| CoinsCodecSpec.DocumentedEntry | src/coins.h:28-53 | the bytes of the documented entry, for every key hash |
| CoinsCodec.SplitGroups | src/serialize.h:363-373 | the groups of seven bits; the buffer for them is never too short |
| CoinsCodec.WriteVarInt | src/serialize.h:362-377 | appends the variable-length form |
| CoinsCodec.ReadVarInt | src/serialize.h:379-391 | reads a number modulo the width, or fails at the end of the stream |
| CoinsCodec.CompressAmount | src/compressor.cpp:142-159 | the code modulo 2^64; its assertion holds |
| CoinsCodec.DecompressAmount | src/compressor.cpp:161-185 | the amount modulo 2^64 |
| CoinsCodec.CalcMaskSize | src/coins.cpp:21-37 | the number of mask bytes up to the last used one, and of the ones in use |
| CoinsCodec.Serialize | src/coins.h:157-184 | appends the stored form; its assertion holds for an entry with something left |
| CoinsCodec.Unserialize | src/coins.h:186-218 | for every stream, the entry of the specification, with version and height as signed numbers, or failure |
| CoinsCodec.Store | src/coins.h:157-218 | writing and reading through a stream gives the restored entry |
| CoinsCodec.CleanOuts | src/coins.h:114-120 | popping spent outputs gives the trimmed list |
| MinerSpec.TakenOnce | src/miner.cpp:511-632 | no transaction is in the block twice |
| MinerSpec.ParentsFirst | src/miner.cpp:616-631 | a parent the chain lacks comes earlier in the block |
| MinerSpec.UnderLimits | src/miner.cpp:521-608 | every beginning of the block is under the size and signature limits, and monitored pool balances are never negative |
| MinerSpec.NobodyForgotten | src/miner.cpp:511-632 | a candidate is in the block, or was turned away for a reason that held at that moment, or lacks a parent in the block |
| MinerSpec.GreedyGood | src/miner.cpp:511-632 | a greedy selection gives a block that is good: within limits, parents first, no transaction twice |
| MinerSpec.OpenIsReady | src/miner.cpp:511-632 | the queue holds exactly the candidates whose parents are in the block and that were not looked at yet |
| MinerSpec.SelectingPop | src/miner.cpp:513-519 | the entry popped is outranked by no open candidate under the ranking then in force |
| MinerSpec.BestFirst | src/miner.cpp:76-98 | under fees no open candidate pays more than the one looked at, before that none has more priority, and ties are decided by the other |
| MinerSpec.OnlyEligible | src/miner.cpp:395-440 | only final, unexpired transactions of the mempool other than coinbases are looked at, each once, with all parents there |
| MinerSpec.TakenExact | src/miner.cpp:521-597 | a candidate is taken if and only if size, signature operations, inputs, scripts and pool balances allow it and, under fees, it pays enough, is favoured, or the block is small |
| MinerSpec.RankingTurns | src/miner.cpp:538-547 | the ranking turns to fees exactly at a fitting transaction beyond the priority area or of low priority |
| MinerSpec.SizeIs | src/miner.cpp:474-608 | the space used is 1000 and the sizes of the transactions |
| MinerSpec.SproutChangeIs | src/miner.cpp:576-579 | the Sprout pool changes by what joinsplits deposit less what they withdraw |
| MinerSpec.CollectOrphan | src/miner.cpp:407-470 | a transaction that waits is registered with all its parents |
| MinerSpec.HalfEnd | src/miner.cpp:616-631 | after all children were told, each waits for exactly the parents not in the block |
| MinerSpec.ReleaseCount | src/miner.cpp:616-631 | telling a child keeps the number of queued and waiting transactions, so the loop ends |
| Miner.Collect | src/miner.cpp:395-471 | every candidate is queued or waits for exactly its missing parents; one with an unknown parent is skipped |
| Miner.Register | src/miner.cpp:411-440 | the parents to wait for, each knowing the child; or an unknown parent, and nothing registered |
| Miner.PopBest | src/miner.cpp:513-519 | takes an entry that none outranks |
| Miner.Consider | src/miner.cpp:521-597 | a candidate is taken if and only if it may follow the block and is not too cheap, and the ranking changes to fees exactly when priorities are used up |
| Miner.SproutMoved | src/miner.cpp:576-579 | the change of the Sprout balance over all joinsplits |
| Miner.Release | src/miner.cpp:616-631 | children whose last parent went in join the queue, once |
| Miner.Select | src/miner.cpp:474-632 | the looks form a greedy selection: each was at an open candidate that none outranked under the ranking then in force, taken exactly when it fit; none is left open; totals and the lists of fees and signature operations are exact |
| Miner.CoinbaseOutputs | src/miner.cpp:173-190 | the outputs add up to the subsidy and the fees, founders' share included |
| Miner.CreateNewBlock | src/miner.cpp:332-644 | the template is what an exhausted greedy selection took, a good block with every candidate accounted for; its fee entries add up to zero, and the coinbase pays out the subsidy and all fees |
| Miner.BlockSizes | src/miner.cpp:350-363 | the maximum is the argument clamped between 1000 and the limit less 1000, and the other two are their arguments clamped to it |

## Left out

- File, data base, network, RPC, command line, user interface, logging, metrics and start-up code: plumbing.
- Cryptography: hashes, signatures, proofs, key derivation and the history tree library are parameters, with injectivity assumed where a statement says so. Points of the curve are assumed to be determined by their short form.
- Memory accounting of the coins cache: it depends on the capacity of vectors.
- CoinsViewCache.CoinsViewDB.BatchWrite: the data base applies the batch at once; the layout of keys, the deletion of single nodes and compaction are not modelled.
- CoinsViewCache.CoinsViewCache.PushHistory: takes the nodes and the root that the tree library computes.
- CoinsViewCache.CoinsViewCache.PopHistory: takes the new length and root that the tree library computes.
- CoinsWorld.RunRefines: runs do what the source leaves to its callers: one tree per root, no null hashes, pops of Sprout and Sapling anchors only to a known root and never away from the root of the empty tree, PopHistory to no more than the tree has, no base entry under ModifyNewCoins, no change of a base below a live cache, and no flush of a cache that never asked for a hash its parent has. That a second modifier is never opened is not modelled.
- A CCoinsModifier is not an object of its own: ModifyCoins opens it and FinishModify is its destructor.
- Select_ and GetChance of the address manager: floating point and random retries.
- AddrMan.AddrMan.Good: draws, hashes and clocks are parameters; ids do not wrap at 32 bits.
- AddrMan.AddrMan.Check: visits the entries in any order, so which of several failures is reported is left open.
- AddrManCodec.Serialize: works on the manager's tables as values; the stream is a list of fields, not of bytes. Clear on a manager that is not new is not modelled.
- BlockMerkle.Block.GetMerkleBranch: indices that are not negative; the hashes of transactions and of pairs are parameters.
- HistoryTree.PreloadHistoryTree: takes lengths of real trees only; for other lengths the walk has no meaning.
- CheckQueueSpec.EveryRun: one master at a time, as CCheckQueueControl sees to, and fQuit stays false, as nothing sets it. Spurious wake-ups are included.
- CheckQueueSpec.WaitEnds: counts no spurious wake-ups, of which a schedule may have any number.
- Pow.GetNextWorkRequired: a block carries its median time past; the sorting that finds it is not modelled. The network's timespans are parameters.
- GetBlockProofEquivalentTime and the Equihash check.
- RollingBloom.RollingBloomFilter.constructor: sizes that the source computes from a false-positive rate with floating point are parameters.
- WeightedTxTree.WeightedTxTree.MaybeDropRandom: the random value is a parameter; the truncation to int is modelled, 64-bit wrap-around of the sums is not. The list of recently evicted transactions is left out.
- WeightedTxTree.WeightedTxTree.EnsureSizeLimit: the mempool's descendants of a transaction are a parameter; its other tables are left out.
- Chain.BlockIndex.constructor: links are fixed when a block is made, and BuildSkip is part of making it. Validity flags and chain work are left out.
- The guarantee of Bech32 for four scattered errors in short strings: it needs an exhaustive search.
- Base58Check, addresses and keys: thin layers over Base58 and Bech32.
- CoinsCodec.WriteScript: the short form is one expression instead of copies into a buffer.
- Miner.Collect: a transaction with an unknown parent has no other parent to wait for before it; otherwise the source drops an entry that a parent still points to. Priorities and fee rates are parameters.
- Miner.PopBest: finds a highest entry by a scan; the layout of the heap and the order of equals are not modelled.
- Miner.CreateNewBlock: without a coinbase given beforehand, and with a transparent miner address; whether pool balances are monitored is part of the context; header fields and the final validity test are left out.
