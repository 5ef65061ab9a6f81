# Top-Wallets: a verified model of its codecs and bookkeeping

Top-Wallets is a desktop wallet for TON. This project models, in Dafny, the parts of it
that compute rather than draw, and proves what they guarantee.

**Cells.** A cell is a bit string of at most 1023 bits with at most 4 child cells, and a
tree of cells is at most 1024 levels deep. A native store is all-or-nothing: when it does
not fit, it leaves the builder alone and answers false, and the managed `CellBuilder`
ignores the answer. A chain of stores therefore never fails but may lose data;
`Cells.NothingLostIffFits` says when. Finalizing a cell that is too deep throws.

**Dictionaries.** `SerializeDict` builds a label-compressed binary trie from a flat
dictionary (`Tries`), writes labels in the shortest of three forms (`HashmapLabels`) and
writes the trie as a tree of cells (`Hashmaps`). An independent reader follows the TL-B
rules of the TON Blockchain specification, section 3.3 (`hml_short`, `hml_long`,
`hml_same`, `hm_edge`, `hmn_leaf`, `hmn_fork`). The central theorem is that this reader,
run on the cells written, yields exactly the input dictionary if and only if no cell of the
trie overflows; `NftBatch` shows that the one caller, `BatchMint`, never overflows.

**Smaller codecs.** Snake chains of bytes (`SnakeData`), coin amounts and addresses
(`Codecs`), jetton bodies (`JettonBodies`) and the passcode container
(`PasscodeContainer`), each with its reader and the exact condition of its round trip.

**Concurrent bookkeeping.** The blocking `LiteClient.Send` (`LiteClientCalls`), the pending
message hashes of jetton wallets and their parents (`ParentChild`) and the support balloon
queue (`BalloonQueue`) are step systems over all interleavings. Their properties hold in
every run (`Runs`), and where an expectation fails, a run that breaks it is constructed.

**Maintained lists.** Pending entries matched against a batch (`WaitMatching`), newest
messages and top supports (`SupportLists`), the blocks of tokens behind their wallets
(`WalletBlocks`) and the assembly and decoding of streamed transactions
(`TransactionStream`) are classes updated in place, proved against specifications.

## What turned out to be false, and exactly when it holds

- Hashmap round trip at key length 0: `Convert.ToString(0, 2)` has one digit, so no key has
  length 0, and the cell written for key 0 reads back with that digit in front of its value
  (`Tries.PaddedKey`, `Hashmaps.ZeroWidthMisreads`). Beyond that the round trip
  holds exactly when every cell fits and the tree is not deeper than 1024.
- Coins: read back exactly below 2^119; from there on the byte count overflows its four
  bits (`Codecs.CoinsRoundTrip`).
- Addresses: workchain -1 is read back as 255 (`Codecs.AddressRoundTrip`).
- Prefixed snake text: lossless exactly up to 126 bytes; beyond, the first 127 bytes are
  silently dropped (`SnakeData.PrefixedRoundTrip`). Chains of more than 1025 cells throw.
- Batch-minted content: kept up to 127 bytes, dropped whole beyond
  (`NftBatch.ContentKeptUpTo127`).
- The set `queries` is not the set of queries in flight that were sent since it was last
  cleared. It has a query too many exactly while a query is added and not yet sent, or
  answered with handlers still running; it misses one exactly when the query was added before
  a clearing and sent after it (`LiteClientCalls.SetMatchesExpectationIff`). Both occur
  (`ReturnedButStillTracked`, `SentAfterDisconnectButNotTracked`).
- The show timer can fire on an empty queue when the hide tick tests the queue, the show
  tick takes the last message, and only then the hide tick starts the timer
  (`BalloonQueue.CarelessStartReachable`, `CarelessStartCanCrash`). It cannot when the ticks of
  the two timers never overlap (`ApartTicksNeverCrash`).
- Pending hashes of a jetton wallet under the `Parent` setter: given another parent while it
  waits, a wallet may wait forever (`ParentChild.MovedWalletWaitsForever`;
  `AttachKeepsInvIffSafe` says which moves are safe). The input is the setter itself: the one
  form that moves tokens (Complex.Ton/Forms/ChangeOwnerForm.cs:62-69) is opened for minters and
  NFT items only, and in every run in which no wallet changes its parent the invariant holds
  without further conditions (`UnmovedChildrenAreCovered`).
- The top list is not the best of all donations. Each donation of a batch is compared with the
  entry appended last, not with the lowest one: of 5, 10 and 7, oldest first, 7 is dropped
  although there is room and it is higher than 5 (`SupportLists.HigherDonationDropped`). With
  one adapter, or a positive price, a donation is listed exactly when it beats the entry the
  list ended with and exceeds every older donation of the batch in amount and time
  (`ListedIff`, with room also after sorting: `InTopListWithRoomIff`). When the last entry is
  of another adapter and the batch has no price, the first donation to beat that entry takes
  its place in this condition (`ListedIffOpened`, which assumes nothing about the entry).
- The volume of a top support is not always its amount at its own adapter's price: the last
  entry, when it is of another adapter, is repriced at the price of the batch as soon as a
  record of the batch is offered, and only then (`SupportLists.ListedEntries`).
- The passcode container returns its pair exactly for 64-byte passwords
  (`PasscodeContainer.FrameRoundTrip`).

## Assumptions about code that is not in the repository

`Dict` and the ordered `Hashtable` are sequences of entries with distinct keys in insertion
order; dictionary keys are taken after `long.Parse`. `Collection<object>` of pending
entries has no duplicates. `Array.Sort` and collection sorts give some sorted permutation.
`Util.Run` and `Application.Invoke` run their action later, the latter in order. A timer
does not overlap its own ticks. Every query gets at most one native callback, and every
query object is sent once. Access to a collection is one atomic step.

## Model

| member | source | states |
|---|---|---|
| Cells.NothingLostIffFits | tonlib/ton/crypto/vm/cells/CellBuilder.cpp:178-184 | for any chain of builder calls, what ends up in the cell is all that was asked for if and only if the total stays within 1023 bits and 4 references |
| Cells.RunFits | Complex.TonLib/TonObjects/CellBuilder.cs:37-47 | a chain whose total fits stores everything, in order |
| Cells.RunExtends | tonlib/ton/crypto/vm/cells/CellBuilder.cpp:268-276 | no chain of calls takes a cell out of bounds, changes what was there or adds more than was asked |
| Cells.RunCallStops | tonlib_win/tonlib.cpp:609-620 | a native call of several stores stops at the first that does not fit: those before it stay, none behind it is tried |
| Cells.FetchLongOfCode | tonlib_win/tonlib.cpp:729-734 | reading the width that was stored gives the value modulo 2^width and leaves the following bits and references |
| Cells.FetchBytesOfCode | tonlib_win/tonlib.cpp:752-755 | stored bytes are read back and nothing after them is consumed |
| BitStrings.CeilLog2Least | Complex.TonLib/TonObjects/SerializeDict.cs:25 | the field width is the least k with n <= 2^k |
| BitStrings.CeilLog2IsBitLength | Complex.TonLib/TonObjects/SerializeDict.cs:79 | ceil(log2(m+1)) is the number of binary digits of m, the width a (#<= m) field has in TL-B |
| BitStrings.FromToBits | tonlib/ton/crypto/vm/cells/CellBuilder.cpp:306-312 | a stored number is its value modulo 2^n, also for a negative one (two's complement) |
| Builders.CellBuilder.Native | tonlib_win/tonlib.cpp:609-633 | a native call stores its parts in order until one does not fit, and changes nothing else |
| Builders.CellBuilder.Store | Complex.TonLib/TonObjects/CellBuilder.cs:37-47 | the new content is one integer store, refused above 64 bits |
| Builders.CellBuilder.Offset | Complex.TonLib/TonObjects/CellBuilder.cs:49-57 | the loop performs the zero stores of OffsetCalls |
| Builders.OffsetContent | Complex.TonLib/TonObjects/CellBuilder.cs:49-57 | for every number of bits, Offset asks for exactly that many zeros, although it stores them 64 at a time |
| Builders.OffsetWidths | Complex.TonLib/TonObjects/CellBuilder.cs:49-57 | there is one store for every 64 bits begun, and all but the last are 64 bits wide |
| Builders.CellBuilder.StoreCoins | Complex.TonLib/TonObjects/CellBuilder.cs:64-70 | the new content is the amount's stores: four zero bits, or byte count and bytes |
| Builders.CellBuilder.StoreAddress | Complex.TonLib/TonObjects/CellBuilder.cs:178-182 | the new content is the address call: two zero bits, or flag, anycast bit, workchain and hash |
| Builders.CellBuilder.StoreDict | Complex.TonLib/TonObjects/CellBuilder.cs:80-86 | a presence bit and, with it, the root reference |
| Builders.CellBuilder.StoreAll | Complex.TonLib/TonObjects/SerializeDict.cs:114-117 | the serializer callback of a leaf performs its stores one after the other |
| Builders.CellBuilder.End | tonlib/ton/crypto/vm/cells/DataCell.cpp:264-269 | a cell is finalized as it stands, and exactly a tree deeper than 1024 throws |
| HashmapLabels.IsSame | Complex.TonLib/TonObjects/SerializeDict.cs:33-41 | true exactly for labels without two different bits, the empty one included |
| HashmapLabels.DetectLabelType | Complex.TonLib/TonObjects/SerializeDict.cs:42-62 | with k the field width and l the label length: same iff uniform, l > 1 and k < 2l-1; otherwise long iff k < l; otherwise short |
| HashmapLabels.KindIsShortest | Complex.TonLib/TonObjects/SerializeDict.cs:42-62 | the chosen kind applies, no applicable kind is shorter, of equally short ones short goes before long and long before same, and an empty label is never "same" |
| HashmapLabels.LabelContent | Complex.TonLib/TonObjects/SerializeDict.cs:18-31 | the bits the label writer asks for are the HmLabel form, of exactly the predicted length |
| HashmapLabels.WriteLabelShort | Complex.TonLib/TonObjects/SerializeDict.cs:64-73 | the loops write 0, l ones, 0 and the label, bit by bit |
| HashmapLabels.WriteLabelLong | Complex.TonLib/TonObjects/SerializeDict.cs:75-84 | writes 10, the length field and the label |
| HashmapLabels.WriteLabelSame | Complex.TonLib/TonObjects/SerializeDict.cs:86-93 | writes 11, the bit and the length field |
| HashmapLabels.WriteLabel | Complex.TonLib/TonObjects/SerializeDict.cs:94-110 | the chosen form is written |
| HashmapLabels.LabelRoundTrip | Complex.TonLib/TonObjects/SerializeDict.cs:64-110 | for every label of length l <= m and any following bits, the reader recovers the label and leaves the following bits untouched |
| HashmapLabels.LabelBound | Complex.TonLib/TonObjects/SerializeDict.cs:18-31 | a label takes at most l + 2 + ceil(log2(m+1)) bits |
| HashmapLabels.TruncatedLabelUnreadable | Complex.TonLib/TonObjects/SerializeDict.cs:75-84 | a label cut off by the cell limit is not readable |
| Tries.FindCommonPrefix | Complex.TonLib/TonObjects/SerializeDict.cs:134-150 | comparing only the first and last of the sorted array gives the longest common prefix of all keys: every key has it, and either it is every key or both bits follow it |
| Tries.PrefixOfSorted | Complex.TonLib/TonObjects/SerializeDict.cs:141-149 | what the ends of a sorted list of equally long keys share is shared by all and cannot be extended |
| Tries.RemovePrefixMap | Complex.TonLib/TonObjects/SerializeDict.cs:152-166 | every entry keeps its place and value and loses exactly the given number of key bits |
| Tries.ForkMap | Complex.TonLib/TonObjects/SerializeDict.cs:168-189 | the entries are split by first bit, and each "Internal inconsistency" exception is thrown exactly when its side is empty |
| Tries.SideMembers | Complex.TonLib/TonObjects/SerializeDict.cs:176-183 | a side holds (k, v) exactly when the dictionary holds (bit + k, v); key length drops by one |
| Tries.BuildEdge | Complex.TonLib/TonObjects/SerializeDict.cs:191-196 | on distinct keys of one length it terminates and fails only for the empty dictionary; the trie is well formed and finds v at k exactly when the dictionary maps k to v |
| Tries.BuildNode | Complex.TonLib/TonObjects/SerializeDict.cs:198-208 | the same for a node, once no bit is common to all keys; no inconsistency is reachable |
| Tries.RestIsReady | Complex.TonLib/TonObjects/SerializeDict.cs:191-208 | after removing the common prefix, keys are distinct, shorter, and with two or more entries both fork sides are taken |
| Tries.TrieUnique | Complex.TonLib/TonObjects/SerializeDict.cs:191-208 | a well-formed trie is determined by its lookups |
| Tries.InsertionOrderIrrelevant | Complex.TonLib/TonObjects/SerializeDict.cs:217-227 | integer dictionaries with the same entries in different order give the same trie |
| Tries.DepthBound | Complex.TonLib/TonObjects/SerializeDict.cs:198-208 | with n-bit keys there are at most n forks on any path |
| Tries.Pad | Complex.TonLib/TonObjects/SerializeDict.cs:210-215 | zeros are put in front up to the wanted length, and a longer string is left alone |
| Tries.PaddedKey | Complex.TonLib/TonObjects/SerializeDict.cs:217-225 | the padded key has n bits if and only if n >= 1 and the key is in 0..2^n-1, or it is negative and n >= 64; then it is the n-bit code of the key |
| Tries.PaddedReadsBack | Complex.TonLib/TonObjects/SerializeDict.cs:222-224 | read as a number, the bits of a fitting key give the key again, or its 64-bit pattern when it is negative |
| Tries.PaddedInjective | Complex.TonLib/TonObjects/SerializeDict.cs:217-225 | different fitting keys stay different |
| Tries.BuildTree | Complex.TonLib/TonObjects/SerializeDict.cs:217-227 | following the n-bit code of a key's 64-bit pattern finds exactly what the dictionary holds for the key, and no other bits find anything |
| Hashmaps.WriteNode | Complex.TonLib/TonObjects/SerializeDict.cs:112-127 | a leaf's stores, or two child cells written with one key bit less and referenced left then right |
| Hashmaps.WriteEdge | Complex.TonLib/TonObjects/SerializeDict.cs:128-132 | label for the remaining length, then node for what the label leaves |
| Hashmaps.WriteEdgeCell | Complex.TonLib/TonObjects/SerializeDict.cs:120-123 | writing and ending a cell succeeds exactly when the finished tree is at most 1024 deep |
| Hashmaps.TrieRoundTrip | Complex.TonLib/TonObjects/SerializeDict.cs:112-132 | the TL-B reader, run on the written cells, rebuilds the same trie with every value's payload if and only if every cell fits |
| Hashmaps.HashmapRoundTrip | Complex.TonLib/TonObjects/SerializeDict.cs:10-16 | the entries read are exactly the dictionary's, no key lost, added or changed, if and only if every cell fits |
| Hashmaps.ReadsBackInNumbers | Complex.TonLib/TonObjects/SerializeDict.cs:10-16 | in numbers: each key read is, modulo 2^64, the key of an entry with that payload, and every entry is read |
| Hashmaps.Serialize | Complex.TonLib/TonObjects/SerializeDict.cs:10-16 | the method as a whole: it fails exactly for the empty dictionary or a too deep tree, and otherwise reads back exactly the input if and only if every cell fits |
| Hashmaps.ZeroWidthMisreads | Complex.TonLib/TonObjects/SerializeDict.cs:210-227 | with key length 0 the cell written for key 0, whole as it may be, reads back as a map in which the key's digit stands in front of the value, and so never as the dictionary |
| Hashmaps.EntriesDetermineTrie | Complex.TonLib/TonObjects/SerializeDict.cs:128-132 | tries with the same set of entries are equal, so the map read determines the cells' trie |
| Hashmaps.OverlongLabelUnreadable | Complex.TonLib/TonObjects/SerializeDict.cs:75-84 | an edge whose label overflows its cell cannot be read at all |
| Hashmaps.BudgetSuffices | Complex.TonLib/TonObjects/SerializeDict.cs:18-132 | if every value leaves n + 2 + ceil(log2(n+1)) bits and has at most 4 references, no store is dropped anywhere |
| Hashmaps.CellDepthBound | Complex.TonLib/TonObjects/SerializeDict.cs:112-132 | the cells are at most as deep as the trie's forks and the deepest payload together |
| NftBatch.BatchMint | Complex.TonLib/Contracts/NftController.cs:195-213 | for distinct indices it fails only without items; operation and query id decode, and the dictionary cell reads back exactly the items, each under the 64-bit code of its index |
| NftBatch.EveryCellFits | Complex.TonLib/Contracts/NftController.cs:201-207 | with 64-bit keys every cell of the batch dictionary stays within bounds, with at most 64 forks and depth 66, so no store is dropped |
| NftBatch.ItemAmountReads | Complex.TonLib/Contracts/NftController.cs:206 | an item's amount is read back from its payload exactly below 2^119 |
| NftBatch.ItemMessageWhole | Complex.TonLib/Contracts/NftController.cs:205 | the item message is the owner's address and the content cell |
| NftBatch.ContentKeptUpTo127 | Complex.TonLib/Contracts/NftController.cs:204 | the content cell keeps its bytes exactly up to 127, and none beyond |
| Codecs.CoinsRoundTrip | Complex.TonLib/TonObjects/CellBuilder.cs:64-70 | for every 128-bit amount, reading the stored bits gives the amount and leaves the rest if and only if it is below 2^119 |
| Codecs.ByteCountLeast | tonlib_win/tonlib.cpp:1013-1020 | the byte count written is the least whose bytes leave the sign bit clear |
| Codecs.CountedRead | Complex.TonLib/TonObjects/Slice.cs:152-164 | for every byte count and whatever follows: up to eight bytes an unsigned number, or 0 without moving on when cut off; beyond, the number, 0 when its sign bit is set, and a crash when cut off |
| Codecs.BytesLeaveSignBit | tonlib_win/tonlib.cpp:1013-1020 | the exported bytes are the amount in big-endian form with the top bit clear |
| Codecs.NumberRead | Complex.TonLib/TonObjects/Slice.cs:152-159 | the unsigned and the signed big-integer path both recover a number whose sign bit is clear |
| Codecs.CoinsSize | Complex.TonLib/TonObjects/CellBuilder.cs:64-70 | an amount below 2^119 takes at most 124 bits |
| Codecs.AddressRoundTrip | Complex.TonLib/TonObjects/Slice.cs:176-185 | exactly the address bits are consumed, and the address comes back if and only if there is none or its workchain is not negative |
| Codecs.AddressLayout | tonlib_win/tonlib.cpp:609-620 | 00 for no address, else 10, no anycast, eight bits of workchain and the hash |
| Slices.Slice.LoadLong | Complex.TonLib/TonObjects/Slice.cs:61-64 | the cursor moves past the bits read; a short slice reads 0 and stays |
| Slices.Slice.LoadBytes | Complex.TonLib/TonObjects/Slice.cs:30-33 | the bytes at the cursor; a short slice reads zeros and stays |
| Slices.Slice.LoadCoins | Complex.TonLib/TonObjects/Slice.cs:152-164 | value and cursor agree with the coin reader, including the native crash on a cut-off big integer |
| Slices.Slice.LoadAddress | Complex.TonLib/TonObjects/Slice.cs:176-185 | address and cursor agree with the address reader |
| SnakeData.StoreBuffer | Complex.TonLib/TonObjects/CellBuilder.cs:127-149 | the loop from the last chunk to the first builds the chain Root, and throws exactly when it has more than 1025 cells |
| SnakeData.SnakeRoundTrip | Complex.TonLib/TonObjects/CellBuilder.cs:127-149 | the unprefixed chain has len/127 + 1 cells of at most 127 bytes and one reference, and reading it gives the same bytes (null for none) |
| SnakeData.PrefixedRoot | Complex.TonLib/TonObjects/CellBuilder.cs:135-139 | behind a format byte a full chunk no longer fits and is dropped; the reference stays |
| SnakeData.PrefixedRoundTrip | Complex.TonLib/Contracts/JettonController.cs:115-131 | writing in snake format and LoadText are lossless if and only if there are at most 126 bytes; beyond, exactly the first 127 bytes are missing |
| SnakeData.LoadString | Complex.TonLib/TonObjects/Slice.cs:50-59 | the recursion over references returns the bytes of the whole chain, with C#'s treatment of null |
| SnakeData.LoadText | Complex.TonLib/Contracts/JettonController.cs:122-131 | text only behind the format byte 0: any other format gives null, and a slice of less than a byte is read as a chain |
| JettonBodies.TransferDecodes | Complex.TonLib/Contracts/JettonController.cs:233-245 | for every query id, addresses and 128-bit amount the body decodes to its operation and query id, and to its amount and remaining layout if and only if the amount is below 2^119 |
| JettonBodies.TransferRestDecodes | Complex.TonLib/Contracts/JettonController.cs:239-241 | behind the amount come both addresses, then the flag, fee and flag |
| JettonBodies.TransferFeeDecodes | Complex.TonLib/Contracts/JettonController.cs:242-243 | the forward fee reads back and leaves the payload flag |
| JettonBodies.WriteTransfer | Complex.TonLib/Contracts/JettonController.cs:233-245 | the chain of builder calls yields the transfer body and never throws |
| JettonBodies.LoadBody | Complex.TonLib/Queries/GetTransactionsQuery.cs:66-104 | the slice calls give what the body decoder gives, and leave the slice behind the amount |
| JettonBodies.TransferThroughObjects | Complex.TonLib/Contracts/JettonController.cs:233-245 | a transfer written by builder calls and read by slice calls gives back operation and query id always, the amount below 2^119, and then each address exactly if its workchain is not negative |
| JettonBodies.BurnDecodes | Complex.TonLib/Contracts/JettonController.cs:222-231 | the same for burn, with the response address behind the amount |
| JettonBodies.InternalDecodes | Complex.TonLib/Contracts/JettonController.cs:198-209 | the same for the internal transfer, with the owner twice and the gas behind the amount |
| JettonBodies.MintDecodes | Complex.TonLib/Contracts/JettonController.cs:211-220 | operation 21 and query id 0 outside; owner, gas and the untouched internal transfer follow |
| JettonBodies.ChangesDecode | Complex.TonLib/Contracts/JettonController.cs:247-263 | operation, query id and the new owner or content come back |
| LiteClientCalls.StepKeepsInv | Complex.TonLib/LiteClient.cs:71-138 | every step of callers, callbacks, disconnect, start and shutdown keeps the protocol invariant |
| LiteClientCalls.SendReturnsOwnResult | Complex.TonLib/LiteClient.cs:96-111 | in every run a returned Send gave 0 when there was no native handle and nothing was sent, or what a callback of its own query brought: the result, or -1 for an error or a disposed client |
| LiteClientCalls.NothingSentBeforeStart | Complex.TonLib/LiteClient.cs:100-101 | in every run without a start, every Send that returns gives 0 |
| LiteClientCalls.NoHandleAfterStop | Complex.TonLib/LiteClient.cs:113-138 | in every run, a stop takes the native handle away until the next start, and for good when the client is disposed |
| LiteClientCalls.DisposedClientRefuses | Complex.TonLib/LiteClient.cs:85-87 | in every run after a disposal a new query is answered with -1, never sent and never tracked |
| LiteClientCalls.EventReleasesOnlyItsCaller | Complex.TonLib/LiteClient.cs:102-105 | in every run a waiting caller can go on exactly when its own query's handler has set the event; no other query can set it meanwhile |
| LiteClientCalls.SendIsExclusive | Complex.TonLib/LiteClient.cs:98-110 | at most one thread is inside Send, and the client is not started meanwhile |
| LiteClientCalls.QueriesAreThePendingOnes | Complex.TonLib/LiteClient.cs:83-94 | in every run the set holds exactly the queries added since it was last cleared whose handlers have not finished |
| LiteClientCalls.EpochCountsClearings | Complex.TonLib/LiteClient.cs:71-80 | the set is cleared once by every disconnect and every stop, and by nothing else |
| LiteClientCalls.SetMatchesExpectationIff | Complex.TonLib/LiteClient.cs:71-94 | in every run, for every query: the set holds a query that is not in flight since the last clearing exactly between adding and sending or between answer and last handler, and misses one that is exactly if a clearing fell between adding and sending it |
| LiteClientCalls.SentAfterDisconnectButNotTracked | Complex.TonLib/LiteClient.cs:71-93 | a run in which a query sent after a disconnect is in flight but not in the set |
| LiteClientCalls.ReturnedButStillTracked | Complex.TonLib/LiteClient.cs:91-109 | a run in which Send has returned and its query is still in the set |
| BalloonQueue.NoLostWakeUp | Top-Wallets/TotalPanel.Support.cs:69-108 | in every interleaving a waiting message implies a running timer, a tick in progress or a queued show |
| BalloonQueue.ShownInArrivalOrder | Top-Wallets/TotalPanel.Support.cs:74-95 | in every interleaving the shown messages are a prefix of the arrivals, in order and each once, and nothing is lost on the way |
| BalloonQueue.QuietMeansAllShown | Top-Wallets/TotalPanel.Support.cs:69-108 | in every run, once no timer is running, no tick in progress and no show queued, every message that arrived has been shown |
| BalloonQueue.TimersFireOncePerStart | Top-Wallets/TotalPanel.Support.cs:71-108 | the show timer fires at most once for each start, by the hide tick or by an arrival at the empty queue, and the hide timer at most once for each balloon shown |
| BalloonQueue.CarefulRunsNeverCrash | Top-Wallets/TotalPanel.Support.cs:69-108 | if every restart by the hide tick leaves a message to show, the show timer never fires on an empty queue |
| BalloonQueue.ApartTicksNeverCrash | Top-Wallets/TotalPanel.Support.cs:69-108 | when the ticks of the two timers never overlap, the show timer never fires on an empty queue |
| BalloonQueue.CarelessStartCanCrash | Top-Wallets/TotalPanel.Support.cs:101-108 | any other restart can be continued, without further arrivals, to a tick on the empty queue |
| BalloonQueue.CarelessStartReachable | Top-Wallets/TotalPanel.Support.cs:69-108 | such a restart is reachable |
| SupportLists.SupportContainer.TransactionsNew | Top-Wallets/TotalPanel.Support.cs:227-325 | both lists are the best of old and accepted entries within their limits, and Valid holds again; messages are ordered newest first, every young and large enough record of the batch has entered the history and nothing else has, and whatever the history holds and the list does not is no newer than anything in the full list; top supports are ordered by volume, then time |
| SupportLists.SupportContainer.Offer | Top-Wallets/TotalPanel.Support.cs:250-304 | one transaction's effect on both lists before sorting |
| SupportLists.SupportContainer.OfferAll | Top-Wallets/TotalPanel.Support.cs:248-305 | the backward loop over the batch accumulates the effects of all its transactions |
| SupportLists.SupportContainer.ReviseTops | Top-Wallets/TotalPanel.Support.cs:234-245 | exactly the supports that have not aged are left, in order, each at its own adapter's price |
| SupportLists.SortAndTruncate | Top-Wallets/TotalPanel.Support.cs:307-318 | sorted, limited, and nothing dropped ranks above anything kept, whatever the order of equals |
| SupportLists.BatchKeepsNewest | Top-Wallets/TotalPanel.Support.cs:260-309 | one batch preserves the newest-K property over everything accepted so far |
| SupportLists.AcceptedAllRecords | Top-Wallets/TotalPanel.Support.cs:251-260 | after a batch, every record that is young and large enough, or any young one in debug mode, has its id in the list |
| SupportLists.AcceptedOnlyRecords | Top-Wallets/TotalPanel.Support.cs:251-260 | every message that was not there before is such a record, with its id and time |
| SupportLists.RevaluedMembers | Top-Wallets/TotalPanel.Support.cs:234-245 | exactly the supports that have not aged are left, each at its own adapter's last price |
| SupportLists.RevaluedAppend | Top-Wallets/TotalPanel.Support.cs:234-245 | revaluing goes entry by entry and keeps the order |
| SupportLists.ListedEntries | Top-Wallets/TotalPanel.Support.cs:276-303 | new entries carry the id, amount, time and volume of a qualifying record; old ones are unchanged, except that the last one is repriced exactly when it is of another adapter and a record is offered |
| SupportLists.ListedDistinct | Top-Wallets/TotalPanel.Support.cs:276-303 | no batch brings a second entry with the same id into the top list |
| SupportLists.ListedIff | Top-Wallets/TotalPanel.Support.cs:247-303 | for every batch and every donation it offers, with a last entry of the same adapter or a positive price: the donation is listed if and only if it beats that entry and exceeds, in amount and then time, every older offered donation of the batch |
| SupportLists.ListedIffOpened | Top-Wallets/TotalPanel.Support.cs:286-296 | the same whatever the last entry and the price: listed if and only if it is the first donation to beat the last entry, or comes after that one and exceeds every donation since |
| SupportLists.BeatsIsExceeds | Top-Wallets/TotalPanel.Support.cs:281-296 | comparing volumes with an entry of another adapter is comparing amounts, because both are taken at the batch's own price |
| SupportLists.InTopListWithRoomIff | Top-Wallets/TotalPanel.Support.cs:247-318 | with room for all, sorting and truncating change nothing: the top list after the call holds a donation of the batch under exactly that condition |
| SupportLists.HigherDonationDropped | Top-Wallets/TotalPanel.Support.cs:247-318 | donations of 5, 10 and 7 to an empty list with room leave 5 and 10, although 7 ranks above 5 |
| WaitMatching.Wallet.CheckDetail | Complex.Ton/TonUnknownWallet.cs:172-187 | removes exactly the entry of a positive query id, and then raises exactly one completion |
| WaitMatching.Wallet.CheckQueryIdTransaction | Complex.Ton/TonUnknownWallet.cs:188-200 | over all details: exactly the waiting query ids among them go, each completed once |
| WaitMatching.Wallet.MatchTransaction | Complex.Ton/TonWallet.cs:90-104 | the loop over the stale snapshot removes exactly the matched entries and completes each once |
| WaitMatching.Wallet.UpdateMain | Complex.Ton/TonWallet.cs:82-110 | on a latest page exactly the entries stay, in order, whose hash, or whose positive query id, occurs in no transaction of the batch; each other one is completed once, with its first matching transaction; otherwise nothing changes |
| WaitMatching.Wallet.UpdateToken | Complex.Ton/TokenWallet.cs:163-175 | the same for a token wallet, which looks at query ids only |
| WaitMatching.OneEachStep | Complex.Ton/TonWallet.cs:86-108 | one more transaction keeps "one completion per removed entry, with its first match" |
| WaitMatching.EarlyBreak | Complex.Ton/TonWallet.cs:105-106 | leaving the loop when nothing is pending changes no outcome |
| ParentChild.ChildEntriesAreCovered | Complex.Ton/JettonWallet.cs:38-47 | in every run with safe moves, a hash pending in a jetton wallet is being entered in its parent, pending there, or completed there with the delivery under way |
| ParentChild.RunsWithoutMovesAreSafe | Complex.Ton/TokenWallet.cs:50-62 | every run in which no wallet that has a parent is given a different one has only safe attachments |
| ParentChild.UnmovedChildrenAreCovered | Complex.Ton/JettonWallet.cs:38-47 | in every such run, with no condition on its states, each hash pending in a jetton wallet is being entered in its parent, pending there, or completed there with the delivery under way |
| ParentChild.QuietChildrenMirrorParents | Complex.Ton/TokenWallet.cs:86-89 | with nothing in flight, what a jetton wallet waits for its parent waits for |
| ParentChild.DeliveryClearsChildren | Complex.Ton/JettonWallet.cs:103-111 | after a completion is delivered, in every continuation that does not add the hash again, no wallet that was subscribed to its sender waits for it |
| ParentChild.EntryLeavesByDeliveryOnly | Complex.Ton/JettonWallet.cs:103-111 | over every run in which a wallet keeps its parent, an entry leaves the wallet if and only if the parent's completion of that hash is delivered |
| ParentChild.ParentEntryLeavesByMatchOnly | Complex.Ton/TonWallet.cs:86-104 | over every run that does not enter it again, an entry leaves the parent if and only if a batch matches it |
| ParentChild.CompletionsNeedEntries | Complex.Ton/TonWallet.cs:96-101 | over every run, the completions of a hash delivered and still due are no more than the times it was entered: none is raised twice |
| ParentChild.AttachKeepsInvIffSafe | Complex.Ton/TokenWallet.cs:50-62 | moving a wallet to a parent preserves the invariant if and only if each of its hashes is covered there |
| ParentChild.StepKeepsInv | Complex.Ton/JettonWallet.cs:38-47 | every step keeps the invariant, a move only when safe |
| ParentChild.MovedWalletWaitsForever | Complex.Ton/TokenWallet.cs:50-62 | a run with an unsafe move after which, in every continuation that does not enter the hash anew or move the wallet again, the hash stays pending in the wallet, although its completion was delivered |
| WalletBlocks.WalletsContent.CreateWalletItem | Top-Wallets/WalletsContent.cs:209-240 | a new token goes right behind its parent's block when the parent is listed, anything else to the end, in both collections; the new wallet gets the new component and every other wallet keeps its own; all tracked tokens stay in their blocks |
| WalletBlocks.WalletsContent.EndOfBlock | Top-Wallets/WalletsContent.cs:220-230 | the scan stops at the first item that is not a token of this parent |
| WalletBlocks.WalletsContent.WalletsAdded | Top-Wallets/WalletsContent.cs:152-156 | only main wallets are listed, every wallet keeps its component, and a token added beside its parent is tracked from then on |
| WalletBlocks.WalletsContent.WalletsRemoved | Top-Wallets/WalletsContent.cs:129-150 | exactly the wallet leaves, from both collections at the same place; every other wallet keeps its component, and other tracked tokens stay in their blocks |
| WalletBlocks.InsertKeepsBlock | Top-Wallets/WalletsContent.cs:220-233 | no insertion this code makes breaks another token's block |
| WalletBlocks.RemoveKeepsBlock | Top-Wallets/WalletsContent.cs:133-137 | removing a third wallet leaves a token in its block |
| TransactionStream.GetTransactionsQuery.OnAddTransaction | Complex.TonLib/Queries/GetTransactionsQuery.cs:138-160 | appends the record to what is assembled, skips foreign ones, and throws exactly for a message before any transaction |
| TransactionStream.GetTransactionsQuery.OnResult | Complex.TonLib/Queries/GetTransactionsQuery.cs:162-180 | closes the last transaction without losing a record |
| TransactionStream.GetTransactionsQuery.Receive | Complex.TonLib/Queries/GetTransactionsQuery.cs:138-180 | a stream is assembled if and only if its first relevant record is a transaction; flattening gives the stream back in order |
| TransactionStream.GetTransactions | Complex.TonLib/Queries/GetTransactionsQuery.cs:38-136 | null exactly when end-loaded or empty; otherwise one entry per transaction, in order, with the details of every message as the table of operations says and the group kind of the last message that decides it; or an exception exactly when some amount of the table is cut off |
| TransactionStream.DecodeTransaction | Complex.TonLib/Queries/GetTransactionsQuery.cs:48-133 | the details are one Toncoin detail per message, each with at most one jetton detail right before it; a single entry exactly for a single detail |
| TransactionStream.AllDecodedExactly | Complex.TonLib/Queries/GetTransactionsQuery.cs:53-125 | for all messages: a jetton detail, with the amount, kind and direction of its row, precedes the Toncoin detail exactly for a message of the table at a known address; the Toncoin detail has the operation and query id of the body; the last message that decides gives the group kind |
| TransactionStream.DecodedOnePerMessage | Complex.TonLib/Queries/GetTransactionsQuery.cs:53-125 | every Toncoin detail carries the address, value, direction and text of its own message |
| TransactionStream.OneTonDetailEach | Complex.TonLib/Queries/GetTransactionsQuery.cs:120-123 | there are exactly as many Toncoin details as messages |
| TransactionStream.SentTransferShown | Complex.TonLib/Queries/GetTransactionsQuery.cs:61-123 | a transfer built by JettonController is shown with the amount and the query id written in it |
| TransactionStream.SentBurnShown | Complex.TonLib/Queries/GetTransactionsQuery.cs:61-123 | the same for a burn |
| PasscodeContainer.Encrypt | Complex.TonLib/TonObjects/Crypto.cs:41-59 | padding count, 'o', 'k', password, secret and as many random bytes as counted, 0..15, with a length divisible by 16 |
| PasscodeContainer.SetPasscode | Complex.TonLib/TonObjects/Crypto.cs:8-18 | the given array is enciphered in place under the derived key and iv |
| PasscodeContainer.Decrypt | Complex.TonLib/TonObjects/Crypto.cs:20-39 | null exactly when the deciphered bytes lack the tag, an exception exactly when something is out of range, and otherwise a 64-byte password and a secret that fill what is between tag and padding |
| PasscodeContainer.FrameRoundTrip | Complex.TonLib/TonObjects/Crypto.cs:29-58 | the framed pair comes back if and only if the password has 64 bytes |
| PasscodeContainer.RoundTrip | Complex.TonLib/TonObjects/Crypto.cs:8-59 | Encrypt, SetPasscode and Decrypt compose to the identity exactly for 64-byte passwords, whatever the secret, passcode, salt and noise |

## Left out

- LiteClientCalls, ParentChild, BalloonQueue: modelled on values, one atomic step per event, because their properties range over interleavings; update in place of the objects is not captured.
- LiteClientCalls: `Connect` and `connectedEvent` are not followed, the ten-second wait of `Stop` becomes a stop at any time, and liveness (an answer that never comes) is not stated.
- SupportLists.SupportContainer.Offer: does not choose which new messages are queued for the balloon (`lastViewTransactions`, first start); BalloonQueue takes arrivals as given.
- SupportLists.SupportContainer.TransactionsNew: one clock value serves the whole call, and a listed adapter without a market counts at price 0 instead of raising a null reference.
- SupportLists.SupportContainer.constructor: takes saved lists that are already sorted, distinct and within the limits, as an earlier session leaves them; limits lowered between sessions and the debugger's clean-up of the lists are not modelled.
- SupportLists.ListedIff: a transaction is taken to occur once in a batch.
- ParentChild.ChildEntriesAreCovered: jetton wallets without a parent cannot send (sending uses the parent's address) and are not followed; query ids are left to WaitMatching.
- WaitMatching.Wallet.UpdateMain: entries added by other threads during the call are not modelled.
- HashmapLabels.DetectLabelType: `Math.Log(x, 2)` is the exact logarithm; rounding of the floating-point quotient is not modelled.
- Tries.FindCommonPrefix: keys of different length, on which the source indexes out of range, are excluded; string order is bitwise order.
- Tries.BuildTree: `long.Parse` of the key text, and two texts of one number.
- SnakeData.LoadString: bytes, not text; UTF-8 decoding cell by cell is left out.
- JettonBodies: address text parsing, and the native dictionary of on-chain metadata (foreign code).
- TransactionStream: BoC decoding, looking up jetton information (a given set of known addresses) and marshalling.
- PasscodeContainer: strength of the cipher; a wrong passcode may pass the two-byte tag check by chance.
- The remaining NFT bodies and off-chain metadata repeat the same layouts and would add easy members only.
- User interface, HTTP clients, program start-up, persistence, prices and formatting.
