# Verified models of a dictionary, a stack allocator and a hash

This project models three self-contained components of the ports collection and
proves that they do what they are for.

**Darts-clone** (`textproc/mecab-base/files/darts.h`) compiles a sorted list of
byte-string keys into one array of 32-bit units and answers exact, prefix and
step-by-step queries from it. Keys without values are turned into a trie; keys
with values first go through an incremental minimal word graph (DAWG) whose
shared states may share their children in the array. The model keeps the classes
of the source: `DawgBuilder` (nodes, frozen units, hash table, node stack,
recycle bin), `DoubleArrayBuilder` (units, the sliding window of 4096 records
with its circular free list, the table of shared offsets), `BitVector` and
`DoubleArray`. A dictionary means a finite map from keys to values (`Dict`), and
`After(d, c)` is what is left of it after the byte c. The central chain is: what
`Insert` accepts is a map (`DawgBuilder.Contents`); `Finish` freezes a graph
whose root state means that map, in which no two states mean the same and exactly
the states that two strings lead to are marked as shared; placement gives every state or trie node an offset that nothing else uses, and
gives the units left over labels that cannot be mistaken; so the array
`Represents` the map, and the three searches answer from the map alone.

**GNU obstack** (`sysutils/anacron/files/obstack.c` and `obstack.h`) grows an
object at the end of the current chunk, moves it to a larger chunk when it does
not fit, and gives objects back in stack order by comparing addresses. The
address space is an array of bytes, chunks are disjoint address ranges with
their `limit` and `prev` fields, and a `Picture` of the obstack says where
finished objects are and what bytes they hold. Every routine is proved to take
one picture to the next, every picture keeps finished objects, and a ledger ties
the chain of chunks to what was obtained and not returned. Pointers are taken to
be 8 bytes, `int` 4 bytes, and the alignment of `double` 8 bytes, so a chunk's
contents begin 16 bytes after its address.

**SHA-1** (`archivers/ota/files/sha1.c`) hashes a message given in pieces.
`Sha1Standard` is the function of FIPS PUB 180-1 (sections 4 and 7), the class
`SHA1Context` is the streaming implementation, and `Sha1Runs` says what a context
answers over whole runs of calls.

## How the files fit together

- Bits and words: `Bitwise`, `UnitWords`, `BitVectors`.
- Maps and keysets: `Dictionary`, `Keysets`, `KeysetRanges`, `KeyWeights`, `Reports`,
  `KeysetMeanings` (what the terms of these files say in bytes and values).
- The word graph: `DawgLevels` (the path of the last key above frozen states),
  `DawgWalks` (following a key along that path), `DawgPaths` (its nodes, stack and
  recycle bin), `DawgGraphs` (frozen states, hashing, minimality), `DawgTables` (open
  addressing), `DawgStores` (the table of states, and when probing ends), `DawgSharing`
  (which states are marked as shared), `DawgRuns` (the builder as a function, which says
  when a call returns), `DawgBuilder`.
- Whole builds of the word graph: `GraphRuns`, `GraphRooms` (builds that return),
  `GraphHangs` (one that does not).
- The double array: `FreeList`, `Layout`, `Blocks`, `BuilderState`, `DawgStates`,
  `DoubleArrayBuilder`, `DoubleArraySearch`, `Darts`.
- The obstack: `ObstackPictures`, `ObstackRuns`, `ObstackLedgers`, `Obstack`.
- The hash: `Sha1Standard`, `Sha1Examples` (what its constants and functions mean, and the
  digests of the appendices of FIPS PUB 180-1), `Sha1Runs`, `Sha1`.

## Results that differ from what the code or its documentation says

- `traverse` is documented to return -2 when a byte cannot be followed. For the
  empty dictionary it does not: the root claims offset 1 without marking it used,
  the filler units are labelled for that very offset, and every one-byte string
  but "\1" is followed. `Darts.EmptyDictionaryWalks` shows it for the exact array that the
  build produces, and `Darts.TraverseExact` proves that it is the only exception.
- The first loop of `insert` reads the byte after the end of a key (line 1127 of
  `darts.h`), which explicit lengths leave open. A `Keyset` therefore holds that byte
  for every key. If the last key goes on from the new one, with a byte that is not
  larger than the byte after the new one, the new key is out of order and that is not
  reported: at equal bytes it is dropped, and otherwise it is stored behind the last
  one (`DawgWalks.PrefixSlips`, for "ab" after "abd"). `DawgWalks.FollowingMatters` and
  `Reports.SlipsMatter` prove that the report differs from the one for a zero byte in
  exactly this case. Keysets with dropped keys are built (`GraphRooms.KeyDropped`): the
  dictionary is that of the other keys, and what is accepted is well formed exactly if no
  key is dropped (`Reports.AcceptedForms`).
- If the last key is given again in front of a byte that is not zero, the new value
  replaces the old one (`GraphRooms.LastPairStored`: 9 and not 7 for the second "ab"),
  although only the first of several pairs with a key is documented to be stored
  (lines 216-217). `Reports.FirstPairs` proves that the first values are stored exactly
  if the last pair taken for each key has the value of the first (`Reports.FirstKept`),
  and `GraphRooms.ZeroTerminated` that a zero byte after every key is enough.
- Each key that replaces a value leaves a stray behind, a unit labelled 0 inside a state,
  which expand_table takes for a state of its own. Strays are not counted when the
  table is to be expanded, so they can fill it, and then find_node does not return although
  the keys are well formed: `GraphHangs.CrowdedHangs` gives 515 copies of one key, a chain
  of 1534 or more bytes, and one more key. `DawgStores.StateSearchEnds` and
  `DawgRuns.FreezeReturns` say exactly when a search and a round of flush return.
  `GraphHangs.OverridesAllowed` proves that r overriding keys have room in every build
  exactly if r <= 513; `GraphRooms.FewKeysReturn` proves that builds also return, with any number of
  overriding keys, if the distinct keys have at most 767 bytes, terminators counted. A
  build is specified for every keyset for which it returns (`GraphRuns.HasRoom`).
- `insert` means to reject zero bytes inside a key. It notices one exactly where
  the key still agrees with the key before it (`Reports.NulMet`,
  `DawgBuilders.DawgBuilder.FindBranch`, for every key); `DawgWalks.NulSlipsThrough` gives a
  key that gets through. Results about finished word graphs are for keys that
  have no zero byte once these checks have let them through.
- Obstack objects are said to start on multiples of the alignment. The first
  object of the initial chunk starts at that chunk's contents, aligned or not;
  `ObstackRuns.ObjectsAligned` proves that all nonempty objects of all runs are
  aligned if and only if those contents are.
- A message of 2^61 bytes or more sets the SHA-1 error latch to 1, which is the
  code for a null pointer, not the code for too long an input, and the call that
  does so still reports success (`Sha1Runs.AnswersOfRun`, `Sha1.SHA1Input`).
- The empty key is accepted when no values are given and rejected when they are
  (`Reports.WellFormed`); the documentation does not say so.

## Model

| member | source | states |
|---|---|---|
| UnitWords.PackOffset | textproc/mecab-base/files/darts.h:1350-1360 | packing a relative offset and reading it back with the finished array's readers is lossless, label and leaf bit included, exactly for offsets below 2^21 or with a zero low byte |
| UnitWords.PackLarge | textproc/mecab-base/files/darts.h:1354-1359 | a large offset is read back rounded down to its block, and with a zero low byte label and leaf bit survive |
| UnitWords.MasksMatchPacking | textproc/mecab-base/files/darts.h:1762-1765 | the builder's two-mask test accepts exactly the offsets that can be packed without loss |
| UnitWords.WriteLabel | textproc/mecab-base/files/darts.h:1347-1349 | writing a label leaves the offset and the leaf bit as the finished array reads them |
| UnitWords.WriteHasLeaf | textproc/mecab-base/files/darts.h:1337-1343 | setting the leaf bit leaves label and offset alone |
| UnitWords.WriteValue | textproc/mecab-base/files/darts.h:61-70 | a value is read back unchanged and its unit has a label that no byte equals |
| UnitWords.Fields | textproc/mecab-base/files/darts.h:54-75 | the fields a finished word is read by, digit for digit: eight bits of label, the has-leaf bit, the bit for offsets without their low byte, 21 bits of offset, and the top bit as part of the label |
| BitVectors.PopCountIsCount | textproc/mecab-base/files/darts.h:800-807 | the parallel additions compute the number of ones of any 32-bit word |
| BitVectors.BitVector.Get | textproc/mecab-base/files/darts.h:747-749 | reads the bit that was last set |
| BitVectors.BitVector.Set | textproc/mecab-base/files/darts.h:757-763 | changes one bit and no other |
| BitVectors.BitVector.Append | textproc/mecab-base/files/darts.h:775-780 | one more bit, clear |
| BitVectors.BitVector.Build | textproc/mecab-base/files/darts.h:810-822 | the rank directory counts the ones before each word, for any length |
| BitVectors.BitVector.Rank | textproc/mecab-base/files/darts.h:751-755 | the number of ones up to and including a position |
| BitVectors.RankBijection | textproc/mecab-base/files/darts.h:1019-1025 | different shared states get different intersection numbers, all within the table |
| BitVectors.RankReached | textproc/mecab-base/files/darts.h:1019-1025 | every intersection number belongs to a shared state |
| Keysets.FirstValuesUnique | textproc/mecab-base/files/darts.h:216-217 | only one map gives every key the value of its first pair |
| Keysets.WholeRange | textproc/mecab-base/files/darts.h:1634-1656 | the keys read from depth 0 give every key its first value |
| Keysets.GraphFirst | textproc/mecab-base/files/darts.h:1110-1163 | the map of the word graph has the first values exactly if, of equal keys, the last one taken has the value of the first, for keys in any order |
| Keysets.GraphKeys | textproc/mecab-base/files/darts.h:1110-1163 | the map of the word graph has exactly the keys that are not dropped |
| Keysets.GroupDict | textproc/mecab-base/files/darts.h:1673-1684 | the keys of a run with the same byte spell what is left of the range after that byte |
| KeysetRanges.GroupFault | textproc/mecab-base/files/darts.h:1687-1719 | a fault found deeper in the trie is a fault of the whole keyset |
| KeysetRanges.AppendGroup | textproc/mecab-base/files/darts.h:1675-1684 | runs without a fault, in byte order, make a range that is in order and free of zero bytes |
| DawgLevels.FreezeMeaning | textproc/mecab-base/files/darts.h:1176-1215 | replacing the last open state by a frozen one with the same arcs does not change the map |
| DawgLevels.BranchMeaning | textproc/mecab-base/files/darts.h:1147-1162 | branching off the path adds the new key with its value and nothing else |
| DawgLevels.BranchIsNew | textproc/mecab-base/files/darts.h:1132-1138 | a key that branches off with a larger byte was not there before |
| DawgLevels.FirstKeyMeaning | textproc/mecab-base/files/darts.h:1147-1162 | the first key makes the map of that key alone |
| DawgLevels.LastKeyMeaning | textproc/mecab-base/files/darts.h:1143-1145 | the key spelt by the path is in the map, so a key that is given again in front of a zero byte keeps its value |
| DawgLevels.RepeatMeaning | textproc/mecab-base/files/darts.h:1135-1162 | a second terminator on the path gives the last key the new value and changes no other key |
| DawgLevels.TotalAfter | textproc/mecab-base/files/darts.h:1176-1215 | what the path leads to is what is left of all keys after the bytes of the path |
| DawgTables.StoreOk | textproc/mecab-base/files/darts.h:1196-1206 | storing a state at the first empty slot of its probe sequence keeps every state findable |
| DawgTables.MetBeforeEmpty | textproc/mecab-base/files/darts.h:1247-1261 | a probe that meets an empty slot has met every stored state with that hash |
| DawgStores.StateSearchEnds | textproc/mecab-base/files/darts.h:1247-1261 | the loop of find_node ends exactly if a slot is empty or a state with these arcs is in the table |
| DawgStores.PlaceSearchEnds | textproc/mecab-base/files/darts.h:1234-1245 | the loop of find_unit ends exactly if a slot is empty |
| DawgStores.FilledOk | textproc/mecab-base/files/darts.h:1219-1232 | filling a table with all units that look like states returns exactly if there are not more of them than slots, and uses one slot for each |
| DawgStores.StraysFreeze | textproc/mecab-base/files/darts.h:1194-1206 | a frozen state leaves behind no more strays than it had while it was open |
| DawgRuns.ExpandReturns | textproc/mecab-base/files/darts.h:1181-1183 | expand_table returns exactly if states and strays fit into the doubled table |
| DawgRuns.FreezeReturns | textproc/mecab-base/files/darts.h:1176-1215 | a round of flush returns exactly if expanding does and the state is there or a slot is empty; otherwise the search misses for ever |
| DawgRuns.FlushCounts | textproc/mecab-base/files/darts.h:1176-1217 | with at most 513 strays, or too few levels and states for an expansion, flush returns and adds at most one state for each level |
| DawgRuns.InsertCounts | textproc/mecab-base/files/darts.h:1110-1163 | an inserted key brings at most one stray, and no more states and levels than it has bytes and a terminator |
| DawgStores.RepeatsFreeze | textproc/mecab-base/files/darts.h:1194-1206 | as long as no key overrode another, freezing a state keeps every state free of repeated labels |
| DawgGraphs.AppendState | textproc/mecab-base/files/darts.h:1195-1206 | new units for the arcs of a state extend the frozen graph by that state and by what its further units labelled 0 look like, and leave older states and their maps as they were |
| DawgGraphs.NewIdsSize | textproc/mecab-base/files/darts.h:1225-1231 | how many units of a new state look like the first one of a state |
| DawgGraphs.ArcsLeaf | textproc/mecab-base/files/darts.h:1603-1609 | the empty key is left exactly when the first arc is labelled 0, and the last arc labelled 0 carries its value |
| DawgGraphs.ArcsAfter | textproc/mecab-base/files/darts.h:999-1014 | following an arc's byte leads to the map of the arc's target, and no other byte leads anywhere |
| DawgGraphs.StateLabels | textproc/mecab-base/files/darts.h:999-1014 | a state has an arc for a byte exactly when some key of its map continues with it |
| DawgGraphs.ArcWordInjective | textproc/mecab-base/files/darts.h:929-934 | units with the same label and the same word stand for the same arc |
| DawgGraphs.StateOfMeaning | textproc/mecab-base/files/darts.h:1190-1207 | in a graph whose states have different arcs and no label twice, states with the same map are the same state: the graph is minimal |
| DawgGraphs.XorBackwards | textproc/mecab-base/files/darts.h:1284-1306 | one step of hashing the arcs from the last to the first keeps the hash of the whole (the whole loop is `HashNode`) |
| DawgGraphs.HashInjective | textproc/mecab-base/files/darts.h:1073-1081 | the mixing function maps different 32-bit words to different words: its two products and its sum are undone by products, its shifts by shifts |
| DawgPaths.PopLevel | textproc/mecab-base/files/darts.h:1176-1215 | when the top state is frozen, its nodes go to the recycle bin and the rest of the path keeps its nodes |
| DawgPaths.PushFresh | textproc/mecab-base/files/darts.h:1147-1161 | a node below one without children starts a new level of the path |
| DawgPaths.PushSibling | textproc/mecab-base/files/darts.h:1147-1161 | a node before an existing child adds an arc to a level of the path |
| DawgPaths.MarkHead | textproc/mecab-base/files/darts.h:1135-1138 | marking that a sibling will follow affects only the node on the path |
| DawgWalks.WalkStops | textproc/mecab-base/files/darts.h:1127-1138 | where the byte read is not the one on the path, the two bytes decide between an error and a branch, also behind the end of the key |
| DawgWalks.FollowingMatters | textproc/mecab-base/files/darts.h:1127-1138 | the byte after a key changes what is reported exactly if the last key goes on from it with a byte that is not larger; it matters at all exactly if it is not zero and not smaller than the path's byte behind the whole key |
| DawgWalks.PrefixSlips | textproc/mecab-base/files/darts.h:1127-1149 | a concrete key out of order that is reported in front of one byte and accepted in front of another |
| DawgWalks.NulSlipsThrough | textproc/mecab-base/files/darts.h:1147-1149 | a concrete key with a zero byte that the check does not see |
| DawgSharing.SeenFreeze | textproc/mecab-base/files/darts.h:1190-1193 | a state is marked when a second string gets it and not before |
| DawgSharing.SeenInsert | textproc/mecab-base/files/darts.h:1110-1163 | a new key or value leaves everything alone that is behind the strings frozen so far |
| DawgSharing.MarksAreShared | textproc/mecab-base/files/darts.h:1190-1193 | in the finished graph a state is marked exactly if its keys are left after two different strings |
| DawgBuilders.DawgBuilder.Init | textproc/mecab-base/files/darts.h:1084-1094 | the builder holds no key |
| DawgBuilders.DawgBuilder.HashUnit | textproc/mecab-base/files/darts.h:1284-1296 | the hash of a frozen state is a function of its arcs |
| DawgBuilders.DawgBuilder.HashNode | textproc/mecab-base/files/darts.h:1298-1306 | the hash of a chain of nodes is the same function of the arcs it spells |
| DawgBuilders.DawgBuilder.AreEqual | textproc/mecab-base/files/darts.h:1263-1282 | true exactly when the chain of nodes and the frozen state have the same arcs |
| DawgBuilders.DawgBuilder.FindNode | textproc/mecab-base/files/darts.h:1247-1261 | returns the state with the same arcs, or 0 and a free slot when there is none, wherever the source's loop ends |
| DawgBuilders.DawgBuilder.FindUnit | textproc/mecab-base/files/darts.h:1234-1245 | finds the first empty slot of a state's probe sequence, wherever the source's loop ends |
| DawgBuilders.DawgBuilder.ExpandTable | textproc/mecab-base/files/darts.h:1219-1232 | the doubled table holds every state, and the units that look like one, all findable, each at the first empty slot in the order of the units |
| DawgBuilders.DawgBuilder.AddState | textproc/mecab-base/files/darts.h:1194-1207 | a state with new arcs becomes one fixed unit for each arc, in order, and is stored; its marks are clear |
| DawgBuilders.DawgBuilder.FindOrAdd | textproc/mecab-base/files/darts.h:1190-1207 | the result is a state with these arcs, marked as shared if it existed, and other marks stay; added states have different arcs |
| DawgBuilders.DawgBuilder.FreezeTop | textproc/mecab-base/files/darts.h:1176-1215 | one round of flush freezes the state on top of the path, keeps the map, and marks that state if its string is the second one to get it |
| DawgBuilders.DawgBuilder.Flush | textproc/mecab-base/files/darts.h:1176-1217 | freezes everything above a node and keeps the map, the table bound and the marks exact |
| DawgBuilders.DawgBuilder.FindBranch | textproc/mecab-base/files/darts.h:1118-1141 | for every key and every byte after it: finds where they leave the path, and reports a zero byte met on the way or a smaller byte than the path's |
| DawgBuilders.DawgBuilder.PushSuffix | textproc/mecab-base/files/darts.h:1147-1161 | the remaining bytes and the terminator become fresh levels |
| DawgBuilders.DawgBuilder.Insert | textproc/mecab-base/files/darts.h:1110-1163 | fails exactly on negative values, empty keys, noticed zero bytes and noticed descents (unsigned byte order), leaving everything as it was; otherwise the key has the first value given, or the last one given in front of a byte that is not zero, and no other key changes; a key out of order may be dropped without a report; the states, the table and the path are those of `DawgRuns.InsertInto` |
| DawgBuilders.DawgBuilder.Finish | textproc/mecab-base/files/darts.h:1096-1108 | the root leads to a frozen state that means exactly the inserted map, ranks of shared states are ready, and if no key overrode another the graph is minimal and exactly the states that two strings lead to are marked |
| FreeList.UnlinkOk | textproc/mecab-base/files/darts.h:1781-1789 | taking a unit out of the circle leaves every other free unit of the window in it exactly once |
| FreeList.AppendOk | textproc/mecab-base/files/darts.h:1803-1824 | the records of a new block reuse the slots of one that has left the window and join the circle; the two are never mixed |
| FreeList.SplicedAppended | textproc/mecab-base/files/darts.h:1812-1824 | the eight writes of expand_units amount to inserting the block before the head, also when the circle is empty |
| Blocks.UnusedExists | textproc/mecab-base/files/darts.h:1843-1849 | a block with an unfixed unit has an offset that is not used: used offsets never outnumber fixed units |
| Layouts.PlaceLayout | textproc/mecab-base/files/darts.h:1734-1734 | marking an offset used keeps one owner for each child unit and keeps fillers off used offsets |
| Layouts.CompleteStep | textproc/mecab-base/files/darts.h:414-420 | in a complete array a search step is accepted only by the true child of the unit it starts from |
| Layouts.CompleteRepresents | textproc/mecab-base/files/darts.h:1839-1857 | with nothing left to place or to fill, every reachable unit behaves as its map demands, for every byte |
| Layouts.BarrenRepresents | textproc/mecab-base/files/darts.h:1538-1566 | the array of an empty dictionary never finds a value |
| BuilderState.ReserveState | textproc/mecab-base/files/darts.h:1776-1790 | reserving a free unit keeps free list, layout and used flags in step |
| BuilderState.UnlinkTwice | textproc/mecab-base/files/darts.h:1781-1789 | reserving a unit that has just been taken out of the circle changes nothing |
| BuilderState.AppendBlockState | textproc/mecab-base/files/darts.h:1792-1825 | a new block is all free, and older units keep their words |
| BuilderState.BlockChoice | textproc/mecab-base/files/darts.h:1843-1849 | when fix_block has a unit to fill, it has found an unused offset to fill it for |
| BuilderState.PlaceState | textproc/mecab-base/files/darts.h:1734-1734 | using an offset is safe because every filler lies in a block that has left the window |
| BuilderState.EmptyIsFixed | textproc/mecab-base/files/darts.h:1538-1566 | the array of an empty dictionary is fully determined: fillers for offset 1 |
| DoubleArrayBuilders.DoubleArrayBuilder.ReserveId | textproc/mecab-base/files/darts.h:1776-1790 | the unit is fixed, every other unit stays free, and a block is added first when the unit lies beyond the last one |
| DoubleArrayBuilders.DoubleArrayBuilder.ExpandUnits | textproc/mecab-base/files/darts.h:1792-1825 | 256 more units, all free; fixed units keep their words; what leaves the window of 4096 units is no longer free, everything else stays free, and fillers appear only in the block that leaves the window |
| DoubleArrayBuilders.DoubleArrayBuilder.AppendRecords | textproc/mecab-base/files/darts.h:1805-1824 | the block's records are reset, chained and joined to the circle |
| DoubleArrayBuilders.DoubleArrayBuilder.FixBlock | textproc/mecab-base/files/darts.h:1839-1857 | exactly the free units of the block are filled, each labelled for the first unused offset of the block |
| DoubleArrayBuilders.DoubleArrayBuilder.FixAllBlocks | textproc/mecab-base/files/darts.h:1827-1837 | afterwards no unit is free and no placed unit has changed |
| DoubleArrayBuilders.DoubleArrayBuilder.IsValidOffset | textproc/mecab-base/files/darts.h:1756-1774 | true exactly for unused offsets that can be packed and have room for every label |
| DoubleArrayBuilders.DoubleArrayBuilder.FindValidOffset | textproc/mecab-base/files/darts.h:1739-1754 | returns the offset for the least free unit at which the children fit, and one in a fresh block only if they fit at none, in the column of the parent; the walk over the free list ends |
| DoubleArrayBuilders.DoubleArrayBuilder.PlaceChildren | textproc/mecab-base/files/darts.h:1721-1736 | every label of a node gets its own unit at the first fitting offset, also when label 0 comes several times, and nothing else changes; a block is added only if the children fit nowhere; it fails only when the array has grown to 2^29 units |
| DoubleArrayBuilders.DoubleArrayBuilder.CollectLabels | textproc/mecab-base/files/darts.h:1690-1719 | the bytes at one depth, or a fault that is really there |
| DoubleArrayBuilders.DoubleArrayBuilder.BuildFromKeyset | textproc/mecab-base/files/darts.h:1658-1685 | fills in the subtree of a range of keys, which are then known to be in order; at most one block for every byte and key |
| DoubleArrayBuilders.DoubleArrayBuilder.CollectArcs | textproc/mecab-base/files/darts.h:1603-1609 | the labels of the state that a graph unit leads to, and the value of its last arc labelled 0 |
| DoubleArrayBuilders.DoubleArrayBuilder.FindShared | textproc/mecab-base/files/darts.h:1570-1574 | an offset found in the table carries the children of exactly this state |
| DoubleArrayBuilders.DoubleArrayBuilder.ShareChildren | textproc/mecab-base/files/darts.h:1575-1582 | a unit pointed at shared children is as good as one with children of its own |
| DoubleArrayBuilders.DoubleArrayBuilder.BuildFromDawg | textproc/mecab-base/files/darts.h:1568-1599 | fills in everything below a unit; a state that has been placed is shared, without a new unit, whenever the offset can be packed, and every shared state can be found afterwards |
| DoubleArrayBuilders.DoubleArrayBuilder.PlaceRoot | textproc/mecab-base/files/darts.h:1553-1556 | the root unit with offset 1 and label 0, on the first block |
| DoubleArrayBuilders.DoubleArrayBuilder.Finish | textproc/mecab-base/files/darts.h:1562-1562 | filling what is left makes an array that represents the map |
| DoubleArrayBuilders.DoubleArrayBuilder.BuildDawg | textproc/mecab-base/files/darts.h:1525-1536 | reports the first faulty key that is noticed, or finishes a graph of the keys that are not dropped, with the values that the word graph takes |
| DoubleArrayBuilders.DoubleArrayBuilder.BuildArrayFromDawg | textproc/mecab-base/files/darts.h:1538-1566 | the array encodes the map of the graph |
| DoubleArrayBuilders.DoubleArrayBuilder.BuildArrayFromKeyset | textproc/mecab-base/files/darts.h:1633-1656 | the array encodes the map of the keyset |
| DoubleArrayBuilders.DoubleArrayBuilder.Build | textproc/mecab-base/files/darts.h:1491-1501 | both routes end in an array for the keyset's map, or in a fault that is there |
| DawgStates.ReadArc | textproc/mecab-base/files/darts.h:999-1014 | what the readers of a finished graph return for each unit of a state |
| DawgStates.FollowArc | textproc/mecab-base/files/darts.h:1586-1593 | the child of a unit is the state of what is left after its label, and an earlier one, so the recursion ends |
| DawgStates.ShareState | textproc/mecab-base/files/darts.h:1584-1587 | recording a placement leaves the table entries of other states alone |
| KeyWeights.BelowStep | textproc/mecab-base/files/darts.h:1589-1598 | the keys behind one label and the keys before it are counted once |
| KeyWeights.RangeWeight | textproc/mecab-base/files/darts.h:1634-1656 | the distinct keys have no more bytes than the keyset |
| KeyWeights.GraphWeight | textproc/mecab-base/files/darts.h:1525-1536 | the keys in the word graph have no more bytes than the keyset |
| KeyWeights.DistanceFits | textproc/mecab-base/files/darts.h:1350-1353 | two units of an array below 2^29 units never have too large an offset |
| Reports.OutcomesBuilt | textproc/mecab-base/files/darts.h:1110-1141 | given that zero bytes and misplaced keys are noticed, the word-graph build accepts exactly the keysets without negative values, empty keys, zero bytes and descents, dropped keys aside |
| Reports.RangeAccepted | textproc/mecab-base/files/darts.h:1687-1719 | for keysets without values, being well formed is the condition that the trie build establishes for the whole range of keys |
| Reports.ReportsAreFaults | textproc/mecab-base/files/darts.h:212-227 | other than for size, a build fails only on keysets that are not accepted, and so malformed |
| Reports.AcceptedForms | textproc/mecab-base/files/darts.h:212-227 | well-formed keysets are accepted, and an accepted one is well formed exactly if no key of it is dropped |
| Reports.SmallKeysetsBuild | textproc/mecab-base/files/darts.h:212-227 | a keyset of less than two million bytes, terminators counted, is built if and only if it is accepted |
| Reports.NulMet | textproc/mecab-base/files/darts.h:1127-1130 | insert notices a zero byte exactly where the key still agrees with the last key |
| Reports.FollowingMet | textproc/mecab-base/files/darts.h:1118-1141 | the path of the last key and the byte after a key tell the cases apart: dropped, misplaced, and the last key again |
| Reports.SlipsMatter | textproc/mecab-base/files/darts.h:1127-1138 | for keysets: the byte after a key changes its report exactly if the key slips past the order |
| Reports.FirstPairs | textproc/mecab-base/files/darts.h:216-217 | the first of several pairs with the same key is stored exactly if there are no values or the last pair taken for each key has the value of the first |
| KeysetMeanings.ByteOrder | textproc/mecab-base/files/darts.h:1132-1138 | the order of keys is that of unsigned bytes: a prefix first, and else the smaller byte where the keys first differ |
| KeysetMeanings.IndexValues | textproc/mecab-base/files/darts.h:864-868 | without values the indexes themselves are stored, and they can be exactly if there are at most 2^31 keys |
| KeysetMeanings.WellFormedIs | textproc/mecab-base/files/darts.h:212-217 | well-formed keysets in bytes and values: no zero byte, keys in byte order, no negative value or too many keys, and no empty key beside explicit values |
| KeysetMeanings.AcceptedIs | textproc/mecab-base/files/darts.h:1110-1141 | what is built with values in bytes and values: as above, but in order apart from dropped keys |
| KeysetMeanings.DroppedIs | textproc/mecab-base/files/darts.h:1127-1145 | a key is dropped exactly if the last key that is not goes on from it with the byte that follows it in memory |
| KeysetMeanings.TakenIs | textproc/mecab-base/files/darts.h:1135-1162 | the value of a key is taken unless the key is dropped, or is the last one again in front of a zero byte |
| KeysetMeanings.DecidesIs | textproc/mecab-base/files/darts.h:1135-1162 | in a well-formed keyset the last pair with a key in front of a nonzero byte decides, or else the first one |
| KeysetMeanings.ZeroDecides | textproc/mecab-base/files/darts.h:216-217 | with a zero byte after every key the first pair decides and every key is stored |
| KeysetMeanings.ReportedIs | textproc/mecab-base/files/darts.h:212-227 | what each error says: some key has a zero byte, some value is negative or there are more than 2^31 keys, some key is empty beside values, some key is smaller than an earlier one |
| KeysetMeanings.BytesOfKeys | textproc/mecab-base/files/darts.h:212-227 | the size of a keyset is the sum over its keys of their bytes and one terminator |
| GraphRooms.ZeroTerminated | textproc/mecab-base/files/darts.h:212-217 | a zero byte after every key is enough for that, and for every well-formed keyset to be input for the word graph |
| GraphRooms.ZeroFreeInput | textproc/mecab-base/files/darts.h:212-213 | keys of nonzero bytes with a zero byte after each are input for the word graph, in any order and with any values |
| GraphRooms.LastPairStored | textproc/mecab-base/files/darts.h:216-217 | a concrete keyset of which the last pair with a key is stored |
| GraphRooms.KeyDropped | textproc/mecab-base/files/darts.h:1127-1145 | a concrete keyset out of order that is built, without the key in the middle |
| GraphRooms.InsertFits | textproc/mecab-base/files/darts.h:1110-1163 | for every key: the insertion returns, and path, strays, slots and states stay within their bounds |
| GraphRooms.FewKeysReturn | textproc/mecab-base/files/darts.h:1525-1536 | every call of the build returns if at most 513 keys override another, or the keys that are neither dropped nor repeated have at most 767 bytes |
| GraphHangs.ChainHangs | textproc/mecab-base/files/darts.h:1176-1215 | flush does not return from a long chain of new states when 514 strays are in the table beside them |
| GraphHangs.CrowdedHangs | textproc/mecab-base/files/darts.h:1525-1536 | well-formed keysets, one for each n >= 1534, whose build does not return |
| GraphHangs.OverridesAllowed | textproc/mecab-base/files/darts.h:1219-1261 | at most r overriding keys have room in every build exactly if r <= 513 |
| DoubleArraySearch.WalkSound | textproc/mecab-base/files/darts.h:487-519 | following bytes by the words of the array alone reaches a unit that means what is left of the map, and stops only when nothing is left |
| DoubleArraySearch.WalkAppend | textproc/mecab-base/files/darts.h:286-296 | following s + t is following s and then t from where s ended |
| DoubleArraySearch.TraverseResumes | textproc/mecab-base/files/darts.h:286-296 | a traversal interrupted at any point and resumed ends with the same node, position and result as one in a single call, also after an early stop, for every array |
| DoubleArraySearch.MatchesAre | textproc/mecab-base/files/darts.h:273-281 | the reported matches are exactly the nonempty prefixes that are keys, in increasing length, with their values |
| Darts.DoubleArray.Build | textproc/mecab-base/files/darts.h:1865-1889 | afterwards the dictionary has exactly the stored keys, with the value given with the pair that decides or, without values, with the index of the first pair with the key; the first value of every key exactly if first pairs are kept; a failed build names a fault that is there and keeps the old dictionary; small keysets fail only if malformed |
| Darts.DoubleArray.ExactMatchSearch | textproc/mecab-base/files/darts.h:405-437 | for every query from every node, the first `length` bytes or all up to the first zero byte: value and length if the query is a key there, -1 and 0 otherwise |
| Darts.DoubleArray.CommonPrefixSearch | textproc/mecab-base/files/darts.h:439-485 | for the first `length` bytes or all up to the first zero byte: counts all matching prefixes, stores the first ones up to the limit, and leaves the rest of the caller's buffer alone |
| Darts.DoubleArray.Traverse | textproc/mecab-base/files/darts.h:487-519 | in terms of the caller's bytes: the node reached is what is left after the bytes passed; the end is `length` or the first zero byte, and there the result is the value of those bytes or -1; -2 stands before the end in front of a byte that no key continues with, always so when no key continues and no unit is dead |
| Darts.TraverseInTwo | textproc/mecab-base/files/darts.h:487-519 | two calls of traverse, the second from where the first ended, give what one call gives, in the same terms, with a length or up to a zero byte |
| Darts.BuildAndSearch | textproc/mecab-base/files/darts.h:405-437 | build and then an exact search: the given value of the pair that decides, or the index of the first pair without values, which is the first pair's value if first pairs are kept or zero bytes follow the keys; -1 for what is not stored |
| Darts.RoutesAgree | textproc/mecab-base/files/darts.h:1491-1501 | the word-graph build with indexes as values stores the same map as the trie build exactly if no index overrides a different one |
| Darts.TraverseExact | textproc/mecab-base/files/darts.h:286-296 | traverse stops early exactly when no key continues with the string, for every dictionary but the empty one |
| Darts.EmptyDictionaryWalks | textproc/mecab-base/files/darts.h:1553-1562 | in the array of an empty dictionary every byte but 1 is followed from the root |
| ObstackPictures.AlignedUp | sysutils/anacron/files/obstack.c:299-302 | the masked address has the masked bits clear and lies at most the mask above the one given |
| ObstackPictures.AlignedMultiples | sysutils/anacron/files/obstack.h:282-284 | for a power of two the aligned addresses are its multiples |
| ObstackPictures.OneHolder | sysutils/anacron/files/obstack.c:419-423 | an address from a chunk's contents up to and including its end passes the search test for that chunk alone, also when another chunk begins at that end |
| ObstackPictures.HolderOfObject | sysutils/anacron/files/obstack.c:418-431 | the search from the newest chunk stops at the chunk of a live object, an empty one at the very end included |
| ObstackPictures.NullHeldNowhere | sysutils/anacron/files/obstack.c:423-441 | the search for null passes every chunk |
| ObstackPictures.RoomInNew | sysutils/anacron/files/obstack.c:286-302 | the size formula leaves room for header, alignment, object and request |
| ObstackPictures.SizeOfNew | sysutils/anacron/files/obstack.c:285-288 | the size is the larger one of the chunk size and object, request, an eighth of the object, mask and 100 together, with that eighth and the slack to spare behind the object |
| ObstackPictures.MovedOk | sysutils/anacron/files/obstack.c:273-337 | after a move the requested room is there, the base is aligned, the growing bytes are the same, and all finished objects stand |
| ObstackPictures.NoneLeft | sysutils/anacron/files/obstack.c:324-332 | a chunk that is given up for a larger one holds no finished object, not even an empty one |
| ObstackPictures.GrownOk | sysutils/anacron/files/obstack.h:388-396 | bytes are added at the end and no finished object is touched |
| ObstackPictures.FinishedOk | sysutils/anacron/files/obstack.h:472-486 | the object keeps address and bytes, and the next one starts behind it within the chunk |
| ObstackPictures.FreedOk | sysutils/anacron/files/obstack.c:411-441 | freeing an object leaves exactly the older ones, all intact |
| ObstackRuns.StepKeeps | sysutils/anacron/files/obstack.h:388-494 | one operation leaves every object alone but those it frees |
| ObstackRuns.RunKeeps | sysutils/anacron/files/obstack.c:273-441 | over any run a finished object that is not freed keeps its address, its bytes and its chunk |
| ObstackRuns.RunPlaces | sysutils/anacron/files/obstack.h:472-486 | over any run objects start aligned, at the contents of the initial chunk, or empty at the end of a chunk |
| ObstackRuns.GrowIs | sysutils/anacron/files/obstack.h:388-396 | growing adds the data behind the bytes already there, wherever the object then lies, and leaves it in place if there was room |
| ObstackRuns.ObjectsAligned | sysutils/anacron/files/obstack.c:141-142 | all objects with bytes, in all runs, are aligned if and only if the contents of the initial chunk are |
| ObstackLedgers.PushOk | sysutils/anacron/files/obstack.c:290-296 | a new chunk heads the chain, and the account grows by its size |
| ObstackLedgers.PopOk | sysutils/anacron/files/obstack.c:423-431 | giving the newest chunk back leaves the older ones linked and the account balanced |
| ObstackLedgers.SkipOk | sysutils/anacron/files/obstack.c:327-332 | giving the chunk below the newest one back keeps the chain whole |
| Obstacks.Memory.CopyObject | sysutils/anacron/files/obstack.c:304-322 | words from the last to the first and then the odd bytes: the bytes arrive for every size, and nothing else changes |
| Obstacks.Memory.Release | sysutils/anacron/files/obstack.c:330-330 | only a block that is live is given back |
| Obstacks.Obstack.Begin | sysutils/anacron/files/obstack.c:149-203 | one chunk of the asked size or 4072 bytes with an empty growing object 16 bytes after its address, and the asked alignment or 8; or the failure handler |
| Obstacks.Obstack.NewChunk | sysutils/anacron/files/obstack.c:273-337 | a new chunk of exactly the size of lines 286-288, booked as obtained, with the object aligned in it and the request, an eighth of the object and the slack behind it; the old chunk is given back exactly if the object started it and no empty object is possible there |
| Obstacks.Obstack.MakeRoom | sysutils/anacron/files/obstack.h:375-381 | asks for a chunk only when there is not enough room, and changes nothing otherwise |
| Obstacks.Obstack.Grow | sysutils/anacron/files/obstack.h:388-396 | the growing object is longer by the data, wherever it now lies, and moves only when there is no room |
| Obstacks.Obstack.Grow0 | sysutils/anacron/files/obstack.h:398-407 | the growing object is longer by the data and a zero byte |
| Obstacks.Obstack.Grow1 | sysutils/anacron/files/obstack.h:409-415 | the growing object is longer by one byte |
| Obstacks.Obstack.Blank | sysutils/anacron/files/obstack.h:443-450 | the growing object takes in bytes as it finds them, behind those it had |
| Obstacks.Obstack.Finish | sysutils/anacron/files/obstack.h:472-486 | returns the address of the object, which is finished with all its bytes, remembers empty ones, and goes on at the next aligned address within the chunk |
| Obstacks.Obstack.Alloc | sysutils/anacron/files/obstack.h:452-456 | one more object of the grown length, at the address returned |
| Obstacks.Obstack.Copy | sysutils/anacron/files/obstack.h:458-462 | one more object with the bytes grown before and the given ones, at the address returned |
| Obstacks.Obstack.FreeFull | sysutils/anacron/files/obstack.c:411-441 | gives back exactly the chunks newer than the one that may hold the address; for a live object the older ones stay and the next object starts where it did; null gives everything back; an address that no chunk may hold gives everything back and aborts |
| Obstacks.Obstack.Free | sysutils/anacron/files/obstack.h:488-494 | the shortcut inside the current chunk has the effect of the full routine |
| Obstacks.Obstack.AllocatedP | sysutils/anacron/files/obstack.c:349-367 | true exactly if a chunk may hold the address, and for every live object |
| Obstacks.Obstack.MemoryUsed | sysutils/anacron/files/obstack.c:443-455 | the bytes obtained and not returned |
| Sha1Standard.PaddedSize | archivers/ota/files/sha1.c:320-341 | padding fills whole blocks with as few zero bytes as possible |
| Sha1Standard.AbsorbAppend | archivers/ota/files/sha1.c:160-211 | hashing whole blocks in two parts is hashing them in one |
| Sha1Standard.PadOneBlock | archivers/ota/files/sha1.c:366-388 | with up to 55 buffered bytes padding adds one block |
| Sha1Standard.PadTwoBlocks | archivers/ota/files/sha1.c:351-365 | with 56 or more it adds two |
| Sha1Examples.ConstantsAreRoots | archivers/ota/files/sha1.c:235-240 | the four round constants are the integer parts of 2^30 times the square roots of 2, 3, 5 and 10 |
| Sha1Examples.RoundBits | archivers/ota/files/sha1.c:270-308 | bit by bit, the functions of the four loops are a choice, the parity, the majority and the parity |
| Sha1Examples.RotationsAre | archivers/ota/files/sha1.c:36-37 | the shifts are rotations to the left by 1, 5 and 30 bits |
| Sha1Examples.OctetsOfWord | archivers/ota/files/sha1.c:247-255 | four bytes make a word, the most significant first, and the word written out gives those bytes back |
| Sha1Examples.PaddingIs | archivers/ota/files/sha1.c:343-388 | a padded message is the message, a one bit, zero bits, and the number of its bits in eight bytes, the most significant first |
| Sha1Examples.AbcDigest | archivers/ota/files/sha1.c:392-400 | the digest of "abc" is that of FIPS PUB 180-1, appendix A, through all rounds of one block |
| Sha1Examples.LettersDigest | archivers/ota/files/sha1.c:392-400 | the digest of the 56-byte message is that of FIPS PUB 180-1, appendix B, through both blocks |
| Sha1Runs.DigestOfPieces | archivers/ota/files/sha1.c:160-211 | every way of cutting a message below 2^61 bytes into inputs yields the digest of the message |
| Sha1Runs.DigestRepeats | archivers/ota/files/sha1.c:115-139 | asking again gives the same digest |
| Sha1Runs.ErrorLatched | archivers/ota/files/sha1.c:110-113 | after an error no call but a reset gives a digest |
| Sha1Runs.AnswersOfRun | archivers/ota/files/sha1.c:101-211 | what a request answers after any run of calls: the digest of the bytes before the first request, or the error for late bytes or too many |
| Sha1.SHA1Context.ProcessMessageBlock | archivers/ota/files/sha1.c:233-317 | the four loops over eighty words compute the compression function of section 7 of FIPS PUB 180-1, whose constants, functions and results for the messages of its appendices are proved in `Sha1Examples` |
| Sha1.SHA1Context.PadMessage | archivers/ota/files/sha1.c:343-388 | the chaining value becomes that of the padded message, in both padding cases |
| Sha1.SHA1Context.TakeByte | archivers/ota/files/sha1.c:186-208 | one more byte is buffered and counted, the block index stays below 64, and the latch is set by the byte that overflows the count |
| Sha1.CountStep | archivers/ota/files/sha1.c:191-200 | the two length words hold eight times the bytes modulo 2^64, and both are zero exactly at 2^61 bytes |
| Sha1.SHA1Reset | archivers/ota/files/sha1.c:58-80 | a fresh context that has taken in nothing |
| Sha1.SHA1Input | archivers/ota/files/sha1.c:160-211 | takes in the bytes unless digest or error came first; null pointers, late input and the latch as the run model says |
| Sha1.SHA1Result | archivers/ota/files/sha1.c:101-139 | writes the digest of everything taken in, or nothing at all and the error; the digest function gives the results of FIPS PUB 180-1, appendices A and B |
| Sha1.DoSHA1 | archivers/ota/files/sha1.c:392-400 | writes the digest of the message, whatever its length; for "abc" and the 56-byte message that is the result of FIPS PUB 180-1, appendices A and B |

## Left out

- DawgBuilders.DawgBuilder.Insert: a key whose zero byte slips through the checks is not followed further; the source stores a graph in which the rest of that key is read as a value. Nor is a key that slips past the order and is stored behind the last one (`Reports.Misplaces`). The precondition admits every other key for which the call returns, and `GraphRuns.DawgInput` says the same of whole keysets.
- DawgBuilders.DawgBuilder.PushSuffix: for keys without a zero byte, as above.
- DoubleArrayBuilders.DoubleArrayBuilder.Build: unit numbers are natural numbers, so graphs of 2^30 units or more and arrays of 2^32 units or more, where the source's 32-bit numbers wrap, are not covered.
- UnitWords.PackOffset: words are natural numbers with explicit digits, so the bitwise operators of the source appear as division, remainder and the recursive `Xor`, `Or` and `And` of `Bitwise`.
- Sha1.SHA1Input: the message must not be the context's own block buffer; the source does not forbid that aliasing.
- Obstacks.Obstack.Grow: data is passed by value, so a source range inside the chunk that is being given back is not modelled.
- Obstacks.Obstack.NewChunk: the answer of the chunk function is a parameter; a null answer stands for the failure handler, which does not return.
- Obstacks.Obstack.Begin: a chunk size below the size of the chunk header is excluded, since the source would then write outside the chunk.
- Progress callbacks, `std::bad_alloc`, `open`, `save`, `set_array`, the two `set_result` overloads and the value-type template of Darts.
- `AutoPool`, `AutoArray` and `AutoStack` are sequences here: capacity doubling and reserve are not modelled, nor is the DawgBuilder's `clear` or that of the double-array builder.
- The loops of arrange_from_dawg and arrange_from_keyset that place children are one method, `PlaceChildren`, which writes the value found while the labels are collected; where the source writes several values for label 0 one after another, it writes the last one each time.
- `BitVector::clear`, which leaves the size as it was; the builder does not use the vector after it.
- Terminated and counted strings of the searches are one loop with the two guards.
- obstack_copy0 (Grow0 and then Finish), pointer and int growth (growth by 8 and 4 bytes), the unchecked fast macros, negative obstack_blank, `use_extra_arg`, the non-GNU macro variants, `_obstack_free` (the same body under a second name) and the overflow of `int` in `_obstack_memory_used`.
- Chunk headers are kept beside the bytes of the address space, so a write that overruns a chunk into the next header has no model; growth is proved never to do so.
- The cryptographic strength of SHA-1.
