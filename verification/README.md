# Verified models of GTKWave's data-structure and algorithm cores

GTKWave is a waveform viewer. Below its user interface are a number of self-contained cores whose
correctness the rest of the program takes for granted. This project models them in Dafny in the form
the C code has (records with links become classes whose methods relink them, arrays are changed in
place, loops stay loops) and proves what they are relied on for. `dafny verify dfyconfig.toml` checks everything.

| files | what they model |
|---|---|
| `JrbStore` `JrbColor` `JrbEdit` `JrbList` `JrbState` `Jrb` | the red-black tree with entries only in its leaves, threaded by a list and by cached neighbours (`jrb.c`) |
| `HierPackCodec` `HierPack` | the append-only compressor for names (`hierpack.c`) |
| `Waves` `BSearch` `BitVec` `Lookup` `Expand` | merging bit histories into a vector history, splitting it again, and the searches in both (`bitvec.c`, `bsearch.c`) |
| `SigCmp` `Heapsort` | the natural order of names and the sort by it (`bitvec.c`) |
| `Ae2` | the reader that keeps facilities in one bucket per cycle (`ae2.c`) |
| `Splay` `WhichCache` | top-down splay maps and the repair of indices after sorting (`ghw.c`) |
| `GhwTypes` `GhwHierarchy` | nested types as flat runs of signals (`ghwlib.c`, `ghw.c`) |
| `Getopt` `GetoptScan` | argument permutation, extending the Utility Syntax Guidelines of section 12.2 of the Base Definitions volume of IEEE Std 1003.1 (`getopt.c`) |
| `Brackets` `TraceList` `TraceBlocks` `TraceDropped` `Reorder` | the trace list with its nested groups (`analyzer.c`) |
| `Gray` `TimeText` | Gray code and population count (`baseconvert.c`); printing and reading times (`currenttime.c`, `debug.c`) |

How to read the proofs. A heap structure is tied by an invariant to a value that says what it means: the
tree to its sequence of entries (`Jrb.Tree.Valid`; `st.leaves` is the sequence), the compressor to its bytes and
the names behind its handles, the trace list to its sequence of traces, a splay tree to its in-order
sequence. Methods are proved against these values; the lemmas then say what the values are good for. Ghost
parameters and ghost results name positions and footprints and have no counterpart in the program.

Where the code and what one would expect of it part ways, the code is modelled, and where a condition decides it is proved:

* after a deletion the root of the tree may be red, so "the root is black" is no part of the invariant: insertions keep a black root, and a deletion from a tree with a black root leaves a red one exactly when the deleted entry is a child of the root and its sibling is internal (`Jrb.Tree.DeleteNode`, `Jrb.RedRoot`);
* reversing an even number of traces swaps the middle two twice (`Reorder.ReversedWhen`);
* reordering collects no piece for the begin of a group that is never closed, and the old entries stay at the end of the array, so a trace can end up linked twice and the begin be lost; the outcome is right exactly when only unclosed begins stand behind unclosed begins (`TraceDropped.PermutedWhen`, `Reorder.TracesReorder`, `Reorder.OwnPredecessor`), and `EnsureGroupsMatch` leaves none;
* the fast name comparison reads digit runs in 32 bits and can fail to be an order (`SigCmp.FastCycle`); it agrees with the exact one between a name and all names of runs below 2^31 exactly when the name's own runs are (`SigCmp.AgreesWhen`), and it orders a name among these names exactly when no run of it is negative in 32 bits (`SigCmp.OrdersWhen`), which is more (`SigCmp.LongButOrdered`);
* a second scan of permuted arguments can pick up a non-option as a missing required argument (`GetoptScan.Rescan`, `GetoptScan.RescanDiffers`);
* a signal number of 2^31 or more passes the signed check against the size of the table, but is not in the table; a read goes astray in this way exactly when the first number outside the table is one of these (`GhwTypes.WildWhen`, `GhwTypes.WildRead`);
* an element of a 32-bit enumeration is read, but the hierarchy cannot be built from it (`GhwHierarchy.BuildType`).

## Model

| member | source | states |
|---|---|---|
| `Jrb.Tree.SingleRotate` | gtkwave3/src/jrb.c:359-401 | Either rotation, at the root or below it, changes exactly the links that it should (the new store is that of the abstract rotation), and the tree over the leaves, the leaf list and the cached neighbours all still agree. |
| `Jrb.Tree.Recolor` | gtkwave3/src/jrb.c:314-357 | From one possible red-red edge at the given red node, recolouring and at most two rotations give back equal black counts on all paths and no red-red edge, with leaves and their order untouched. |
| `Jrb.Tree.InsertList` | gtkwave3/src/jrb.c:51-61 | The item is linked in directly in front of the given list position. |
| `Jrb.Tree.SpliceLeaf` | gtkwave3/src/jrb.c:78-104 | The new red internal node takes the place of a leaf and has that leaf and the new one as children, with the side bits, root bit and cached neighbours set. |
| `Jrb.Tree.Lprev` | gtkwave3/src/jrb.c:109-117 | The head for the head; otherwise the internal node that splits the leaves exactly where this node begins, or the head when the node reaches the left edge. |
| `Jrb.Tree.Rprev` | gtkwave3/src/jrb.c:119-127 | The mirror image: the head for the head, otherwise the node that splits the leaves where this node ends, or the head. |
| `Jrb.Tree.InsertB` | gtkwave3/src/jrb.c:281-312 | The new entry stands in front of the given entry (at the end for the head); every invariant of tree, list, caches and colours holds again, and a black root is not replaced by a red one. |
| `Jrb.Tree.DeleteItem` | gtkwave3/src/jrb.c:63-67 | Exactly the two list neighbours of the entry are joined. |
| `Jrb.Tree.CutLeaf` | gtkwave3/src/jrb.c:416-443 | Unlinking a leaf and its parent puts the sibling in the parent's place, at the root or below it. |
| `Jrb.Tree.FixEnds` | gtkwave3/src/jrb.c:445-459 | After a cut the one stale cached neighbour on each side is the one that gets repaired; all caches are right again. |
| `Jrb.Tree.DeleteRepair` | gtkwave3/src/jrb.c:464-521 | From a subtree one black node short, the repair loop and its rotations restore equal black counts and no red-red edge without touching the leaves; the error exits cannot be reached. |
| `Jrb.Tree.SiblingInner` | gtkwave3/src/jrb.c:487-490 | The sibling of a subtree one black short is internal, so the "sibling not internal" exit is dead. |
| `Jrb.Tree.RepairLast` | gtkwave3/src/jrb.c:485-521 | With a black sibling and a red node among the parent and the nephews, one of the four last cases applies and ends the repair; so the "2.3c not quite right" exit is dead. |
| `JrbState.LowNode` | gtkwave3/src/jrb.c:445-453 | The sibling left behind by a cut is internal exactly when it is red, so the "sib is black, internal" exit is dead. |
| `Jrb.Tree.DeleteNode` | gtkwave3/src/jrb.c:403-522 | Exactly the given entry is removed from the sequence of entries and every invariant holds; when the root was black, it is red afterwards exactly when the entry was a child of the root with an internal sibling. |
| `Jrb.RedRoot` | gtkwave3/src/jrb.c:403-522 | Three insertions into an empty tree and one such deletion leave a red root. |
| `Jrb.Tree.FindGteInt` | gtkwave3/src/jrb.c:178-200 | The descent by cached keys ends where a linear scan would: found only at an equal key; when not found, every entry before the result has a smaller key and every entry from it on a greater one, and the head stands behind the last. |
| `Jrb.Tree.FindInt` | gtkwave3/src/jrb.c:202-209 | null exactly when no entry has the key. |
| `Jrb.Tree.InsertInt` | gtkwave3/src/jrb.c:583-590 | One new entry with this key and value stands directly in front of an entry with the key, if there is any; the keys stay sorted. |
| `Jrb.Tree.NBlack` | gtkwave3/src/jrb.c:524-538 | The result counts the black nodes on the way from the entry to the root; it is the same for every entry, and 2 to the power of that count minus one bounds the number of entries from below. |
| `Jrb.Tree.PLength` | gtkwave3/src/jrb.c:540-554 | The result counts the nodes on the way from the entry up to the root, and is at most twice the common black count. |
| `JrbState.ManyLeaves` | gtkwave3/src/jrb.c:524-538 | A subtree of black height b has at least 2^(b-1) leaves. |
| `JrbColor.FarColored` | gtkwave3/src/jrb.c:496-500 | The far-nephew rotation with its recolouring makes up for the missing black node. |
| `JrbList.InsertListed` | gtkwave3/src/jrb.c:51-61 | Linking in at position k inserts there in the listed sequence, both ways round. |
| `JrbList.DeleteListed` | gtkwave3/src/jrb.c:63-67 | Unlinking position k removes exactly it from the listed sequence. |
| `Jrb.Step` | gtkwave3/src/jrb.c:281-522 | One insert adds exactly this key with this value; one delete removes one stored pair with the key, or nothing if there is none; all invariants and the order are kept. |
| `Jrb.Run` | gtkwave3/src/jrb.c:281-522 | After any sequence of inserts and deletes from the empty tree all invariants hold, the keys are exactly those inserted and not deleted again, and the pairs of keys and values are some that such a sequence leaves when each delete takes any one pair with its key. |
| `HierPackCodec.DecEnc` | gtkwave3/src/hierpack.c:25-37 | Reading a packed integer backwards from its last byte gives the integer and its first byte, whatever surrounds it. |
| `HierPackCodec.EncGroups` | gtkwave3/src/hierpack.c:25-37 | An integer is written in as few seven-bit groups as it takes, the most significant first, all but the first flagged. |
| `HierPackCodec.DecodePrefix` | gtkwave3/src/hierpack.c:177-198 | What a position decodes to does not change when bytes are appended. |
| `HierPackCodec.DecodeRecord` | gtkwave3/src/hierpack.c:135-144 | Every position inside the suffix of a new record decodes to the corresponding prefix of its name. |
| `HierPack.EncVar` | gtkwave3/src/hierpack.c:25-37 | The end of the scratch buffer holds the encoding, which never overruns it. |
| `HierPack.RecordDecodes` | gtkwave3/src/hierpack.c:116-144 | A record that shares a prefix with the last name decodes, at each of its bytes, to that much of the new name. |
| `HierPack.Packed` | gtkwave3/src/hierpack.c:85-145 | One more record keeps every handle issued before right, makes the new one right, keeps the scratch offsets right, and grows the buffer by at most the length of the name plus two. |
| `HierPack.Packer.OutC` | gtkwave3/src/hierpack.c:14-22 | Exactly this byte is appended, through any growth of the buffer. |
| `HierPack.Packer.OutWrite` | gtkwave3/src/hierpack.c:40-48 | Exactly these bytes are appended. |
| `HierPack.Packer.Reserve` | gtkwave3/src/hierpack.c:92-97 | The scratch arrays have room for the name and its terminator and keep what they held; the terminator needs the slot that the program does not have just when the name is at least as long as its arrays were. |
| `HierPack.Packer.MatchLength` | gtkwave3/src/hierpack.c:101-107 | The match is the longest common prefix of the new and the last name, but never all of a nonempty new one. |
| `HierPack.Packer.EncodeBack` | gtkwave3/src/hierpack.c:109-130 | The back-pointer to the last shared byte is taken exactly when its encoding is shorter than what it saves. |
| `HierPack.Packer.CompressFacility` | gtkwave3/src/hierpack.c:85-145 | With m the longest common beginning of the new name and the last one that is not all of the new one, and d the distance back to its last byte: if 0 < m and the encoding of d is shorter than m, exactly that encoding, a 0 and the rest of the name are appended, and otherwise a 0, a 0 and all of the name. The handle is that of the last byte, the bytes written anew get their positions, and every handle in the books still decodes to its name. |
| `HierPack.Packer.ReadVli` | gtkwave3/src/hierpack.c:187-195 | The loop reads a packed integer that ends at this byte. |
| `HierPack.Packer.UnpackHop` | gtkwave3/src/hierpack.c:179-198 | One turn prepends a suffix and goes on at a strictly lower position, or finishes the name. |
| `HierPack.Packer.Unpack` | gtkwave3/src/hierpack.c:174-200 | The backward walk ends with exactly the name the position decodes to. |
| `HierPack.Packer.DecompressFlagged` | gtkwave3/src/hierpack.c:148-201 | Unflagged handles come back as they are; flagged ones give the decoded name. |
| `HierPack.PackAll` | gtkwave3/src/hierpack.c:85-145 | After any sequence of names all their handles are in the books and the buffer is no longer than the names, with one terminator each, plus one byte per name. |
| `HierPack.UnpackIssued` | gtkwave3/src/hierpack.c:148-201 | Unpacking the handle of any name packed so far gives that name, whatever was packed after it. |
| `BSearch.Search` | gtkwave3/src/bsearch.c:109-131 | For any sorted times and any key: the last entry at or before the key if that is not before time 0, and otherwise the last entry with the time of entry 1, as the recorded best candidate, the fallback and the walk over equal times come out. |
| `BSearch.FoundIs` | gtkwave3/src/bsearch.c:109-186 | Spelled out: with an entry between time 0 and the key, the last entry at or before the key; otherwise the last one with the time of entry 1. |
| `BitVec.MinNext` | gtkwave3/src/bitvec.c:264-290 | The earliest shifted and clamped next change of all bits; it is not before the present one. |
| `BitVec.Advance` | gtkwave3/src/bitvec.c:297-366 | Each bit shows its present, possibly inverted value, and exactly the bits that change at the minimum move on. |
| `BitVec.MergeStep` | gtkwave3/src/bitvec.c:264-366 | A region is right for all times from its own to the next one's, and the pointers come closer to the ends. |
| `BitVec.Bits2Vector` | gtkwave3/src/bitvec.c:238-401 | The merge ends; regions start at -1, do not go back in time, each but the first begins where some bit changes, and each shows for every bit the value of the last change displayed by then; the last region is at the end of time and undefined. |
| `BitVec.RegionLookup` | gtkwave3/src/bitvec.c:238-401 | At every time before the end, the last region at or before it shows each bit's shifted, clamped, possibly inverted value at that time. |
| `BitVec.RegionShows` | gtkwave3/src/bitvec.c:264-345 | In raw times: before the end a region shows for each bit its last entry that, its time shifted unless it is that of an endcap, is not behind the key; an inverted bit shows 0 as 1, 1 as 0, H as L and L as H. |
| `Lookup.LookupAgrees` | gtkwave3/src/bsearch.c:109-186 | In any merge of loader-shaped, unshifted, uninverted bits, the region that the search finds for a key below the end holds in each bit the code of the entry that the search finds in the bit's own history. |
| `Lookup.LookUp` | gtkwave3/src/bsearch.c:109-186 | Running both searches returns just these: the region at that place of the merge and the entry at that place of each history. |
| `Expand.ExpandBitSays` | gtkwave3/src/bitvec.c:1915-1970 | At every time the split history of a bit says what the whole entry in force says about it, X outside the window, although unchanged values are dropped and entries may share a time. |
| `Expand.PieceTight` | gtkwave3/src/bitvec.c:1960-1966 | A displayed entry of a split history always brings another value than the one before it. |
| `Expand.ExpandNode` | gtkwave3/src/bitvec.c:1883-1985 | Nothing for real or string histories; otherwise each bit gets its split history and its printed index, and the history ends with the code of the character that the last entry has for it, or X outside the window. |
| `Expand.ExtractNodeSingleBit` | gtkwave3/src/bitvec.c:1990-2175 | One bit on its own gets the history that a full split would give it; bits out of range give nothing. |
| `Expand.ExpandThenJoin` | gtkwave3/src/bitvec.c:1915-1970 | In any merge of the split histories of a node, the last region at or before a time, from the first displayed entry to the end of the window, holds in every bit the code of the character that the entry in force has there. |
| `Expand.SplitAndMerge` | gtkwave3/src/bitvec.c:1883-1985 | Splitting a node and merging the pieces gives the split histories and a merge of them. |
| `SigCmp.SigCmp2Fast` | gtkwave3/src/bitvec.c:1467-1505 | The loop computes the comparison by tokens, with digit runs read in wrapping 32-bit arithmetic. |
| `SigCmp.SigCmp2Exact` | gtkwave3/src/bitvec.c:1398-1462 | The padded comparison of digit runs of different lengths has the sign of the comparison of the numbers they denote. |
| `SigCmp.FastIsExact` | gtkwave3/src/bitvec.c:1394-1506 | Both versions agree when all digit runs stay below 2^31. |
| `SigCmp.AgreesWhen` | gtkwave3/src/bitvec.c:1394-1506 | Both versions put a name in the same order with every name of short digit runs exactly when all its own digit runs stay below 2^31. |
| `SigCmp.FastIsNotExact` | gtkwave3/src/bitvec.c:1480-1498 | Beyond that they differ: 4294967296 sorts before 1 in the fast version and behind it in the exact one. |
| `SigCmp.FastCycle` | gtkwave3/src/bitvec.c:1480-1498 | Under the fast version sigcmp puts 3000000000 before 0, 0 before 2000000000 and 2000000000 before 3000000000, so it orders no set with these three. |
| `SigCmp.SigOrder` | gtkwave3/src/bitvec.c:1508-1517 | sigcmp is a total order, on all names in the exact version and on names whose digit runs are all nonnegative in 32 bits in the fast one: zero only on identical names, antisymmetric, transitive. |
| `SigCmp.OrdersWhen` | gtkwave3/src/bitvec.c:1394-1517 | Under the fast version a name keeps the laws of an order with all names of short digit runs exactly when all its own digit runs are nonnegative in 32 bits. |
| `SigCmp.LongButOrdered` | gtkwave3/src/bitvec.c:1480-1498 | 4294967296 has a long run, but a nonnegative one, so it is ordered. |
| `SigCmp.CharsDecide` | gtkwave3/src/bitvec.c:1394-1517 | Behind a common front the smaller character comes first, unless both are digits, and the end of a name before everything. |
| `SigCmp.NumbersDecide` | gtkwave3/src/bitvec.c:1394-1517 | Behind a common front the smaller number comes first, however many digits it is written with (in the fast version, below 2^31). |
| `SigCmp.ZerosDecide` | gtkwave3/src/bitvec.c:1508-1517 | Of names that differ in a leading zero only, the one with the zero comes first. |
| `SigCmp.StrCmpReads` | gtkwave3/src/bitvec.c:1508-1517 | strcmp is the order of a dictionary: less exactly when the first name is a proper beginning of the second or has the smaller character where they first differ. |
| `SigCmp.Compare` | gtkwave3/src/bitvec.c:1508-1517 | The tie-break by strcmp gives the sign of the order on names. |
| `Heapsort.Heapify` | gtkwave3/src/bitvec.c:1527-1572 | Sifting down ends for any names and permutes the heap only; it restores heap order below the start when sigcmp keeps the laws of an order on the names in the array. |
| `Heapsort.HeapMax` | gtkwave3/src/bitvec.c:1587-1597 | The root of a heap is a largest element when sigcmp keeps the laws of an order on the names in the array. |
| `Heapsort.WaveHeapsort` | gtkwave3/src/bitvec.c:1574-1603 | For every length from 1 on and any names it ends with a permutation of the array in which no name is followed by one that sigcmp puts before it, whenever sigcmp keeps the laws of an order on the names in the array, although building skips index 0. |
| `Heapsort.NamedOrdered` | gtkwave3/src/bitvec.c:1508-1603 | sigcmp keeps them on names whose digit runs are nonnegative in 32 bits, and in the exact version on all. |
| `Ae2.Scheduler.Put` | gtkwave3/src/ae2.c:1183-1196 | A facility taken from the front of a bucket (or from nowhere) is put in front of its next bucket or of the deadlist; every other list is as before and each facility is in one place. |
| `Ae2.Scheduler.StartValues` | gtkwave3/src/ae2.c:1042-1108 | At the start of a section just the selected facilities whose value differs from the held one are reported. |
| `Ae2.Scheduler.Distribute` | gtkwave3/src/ae2.c:1110-1197 | Every selected facility waits in the bucket of its first change in the section, or on the deadlist when there is none. |
| `Ae2.Scheduler.StepCycle` | gtkwave3/src/ae2.c:1201-1313 | Exactly the selected facilities that change at this cycle are reported, each once, with their value then, in the order of the bucket. |
| `Ae2.Section` | gtkwave3/src/ae2.c:1029-1317 | A section reports the start values and then every change up to the earlier of its end and the requested end, each once, in order of time. |
| `Ae2.Iterator` | gtkwave3/src/ae2.c:1002-1337 | The trace is that of the sections between start and end cycle, in their order, each starting from the values the last one left behind. |
| `Ae2.ChosenAre` | gtkwave3/src/ae2.c:1027-1040 | The sections handled are just those that are not empty, end at or after the start and stand before the first other one that begins behind the end, in their order. |
| `Ae2.TraceOrdered` | gtkwave3/src/ae2.c:1027-1317 | With sections one after the other the whole trace is in order of time. |
| `Splay.Splay` | gtkwave3/src/ghw.c:58-103 | Relinking gives exactly the tree of the top-down splay on trees; it ends, keeps the in-order sequence, and what is left of the new root has smaller keys than the one sought, what is right of it greater ones. |
| `Splay.RootHasKey` | gtkwave3/src/ghw.c:58-103 | So the root has the key exactly when any node has it. |
| `Splay.Insert` | gtkwave3/src/ghw.c:106-141 | The stored map gains exactly this key with its payload, or is unchanged when the key is there. |
| `Splay.EntriesAt` | gtkwave3/src/ghw.c:106-141 | The stored map says, key by key, what the nodes of a sorted tree hold. |
| `WhichCache.BuildWhichCache` | gtkwave3/src/ghw.c:228-260 | All nodes of the hierarchy with an index are stored under their address with the index and the symbol it stands for; other entries are kept. |
| `WhichCache.FixFromWhichCache` | gtkwave3/src/ghw.c:261-295 | All nodes get the new index of their old symbol; nodes without an index are left alone. |
| `WhichCache.IndexFacs` | gtkwave3/src/ghw.c:343-384 | Each symbol of the sorted array is stored with its index, and nothing else is. |
| `WhichCache.SortFacs` | gtkwave3/src/ghw.c:343-384 | For any names the symbols end up permuted and every hierarchy node refers through its new index to the symbol it referred to before; they are sorted whenever sigcmp keeps the laws of an order on the names. |
| `GhwTypes.CountArray` | gtkwave3/src/ghwlib.c:648-660 | The count built for an array type from its ranges is that number. |
| `GhwTypes.CountRecord` | gtkwave3/src/ghwlib.c:664-692 | The count built for a record type from its fields is that number. |
| `GhwTypes.RangeCounts` | gtkwave3/src/ghwlib.c:463-496 | A range of one of three kinds has as many indices as counting from its left end to its right end takes; other kinds abort. |
| `GhwTypes.ReadSignal` | gtkwave3/src/ghwlib.c:746-800 | Exactly the slots of the leaves are filled, one number read per slot, in leaf order; the end of input, an abort or a number that passes the signed check without being in the table ends the read after the slots written so far. |
| `GhwTypes.WildWhen` | gtkwave3/src/ghwlib.c:757-765 | Some number of a read passes the check without being in the table exactly when the first number outside the table, reached by readable leaves only, is 2^31 or more. |
| `GhwTypes.ReadEnds` | gtkwave3/src/ghwlib.c:746-800 | How any read ends: well behind the last leaf, by abort at a leaf that is neither a subtype nor a scalar of two or more named values, at the end of the file, or at a number outside the table, and what has been read by then. |
| `GhwTypes.WildRead` | gtkwave3/src/ghwlib.c:757-765 | One readable element with the number 2^31 passes the check against any table. |
| `GhwTypes.FlatConcat` | gtkwave3/src/ghwlib.c:746-800 | Reading two runs of leaves one after the other is reading their concatenation. |
| `GhwHierarchy.BuildArray` | gtkwave3/src/ghw.c:411-531 | From any dimension on, one subtree per index combination, in order, takes exactly the slots of its element type. |
| `GhwHierarchy.BuildType` | gtkwave3/src/ghw.c:533-613 | The tree has the nesting of the type and its leaves are exactly the slots of the type in order; building aborts exactly when some leaf is of a kind it does not handle. |
| `GhwHierarchy.BuildableWhen` | gtkwave3/src/ghw.c:533-613 | The leaves that it does not handle are the 32-bit enumerations and their subtypes. |
| `GhwHierarchy.ReadAndBuild` | gtkwave3/src/ghw.c:729-731 | After a complete read, building fails only for a leaf of an unhandled kind: it stops at the slot behind the last one, which holds the sentinel, so the check for it never fails. |
| `Getopt.Getopt.Exchange` | gtkwave3/src/getopt.c:314-391 | The swaps of equal parts are exactly the exchange of the two blocks, and the bounds move along. |
| `Getopt.Getopt.Skip` | gtkwave3/src/getopt.c:569-585 | Moving skipped non-options behind the options and skipping more leaves the outcome of the whole run as it was. |
| `Getopt.Getopt.NextElement` | gtkwave3/src/getopt.c:558-633 | The scan stands at the next option element, or has ended with the arguments fully permuted and optind at the first non-option. |
| `Getopt.Getopt.ShortOption` | gtkwave3/src/getopt.c:888-1198 | One option character: result, optarg, optopt and how far the scan moves, for unknown, plain, optional-argument and required-argument options. |
| `Getopt.Getopt.GetOpt` | gtkwave3/src/getopt.c:521-1212 | Each call reports the first event still ahead and leaves exactly the rest ahead; -1 comes when nothing is ahead. |
| `Getopt.Run` | gtkwave3/src/getopt.c:1202-1211 | A run of calls ends with the program name, then options and their arguments, then all other elements, and optind at the first of these; the calls reported exactly the events of the original arguments. |
| `GetoptScan.ScanStable` | gtkwave3/src/getopt.c:558-633 | Options with their arguments (and --) keep their original order, and so do the other elements. |
| `GetoptScan.ScanFilters` | gtkwave3/src/getopt.c:551-556 | When no option requires an argument and there is no --, the options are just the elements that start with - and are longer. |
| `GetoptScan.Rescan` | gtkwave3/src/getopt.c:1151-1195 | Scanning the permuted arguments once more gives the same outcome exactly when no required argument was missing at the end or there are no other elements. |
| `GetoptScan.RescanDiffers` | gtkwave3/src/getopt.c:1151-1195 | With options "a:" and the arguments x -a, the first scan reports a missing argument and leaves -a x; scanning that takes x as the argument. |
| `GetoptScan.UnknownReported` | gtkwave3/src/getopt.c:888-940 | A character that optstring does not declare is reported as ?, with the character in optopt. |
| `GetoptScan.PlainReported` | gtkwave3/src/getopt.c:888-894 | One declared without a colon is reported itself, and the next character of the element is next. |
| `GetoptScan.OptionalReported` | gtkwave3/src/getopt.c:1135-1148 | One declared with two colons takes the rest of its element as its argument, if there is any. |
| `GetoptScan.RequiredReported` | gtkwave3/src/getopt.c:1151-1195 | One declared with one colon takes the rest of its element or else the next element; when there is none, it is reported as ?, or as : if optstring begins with it. |
| `GetoptScan.LeftOver` | gtkwave3/src/getopt.c:551-556 | Without -- no element that begins with - and is longer is left over. |
| `GetoptScan.OptionTaken` | gtkwave3/src/getopt.c:628-633 | An element that begins with -, is longer and is not -- is read character by character from its second one on. |
| `GetoptScan.OtherLeft` | gtkwave3/src/getopt.c:582-602 | What follows -- is all left over, and so is every element that is empty, is - or does not begin with -. |
| `Brackets.GroupEnds` | gtkwave3/src/analyzer.c:87-130 | Every begin in a balanced list has its matching end. |
| `Brackets.InnermostGroup` | gtkwave3/src/analyzer.c:87-130 | The enclosing group in the sense of the one-pass rule is the innermost begin whose group contains the trace; none when there is none. |
| `Brackets.SpliceBalanced` | gtkwave3/src/analyzer.c:947-1132 | Balanced marks spliced anywhere into balanced marks are balanced. |
| `TraceList.Traces.RemoveTrace` | gtkwave3/src/analyzer.c:740-783 | Exactly this trace leaves the list, at either end or inside, and first, last and total follow. |
| `TraceList.Traces.UpdateTraceGroup` | gtkwave3/src/analyzer.c:87-130 | With everything in front right, and unless some end is stray, the trace gets its innermost open group, and an end and its begin get each other as match. |
| `TraceList.Traces.Regroup` | gtkwave3/src/analyzer.c:1010-1020 | One forward pass makes all groups and matches of a list without a stray end right, whatever they were, also when groups are left open, and drops all highlighting. |
| `TraceList.BeginMatches` | gtkwave3/src/analyzer.c:87-130 | Afterwards every begin of a balanced list points to its matching end. |
| `TraceList.Traces.PasteBuffer` | gtkwave3/src/analyzer.c:947-1051 | The cut traces come behind the anchor, the cut list is empty, groups and matches are right unless some end is stray, and just the pasted traces are highlighted. |
| `TraceList.Traces.PrependBuffer` | gtkwave3/src/analyzer.c:1058-1132 | The same in front of the list. |
| `TraceList.PasteBalanced` | gtkwave3/src/analyzer.c:947-1051 | Pasting a balanced cut into a balanced list leaves it balanced. |
| `TraceList.Traces.EnsureGroupsMatch` | gtkwave3/src/analyzer.c:1603-1665 | What is kept is the longest prefix with balanced marks. |
| `TraceBlocks.BlocksFlat` | gtkwave3/src/analyzer.c:1305-1337 | Cutting a balanced list into top-level pieces loses nothing, and each piece is one trace or one whole group. |
| `TraceBlocks.GroupsKept` | gtkwave3/src/analyzer.c:1256-1419 | Rearranging whole pieces keeps every group and match right and the marks balanced. |
| `TraceDropped.KeptOrLost` | gtkwave3/src/analyzer.c:1305-1337 | On any list, balanced or not, the traces are those of the collected pieces and those left out, each once. |
| `TraceDropped.LostIs` | gtkwave3/src/analyzer.c:1311-1332 | Only begins whose scan finds no end are left out. |
| `TraceDropped.IsLost` | gtkwave3/src/analyzer.c:1311-1332 | And all of these are. |
| `TraceDropped.PermutedWhen` | gtkwave3/src/analyzer.c:1256-1419 | The array with the rearranged pieces in front and the old entries behind them holds every trace once exactly when behind an unclosed begin there are only unclosed begins. |
| `TraceDropped.BeginLost` | gtkwave3/src/analyzer.c:1305-1385 | With one trace behind an unclosed begin, the array holds that trace twice and the begin not at all. |
| `Reorder.NameOrder` | gtkwave3/src/analyzer.c:1170-1250 | Each of the three comparisons is a total preorder, the one by signal names in the fast version on names whose digit runs are nonnegative in 32 bits. |
| `Reorder.NameReads` | gtkwave3/src/analyzer.c:1171-1222 | Blank names come last; of two others the dictionary decides, with capitals read as small letters in the mode that ignores case. |
| `Reorder.GroupsArePresent` | gtkwave3/src/analyzer.c:1138-1161 | The answer is yes exactly when some trace has a group, a match or a group mark. |
| `Reorder.Reverse` | gtkwave3/src/analyzer.c:1345-1356 | A permutation; each entry comes from its mirror place, except the middle pair of an even number, which is swapped twice. |
| `Reorder.ReversedWhen` | gtkwave3/src/analyzer.c:1345-1356 | So it is an exact reversal exactly when the number of entries is odd or zero or the middle two are equal. |
| `Reorder.Chain` | gtkwave3/src/analyzer.c:1387-1416 | Linking up an array whose entries may occur more than once leaves each trace between the neighbours of its last occurrence. |
| `Reorder.TracesReorder` | gtkwave3/src/analyzer.c:1256-1419 | On every list and in every mode: the top-level pieces, whole and arranged as the mode asks (in order of their names whenever the comparison keeps the laws of an order on these names), come first, the old entries stay behind them, and the array is linked up. The outcome is a well linked list of the same traces exactly when only unclosed begins stand behind unclosed begins. Balanced lists stay balanced and keep their groups and matches. |
| `Reorder.NamesOrdered` | gtkwave3/src/analyzer.c:1170-1250 | The comparison keeps these laws on names whose digit runs are nonnegative in 32 bits, and in the other modes and in the exact version on all. |
| `Reorder.OwnPredecessor` | gtkwave3/src/analyzer.c:1387-1416 | After a reorder of an unclosed begin and one trace behind it, that trace is the whole list and its own predecessor. |
| `Gray.ConvertBinGray` | gtkwave3/src/baseconvert.c:93-140 | The loop in place computes the code read off the original bits. |
| `Gray.ConvertGrayBin` | gtkwave3/src/baseconvert.c:45-91 | The loop in place computes the running exclusive or of the original bits. |
| `Gray.GrayRoundTrip` | gtkwave3/src/baseconvert.c:45-140 | Decoding undoes encoding exactly on 0/1 vectors, up to logic level with H and L, and up to the first bit of another kind, which then fills the rest. |
| `Gray.BinaryRoundTrip` | gtkwave3/src/baseconvert.c:45-140 | Encoding undoes decoding in the same way, so on 0/1 vectors the two are inverse. |
| `Gray.OneBitApart` | gtkwave3/src/baseconvert.c:93-140 | The codes of n and n+1 differ in exactly one bit, for every width that holds both. |
| `Gray.BitsMixed` | gtkwave3/src/baseconvert.c:45-140 | Bit by bit, on 0, 1, L and H: what is written for a bit depends on the bit in front of it, as read when encoding and as written when decoding. |
| `Gray.ConvertPopcnt` | gtkwave3/src/baseconvert.c:142-168 | The vector holds the number of its ones in binary; it always fits. |
| `Gray.OnesAre` | gtkwave3/src/baseconvert.c:142-168 | What is counted are the bits that are 1 or H. |
| `TimeText.ReformatTimeSimple` | gtkwave3/src/currenttime.c:229-258 | The text is the sign, the number after as many divisions by 1000 as leave nothing over, and the unit that goes with it. |
| `TimeText.PrintsAs` | gtkwave3/src/currenttime.c:229-258 | Sign, number and unit make up the value, and no larger unit does without a fraction. |
| `TimeText.UnitTable` | gtkwave3/src/currenttime.h:24 | The units in order are sec, ms, us, ns, ps, fs, as and zs. |
| `TimeText.Atoi64` | gtkwave3/src/debug.c:455-507 | Value and continuation: the words for yes, on and no; otherwise digits in wrapping 64-bit arithmetic, one minus sign while the value is 0, other leading characters skipped, and the rest from the first other character once something was read. |
| `TimeText.JunkSkipped` | gtkwave3/src/debug.c:455-507 | Other text in front of the number is skipped. |
| `TimeText.WordRead` | gtkwave3/src/debug.c:463-481 | A word on y is 1, one on n is 0, and one on o is 1 just when n comes next. |
| `TimeText.UnformatTimeSimple` | gtkwave3/src/currenttime.c:138-190 | The number scaled by 1000 per unit step between the unit read and the unit asked for. |
| `TimeText.ReadsAs` | gtkwave3/src/currenttime.c:138-190 | A number with a unit is multiplied by 1000 for each finer unit asked for, and divided, toward zero, for each coarser one. |
| `TimeText.UnitLetter` | gtkwave3/src/currenttime.c:147-160 | The unit is told by its first letter, large or small, behind blanks and tabs. |
| `TimeText.UnformatTime` | gtkwave3/src/currenttime.c:192-226 | Which texts are markers, which are read as reals, and which by the simple reader. |
| `TimeText.RealRead` | gtkwave3/src/currenttime.c:214-224 | The first point or plus sign asks for a real unless c follows it. |
| `TimeText.NotReal` | gtkwave3/src/currenttime.c:214-224 | With c behind that point or plus sign, and no sign of the other kind, it is the simple reader that reads the text. |
| `TimeText.TimeRoundTrip` | gtkwave3/src/currenttime.c:138-258 | Every 64-bit time except the smallest is read back as printed, in every unit; even for the unit 0, for which the terminator is taken as the unit. |

## Left out

Contracts that say less than the code does:

- Splay.Splay: nothing is said about depth or amortised cost.
- HierPack.Packer.Reserve: gives the scratch arrays one slot more than the program, whose terminator falls one past the end just when the name is at least as long as the program's arrays were before the call.
- Jrb.Step: which of several pairs with the same key a delete takes is left open.
- Jrb.Run: which of several pairs with the same key a delete takes is left open.
- SigCmp.SigCmp2Exact: gives the sign of the result; its size, which no caller looks at, is left open.
- TraceList.Traces.PasteBuffer: asks that a closed group has its match in the list, which the anchor may skip to; claims about groups are made for lists without a stray end only; pasting into an empty list does not work groups out, as in the code.
- Reorder.QSort: an insertion sort stands for the libc sort; callers use only that it permutes, and sorts when the comparison is an order. For other comparisons the library itself promises nothing.
- BSearch.Search: an ordinary binary search stands for the libc one, and one method for the two functions, which differ in the record searched only.
- TimeText.ReformatTimeSimple: excludes the smallest 64-bit value, whose negation the program leaves undefined.

What the models do not capture:

- Red-black tree: keys are integers; the string, pointer and generic variants are the same loops over other comparisons. The neighbours that the program keeps in the key and value words of internal nodes are fields of their own, and the head is recognised by identity instead of a bit.
- Names: back-pointer arithmetic is unbounded and buffer positions are below 2^63; the program shifts in `int` when decoding, so distances of 2^31 and more are outside the model. `freeze_facility_pack` is not part of this model.
- Histories: lists of entries are sequences and list pointers are indices into them; name strings of split bits are not part of this model.
- Sorting: on Linux the program uses the libc sort; the model is of the heapsort used elsewhere. Signed overflow in the fast comparison is taken to wrap around.
- Cycle reader: the reader library is an oracle (values, change cycles, next change in a section); arrays with rows, sparse arrays, aliases and what the callback stores are not part of this model.
- Splay maps: keys are compared ideally; the program truncates a pointer difference to `int`.
- Types: the table has fewer than 2^31 signals; decoding of numbers and names from the file, and the type recorded per signal, are not part of this model; after a number outside the table has passed the check, nothing more is said.
- getopt: short options in the permuting mode, without a leading `-` or `+` and without `W;`; long options, the environment variable and messages are not part of this model.
- Trace list: cutting, copying, visibility, selection state other than highlighting, rewriting of hierarchy delimiters before a sort, and freeing are not part of this model.
- Times: texts with a decimal point or a plus sign that is not followed by c are read as reals by code that is not part of this model (an exponent alone never leads there), and named markers are a parameter.
- Gray code: the converters work on the vector; the display path that hands them a padded pointer is not part of this model.
- Memory: allocation does not fail, and freed memory is not tracked beyond removal from the structure.
- User interface, foreign file readers and floating-point display: plumbing or outside exact arithmetic.
