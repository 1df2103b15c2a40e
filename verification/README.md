# A verified model of mtd-utils and module-init-tools cores

Dafny models of five algorithmic cores, each written in the form of the C code (classes and
arrays that methods change in place, loops with invariants) and proved against specifications
that say what the code is for.

1. **Erasure code and multicast image transfer** (`fec.c`, `serve_image.c`, `recv_image.c`,
   `crc32.c`). `Galois` and `GaloisTables` build GF(256) from the primitive polynomial and prove the
   field laws; `LinearAlgebra`, `Polynomials`, `Vandermonde` and `GaussJordan` cover both matrix
   inverters; `FecCode` and `Fec` the code itself: decoding succeeds exactly when the packet numbers
   are distinct and below n, and then returns the source packets. `FlashDevice`, `Reception`,
   `Multicast`, `Receiver` and `Transfer` follow the packets of the server through losses, the receiver's
   write buffers, failed writes and relocations to the decoded image: `Reception` is the receive loop on
   values, which `Receiver` refines. `Crc32Bits`, `Crc32Table` and `Crc32` show that the table-driven
   CRC is bit-serial division and what it detects.
2. **Red-black tree and hard links** (`rbtree.c`, `mkfs.jffs2.c`). `RbSpec` is the fix-up of insertion
   and removal on values, with order and balance; `RbTree` is the pointer code, refined to `RbSpec`;
   `Hardlinks` is the client: inode numbers are shared exactly along hard links.
3. **Trie index** (`index.c`). `TrieSpec` and `IndexTree`: insertion with node splitting; `IndexFile`:
   post-order serialisation with flag bits and reading back; `IndexSize`: how long the file gets;
   `IndexSearch`, `IndexList`: search and listing; `WildValues`, `IndexWild`: wildcard search;
   `ShellPattern`, `WildExact`: what fnmatch accepts, and when the search agrees with it; `WildOrder`:
   in which order it finds the values; `IndexRun`: from the strings inserted to the answers.
4. **Module dependencies** (`depmod.c`, `list.h`, `modprobe.c`). `DepGraph`: loop detection and
   stripping; `DepOrder`: the ordering as a value; `IntrusiveList` and `DepList`: the ordering on
   circular linked lists, and the resulting insertion and removal orders.
5. **rtime compressor** (`compr_rtime.c`). `Rtime`: round trip, overlapping copies included.

## Findings

- `invert_vdm` never sets the lowest coefficient of the polynomial it builds (fec.c:579).
  `Vandermonde.VdmResultIsInverse` gives the exact condition under which it still inverts: two points, or
  a zero among the first two points. `fec_new` always passes zero first.
- `index_searchwild` tries `*` where a stored pattern has `?` on an edge of the trie (index.c:693-698).
  `IndexWild.SearchWild` says what is found on every index: each pattern is tried with its first wildcard
  handed on as `*` if that is a `?` on an edge, with the text in front of it taken literally, backslashes
  included (index.c:679); a key that itself has the wildcard of an edge also goes on behind it
  (index.c:717). `WildExact.OnEdgeStrings` says when it is on an edge: at position 0, or when another
  stored string agrees up to there and ends or differs. `WildExact.ReadExact` gives the exact condition
  per pattern: search and fnmatch agree on every key without wildcards, brackets and spaces, unless the
  rest of the pattern can match at all and the first wildcard is a `?` on an edge or a backslash comes
  before it. `WildExact.SearchExact` carries this over to the values found. `IndexRun.QuestionRun` is a
  failing run: the index of the one string `? v` answers the key `ab`.
- `fec_decode` reports an error exactly for indices that repeat or are not below n, so it keeps the promise
  of mcast_image.h:49 never to fail given k individual packets. The same comment says that the indices are
  not re-ordered; the code swaps them along with the packets (fec.c:754-787). `Fec.FecDecode`: they come back
  unchanged exactly when every source packet was handed in at its own position; `Fec.DecodeSwapped` is a case
  where they change.

## Model

| member | source | states |
|---|---|---|
| Galois.ExpPrimitive | mtd-utils-1.3.0/fec.c:118-135 | x is a primitive element: its powers return to 1 for the first time after 255 steps |
| Galois.MulIsPolynomialProduct | mtd-utils-1.3.0/fec.c:166-197 | multiplication through logarithms is polynomial multiplication modulo the primitive polynomial |
| Galois.MulAssoc | mtd-utils-1.3.0/fec.c:166-197 | field multiplication is associative |
| Galois.MulDistr | mtd-utils-1.3.0/fec.c:166-197 | multiplication distributes over the field's addition, which is exclusive or |
| Galois.MulInv | mtd-utils-1.3.0/fec.c:150-151 | every nonzero element times its inverse is one |
| GaloisTables.ModNN | mtd-utils-1.3.0/fec.c:152-163 | the division-free reduction computes x % GF_SIZE for every x |
| GaloisTables.GenerateGf | mtd-utils-1.3.0/fec.c:245-306 | the three tables filled by the loops hold all powers (twice around), logarithms and inverses |
| GaloisTables.InitMulTable | mtd-utils-1.3.0/fec.c:187-197 | every entry of the 256 by 256 table is the field product |
| LinearAlgebra.RightInverseIsInverse | mtd-utils-1.3.0/fec.c:410-534 | an inverse on one side of a square matrix is an inverse on both, because there are finitely many vectors |
| Vandermonde.VandermondeNonsingular | mtd-utils-1.3.0/fec.c:665-697 | a Vandermonde matrix over distinct points is nonsingular |
| Vandermonde.BuildPoly | mtd-utils-1.3.0/fec.c:571-582 | the coefficients the loop leaves are those of multiplying in one factor (x + p) after the other and dropping the constant term each time |
| Vandermonde.SyntheticDivision | mtd-utils-1.3.0/fec.c:584-594 | dividing by (x + xx) leaves the quotient's coefficients and returns its value at xx |
| Vandermonde.VdmResultIsInverse | mtd-utils-1.3.0/fec.c:548-602 | for distinct points the result is the inverse if and only if there are two points or one of the first two is zero |
| Vandermonde.InvertVdm | mtd-utils-1.3.0/fec.c:548-602 | the in-place method leaves exactly the matrix that VdmResultIsInverse is about |
| GaussJordan.PivotExchanges | mtd-utils-1.3.0/fec.c:478-513 | one pivot step exchanges an unknown with a right-hand side and keeps the solutions of the system |
| GaussJordan.NoPivotMeansSingular | mtd-utils-1.3.0/fec.c:431-463 | when no pivot is left in the unused rows and columns, the original matrix was singular |
| GaussJordan.AllExchangedMeansInverse | mtd-utils-1.3.0/fec.c:514-525 | when all columns have been exchanged, undoing the swaps in reverse on the columns gives the inverse |
| GaussJordan.FindPivot | mtd-utils-1.3.0/fec.c:431-463 | finds a nonzero entry in an unused row and column, or reports that there is none |
| GaussJordan.Eliminate | mtd-utils-1.3.0/fec.c:495-513 | every other row loses its multiple of the pivot row; skipping a unit pivot row changes nothing |
| GaussJordan.UnscrambleInPlace | mtd-utils-1.3.0/fec.c:514-525 | the reverse column swaps, in place |
| GaussJordan.InvertMat | mtd-utils-1.3.0/fec.c:410-534 | returns 0 if and only if the matrix is nonsingular, and then leaves its inverse in place |
| FecCode.SelectedNonsingular | mtd-utils-1.3.0/fec.c:665-697 | any k distinct rows of the systematic encoding matrix are linearly independent |
| FecCode.DecodeRecovers | mtd-utils-1.3.0/fec.c:850-862 | the inverse of the selected rows, applied to the packets received, gives every source packet |
| Fec.AddMul1 | mtd-utils-1.3.0/fec.c:325-352 | the loop unrolled sixteen-fold adds c times the source to the destination, for every length |
| Fec.MatMulRows | mtd-utils-1.3.0/fec.c:366-385 | the triple loop computes the matrix product |
| Fec.FecNew | mtd-utils-1.3.0/fec.c:649-699 | returns NULL if and only if k > n or n > 256, else the systematic code: identity on top, Vandermonde times inverse below |
| Fec.FecEncode | mtd-utils-1.3.0/fec.c:711-729 | packet number index is that row of the encoding matrix times the source; an invalid index leaves the buffer alone |
| Fec.FecEncodeLinear | mtd-utils-1.3.0/fec.c:732-750 | the same, with the source packets in one buffer |
| Fec.Shuffle | mtd-utils-1.3.0/fec.c:754-787 | returns 1 if and only if two packets claim the same place below k; otherwise every source packet is at home, and packets keep their indices; nothing moves if all were at home |
| Fec.BuildDecodeMatrix | mtd-utils-1.3.0/fec.c:794-826 | NULL for an invalid index or singular rows, else the inverse of the rows received |
| Fec.FecDecode | mtd-utils-1.3.0/fec.c:837-878 | returns 0 if and only if the k indices are distinct and below n, and then pkt[i] is source packet i, for every source, order and packet size, and the caller's indices are unchanged if and only if every source packet was at its own position |
| Fec.DecodeSwapped | mtd-utils-1.3.0/mcast_image.h:44-52 | two source packets handed in in the wrong order: decoding succeeds and the caller's indices have changed |
| Crc32Table.TableIsBitSerial | mtd-utils-1.3.0/crc32.c:43-96 | every one of the 256 constants is eight steps of division by 0xedb88320 |
| Crc32.Compute | mtd-utils-1.3.0/crc32.h:10-17 | the table-driven loop is bit-serial division, for every seed and buffer |
| Crc32.CrcConcat | mtd-utils-1.3.0/crc32.h:10-17 | the CRC of a concatenation is the CRC of the second part seeded with that of the first |
| Crc32.CheckValue | mtd-utils-1.3.0/crc32.h:10-17 | the CRC of the digits 1 to 9 is the complement of the published check value cbf43926 |
| Crc32.BurstDetected | mtd-utils-1.3.0/crc32.h:10-17 | changing a buffer only within four consecutive bytes always changes the CRC |
| Multicast.AppendHolds | mtd-utils-1.3.0/recv_image.c:278-282 | a packet that does not fill the write buffer: flash bytes and buffer are still the packets recorded, in order |
| Multicast.SpillHolds | mtd-utils-1.3.0/recv_image.c:283-343 | a packet that fills it: the full buffer goes to flash, the remainder starts the next one, nothing is lost |
| Multicast.FlushedWithin | mtd-utils-1.3.0/recv_image.c:339-360 | when the buffer size divides the erase size, a complete block has flushed exactly erasesize bytes, an incomplete one less |
| Receiver.Receiver.Start | mtd-utils-1.3.0/recv_image.c:173-215 | the first packet sets up disjoint blocks at multiples of the erase size, in ascending order: none is on a bad erase block, and every multiple in between that was passed over is bad; fails if and only if the erase size is not the device's or the device runs out of room |
| FlashDevice.NextGoodIs | mtd-utils-1.3.0/recv_image.c:204-207 | skipping bad blocks ends at a block that is not bad, and all that were skipped are |
| FlashDevice.PlacesAre | mtd-utils-1.3.0/recv_image.c:196-212 | the places of the blocks ascend in multiples of the erase size, none on the device is bad, and every multiple below the end of the last one is a place or bad |
| FlashDevice.RoomEnough | mtd-utils-1.3.0/recv_image.c:196-212 | a device that could hold the blocks besides all its bad ones has room, wherever the bad ones are |
| FlashDevice.SpareBlocks | mtd-utils-1.3.0/recv_image.c:297-334 | with erasures that work and room for one more block per failed write, every failed write can be made up for |
| Reception.GoesOn | mtd-utils-1.3.0/recv_image.c:216-334 | as long as failed writes can be made up for, the loop on values never gives up |
| Reception.TakenIs | mtd-utils-1.3.0/recv_image.c:228-258 | at every moment a block has recorded the first k different sound packets for it that have arrived since it last started over |
| Reception.PartsCost | mtd-utils-1.3.0/recv_image.c:284-334 | a block still incomplete has started over at least once for every part of the input with k different packets for it |
| Reception.Completes | mtd-utils-1.3.0/recv_image.c:216-350 | every failed write costs at most one more set of packets: enough packets for every block, once more often than writes fail, complete the reception |
| Receiver.Receiver.Relocate | mtd-utils-1.3.0/recv_image.c:300-334 | after a failed write the block starts over at a multiple of the erase size that is no bad block and that no other block uses, with only bad ones passed over, and the packet count is right again; fails if and only if the erasure fails or no good place is left |
| Receiver.Receiver.Accept | mtd-utils-1.3.0/recv_image.c:255-350 | for every pattern of failed writes the packet ends up recorded, alone after a relocation, and the other blocks are untouched; gives up if and only if a write is due, fails and cannot be made up for; counts writes and erasures |
| Receiver.Receiver.Handle | mtd-utils-1.3.0/recv_image.c:216-350 | one packet does exactly what it does on values: it gives up if and only if the image CRC or the block number does not belong to the image or a failed write cannot be made up for, otherwise packets recorded, writes and failures are those of the step; completion is reported exactly when all blocks are complete |
| Receiver.Receiver.Receive | mtd-utils-1.3.0/recv_image.c:159-351 | the loop ends exactly as on values, for every packet sequence and device: how, with which packet, and with which packets recorded; all packets handled carried the image CRC of the first one and numbers of its blocks; the invariant of all blocks holds at the end |
| Transfer.NewServer | mtd-utils-1.3.0/serve_image.c:75-167 | refuses exactly sizes that do not fit the code, partial blocks and empty images; else k packets of 2820 bytes just cover a block, n is one and a half times k, and block CRCs and zero padding of the last block are as the packets claim |
| Transfer.Server.SendPacket | mtd-utils-1.3.0/serve_image.c:195-220 | every packet sent is the encoding its header announces, with matching CRCs: packet number pkt_nr for odd blocks and n - 1 - pkt_nr for even ones; blocks before the last one encode bytes of their successors as padding |
| Transfer.SentMeans | mtd-utils-1.3.0/serve_image.c:185-220 | the header names block, packet and counts, the three CRCs are over image, block and data, and packets below k are bytes of the image itself |
| Transfer.SendCycle | mtd-utils-1.3.0/serve_image.c:181-220 | n rounds over all blocks; in round i odd blocks send packet i and even blocks packet n - 1 - i |
| Transfer.RoundNumbers | mtd-utils-1.3.0/serve_image.c:205-208 | in every round the packet numbers of neighbouring blocks add up to n - 1 |
| Transfer.CycleSendsEachOnce | mtd-utils-1.3.0/serve_image.c:181-220 | in one cycle packet j of a block is sent in exactly one round: round j for odd blocks, round n - 1 - j for even ones |
| Transfer.DecodeBlock | mtd-utils-1.3.0/recv_image.c:357-392 | reading a complete block back and decoding it never fails and gives the server's packets |
| Reception.EnoughCompletes | mtd-utils-1.3.0/recv_image.c:228-249 | k different sound packets for a block, in any order and with any duplicates, complete it |
| Transfer.DecodeAll | mtd-utils-1.3.0/recv_image.c:357-401 | every block decodes, passes the CRC comparison and equals the server's block |
| Transfer.ReceiveImage | mtd-utils-1.3.0/recv_image.c:159-401 | for every loss, duplication, reordering and pattern of failed writes, a completed reception is the image, block by block and as a whole; it gives up only for its headers, for lack of room or on a failed write that cannot be made up for, and completes if every block is offered k different packets once more often than writes fail |
| Transfer.TransferImage | mtd-utils-1.3.0/serve_image.c:181-220 | server and receiver together: of the server's packets any arrive, in any order and number; if the device has room and failed writes can be made up for, packets from k rounds for every block, once more often than writes fail, suffice for the whole image |
| RbSpec.InsertFixInorder | mtd-utils-1.3.0/rbtree.c:72-135 | fixing up after insertion never changes the order |
| RbSpec.InsertFixRedBlack | mtd-utils-1.3.0/rbtree.c:72-135 | it restores the red-black rules, from any position |
| RbSpec.InsertCorrect | mtd-utils-1.3.0/rbtree.c:72-135 | inserting a red leaf into any red-black tree gives a red-black tree with the item between its neighbours |
| RbSpec.EraseFixRedBlack | mtd-utils-1.3.0/rbtree.c:137-221 | fixing up a subtree that is one black node short restores the rules |
| RbSpec.EraseCorrect | mtd-utils-1.3.0/rbtree.c:223-288 | removal takes exactly the chosen item out of the order and keeps the rules |
| RbSpec.RedBlackShallow | mtd-utils-1.3.0/rbtree.c:72-288 | a red-black tree of m items is at most twice as deep as the binary logarithm of m + 1 |
| RbTree.RotateLeft | mtd-utils-1.3.0/rbtree.c:26-47 | the pointers after the rotation are those of the rotated tree at the same place, parent links and root included |
| RbTree.RotateRight | mtd-utils-1.3.0/rbtree.c:49-70 | the mirror image |
| RbTree.InsertColor | mtd-utils-1.3.0/rbtree.c:72-135 | the pointer loop leaves exactly the tree of RbSpec.InsertFix on the same nodes |
| RbTree.EraseColor | mtd-utils-1.3.0/rbtree.c:137-221 | the pointer loop leaves exactly the tree of RbSpec.EraseFix |
| RbTree.EraseDouble | mtd-utils-1.3.0/rbtree.c:232-268 | with two children the successor takes the node's place, and its own place is closed |
| RbTree.RbErase | mtd-utils-1.3.0/rbtree.c:223-288 | for every node of every red-black tree: exactly that node leaves the in-order sequence, the tree stays red-black and its links consistent |
| Hardlinks.NotThere | mtd-utils-1.3.0/mkfs.jffs2.c:122-136 | when the search runs out, no entry has the key and the place found keeps the order descending |
| Hardlinks.FirstMeans | mtd-utils-1.3.0/mkfs.jffs2.c:122-136 | the entry that answers for a key is the first one with the same device and inode, and there is none only if no entry has them |
| Hardlinks.Population.Search | mtd-utils-1.3.0/mkfs.jffs2.c:116-136 | ends at the entry with the same device and inode, or at the insertion point |
| Hardlinks.Population.FindHardlink | mtd-utils-1.3.0/mkfs.jffs2.c:116-141 | over any sequence of calls: the answer is the inode number of the first entry passed with the same key, or 0 if there was none |
| Hardlinks.Population.NumberEntries | mtd-utils-1.3.0/mkfs.jffs2.c:1318-1350 | two entries written get the same inode number if and only if both are links to the same file |
| TrieSpec.SplitSame | module-init-tools-3.5/index.c:88-112 | splitting a node does not change the strings of the index |
| TrieSpec.PlugAdds | module-init-tools-3.5/index.c:77-146 | adding a string below a path adds the string with the path in front, and nothing else |
| TrieSpec.PlugCompact | module-init-tools-3.5/index.c:77-146 | below the root every node ends a string or has two children, also after a change further down |
| IndexTree.CheckString | module-init-tools-3.5/index.c:56-75 | with unsigned chars exactly strings of characters up to 127 that contain a space pass, with signed ones every string that contains a space |
| IndexTree.SplitNode | module-init-tools-3.5/index.c:90-111 | the split on the heap: a copy takes over the children, the node keeps one |
| IndexTree.IndexInsert | module-init-tools-3.5/index.c:77-146 | adds exactly the string, returns whether it was there already, and keeps the shape; unacceptable strings are refused |
| IndexFile.FlaggedParts | module-init-tools-3.5/index.c:183-203 | below 2^28 the position and the three flags of an offset can be told apart |
| IndexFile.WordBytes | module-init-tools-3.5/index.c:220 | a word is stored most significant byte first |
| IndexFile.WordMeans | module-init-tools-3.5/index.c:248-256 | a word is read most significant byte first |
| IndexFile.StoredExtends | module-init-tools-3.5/index.c:206-227 | what has been stored stays readable when the file grows or its header is rewritten |
| IndexFile.NodeWritten | module-init-tools-3.5/index.c:183-203 | a node written behind its children is stored at the offset returned |
| IndexFile.WriteNode | module-init-tools-3.5/index.c:160-204 | post-order writing stores the whole trie at the offset returned, in exactly the bytes that prefixes, child tables and children take |
| IndexFile.IndexWrite | module-init-tools-3.5/index.c:206-227 | the file has exactly 8 bytes and the trie's, starts with the bytes B0 07 FA 57, and below 2^28 bytes it holds the trie, with the root offset behind them |
| IndexSize.Canonical | module-init-tools-3.5/index.c:77-146 | the stored strings determine the trie: prefixes, ends and children are the same in whatever order they were inserted |
| IndexSize.FileLength | module-init-tools-3.5/index.c:160-227 | two indexes of the same strings take the same number of bytes |
| IndexSize.FileBound | module-init-tools-3.5/index.c:160-227 | an index takes at most 1024 bytes per string, and the strings' characters, beyond a constant |
| IndexFile.ReadMatches | module-init-tools-3.5/index.c:396-437 | the fields read determine the node and where its children are stored |
| IndexFile.IndexRead | module-init-tools-3.5/index.c:396-437 | reads a stored node back; no node if and only if the offset is 0; an error if and only if the file ends within the node's prefix or child table |
| IndexSearch.WordOrder | module-init-tools-3.5/index.h:24 | stored words compare byte by byte as the numbers they stand for |
| IndexSearch.LexMeans | module-init-tools-3.5/index.c:581-605 | lexicographic order, without recursion: behind what two strings share, one ends or has the smaller character |
| IndexSearch.LeastIsLeast | module-init-tools-3.5/index.c:581-605 | following first children to the first end of a string gives the lexicographically least string |
| IndexSearch.FirstValue | module-init-tools-3.5/index.c:581-605 | the value returned is the rest of that least string |
| IndexSearch.SearchNode | module-init-tools-3.5/index.c:543-579 | NULL if no string is the key, a space and a value; otherwise the least such value |
| IndexList.StringsAre | module-init-tools-3.5/index.c:472-500 | the listing contains exactly the strings of the index |
| IndexList.StringsAscending | module-init-tools-3.5/index.c:472-500 | the listing is strictly ascending |
| IndexList.LinesBack | module-init-tools-3.5/index.c:472-511 | taken apart at its newlines, the output is the strings again, each behind the prefix |
| IndexList.DumpNode | module-init-tools-3.5/index.c:472-500 | the recursive walk writes the listing and restores the shared buffer |
| IndexList.Dump | module-init-tools-3.5/index.c:502-511 | one line for each string, in ascending order |
| IndexWild.PicksBehind | module-init-tools-3.5/index.c:672-720 | text that pattern and key share in front makes no difference to what is picked |
| WildValues.AllValues | module-init-tools-3.5/index.c:782-807 | puts every value below a node once in front of the list, so that the greatest comes first |
| WildValues.All | module-init-tools-3.5/index.c:724-763 | completes and tries every pattern below a wildcard, and puts the values of those that match in front of the list, each in front of those found before |
| IndexWild.RestSplit | module-init-tools-3.5/index.c:684-720 | behind a literal piece only the wildcard children, the end of the key or its next character can contribute |
| IndexWild.WalkFound | module-init-tools-3.5/index.c:642-722 | the walk, at each node the children `*`, `?`, `[` and then the end of the key or its next character, finds what is picked for each stored string |
| IndexWild.SearchWild | module-init-tools-3.5/index.c:642-722 | for any index and any key the list is that of the walk in reverse, what is found last first; as a multiset it is what is picked for each stored string: by fnmatch from a wildcard on, behind the space at which the key ends, and both where the key has the wildcard of an edge |
| WildOrder.WalkOrdered | module-init-tools-3.5/index.c:684-720 | the walk comes to the strings in an order of the strings alone: where two first differ with no wildcard or space before, `*`, `?` and `[` go ahead of all other characters, which ascend; behind a shared wildcard or space the strings ascend |
| WildOrder.WalkPlain | module-init-tools-3.5/index.c:684-720 | for keys without wildcards, brackets and spaces the values come in this order |
| WildExact.FoundPlain | module-init-tools-3.5/index.c:642-722 | for keys without wildcards, brackets and spaces these are the values of the strings whose pattern, as the search reads it, matches, once each |
| WildExact.OnEdgeStrings | module-init-tools-3.5/index.c:693-698 | position n of a stored string is on an edge if and only if n is 0 or another stored string agrees on the first n characters and ends there or differs |
| ShellPattern.LiveIff | module-init-tools-3.5/index.c:765-780 | some key matches a pattern if and only if each of its items takes some character of a key |
| ShellPattern.GlobExamples | module-init-tools-3.5/index.c:765-780 | ranges, negated brackets, a bracket that begins with `]` and an escaped `?`, each with a key that matches and one that does not |
| WildExact.ReadExact | module-init-tools-3.5/index.c:672-709 | search and fnmatch agree about a stored pattern on every key, unless its rest is live and the first wildcard is a `?` on an edge or a backslash comes before it |
| WildExact.SearchExact | module-init-tools-3.5/index.c:642-722 | the values found are the right ones for every key if no pattern is misread; and only if, for stored strings without a backslash in front of a first wildcard, and for every string that alone has its value |
| IndexRun.SearchInserted | module-init-tools-3.5/index.c:532-605 | inserting, writing and searching: none exactly when no string inserted is key, space, value; otherwise the least value; the run goes through for acceptable strings whose file stays below 2^28 bytes, which FileBound ensures |
| IndexRun.DumpInserted | module-init-tools-3.5/index.c:502-511 | inserting, writing and dumping: every string once, in ascending order, and read back line by line unless it contains a newline; it goes through under the same condition |
| IndexRun.SearchWildInserted | module-init-tools-3.5/index.c:642-807 | inserting, writing and wildcard search, for any strings and any key: what is found depends on the strings alone; for plain keys exactly the values of the strings whose pattern, as the search reads it, matches, in the reverse of the walk's order; it goes through under the same condition |
| IndexRun.QuestionRun | module-init-tools-3.5/index.c:693-698 | with the one string `? v` inserted, the search for `ab` finds `v`, which does not match |
| IndexRun.OrderRun | module-init-tools-3.5/modprobe.c:1327-1334 | with `a* x`, `a* y`, `a? w`, `a[$-z] q` and `a% z` inserted in any order, the search for `a%` returns z, q, w, y, x |
| IndexRun.SmallIndex | module-init-tools-3.5/index.h:24-28 | a 24-byte file, given byte by byte, is the index of `a v` and `b w` |
| IndexRun.SmallSearch | module-init-tools-3.5/index.c:532-605 | the search for `b` in that file returns w |
| DepGraph.HasDepLoop | module-init-tools-3.5/depmod.c:403-417 | terminates on every graph and returns 1 if and only if a loop can be reached from the module |
| DepGraph.StripLoops | module-init-tools-3.5/depmod.c:720-733 | what is left are, in order, exactly the modules without a reachable loop |
| DepGraph.KeptClosed | module-init-tools-3.5/depmod.c:720-733 | whatever a kept module needs, directly or not, is kept as well if it was listed, and is not the module itself |
| DepOrder.OrderedShape | module-init-tools-3.5/depmod.c:419-432 | on any list, the modules needed move to the end, listed once and each before what it needs |
| DepOrder.OrderedCorrect | module-init-tools-3.5/depmod.c:419-432 | the list for a module is all it needs, once each, every module before its dependencies |
| DepOrder.OrderedExact | module-init-tools-3.5/depmod.c:419-432 | the list is the depth-first walk through the dependencies, of every module the last occurrence |
| IntrusiveList.ListDel | module-init-tools-3.5/list.h:92-107 | the ring without the node |
| IntrusiveList.ListAddTail | module-init-tools-3.5/list.h:41-83 | the ring with the node before the head |
| DepList.OrderDepList | module-init-tools-3.5/depmod.c:419-432 | the moves on the linked lists compute the ordering |
| DepList.OutputDeps | module-init-tools-3.5/depmod.c:473-493 | every line lists exactly the last occurrences of its module's depth-first walk, in order, and all nodes are on their own again |
| DepList.ReadLine | module-init-tools-3.5/modprobe.c:225-265 | modprobe's list is the module followed by its line; of a module that occurs repeatedly the last occurrence counts |
| DepList.LineOrders | module-init-tools-3.5/modprobe.c:797-828 | in list order every module stands before all that it needs, directly or through others, in reverse behind it |
| DepList.Modprobe | module-init-tools-3.5/modprobe.c:797-969 | every module involved is inserted once, after all that it needs, directly or through others, and removed before them: the line itself, from the front |
| DepList.Depmod | module-init-tools-3.5/depmod.c:473-493 | every module without a reachable loop gets its line, that of OutputDeps |
| Rtime.CopiedRun | mtd-utils-1.3.0/compr_rtime.c:46-50 | a run found in the source is reproduced byte by byte, also where it overlaps itself |
| Rtime.Compress | mtd-utils-1.3.0/compr_rtime.c:26-63 | the pairs stand for a prefix of the source, no run could have been longer within 255 bytes and the source, and packing stops only for lack of source or room; it fails exactly when the pairs do not take less than what they stand for |
| Rtime.GreedyMeans | mtd-utils-1.3.0/compr_rtime.c:46-50 | for every longer run, up to 255 bytes and the end of the source, the source does not repeat |
| Rtime.OutcomeMeans | mtd-utils-1.3.0/compr_rtime.c:26-63 | how much is packed, with what runs, and when that is a failure, without the packing itself |
| Rtime.CompressEqual | mtd-utils-1.3.0/compr_rtime.c:38-62 | n equal bytes take exactly one pair for every 256 of them, rounded up, and this fails if and only if it is not less than n |
| Rtime.ExpandExamples | mtd-utils-1.3.0/compr_rtime.c:66-99 | what two sequences of pairs stand for, an overlapping run and a run from before |
| Rtime.Decompress | mtd-utils-1.3.0/compr_rtime.c:66-99 | reads pairs until they stand for destlen bytes or more, and writes exactly what they stand for, however far the last one reaches |
| Rtime.RoundTrip | mtd-utils-1.3.0/compr_rtime.c:26-99 | what was compressed comes back |

## Left out

- The second phase of the receiver after decoding (recv_image.c:407-470): erasing, rewriting and retrying.
- The server's pacing, sequence numbers and sockets; progress output and timing everywhere.
- The hash, extended-attribute and device-table parts of mkfs.jffs2; sumtool, jffs2reader, the zlib and LZO compressors; ELF parsing, aliases and options of depmod and modprobe.
- GF_BITS other than 8: the field is fixed at 256 elements, as compiled.
- GaussJordan.InvertMat: matrices are two-dimensional arrays, so the row-major index arithmetic of the flat buffers is not modelled; the two error branches that cannot be reached are absent.
- GaloisTables.InitFec: the tables are filled in place and then passed on as a value, since nothing changes them afterwards.
- Fec.FecDecode: the k packet buffers are separate arrays; packets overlapping in one buffer are not modelled.
- Receiver.Receiver.Handle: the duplicate scan stops at pkts_per_block entries; the source scans past them for surplus packets, which are dropped either way.
- Receiver.Receiver.Relocate: rounding down with a mask is modelled as rounding to a multiple of the erase size, which is the same for powers of two. Erase blocks are values in a sequence that the methods reassign.
- Transfer.Server.SendPacket: for blocks whose packets end within the image, or the last one; with several blocks of less than half a packet the source reads behind the end of the image.
- Receiver.Receiver.Receive: packets whose CRC agrees are taken to be the server's, the first packet's stream parameters to be the server's, and the write buffer size to divide the erase size; a failed write may leave anything within its own range. Which blocks are bad does not change during a run, in which no block is asked about twice.
- RbTree.RbErase: parent and colour are two fields instead of one word; rb_next, rb_prev, rb_first, rb_last and rb_replace_node are not modelled.
- Hardlinks.Population.NumberEntries: inode numbers do not wrap at 32 bits; directories are one sequence of entries in visiting order.
- IndexTree.IndexInsert: characters are unsigned; where they are signed, IndexTree.CheckString lets bytes above 127 pass, and the source then indexes the child table with a negative number.
- IndexFile.WriteNode: says nothing about files of 2^28 bytes and more, where positions run into the flag bits.
- IndexSearch.SearchNode: for files that hold an index; on damaged files the source stops or may not terminate. Only single node reads model truncated files.
- IndexWild.SearchWild: what fnmatch does from a wildcard on is a parameter.
- WildExact.ReadExact: fnmatch is modelled with ranges, negated brackets and escapes, but without named character classes, collating symbols and escapes within brackets.
- WildExact.SearchExact: the second half is proved for stored strings without a backslash in front of a first wildcard, and for every string that alone has its value; WildExact.ReadExact covers every string by itself.
- DepGraph.StripLoops: the module list is a sequence; reporting of loops is absent.
- DepList.Modprobe: modules are numbers, so matching of file and module names is absent; insertion and removal are taken to be attempted for every module, as the source does.
- Rtime.Compress: positions are kept in 16 bits by the source, so sources are at most 32767 bytes; dstlen is at least 2, below which the source's unsigned comparison wraps.
- Rtime.Decompress: data that has enough pairs and a buffer that holds what they stand for, since the source checks neither; destlen is at most 32767, because positions are kept in 16 bits.
- Memory allocation failure, and freeing.
