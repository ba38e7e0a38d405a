# Verified model of `mand` and `libdmconfig`

`mand` keeps the configuration of a device as a typed tree of values, described by a
schema that is generated from YANG. Table instances are found through several indexes at
once, sessions change values through a write cache, and clients talk to the store over a
Diameter-like protocol of attribute-value pairs. This project models the parts of that
system where the state is hard to keep right, and proves what they promise.

`dafny verify dfyconfig.toml` checks everything. No file depends on anything outside of this directory.

## Parts

- **Multi-index** (`RbShape`, `RbHeap`, `RbBalance`, `RowGroups`, `RbWellFormed`, `RbOrder`,
  `RbIndex`, `InstanceTree`, `TableRun`, `InstanceId`, `RowIds`, `KeyOrder`). A class `Index` holds the pointer
  fields of the rows (left, right, parent, colour, prev, next) as maps from rows to records and
  changes them as the C code does. Its invariant says that they represent a red-black tree of
  group heads with a chain of equal-key rows on each head. The specification is a plain list of
  groups in key order and insertion by linear scan. `InstanceTree` links a row into all indexes of
  a table, `RowIds` keeps the id map, `TableRun` runs any sequence of operations on both from an empty table,
  `InstanceId` picks instance numbers, and `KeyOrder` settles for which key types the comparison is the total order
  that the indexes rely on.
- **AVP codec** (`AvpFormat`, `AvpRequest`, `AvpMessage`): section 4.1 and section 4.4 of RFC 6733 for AVPs, its
  section 3 for the message header. The class `Request` is the growing buffer with its stack of open groups; whatever
  run of calls it goes through, its bytes are those of the AVP tree built so far and
  all bytes beyond are zero.
- **Action graph** (`ActionGraph`, `ActionOrder`): closure, transitive reduction and ordering by depth.
- **Request protocol** (`PacketStream`, `DmContext`, `DmConnection`): the class
  `Connection` is one end of a connection. Every `write()`, `recv()` and `read()` returns what a script says, for all
  scripts; a script that ends stands for a socket that would block.
- **Sessions and write cache** (`ConfigSession`): the class `Server` refines two plain maps, what is
  committed and what is to come. The order in which the cache tree is drained is left open.
- **Walks** (`ListTree`, `ListDecode`, `ListAnswer`, `ListCall`, `SaveTree`): the listing of a value tree and its
  decoder, on top of the codec; the whole answer, and its way to the entry of the client's queue that awaits it;
  passing marks up the tree and saving what is marked.
- **Names, Base64, leases** (`PathName`, `Base64`, `LeasePool`).
- `Basics` holds what several parts share.

## Findings

The model follows the code. Where the code does not meet what one would expect of it, one lemma or method shows this
on a concrete input and another says exactly when it does:

- A packet of 2^24 bytes or more has a length in its header that is cut to 24 bits. A message is decoded exactly if
  the whole packet fits (`AvpMessage.Transmitted`); sixteen AVPs that fit make a packet that says it is empty
  (`AvpMessage.TooLong`, and `ListDecode.ListTooLong` for a listing).
- A value that dm_add_avp cannot add, such as a date after February 2036, is listed as an element without a value, and
  the client then drops the rest of that table. All leaves come back exactly if none is listed without a value
  (`ListDecode.AllComeBack`, and `ListDecode.DateHidesNumber` for two leaves).
- dm_expect_avp reads the length of a header before it checks whether it is there. All that it reads lies inside of
  the group exactly if the group is at its end or has eight bytes left (`AvpFormat.HeaderInside`); otherwise it is
  refused, whatever is read (`AvpFormat.CutHeader`), so bytes that are not the group's never matter
  (`AvpFormat.ForeignBytes`). `AvpFormat.MalformedGroup` is such a group.
- The stack of open groups has sixteen entries and is not checked. A listing fits exactly if the tree, without
  elements that have no key, absent tables and what is below the limit, has fewer levels than are left
  (`ListDecode.ListFits`, with a tower of sixteen levels that does not).
- A packet header that announces a length of 0 makes readEvent peek at it for ever. The rounds end exactly if no
  header that is met says 0 (`PacketStream.RoundsEndIff`, with twenty zero bytes in `PacketStream.ZeroHeader`).
- writeEvent returns at once when the queue is empty, although the rest of a packet may still be in hand: an entry
  without a reply leaves the queue when its first byte is written. With calls that take all that is offered everything
  is written exactly unless the queue is empty and a packet is in hand (`DmConnection.WriteAll`, with a packet of
  which ten bytes are written and never more in `DmConnection.HalfWritten`).
- The transitive reduction keeps reachability exactly if the relation is acyclic (`ActionGraph.ReductionSameIff`, with
  a two-cycle in `ActionGraph.CycleLosesAll`).
- An action listed twice in a chain stays there once although its edge is redundant (`ActionOrder.ThinBetween`, with
  three actions in `ActionOrder.DoubledStays`). depth_first does not end exactly if such actions form a cycle
  (`ActionOrder.CyclesLeft`, `ActionOrder.Endless`, with one action that lists itself twice in
  `ActionOrder.SelfListedTwice`).
- `dm_binarycmp` tests the same length condition twice, so that a proper prefix compares as equal
  (`KeyOrder.BinaryIff`, `KeyOrder.BinaryNotOrdered`), and `T_BOOL` compares as greater in both directions
  (`KeyOrder.BoolFlips`, `KeyOrder.BoolNotOrdered`). Neither is an order.
- An instance 65535 is printed but not parsed, because that number means an error (`PathName.RoundTrip`, with a path
  in `PathName.InstanceLost`).
- A name is read up to a value, or up to an instance number that is 0 in 16 bits, and what is behind that is not
  looked at (`PathName.Name2Sel`, `PathName.LeftOver`): "a.b.c" is taken for "a.b" where b is a value, and "t.0.c" for
  "t" (`PathName.BehindValue`, `PathName.BehindZero`).
- Base64 text without its padding is decoded with one byte too many, exactly if padding is missing
  (`Base64.UnpaddedDecoded`, with "Zg" in `Base64.UnpaddedOne`).
- A commit that was refused because of validation is accepted when it is repeated without any change, exactly if every
  rejection left an error code: entries that have one are not asked about again (`ConfigSession.Server.CommitTwice`,
  with a server of one leaf in `ConfigSession.RefusedThenAccepted`).
- `rpc_db_commit` and `rpc_db_cancel` are also accepted from a connection without a session while nobody configures;
  they then have nothing to apply (`ConfigSession.Server.Commit`, with one such connection in
  `ConfigSession.CommitWithoutSession`).
- The assertion on the id map in remove_instance divides the number of the row, not its bit, and so fails exactly on
  the last number (`RowIds.LastNumberAsserts`, with 32 rows in `RowIds.LastRow`).
- The automatic instance number is 0 when no number above the base is free (`InstanceId.AutoId`, with a table of
  0x3FFF automatic instances in `InstanceId.NoNumberLeft`).

## Model

| member | source | states |
|---|---|---|
| `RbIndex.Index.RotateLeft` | mand/dm_index.c:213-230 | turns the subtree at the row to the left in the pointer structure, and changes no link outside of the rows involved |
| `RbIndex.Index.RotateRight` | mand/dm_index.c:232-250 | the mirror image |
| `RbHeap.RotatedLeftRep` | mand/dm_index.c:213-230 | after these pointer writes the fields represent the rotated tree at the same place of the whole tree |
| `RbHeap.RotatedRightRep` | mand/dm_index.c:232-250 | the mirror image |
| `RbShape.PlugInOrder` | mand/dm_index.c:213-250 | what is left and right of a subtree in index order does not depend on the subtree's shape, so no rotation changes the order |
| `RbIndex.Index.InsertColor` | mand/dm_index.c:252-296 | from a tree that is red-black but for a red row under a red parent, makes a red-black tree with the same rows in the same order |
| `RbBalance.FlipState` | mand/dm_index.c:262-268 | recolouring under a red uncle moves the violation up two levels and keeps all black heights |
| `RbBalance.LiftLeftState` | mand/dm_index.c:275-276 | the last rotation of an insertion leaves no violation |
| `RbIndex.Index.RemoveColor` | mand/dm_index.c:298-365 | from a tree in which one subtree is one black row short, makes a red-black tree with the same rows in the same order |
| `RbBalance.UncoverLeftState` | mand/dm_index.c:304-309 | a red sibling is turned away and the shortage is now below a red parent |
| `RbBalance.PassUpState` | mand/dm_index.c:310-314 | without red nephews the shortage moves up one level |
| `RbBalance.FillLeftState` | mand/dm_index.c:324-330 | with a red outer nephew the shortage ends |
| `RbIndex.Index.Replace` | mand/dm_index.c:374-394 | the new row has the old row's children, parent and colour, these point to it, and no other field changes |
| `RbIndex.Index.Successor` | mand/dm_index.c:396-486 | finds the row that follows in the tree: it is at the left end of the right subtree and has no left child |
| `RbIndex.Index.Remove` | mand/dm_index.c:396-486 | the index is well formed again and holds the old groups without the row, in the same order; no key is looked at |
| `RbIndex.Index.Insert` | mand/dm_index.c:489-528 | the new groups are those of insertion by linear scan, in key order; the result is NULL if and only if no linked row has the key, otherwise it is a linked row that has it |
| `RbIndex.Index.Find` | mand/dm_index.c:532-549 | returns a linked row with the key, if and only if a scan of all linked rows finds one |
| `RbIndex.Index.TreeNext` | mand/dm_index.c:551-570 | the head of the next group, NULL after the last |
| `RbIndex.Index.TreePrev` | mand/dm_index.c:585-604 | the head of the group before, NULL before the first |
| `RbIndex.Index.IdxNext` | mand/dm_index.c:572-583 | the row that follows in the list of all linked rows in index order |
| `RbIndex.Index.IdxPrev` | mand/dm_index.c:606-620 | the row that comes before in that list |
| `RowGroups.StepsInverse` | mand/dm_index.c:572-620 | one row follows another if and only if the other comes before it |
| `RbIndex.Index.MinMax` | mand/dm_index.c:622-642 | the first or last row of that list, NULL if there is none |
| `RbIndex.Index.Traverse` | mand/dm_index.c:695-725 | from the first row along the next rows every linked row is visited once, in index order |
| `RbOrder.FlatSorted` | mand/dm_index.c:572-583 | index order is non-decreasing key order |
| `RowGroups.FlatNoDup` | mand/dm_index.c:572-583 | no row is visited twice |
| `RowGroups.FlatRemoved` | mand/dm_index.c:396-486 | removal takes exactly one row out of the list of rows and keeps the order of the others |
| `RbOrder.RemovedSorted` | mand/dm_index.c:396-486 | the index stays in order for the present keys even if the key of the row that leaves was overwritten before |
| `RbOrder.NewSorted` | mand/dm_index.c:489-528 | a row with a new key at the place where the search ends keeps the heads strictly ascending |
| `RbOrder.JoinedSorted` | mand/dm_index.c:489-528 | a row that joins the chain of an equal head keeps the order |
| `RbWellFormed.PlaceOf` | mand/dm_index.c:396-420 | a linked row has the neighbours of its place on a chain; it is in the tree and coloured if it is the head of its group, and white otherwise |
| `InstanceTree.InstanceTree.InsertInstance` | mand/dm_index.c:837-873 | afterwards every index is well formed and in order; it holds the row unless it is unique and had its key, and then is as before |
| `InstanceTree.BackOut` | mand/dm_index.c:853-859 | removing a row right after inserting it gives the index back as it was |
| `InstanceTree.NoClashSingle` | mand/dm_index.c:853-859 | a unique index that admits a row still holds every key once |
| `InstanceTree.InstanceTree.RemoveInstance` | mand/dm_index.c:875-900 | every index loses exactly this row, also if it never held it |
| `InstanceTree.InstanceTree.UpdateIdx` | mand/dm_index.c:902-915 | an index in order for the old key of the row is in order for its new key, and unique if it has to be |
| `InstanceTree.InstanceTree.UpdateAll` | mand/dm_index.c:938-948 | the same for all indexes of the table |
| `InstanceTree.UpdatedMembers` | mand/dm_index.c:902-948 | no other row's membership changes; the row stays out if and only if the index is unique and another row has its new key |
| `InstanceTree.InsertedIn` | mand/dm_index.c:489-528 | the linked rows grow by exactly the row inserted |
| `InstanceTree.RemovedIn` | mand/dm_index.c:396-486 | the linked rows shrink by exactly the row removed |
| `InstanceTree.RemovedOrder` | mand/dm_index.c:902-915 | an index stays sorted for the new keys once the row whose key changed is out, whether it was linked or not |
| `InstanceTree.ScanInstance` | mand/dm_index.c:963-979 | without an index the first match in instance order is found; with unique instance numbers NULL means that no row matches |
| `RbIndex.Index.constructor` | mand/dm_index.c:126-156 | an index without rows is well formed |
| `InstanceTree.InstanceTree.constructor` | mand/dm_index.c:126-156 | a table without rows: every index is well formed, in order and empty |
| `TableRun.InsertRow` | mand/dm_index.c:837-873 | the row is in every index that admits it, is counted, and gets the least number that no row has, or 0 if and only if all are taken; no other number changes |
| `TableRun.RemoveRow` | mand/dm_index.c:875-900 | the row is in no index, is not counted any more, and its number is free; no other number changes |
| `TableRun.Do` | mand/dm_index.c:837-948 | after inserting, removing or re-indexing a row, each index holds exactly the rows that it should and is in order for the present keys; exactly the rows of the table are counted and have numbers, which stay theirs |
| `TableRun.Run` | mand/dm_index.c:837-948 | the same after any sequence of insertions, removals and overwritten keys: well formed, in order, and exactly the rows that the sequence leaves linked; the id map and the count are those of the rows that are left |
| `TableRun.RunFromEmpty` | mand/dm_index.c:837-948 | the same for every sequence that starts with an empty table |
| `RowIds.FirstClear` | mand/bitmap.h:27-37 | the least clear bit, -1 if and only if there is none |
| `RowIds.RowIds.Assign` | mand/dm_index.c:860-869 | the row gets the least number that no row has, or 0 if and only if all are taken; a bit is set if and only if some row has its number |
| `RowIds.RowIds.Release` | mand/dm_index.c:891-896 | the number of exactly this row is free again |
| `RowIds.LastNumberAsserts` | mand/dm_index.c:891-892 | the assertion holds of a number in use if and only if it is not the last one |
| `RowIds.LastRow` | mand/dm_index.c:860-892 | the 32nd row of a table with one word gets the number that the assertion refuses |
| `InstanceId.AutoId` | mand/dm_store.c:425-438 | the number is the least unused one above the base; it is 0 if and only if there is none |
| `InstanceId.NoNumberLeft` | mand/dm_store.c:425-438 | a table with all numbers above 0xC000 in use, for which the number is 0 |
| `InstanceId.NextGap` | mand/dm_store.c:432-437 | a number that the next row in order skips is used by no row at all |
| `KeyOrder.NumberSigns` | mand/dm_store.c:1485-1564 | the sign is that of the difference, for numbers and for enumerations, of which less is tested by a subtraction |
| `KeyOrder.LexMeans` | mand/dm_store.c:1528-1580 | the order of strings, addresses and paths: at the first place where they differ, the one that ends or has the smaller byte comes first |
| `KeyOrder.EqualOnly` | mand/dm_store.c:1528-1580 | only equal strings, addresses and paths compare as equal |
| `KeyOrder.NumbersOrdered` | mand/dm_store.c:1485-1564 | numbers, dates, ticks and enumerations compare like a total order |
| `KeyOrder.StringsOrdered` | mand/dm_store.c:1528-1580 | strings with NULL first, and addresses, compare like a total order |
| `KeyOrder.SelCmp` | mand/dm_store.c:1441-1457 | compares the paths lexicographically, with NULL first, and ignores what is behind their end; NULL comes before NULL too |
| `KeyOrder.SelectorsOrdered` | mand/dm_store.c:1566-1574 | selectors compare like a total order |
| `KeyOrder.BoolFlips` | mand/dm_store.c:1525-1526 | the sign flips with the arguments if and only if they are equal |
| `KeyOrder.BoolNotOrdered` | mand/dm_store.c:1525-1526 | booleans are not ordered |
| `KeyOrder.BinaryIff` | mand/dm_store.c:1459-1480 | binary values compare lexicographically, with NULL first, if and only if the first is not a proper prefix of the second |
| `KeyOrder.BinaryNotOrdered` | mand/dm_store.c:1459-1480 | binary values are not ordered |
| `AvpFormat.RoundTrip24` | libdmconfig/dmmsg.h:193-203 | a number is read back modulo 2 to the 24 |
| `AvpFormat.PayloadInside` | libdmconfig/dmmsg.c:116-154 | on any bytes, a payload lies inside of its group and every AVP moves the cursor on by at least 8 |
| `AvpFormat.HeaderInside` | libdmconfig/dmmsg.c:128-134 | the bytes that are read, in the order in which they are read, lie inside of the group if and only if the group is at its end or has eight bytes left |
| `AvpFormat.CutHeader` | libdmconfig/dmmsg.c:128-139 | a header that is cut off by the end of its group is refused, whatever is read behind it |
| `AvpFormat.ForeignBytes` | libdmconfig/dmmsg.c:116-154 | the result depends on the bytes of the group only, on any bytes |
| `AvpFormat.MalformedGroup` | libdmconfig/dmmsg.c:128-139 | a group of four bytes, of which the eighth is read before it is refused |
| `AvpFormat.ParseWrap` | libdmconfig/dmmsg.c:116-154 | one encoded AVP is decoded to its code, vendor and content, wherever it lies |
| `AvpFormat.RoundTrip` | libdmconfig/dmmsg.c:116-154 | every tree of AVPs whose lengths fit is decoded from its encoding: same codes, vendors, payloads and nesting, and the end where it should be |
| `AvpFormat.DecodesOne` | libdmconfig/dmmsg.c:116-154 | the same bytes are not the encoding of two different messages of the same shape |
| `AvpRequest.Request.constructor` | libdmconfig/dmmsg.c:158-181 | an empty packet with its header |
| `AvpRequest.Request.EnsureSpace` | libdmconfig/dmmsg.c:222-239 | afterwards there is room for the bytes asked for, what was written is kept and all beyond is zero, also where the buffer was larger than the block count says |
| `AvpRequest.WrittenWrap` | libdmconfig/dmmsg.c:257-288 | into zeroed memory the writes of one AVP make exactly its encoding, with its flag byte and padding, and leave the rest zero |
| `AvpRequest.Request.PutAvp` | libdmconfig/dmmsg.c:257-288 | the innermost open group has one AVP more, or nothing changes if data is missing |
| `AvpRequest.Request.NewGroup` | libdmconfig/dmmsg.c:194-201 | a group is open inside of the innermost one |
| `AvpRequest.Request.FinalizeGroup` | libdmconfig/dmmsg.c:203-220 | the innermost group becomes an AVP of the one around it; without an open group it fails and changes nothing |
| `AvpRequest.Request.FinalizePacket` | libdmconfig/dmmsg.c:183-192 | only with all groups closed; the packet is its header with the full length, and the encoding of all AVPs |
| `AvpRequest.Request.AddUint32GetPos` | libdmconfig/dmmsg.c:241-250 | at any level, the position remembered is that of the payload of the new AVP |
| `AvpRequest.Request.PutUint32AtPos` | libdmconfig/dmmsg.c:252-255 | changes the value of that AVP and no other byte, at whatever level of open and closed groups it is |
| `AvpRequest.PatchPayload` | libdmconfig/dmmsg.c:252-255 | overwriting a payload in place, in nested groups too, is the encoding of the message with that value |
| `AvpRequest.SpotAfterAdd` | libdmconfig/dmmsg.c:257-288 | a remembered position stays that of its AVP when more AVPs are written |
| `AvpRequest.SpotAfterOpen` | libdmconfig/dmmsg.c:194-201 | and when a group is opened |
| `AvpRequest.SpotAfterClose` | libdmconfig/dmmsg.c:203-220 | and when the group that it is in is closed |
| `AvpMessage.WriteAll` | libdmconfig/dmmsg.c:194-288 | any tree of AVPs that fits the 16 levels can be written, and is what the packet then holds |
| `AvpMessage.AvpGroup.ExpectAvp` | libdmconfig/dmmsg.c:116-154 | the next AVP, the end or an error, as decoding defines it |
| `AvpMessage.AvpGroup.ExpectRaw` | libdmconfig/dmconfig.c:197-212 | succeeds if and only if the next AVP is the one expected; the cursor moves on even if it is not |
| `AvpMessage.AvpGroup.ExpectGroup` | libdmconfig/dmconfig.c:391-403 | a cursor over the payload of the group expected |
| `AvpMessage.ReadAll` | libdmconfig/dmconfig.c:197-228 | a receiver that knows where the groups are gets the message that was written, up to its end |
| `AvpMessage.Transmitted` | libdmconfig/dmmsg.c:83-99 | with the payload size read from the header that dm_finalize_packet writes, the packet decodes to the AVPs that were put in if and only if it is shorter than 2^24 bytes |
| `AvpMessage.FinishedSize` | libdmconfig/dmmsg.c:83-87 | the size in the header is that of the body if and only if the packet is shorter than 2^24 bytes |
| `AvpMessage.TooLong` | libdmconfig/dmmsg.c:83-87 | sixteen AVPs that fit, in a packet that is decoded as an empty one |
| `AvpMessage.AddressedSent` | libdmconfig/dmmsg.c:158-192 | in a packet that fits 24 bits, each header field reads back as the length, flags, code and ids given |
| `AvpMessage.Send` | libdmconfig/dmmsg.c:158-288 | for a message of any size, what is built with the calls is the header and the encoding of the AVPs, and is written as far as the header says; if that fits, the header has the length, flags, code and ids given |
| `AvpMessage.SentWhole` | libdmconfig/dmcontext.c:492-546 | the whole packet is written if and only if it is shorter than 2^24 bytes |
| `AvpMessage.Transmit` | libdmconfig/dmmsg.c:83-288 | built, finalised, sent and read with the decoding calls, every message that fits arrives as it was |
| `ActionGraph.Warshall` | yang/pyang_plugin/OpenCPE.py:737-746 | an entry is 1 if and only if there is a path, for every relation |
| `ActionGraph.RelMult` | yang/pyang_plugin/OpenCPE.py:725-734 | composition of relations |
| `ActionGraph.SetSubstr` | yang/pyang_plugin/OpenCPE.py:714-722 | difference of relations |
| `ActionGraph.TransReduct` | yang/pyang_plugin/OpenCPE.py:707-711 | keeps an edge if and only if its target is not reached through another successor of its source |
| `ActionGraph.ReductionSameIff` | yang/pyang_plugin/OpenCPE.py:707-711 | reachability is kept if and only if the relation is acyclic |
| `ActionGraph.ReductionReaches` | yang/pyang_plugin/OpenCPE.py:707-711 | of an acyclic relation every reachable pair stays reachable |
| `ActionGraph.ReductionMinimal` | yang/pyang_plugin/OpenCPE.py:707-711 | no edge of the reduction can be dropped |
| `ActionGraph.CycleLosesAll` | yang/pyang_plugin/OpenCPE.py:707-711 | on a two-cycle the reduction has no edge left |
| `ActionOrder.Adjacency` | yang/pyang_plugin/OpenCPE.py:764-768 | the matrix has exactly the edges that the chains list |
| `ActionOrder.Thin` | yang/pyang_plugin/OpenCPE.py:773-777 | every listed action that is no edge of the reduction is listed once less |
| `ActionOrder.ThinBetween` | yang/pyang_plugin/OpenCPE.py:773-777 | an action stays in a chain if and only if it is an edge of the reduction or was listed more than once |
| `ActionOrder.DoubledStays` | yang/pyang_plugin/OpenCPE.py:773-777 | of the chains 1 2 2, 2 and none, the doubled action stays in the first although its edge is redundant |
| `ActionOrder.CyclesLeft` | yang/pyang_plugin/OpenCPE.py:773-777 | a cycle is left after thinning if and only if there is one of actions listed more than once |
| `ActionOrder.Endless` | yang/pyang_plugin/OpenCPE.py:784-793 | on a cycle that is left there are walks of every length for depth_first |
| `ActionOrder.SelfListedTwice` | yang/pyang_plugin/OpenCPE.py:773-793 | an action that lists itself twice still does so after thinning, and there are walks of every length |
| `ActionOrder.DepthFirst` | yang/pyang_plugin/OpenCPE.py:784-793 | terminates on acyclic chains; every depth is raised at least to the length of each walk from the start, and only to the length of some walk |
| `ActionOrder.Depths` | yang/pyang_plugin/OpenCPE.py:795-798 | the depth of an action is the length of the longest walk that ends there |
| `ActionOrder.NoGap` | yang/pyang_plugin/OpenCPE.py:800-803 | the depths that occur are 0, 1, and so on without a gap |
| `ActionOrder.OrderByDepth` | yang/pyang_plugin/OpenCPE.py:800-807 | every action once, by ascending depth |
| `ActionOrder.MakeChains` | yang/pyang_plugin/OpenCPE.py:754-809 | ends if no cycle of actions listed more than once is left; the order lists every action exactly once, before everything that the thinned chains reach, and before everything that the given, unreduced chains reach if and only if these are acyclic |
| `PacketStream.NumberedHead` | libdmconfig/dmcontext.c:180-191 | writing the ids changes no other byte, and both are read back |
| `PacketStream.FinalizedProper` | libdmconfig/dmmsg.c:183-192 | what is enqueued has its own length in its header |
| `PacketStream.PacketsOf` | libdmconfig/dmcontext.c:327-439 | a stream of packets is cut up into these packets again, whatever incomplete packet follows |
| `PacketStream.DeliveredInOrder` | libdmconfig/dmcontext.c:327-439 | from any prefix of the packets sent, a prefix of the packets is cut, and all of them from all of it |
| `PacketStream.RoundStuck` | libdmconfig/dmcontext.c:344-436 | a round of readEvent leaves the stream as it was if and only if the header says 0 |
| `PacketStream.RoundsEndIff` | libdmconfig/dmcontext.c:344-436 | the rounds of readEvent come to an end if and only if no header that is met says 0, for any bytes |
| `PacketStream.ZeroHeader` | libdmconfig/dmcontext.c:344-436 | after any number of rounds twenty zero bytes are still there |
| `DmContext.QueuedRuns` | libdmconfig/dmcontext.c:492-513 | in every reachable state the queue is a run of entries that shall be read, then entries that shall be written, oldest first |
| `DmContext.EagerReads` | libdmconfig/dmcontext.c:344-436 | if every recv() and read() hands over all that is there, no whole packet is left over |
| `DmContext.TakingWrites` | libdmconfig/dmcontext.c:483-548 | if every write() takes all that is offered, every packet is written, with one call each |
| `DmContext.RepliedMore` | libdmconfig/dmcontext.c:451-473 | what packets do to the queue does not depend on how they are split over events |
| `DmContext.FirstMatch` | libdmconfig/dmcontext.c:462-467 | the first entry with the id of a reply is awaiting it if and only if any entry is, and is then the oldest that does |
| `DmContext.AwaitsOne` | libdmconfig/dmcontext.c:180-191 | while the counter has not wrapped at most one entry with an id of its own awaits a given id |
| `DmContext.CalledAtMostOnce` | libdmconfig/dmcontext.c:451-473 | in every state no callback was called twice, and none of an entry that is still queued |
| `DmContext.CalledOnce` | libdmconfig/dmcontext.c:564-581 | after the end every callback was called exactly once, except those of entries that were dropped on writing, which were not called |
| `DmContext.DeliveredWhole` | libdmconfig/dmcontext.c:327-439 | the packets delivered are exactly the whole packets in the bytes read |
| `DmConnection.Connection.Enqueue` | libdmconfig/dmcontext.c:168-215 | the entry goes to the end of the queue; only its two ids are written, the next number of the counter, or a random one at its start and end; ids ascend unless the counter wraps |
| `DmConnection.Connection.Pick` | libdmconfig/dmcontext.c:492-513 | the next packet to write is the oldest not yet begun; its entry leaves the queue, or waits for a reply behind those that do |
| `DmConnection.Connection.Push` | libdmconfig/dmcontext.c:518-546 | for any results of write() the bytes written so far and those in hand are the packets picked up, in order |
| `DmConnection.Connection.WriteEvent` | libdmconfig/dmcontext.c:477-561 | for any results of write(): exactly how many bytes are written and how it ends; which entries wait, leave, or fail if the connection breaks; nothing happens with an empty queue |
| `DmConnection.WriteAll` | libdmconfig/dmcontext.c:485-548 | with calls that take all that is offered everything is written if and only if the queue is not empty or no packet is in hand |
| `DmConnection.HalfWritten` | libdmconfig/dmcontext.c:485-511 | a reply of which ten bytes were written stays like that however often there is room for more |
| `DmConnection.Connection.ProcessReply` | libdmconfig/dmcontext.c:451-473 | the oldest entry awaiting the id is called back and leaves the queue; if there is none nothing happens, also if an entry not yet written has that id |
| `DmConnection.Connection.Peek` | libdmconfig/dmcontext.c:344-376 | nothing is taken before a whole header is there |
| `DmConnection.Connection.ReadPacket` | libdmconfig/dmcontext.c:378-409 | for any results of read() no byte is lost or taken twice, and a packet is handed over when it is whole |
| `DmConnection.Connection.Deliver` | libdmconfig/dmcontext.c:411-436 | a request goes to the request callback; a reply goes to the oldest entry that awaits its id, which leaves the queue, and to nobody if none does |
| `DmConnection.Connection.ReadEvent` | libdmconfig/dmcontext.c:327-439 | for any results of recv() and read(): exactly how many bytes are read and how it ends; the whole packets of what was read are delivered, and each reply among them reaches the oldest entry that awaits it |
| `DmConnection.ReadAll` | libdmconfig/dmcontext.c:327-439 | with calls that hand over all that is there every whole packet that arrived is delivered |
| `DmConnection.Connection.Shutdown` | libdmconfig/dmcontext.c:154-163 | every queued entry is called back with the event, first to last, and the queue is empty |
| `DmConnection.Connection.FailAll` | libdmconfig/dmcontext.c:564-581 | the same for the loop over the queue |
| `DmConnection.EveryState` | libdmconfig/dmcontext.c:168-581 | after any run: the shape of the queue, callbacks at most once and exactly once after the end, and the bytes sent are a prefix of the packets enqueued |
| `DmConnection.EndToEnd` | libdmconfig/dmcontext.c:168-561 | what one end delivers is a prefix of what the other end enqueued |
| `ConfigSession.OneConfigures` | mand/dm_dmconfig.c:1027-1090 | at most one live session configures, and it is the one that cfg_session_id names |
| `ConfigSession.Server.StartSession` | mand/dm_dmconfig.c:1027-1058 | refused for a session that was started, and for configuring if and only if somebody configures; otherwise the session has the next number, which skips 0, and configures if it asked to |
| `ConfigSession.Server.SwitchSession` | mand/dm_dmconfig.c:1060-1090 | refused for configuring if and only if somebody else configures; the cache is dropped exactly when the session stops configuring, and values stay |
| `ConfigSession.Server.EndSession` | mand/dm_dmconfig.c:97-119 | the cache is dropped exactly if this session was configuring, and values stay |
| `ConfigSession.Server.CacheSet` | mand/dm_cache.c:60-103 | what is to come has the value; what is committed stays, and a leaf is marked if and only if it is cached |
| `ConfigSession.Server.CacheReset` | mand/dm_cache.c:46-58 | in whatever order the cache is drained, it is empty, no mark is left and no value has changed |
| `ConfigSession.Server.CacheApply` | mand/dm_cache.c:119-145 | in whatever order the cache is drained, what was to come is now committed, and exactly the cached leaves became updated |
| `ConfigSession.Server.CacheValidate` | mand/dm_cache.c:105-117 | succeeds if and only if every entry without a code is accepted; values stay |
| `ConfigSession.SecondValidationIff` | mand/dm_cache.c:105-117 | the next validation succeeds if and only if every rejection left a code |
| `ConfigSession.Server.CommitTwice` | mand/dm_dmconfig.c:1437-1456 | of two commits without a change in between, the second is accepted after a refusal if and only if every rejection left a code; it then commits everything |
| `ConfigSession.RefusedThenAccepted` | mand/dm_cache.c:105-117 | a change that is rejected with a code is refused at first and then committed |
| `ConfigSession.Server.Set` | mand/dm_dmconfig.c:759-787 | a configuring session changes what is to come and nothing that others see, and marks the leaf as pending; any other session changes what is committed, and marks the leaf as updated |
| `ConfigSession.Server.SetAll` | mand/dm_dmconfig.c:1259-1292 | values are set one after the other, up to the first that fails, whose error is returned; without configuring exactly the leaves set before that are marked as updated |
| `ConfigSession.SetsDo` | mand/dm_dmconfig.c:759-787 | what a run of values amounts to, in what is committed, what is to come, marks and codes |
| `ConfigSession.Server.Get` | mand/dm_dmconfig.c:1294-1309 | the configuring session reads its changes over what is committed, every other session what is committed |
| `ConfigSession.Server.Commit` | mand/dm_dmconfig.c:1437-1456 | all that is to come is committed, or no value changes; who may commit |
| `ConfigSession.CommitWithoutSession` | mand/dm_dmconfig.c:1437-1456 | a connection that never started a session has its commit accepted, and no value changes |
| `ConfigSession.Server.Cancel` | mand/dm_dmconfig.c:1458-1470 | values stay and all marks are cleared |
| `ConfigSession.Server.ReadCommitRead` | mand/dm_dmconfig.c:1294-1456 | what the configuring session reads before a successful commit is what others read after it; after a failed one they read what they read before |
| `ListTree.Listing.WalkNode` | mand/dm_store.c:1209-1235 | adds the listing of the node, with or without the value of a leaf, and the level and the stack of groups are what they were, at every level limit |
| `ListTree.Listing.WalkNodes` | mand/dm_store.c:1237-1260 | the same for a table |
| `ListTree.Listing.WalkRows` | mand/dm_store.c:1262-1291 | the same for the instances of an object, which count as a level of their own |
| `ListTree.Listing.WalkInstance` | mand/dm_store.c:1293-1307 | the same for an instance that a listing starts at |
| `ListTree.Listing.WriteLeaf` | mand/dm_dmconfig.c:884-896 | an element with its name and type, and its value if dm_add_avp can add it |
| `ListTree.Listing.Start` | mand/dm_dmconfig.c:862-882 | opens one group and counts it |
| `ListTree.Listing.End` | mand/dm_dmconfig.c:852-861 | closes the group if its level is within the limit |
| `ListDecode.ListNest` | mand/dm_dmconfig.c:840-902 | a listing is nested exactly as deep as the tree has levels with a key down to the limit |
| `ListDecode.StartNest` | mand/dm_dmconfig.c:1335-1355 | the same for the whole tree, an element, an instance, and a path that is not there |
| `ListDecode.LevelsBound` | mand/dm_dmconfig.c:840-902 | these are never more than the level limit, nor than the tree is high |
| `ListDecode.ListFits` | mand/dm_dmconfig.c:1335-1355 | from any start and for any limit a listing fits the stack of groups if and only if there are fewer levels to list than are left; a tower of sixteen does not, not even into an empty packet |
| `ListDecode.DbList` | mand/dm_dmconfig.c:1335-1355 | the answer holds the listing of the tree, an element or an instance down to the limit, and no group is left open |
| `ListDecode.LeavesWithin` | mand/dm_store.c:1209-1291 | the leaves that the walk comes to with a limit are those that lie no deeper than the limit, where the instances of an object are a level |
| `ListDecode.StartWithin` | mand/dm_dmconfig.c:1345-1353 | a request for a level gets leaves down to one level more, or to sixteen for 0, from any start: none that is deeper, and all of them if and only if they all have values |
| `ListDecode.DecodeNodeList` | mand/dmctrl.c:55-148 | terminates on any bytes, with what decoding defines |
| `ListDecode.NodesDecoded` | mand/dmctrl.c:55-148 | decoding a listing gives the leaves with dotted paths, in walk order, in each table up to the first element without its value |
| `ListDecode.AllComeBack` | mand/dmctrl.c:113-127 | all the leaves come back if and only if none is listed without a value |
| `ListDecode.DateHidesNumber` | libdmconfig/dmmsg.h:330-340 | a date that does not fit and a number behind it: neither comes back |
| `ListDecode.LeavesComplete` | mand/dm_store.c:1209-1291 | a level limit that the tree does not exceed leaves no leaf out |
| `ListDecode.ListedDecoded` | mand/dmctrl.c:55-148 | from the walk through a packet that fits 24 bits, with the size read from its header, to the callback: what decoding gives for any start of the listing and any limit |
| `ListDecode.EveryLeaf` | mand/dmctrl.c:55-148 | of a tree no higher than the limit all the leaves come back, in order, with their paths and values, if and only if none is without a value |
| `ListAnswer.ListAnswer` | libdmconfig/dm_dmconfig_rpc_skel.c:484-609 | what is written holds the result code first, filled in at the end, and then the listing, cut to 24 bits of length; if it fits, its header has the command code and the ids of the request |
| `ListAnswer.WireBytes` | libdmconfig/dmmsg.c:257-288 | one answer byte by byte: codes, vendor, flag byte, lengths, byte order and padding |
| `ListAnswer.ListReply` | libdmconfig/dmcontext.c:941-968 | of an answer that fits, the client reads the result code and is called back with the leaves of the listing |
| `ListAnswer.ListOverWire` | mand/dmctrl.c:284-297 | from the server's walk through the packet to the client's callback, for any start and level: the leaves that come back are among those asked for, and all of these come back if and only if they all have values |
| `ListCall.ListCall` | libdmconfig/dmcontext.c:451-473 | the answer has the id of the request, so that however it is read the entry that awaits it gets it when it is whole, and no entry before; the listing is decoded from it |
| `ListDecode.ListTooLong` | libdmconfig/dmmsg.c:83-87 | sixteen leaves that are listed in a packet of 2^24 bytes or more, none of which comes back |
| `SaveTree.UpdateCovers` | mand/dm_store.c:1357-1439 | afterwards every element that holds something to be saved is marked, and what is to be saved is unchanged |
| `SaveTree.SaveReads` | mand/dm_serialize.c:287-344 | the pruned output of a node is well nested and holds exactly what is to be saved |
| `SaveTree.StoreSaved` | mand/dm_serialize.c:346-360 | reading the tags of the whole store back finds exactly the leaves to be saved down to 16 levels, each under its own path, and closes every tag; system elements and automatic instances are left out, and internal ones are no part of a path |
| `SaveTree.LeavesSaved` | mand/dm_serialize.c:287-360 | leaf by leaf: saved is what is writable, marked, neither internal nor of the system, not below sixteen levels, and in no system table or automatic instance that is not internal; its path leaves out what is internal |
| `SaveTree.UpdateRaises` | mand/dm_store.c:1357-1439 | a place is marked afterwards if and only if it, or something below it, was; nothing else changes |
| `SaveTree.AutoNumbers` | mand/dm_serialize.c:307 | automatic instance numbers are those from 0xC000 on |
| `SaveTree.AllSaved` | mand/dm_serialize.c:346-360 | of a tree of up to 16 levels these are all the leaves to be saved |
| `PathName.Sel2Name` | mand/dm_store.c:232-274 | the printed text, for any selector and any buffer size |
| `PathName.PrintMeans` | mand/dm_store.c:232-274 | of any selector: the name of its steps up to a value, as far as it goes into the buffer, and NULL or a full buffer if a step is no element |
| `PathName.KnownValid` | mand/dm_store.c:232-302 | every selector has a step that is no element, or is a path up to its first value |
| `PathName.PrintPrefix` | mand/dm_store.c:232-274 | with any buffer the text is a prefix of the name and leaves room for its end |
| `PathName.PrintFits` | mand/dm_store.c:232-274 | with a buffer that can hold the name, the text is the name |
| `PathName.Name2Sel` | mand/dm_strings.c:336-380 | a selector if and only if each part between dots that is read is the key of an element of the table reached, or a number of an instance; its steps are these; reading ends at a value, an instance 0, or sixteen steps |
| `PathName.SplitDotted` | mand/dm_strings.c:391-401 | the parts have no dots and make up the text |
| `PathName.ParseNames` | mand/dm_strings.c:336-409 | parsing gives exactly the steps that the parts name, with numbers in 16 bits after saturation |
| `PathName.LeftOver` | mand/dm_strings.c:357-378 | parts are left over only behind a value or at an instance 0 |
| `PathName.UnknownKey` | mand/dm_strings.c:359-362 | a name with a key that is not there names no selector |
| `PathName.BehindValue` | mand/dm_strings.c:370-377 | a name that goes on behind a value is taken for that value |
| `PathName.BehindZero` | mand/dm_strings.c:356-358 | a name that goes on behind an instance 0 is taken for the table |
| `PathName.NumberDigits` | mand/dm_strings.c:382-409 | a printed number is read back up to the next dot |
| `PathName.ParsedValid` | mand/dm_strings.c:336-409 | whatever is parsed is a path of the schema |
| `PathName.RoundTrip` | mand/dm_strings.c:336-409 | the printed name of a path is parsed to the path if no instance is 65535, and refused otherwise |
| `PathName.InstanceLost` | mand/dm_strings.c:359-362 | a path with instance 65535 that is printed and not parsed |
| `PathName.SelectorRoundTrip` | mand/dm_store.c:232-274 | printing into a large enough buffer and parsing, for whole selectors |
| `PathName.GetElement` | mand/dm_store.c:276-302 | every selector without a step that is no element is resolved, up to its first value, to its last element and that element's type, or the type of a table behind an instance; exactly the others give T_NONE |
| `PathName.LastNamed` | mand/dm_store.c:276-302 | that element's key is what the printed name ends with, and the type returned is its own unless the path ends with an instance |
| `Base64.ToBase64` | utils/binary.c:38-54 | the text is the 24-bit groups of the input cut into digits, padded; with its NUL it fits the buffer that mand/dm_serialize.c:167 allocates |
| `Base64.ChunkQuad` | utils/binary.c:18-36 | the shifts and masks give the digits of the 24-bit number |
| `Base64.FromBase64` | utils/binary.c:73-109 | the decoder's output on any input of n characters is at most (n+4)*3/4 bytes with its NUL |
| `Base64.QuadRead` | utils/binary.c:79-99 | reading a quad hands out its first two bytes and holds the third back until the next quad or the end |
| `Base64.RoundTrip` | utils/binary.c:38-109 | decoding undoes encoding, whatever white space stands before, between and after the quads |
| `Base64.BasisIs` | utils/binary.c:16 | the digits are the alphabet of RFC 4648 |
| `Base64.BitsOf` | utils/binary.c:56-71 | a digit is read as its place in the alphabet, and any other character as 0 |
| `Base64.TestVectors` | utils/binary.c:38-54 | test vectors of section 10 of RFC 4648 |
| `Base64.EncodedJoin` | utils/binary.c:38-54 | whole groups are encoded one by one |
| `Base64.BlanksSkipped` | utils/binary.c:80-86 | tab, line feed, carriage return and space are skipped |
| `Base64.UnpaddedDecoded` | utils/binary.c:101-104 | without padding a byte is added if and only if there should be padding |
| `Base64.UnpaddedOne` | utils/binary.c:101-104 | "Zg" is decoded to two bytes, the first of which is "f" |
| `Base64.RoundTripPlain` | utils/binary.c:38-109 | decoding undoes encoding |
| `LeasePool.RorBits` | mand/bitmap.h:51-54 | rotation moves every bit around the end |
| `LeasePool.WithBitBits` | mand/bitmap.h:17-25 | setting or clearing a bit changes that bit only |
| `LeasePool.MaskBits` | mand/tests/dhcpool.c:165-176 | the mask has exactly the bits that are outside of the range |
| `LeasePool.GetBit` | mand/tests/dhcpool.c:179-186 | a bit that is clear in the word and the mask, and the wanted one if it is |
| `LeasePool.IpPool.AllocateLease` | mand/tests/dhcpool.c:188-247 | returns -1 if and only if all bits of the range are set; otherwise sets one bit of the range that was clear, and only that: the one that the hash asks for if that is clear |
| `LeasePool.IpPool.FindWord` | mand/tests/dhcpool.c:208-233 | a word with a clear bit in the range, around the end, if there is one |
| `LeasePool.IpPool.ReleaseLease` | mand/tests/dhcpool.c:249-255 | clears the bit if it is one of this pool's, and no other |
| `LeasePool.ReleaseUndoes` | mand/tests/dhcpool.c:188-255 | releasing undoes allocating |

## Left out

- Sockets, timers, allocation failure, files, XML parsing, Lua, SNMP and process control; the results of socket calls are inputs of the model.
- Memory addresses: rows are numbers, and pointer fields are maps from rows to records that are updated as the code assigns them. Struct magic, parity and the debug output of the indexes are not modelled.
- InstanceTree.InstanceTree.InsertInstance: the indexes only; `TableRun.InsertRow` joins them with the id map. The counter element of a table (mand/dm_index.c:871-872) is not modelled.
- InstanceTree.InstanceTree.RemoveInstance: the same, with `TableRun.RemoveRow`.
- Getter, setter, add and validate callbacks: a leaf is a plain value, and validation is any function of selector and value.
- Rows kept out of a unique index are not linked again when the row that had their key goes away; all statements are about linked rows.
- ActionOrder.OrderByDepth: goes through the depths in ascending order, where the source goes through a Python set of small integers; `NoGap` shows that the depths are 0 up to their maximum.
- ActionOrder.MakeChains: requires that no cycle of actions listed more than once is left, as the source does not end otherwise. Splitting the chain strings and the final order_actions are not modelled.
- DmConnection.Connection.ReadEvent: assumes that no header announces a length below 20, which the source does not check; `PacketStream.RoundsEndIff` states what a length of 0 does. Callbacks are steps of their own, so they may enqueue between events but do not shut the connection down from inside an event. Reconnecting the same context after a shutdown is not modelled.
- DmConnection.Connection.Enqueue: the counter of hop ids is shared by all connections and therefore passed in and out; the random start is an input.
- ConfigSession.Server.StartSession: that one session configures holds until the 32-bit session counter starts over; pending marks and cached selectors agree even after that.
- Deleting an instance while one of its values is cached, arrays (which bypass the cache), notifications and actions of a commit.
- ListTree.Listing.WalkNode: array elements are not in the tree that is listed, as their groups are closed under a different level test; the decoder does handle them. Which values dm_add_avp cannot add is modelled for dates only.
- AvpRequest.Request.NewGroup: requires a free level, as the source has sixteen and writes behind them without a check.
- ListDecode.DbList: requires fewer levels to list than are left, which `ListFits` shows to be exact.
- ListDecode.ListedDecoded: for a packet that fits 24 bits and holds the listing only; `ListAnswer.ListOverWire` has the answer with its result code.
- ListDecode.EveryLeaf: the same.
- ListAnswer.ListOverWire: for packets that fit 24 bits; `AvpMessage.SentWhole` and `ListDecode.ListTooLong` are about the others.
- AvpMessage.Transmit: for packets that fit 24 bits; `AvpMessage.Send` builds and `AvpMessage.SentWhole` is about the others.
- AvpMessage.Transmitted: for packets whose size a 64-bit size_t can hold.
- SaveTree.StoreSaved: the marks are raised in a new tree, not in place; only S_CFG is modelled, and not the text of the tags and values.
- PathName.RoundTrip: for schemas whose keys are distinct, not empty and without dots, and whose tables are all there.
- Base64.FromBase64: the 32-bit accumulator is taken to wrap, where C leaves the overflow of a signed shift open.
- LeasePool.IpPool.AllocateLease: the hash is an input; rotating by zero is taken to be the identity.
- LeasePool.IpPool.ReleaseLease: a negative number that is in the pool as an unsigned one is not modelled, as it addresses memory outside of the map.
- Escaped strings, dates and ticks, RPC stubs, generated schema tables and the notification slots.
