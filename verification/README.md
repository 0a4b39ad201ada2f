# SmithSNMP, verified

A Dafny model of the SmithSNMP agent: the MIB tree, the views of communities, request processing, the
index tables of Lua MIB groups, BER and message framing, the AgentX codec, the streaming hash with its
keyed digest, and CFB mode. `dafny verify dfyconfig.toml` checks the whole project.

The centre of the agent is lexicographic navigation. Three layers answer a GETNEXT. The model proves
which variable they return, and exactly when that is the least readable one above the request:

1. **The MIB tree** (`MibNode`, `MibTree`, `TreeDelete`, `TreePrune`, `MibTreeOps`, `TreeSearch`,
   `TreeNext`, `MibSearch`). Nodes live in an arena addressed by pointers, with sorted child arrays that
   grow through a fixed chain of 16-bit capacities. The tree denotes a registry (`Registry`): a
   prefix-closed set of paths and a prefix-free map from identifiers to callbacks. Registration,
   exact search, deletion with an explicit stack and the two-mode successor search are proved against it.
2. **Views and requests** (`ViewLists`, `Views`, `MultiView`, `Reach`, `Requests`, `Walks`, `Bulk`). Per
   community there is a sorted antichain of view prefixes. GETNEXT over all views, walks of GETNEXT
   requests, GETBULK chaining, GET and SET are proved against the set of granted subtrees.
3. **Lua groups** (`LuaIndex`, `LuaGetnext`, `LuaGroup`, `LuaSegments`, `LuaHandler`, `LuaAgent`). Index
   segments are generated from a group's scalars and tables, and searched with backtracking on a request
   that is rewritten in place. The handler raises an error when a request stops inside an array key.

The layers meet in `Handlers`: a handler answers with its least variable above the argument, or not at
all. `LuaAgent.GroupsServe` shows that every agent made of Lua groups is of this kind, and
`LuaAgent.GroupsDischarge` that no answer is ever missing if and only if no key is an array of two or
more sub-identifiers and no table mixes keys. Layers 1 and 2 only use the answers that are asked for, so
they also speak about groups with array keys, such as ip, tcp and udp: `LuaAgent.RequestExactly` gives the
requests that go wrong there, and `LuaAgent.WalkOverGroups` shows that walks do not.

Independent of these: `Ber`, `BerDecode`, `BerOid` (contents octets and lengths), `Framing` and `Respond`
(response datagrams), `Elements`, `SecureHeader` and `Receive` with `DecodeElements`, `DecodeSecure` and
`Decode` (received datagrams of all versions), `AgentX` and `AgentXCodec`,
`Digests`, `Md32` and `Md5` (hashes over an arbitrary compression function), `Cfb` and `CfbWide` (CFB mode
over an arbitrary block function). `Oids` holds identifiers and their order; `Positions`, `Chunks` and
`Parsing` are shared vocabulary.

Conventions of the model:

- Instance handlers are a function from callback and argument to the next sub-identifier, or none, together
  with the finite set of variables they serve; values and error statuses of variables are not modelled.
- Buffers written through a moving pointer are sequences that grow at the end; octets that the code
  skips in zeroed memory are written as zeros. The feedback register of CFB and the block buffer of the
  hash context are arrays updated in place.
- The arena stands for the heap: a freed node is one that is no longer allocated, so freeing a node twice
  or using it after it was freed would fail to verify.
- Widths are explicit: sub-identifiers are below 2^32, comparison wraps as the C cast does, capacities
  are reduced modulo 2^16, encoded identifier sizes modulo 2^8, counts and lengths modulo 2^32 or 2^64.
- Machine words are little-endian, as in the `LITTLE_ENDIAN` branches.

Places where the code does not do what its purpose suggests are kept as they are. Each has a lemma with
the exact condition: `Oids.CmpOrders`, `MibNodes.CapOverflow`, `Registries.UnregisteredExact`,
`Registries.UnregisterUndoes`, `MibSearch.AnswersExactly`, `MultiView.MultiViewExact`,
`Views.UnregReturnsExactly`, `MultiView.FirstExactly`, `Requests.GetNext`, `Requests.Get`, `Reach.WalkExactly`,
`LuaHandler.GroupGetnext`, `LuaAgent.GroupsDischarge`, `LuaAgent.RequestExactly`, `LuaAgent.ResumesExactly`,
`BerOid.OidRoundTrip`, `BerOid.OidEncTry`, `Framing.SentCount`, `Framing.BulkFallsShort`,
`AgentX.OidRoundTrip`, `CfbWide.BlockByBlock`.

## Model

| member | source | states |
|---|---|---|
| `Oids.OidCmp` | core/mib_tree.c:54-64 | the result is the 32-bit wrapped difference at the first place where two identifiers part, else the length difference |
| `Oids.CmpOrders` | core/mib_tree.c:54-64 | zero exactly for equal identifiers; the sign is lexicographic order exactly when the parting sub-identifiers differ by less than 2^31; below 2^31 that always holds |
| `Oids.CmpWrapExample` | core/mib_tree.c:58 | a concrete pair that is reported in the wrong order |
| `Oids.OidCover` | core/mib_tree.c:76-89 | 1, -1, 0 exactly for prefix or equal, proper extension, neither, on all inputs |
| `MibNodes.BinarySearch` | core/mib_tree.c:91-112 | the index of the sub-identifier, or the encoded insertion point that separates smaller from larger children |
| `MibNodes.CapOverflow` | core/utils.h:29 | along the capacity chain 1, 4, 9, ..., 47421 the stored 16-bit capacity is what was allocated, except exactly after 47421 |
| `MibNodes.Expand` | core/mib_tree.c:518-556 | both arrays get a gap at the index with all other slots kept, in a larger allocation when full |
| `MibNodes.Shrink` | core/mib_tree.c:558-574 | exactly the child at the index is gone, and the group stays sorted and within capacity |
| `MibNodes.InsertedOk` | core/mib_tree.c:789-802 | a child put into the gap at its insertion point keeps the group sorted and adds exactly that child |
| `Registries.RunWf` | core/mib_tree.c:754-862 | after every run of registrations and unregistrations paths are prefix-closed, at most 64 long, and registered ones are leaves |
| `Registries.PrefixFree` | core/mib_tree.c:758-818 | after every run no registered identifier is a prefix of another |
| `Registries.UnregisteredExact` | core/mib_tree.c:625-673 | unregistering removes exactly the registered identifiers it covers, if and only if it is not the root of a non-empty registry and does not extend a registered identifier by one sub-identifier |
| `Registries.UnregisterUndoes` | core/mib_tree.c:569-573 | unregistering undoes a registration's effect on callbacks, but leaves the groups made for it, which block later registrations at those paths |
| `TreeShape.AbsWf` | core/mib_tree.c:754-818 | what a well-shaped arena denotes is a well-formed registry |
| `TreeShape.Ancestor` | core/mib_tree.c:625-673 | every prefix of a path is a path, and proper prefixes are groups that list the next step |
| `TreeDelete.FreeSubtree` | core/mib_tree.c:675-740 | the explicit-stack traversal terminates and frees exactly the nodes of the subtree, each once, children before parents, leaving all other nodes as they were |
| `TreeDelete.BacklogBound` | core/mib_tree.c:680-739 | the deletion backlog never exceeds 64 entries |
| `TreePrune.PruneTree` | core/mib_tree.c:742-752 | freeing a subtree and shrinking its parent leaves a well-shaped tree |
| `MibTrees.MibTree.constructor` | core/mib_tree.c:864-875 | a new tree is well-shaped and denotes the empty registry |
| `MibTrees.MibTree.InstanceInsert` | core/mib_tree.c:754-818 | succeeds exactly when the walk meets no instance and the path is not already a node; then exactly that identifier gets the callback; otherwise nothing changes |
| `MibTrees.MibTree.NodeReg` | core/mib_tree.c:820-853 | the return code tells whether the identifier could be registered; success registers exactly that callback, and a failed call changes nothing |
| `MibTrees.MibTree.NodeSearch` | core/mib_tree.c:625-673 | finds the node at the identifier, or an instance one sub-identifier short of it, with its parent and position |
| `MibTrees.MibTree.NodeUnreg` | core/mib_tree.c:742-862 | the registry loses exactly the subtree found; the freed nodes are exactly the ones no longer allocated, each once, children first |
| `MibTrees.MibTree.Replay` | core/mib_tree.c:820-862 | every run of registrations (at most 47421 children per group) and unregistrations keeps the arena well-shaped and denotes the registry of that run |
| `TreeSearch.TrackUp` | core/mib_tree.c:477-497 | when nothing is left below a visited child, every candidate lies at a later child of its parent or after it |
| `TreeNext.EnterImmediate` | core/mib_tree.c:387-404 | in immediate mode the search moves to the resumed or first child without passing a candidate, and comes closer to its end |
| `TreeNext.EnterRequested` | core/mib_tree.c:405-446 | in request mode the search follows the request's sub-identifier, or switches to immediate mode at the next larger child, or finds the group exhausted |
| `TreeNext.AskHandler` | core/mib_tree.c:450-470 | asking the handler at an instance gives the least candidate below it, or shows that there is none; variables whose handler fails on what it is asked are no candidates |
| `TreeNext.BackUp` | core/mib_tree.c:477-497 | popping the backlog resumes the parent after the finished child without passing a candidate |
| `TreeNext.BacklogBound` | core/mib_tree.c:331-498 | in every state of the search the backlog holds at most 64 entries and the buffer cursor is the start depth plus the backlog size |
| `TreeNext.Traverse` | core/mib_tree.c:374-498 | the loop terminates with the least variable of the view above the request among those whose handlers answer what they are asked, or none when there is none |
| `MibSearch.Search` | core/mib_tree.c:244-315 | reports out of view exactly when the view is no prefix, and otherwise where the walk along the identifier ends |
| `MibSearch.SearchReaches` | core/mib_tree.c:268-299 | the walk reaches a handler exactly for identifiers strictly below a registered one, and then the right one |
| `MibSearch.SearchNext` | core/mib_tree.c:324-499 | the answer of the search inside, before and behind the view, over the variables whose handlers answer what they are asked, and the request restored when there is none |
| `MibSearch.AnswersExactly` | core/mib_tree.c:343-372 | that answer is the least variable of the view above the request if and only if the request lies in the view, or compares without wrapping and does not precede a view that is itself a variable, or nothing else is in the view |
| `MibSearch.ViewRootSkipped` | core/mib_tree.c:357-365 | in a tree with one registered handler and one variable, the search below the view that is this variable finds nothing after the empty request |
| `ViewLists.Filter` | core/mib_view.c:86-104 | reports exactly when a view covers the identifier, and then has deleted nothing; otherwise keeps exactly the views the identifier does not cover |
| `ViewLists.Add` | core/mib_view.c:106-128 | insertion of an unrelated view keeps the list strictly ascending and prefix-free |
| `ViewLists.ChainDisjoint` | core/mib_view.c:86-128 | no identifier lies under two views of a list |
| `ViewLists.ViewCover` | core/mib_view.c:227-250 | true exactly when some view of the list covers the identifier |
| `ViewLists.NextView` | core/mib_view.c:252-284 | from NULL the first view, then each next one, then NULL; NULL for a view not in the list |
| `Views.ViewTable.ViewSearch` | core/mib_view.c:34-46 | finds a view with the identifier if there is one |
| `Views.ViewTable.ViewCreate` | core/mib_view.c:48-65 | views are interned: no identifier is stored twice and existing views keep their place |
| `Views.ViewTable.Bind` | core/mib_view.c:143-165 | the list stays an ascending antichain and covers exactly the subtrees granted before and the new one |
| `Views.ViewTable.CommunitySearch` | core/mib_view.c:211-225 | finds the community exactly when it has been registered |
| `Views.ViewTable.CommunityReg` | core/mib_view.c:167-182 | the read list then covers exactly what it covered and the subtree; the write list does exactly for WRITE, and is as before for READ; all other communities are as before |
| `Views.ViewTable.CommunityUnregRead` | core/mib_view.c:184-209 | READ unregistration leaves the community unknown, and all others as before |
| `Views.ViewTable.Replay` | core/mib_view.c:143-209 | after every run an identifier is covered by the write list of a community if and only if it lies below a subtree registered for it with WRITE and not unregistered later, and by the read list likewise with either attribute; lists are ascending antichains |
| `Views.RunGrants` | core/mib_view.c:167-209 | what a run grants is what it registered and did not unregister later, with the attributes told apart |
| `Views.ListsAgree` | core/mib_view.c:143-182 | the stored lists of a community cover exactly what it was granted for reading and for writing |
| `Views.WriteWithinRead` | core/mib_view.c:167-182 | what a write view covers a read view covers |
| `Views.UnregReturnsExactly` | core/mib_view.c:184-209 | the unregister loop returns if and only if it is for READ or no community of that name has a read view |
| `Views.WriteUnregHangs` | core/mib_view.c:191-208 | in every table that registrations can produce, WRITE unregistration returns exactly for unknown communities |
| `MultiView.MultiViewExact` | core/snmp_msg_proc.c:170-193 | the first answer over all views is the least shown variable above the request if and only if comparisons with the views do not mislead it, that variable is not itself the root of a view, and its handler answers what it is asked |
| `MultiView.FirstExactly` | core/snmp_msg_proc.c:170-193 | for every request, the first answer is the least variable that some view offers above it if and only if no view before the request that wrongly compares above it offers anything, and that least variable lies in a view that the request is in or compares right with |
| `MultiView.SmallRight` | core/mib_tree.c:54-64 | below 2^31 comparisons never mislead it |
| `Reach.WalkExactly` | core/snmp_msg_proc.c:143-194 | a walk of GETNEXT requests visits everything reachable above its start exactly once, in ascending order, and then stays without successor, if and only if no variable is lost to a later request of the walk |
| `Reach.ResumableClear` | core/snmp_msg_proc.c:143-194 | none is lost when handlers answer requests for what follows each of their variables |
| `Reach.AllReached` | core/snmp_msg_proc.c:143-194 | when no handler misses an answer, exactly the readable variables that are not roots of views are reachable, from every request |
| `Reach.WalkReadable` | core/snmp_msg_proc.c:143-194 | when moreover no root of a view is a variable, walks visit every readable variable above their start |
| `Requests.GetNextViews` | core/snmp_msg_proc.c:170-193 | the view loop terminates with the answer of the first view that has one, all earlier ones having none |
| `Requests.GetNext` | core/snmp_msg_proc.c:143-194 | an unknown community gets its request back with noAccess; otherwise, for every request, the answer is the least reachable variable above it, or END_OF_MIB_VIEW with the request when none exists, if and only if wrapped comparisons do not mislead the search, which below 2^31 they do not; it is the least readable variable if and only if, moreover, that one is reachable |
| `Requests.StopEarly` | core/snmp_msg_proc.c:73-76 | stopping at the first view that the request precedes misses no covering view |
| `Requests.Get` | core/snmp_msg_proc.c:29-80 | a value is found if and only if the identifier is a variable the community can read and no view before it compares above it; below 2^31 none does |
| `Walks.WalkComplete` | core/snmp_msg_proc.c:143-194 | iterating a successor function of a finite set visits every member above the start exactly once in strictly ascending order, and then stays without successor |
| `Walks.NextOfIs` | core/snmp_msg_proc.c:143-194 | every finite set of identifiers has a successor function |
| `Bulk.BulkGet` | core/snmp_msg_proc.c:389-458 | the response is, round by round, the reply to each binding with the last answer fed back, for every community and with views that are variables |
| `Bulk.RowsAt` | core/snmp_msg_proc.c:389-458 | output r*n+j is the answer to the (r+1)-th request of the walk from request binding j |
| `Bulk.WalkFrom` | core/snmp_msg_proc.c:143-194 | a client that repeats GETNEXT with the last answer gets each variable reachable from its start exactly once, in ascending order, and then END_OF_MIB_VIEW, when no variable is lost to a later request |
| `Bulk.SetViews` | core/snmp_msg_proc.c:296-319 | over the whole view loop at most one handler call, to the handler registered above the identifier, whatever the handler replies |
| `Bulk.Set` | core/snmp_msg_proc.c:257-320 | a handler runs at most once, only for an identifier that the stored write list covers (and so the read list), and does run when there is one; noAccess exactly when the write list does not cover it |
| `LuaIndex.NextInIs` | lualib/smithsnmp/init.lua:396-514 | the dimension-by-dimension successor is the least member of the product above the request, or none |
| `LuaIndex.FirstsLeast` | lualib/smithsnmp/init.lua:443-453 | the first elements of all dimensions form the least member, and there is none exactly when a dimension is empty |
| `LuaGetnext.Compare` | lualib/smithsnmp/init.lua:411-421 | the sign of the comparison is lexicographic order, and an error is raised exactly when the request stops inside an array element |
| `LuaGetnext.ScanInner` | lualib/smithsnmp/init.lua:457-484 | in a dimension of numbers: the equal element, the first larger one, or neither |
| `LuaGetnext.ScanLast` | lualib/smithsnmp/init.lua:457-484 | in the last dimension: the first element above the rest of the request, or an error exactly when the rest stops inside an array element |
| `LuaGetnext.Backtrack` | lualib/smithsnmp/init.lua:487-498 | climbs to the last dimension with an element left, passing only exhausted ones |
| `LuaGetnext.Getnext` | lualib/smithsnmp/init.lua:397-509 | the search terminates with the right answer from any point, after at most one backtrack, and says how the request has been rewritten |
| `LuaGetnext.SegmentGetnext` | lualib/smithsnmp/init.lua:511-514 | the least identifier of the segment above the request, an error exactly for requests that follow the segment and stop inside an array key, and a failed search leaves the request or one that starts with a number of the segment |
| `LuaGroup.SortStrict` | lualib/smithsnmp/init.lua:268-282 | sorting distinct keys makes them strictly ascending in the order used by the search |
| `LuaGroup.RowsAre` | lualib/smithsnmp/init.lua:319-344 | the row dimensions of a table produce exactly its rows, cascaded or keyed |
| `LuaSegments.TableSegment` | lualib/smithsnmp/init.lua:286-345 | the segment of a table, or an error exactly when its keys mix numbers and arrays |
| `LuaSegments.TableVars` | lualib/smithsnmp/init.lua:286-345 | the segment of a table holds exactly its variables |
| `LuaSegments.InsertTable` | lualib/smithsnmp/init.lua:347-358 | insertion by table number keeps the segments ascending |
| `LuaSegments.Separate` | lualib/smithsnmp/init.lua:367-391 | spreading the scalars between the tables loses no table and no scalar and leaves strictly ascending segments |
| `LuaSegments.Generate` | lualib/smithsnmp/init.lua:261-394 | for every enumeration order of the group: strictly ascending segments, each from the group, with every member in one; an error exactly for mixed keys |
| `LuaHandler.SegmentsServe` | lualib/smithsnmp/init.lua:261-394 | the generated segments hold exactly the group's variables |
| `LuaHandler.NumberInOne` | lualib/smithsnmp/init.lua:261-394 | the segments partition the group's numbers: each heads exactly one |
| `LuaHandler.LaterAgree` | lualib/smithsnmp/init.lua:724-733 | later segments do not tell the request rewritten by failed attempts from the original |
| `LuaHandler.GroupGetnext` | lualib/smithsnmp/init.lua:713-737 | the first non-empty result is the group's least variable above the original request, none exactly when there is none; an error if and only if keys are mixed or the request stops inside an array key |
| `LuaHandler.VarLength` | lualib/smithsnmp/init.lua:737-775 | every answer has two or at least four sub-identifiers, and dispatch on them finds a scalar, or a column of an entry of a table |
| `LuaAgent.InstanceSearch` | core/mib_tree.c:114-242 | what the C side sees of a group: the group's least variable above the argument, and no instance exactly where the handler raises an error or there is none |
| `LuaAgent.RightExactly` | core/mib_tree.c:176-180 | the answer is right if and only if the handler does not fail while the group still holds a variable above the argument |
| `LuaAgent.PlainExactly` | lualib/smithsnmp/init.lua:411-419 | no argument makes a group fail with a variable left above it if and only if no table with a column has an array key of two or more sub-identifiers and no group with a variable mixes keys |
| `LuaAgent.GroupsServe` | core/mib_tree.c:459-471 | every answer of a handler that serves a Lua group is right or missing, which is what the search through the tree assumes |
| `LuaAgent.GroupsDischarge` | core/mib_tree.c:459-471 | no answer of any handler is ever missing if and only if the keys of all groups are plain in that sense |
| `LuaAgent.RequestExactly` | core/snmp_msg_proc.c:143-194 | over Lua groups that are empty or can be sorted, with views that are neither variables nor stop inside an array key, GETNEXT answers with the least readable variable above the request if and only if the request does not lie in a view and stop inside an array key |
| `LuaAgent.StoppedWrong` | core/mib_tree.c:459-471 | a request that lies in a view and stops inside an array key is never answered with the least readable variable, whatever the groups and views |
| `LuaAgent.ApartExactly` | lualib/smithsnmp/init.lua:411-419 | a request that is a variable never stops inside an array key if and only if no key of a table with a column is a proper prefix of another |
| `LuaAgent.ResumesExactly` | core/mib_tree.c:459-471 | a handler answers requests for what follows each of its variables if and only if its keys are apart in that sense and it can be sorted or has nothing to go on to |
| `LuaAgent.WalkOverGroups` | core/snmp_msg_proc.c:143-194 | walks over such groups visit everything reachable from their start exactly once, in ascending order, and then stay |
| `LuaAgent.IpAddressesMissed` | mibs/ip.lua:26-35 | the address table of the ip group fails at 20.1.1.10 with addresses above it, and is walked completely all the same |
| `LuaAgent.NestedKeysMissed` | lualib/smithsnmp/init.lua:411-419 | a table with the keys 1.2 and 1.2.3 fails at its own first variable |
| `Ber.IntEnc` | core/snmp_encoder.c:207-266 | the octets written are the contents octets of the integer |
| `Ber.IntEncTry` | core/snmp_encoder.c:32-87 | the size computed is the number of octets written |
| `Ber.UintEnc` | core/snmp_encoder.c:272-313 | unsigned integers get the contents octets of the same number |
| `Ber.UintEncTry` | core/snmp_encoder.c:93-130 | the size computed is the number of octets written |
| `Ber.LengthEnc` | core/snmp_encoder.c:442-483 | the short form up to 127, above it the shortest long form |
| `Ber.LengthEncTry` | core/snmp_encoder.c:399-436 | the size computed is the number of octets written |
| `Ber.IntBytesMean` | core/snmp_encoder.c:207-266 | read as two's complement the contents octets are the integer |
| `Ber.IntBytesMinimal` | core/snmp_encoder.c:207-266 | the first nine bits are never all equal |
| `Ber.IntBytesShortest` | core/snmp_encoder.c:207-266 | no shorter string of octets means the same integer |
| `BerDecode.IntDec` | core/snmp_decoder.c:86-109 | up to four octets decode to their two's complement value |
| `BerDecode.UintDec` | core/snmp_decoder.c:115-131 | octets of any number decode to their value modulo 2^32 |
| `BerDecode.LengthDec` | core/snmp_decoder.c:217-232 | size and value of a length in either form |
| `BerDecode.IntRoundTrip` | core/snmp_decoder.c:86-109 | every 32-bit integer takes one to four octets and decodes to itself |
| `BerDecode.UintRoundTrip` | core/snmp_decoder.c:115-131 | every unsigned 32-bit integer takes at most five octets and decodes to itself |
| `BerDecode.LengthRoundTrip` | core/snmp_decoder.c:201-232 | every length decodes to itself, whatever follows it |
| `BerOid.OidEnc` | core/snmp_encoder.c:320-349 | first octet, and then every sub-identifier in base 128 with continuation marks |
| `BerOid.OidEncTry` | core/snmp_encoder.c:137-160 | the size is computed modulo 256, so it is right if and only if it is at most 255 |
| `BerOid.OidDec` | core/snmp_decoder.c:138-156 | the loop decodes to what the octets stand for |
| `BerOid.OidDecTry` | core/snmp_decoder.c:32-44 | the count computed is the number of sub-identifiers decoded |
| `BerOid.OidRoundTrip` | core/snmp_decoder.c:138-156 | a non-empty identifier decodes to itself if and only if it has two sub-identifiers, the second below 40, and both fit one octet |
| `BerOid.OidLost` | core/snmp_encoder.c:333 | a concrete identifier that decodes to another |
| `Framing.SentCount` | core/snmp_msg_out.c:157-284 | with encryption off the octets written exceed the computed size by exactly the sum of the differences between recorded and encoded integer and identifier lengths |
| `Framing.EncipheredCount` | core/snmp_msg_out.c:207-213 | with encryption on the computed size is that of a datagram whose scoped PDU is replaced by a string of cipher text as long as it, up to the differences of version, global data and security parameters |
| `Framing.FramedPdu` | core/snmp_msg_out.c:168-184 | when recorded lengths are exact, the lengths of list, PDU and scope are those of the octets they bracket |
| `Framing.FramedSecurity` | core/snmp_msg_out.c:36-155 | the same for global data, security parameters and security string |
| `Framing.FramedDatagram` | core/snmp_msg_out.c:157-284 | the same for the whole datagram of any version, for any list of bindings |
| `Framing.FramedBinding` | core/snmp_msg_proc.c:122-133 | the same for a binding whose identifier takes at most 255 octets |
| `Framing.BulkFallsShort` | core/snmp_msg_proc.c:402-403 | a GETBULK answer has the announced size if and only if the repetition count fits one octet |
| `Respond.GlobalEncodeTry` | core/snmp_msg_out.c:36-55 | the length of the global data, which the octets written exceed by exactly the differences of its integers |
| `Respond.GlobalEncode` | core/snmp_msg_out.c:57-85 | its octets |
| `Respond.SecurityEncodeTry` | core/snmp_msg_out.c:87-113 | the length of the security parameters, which the octets written exceed by exactly the differences of boots and time |
| `Respond.SecurityEncode` | core/snmp_msg_out.c:115-155 | their octets |
| `Respond.MeasureData` | core/snmp_msg_out.c:186-218 | the length of the data of every version; the octets written exceed it by exactly the sum of all differences, in plain and with a cipher text in place of the scoped PDU |
| `Respond.EncodeHead` | core/snmp_msg_out.c:223-284 | the octets before the bindings |
| `Respond.Datagram.AddBinding` | core/snmp_msg_proc.c:122-137 | a binding is appended and the list length stays that of the list |
| `Respond.Datagram.Response` | core/snmp_msg_out.c:358-389 | the size pass and the write pass produce the specified datagram and its computed size, which is also the size allocated; the decoder reads it back as everything that was sent, when lengths are exact and nothing is enciphered |
| `Respond.CountAgrees` | core/snmp_msg_out.c:358-389 | the write cursor ends at the announced size if and only if the differences cancel out |
| `Decode.VarBindAlloc` | core/snmp_msg_in.c:92-143 | decodes what the octets of a binding say, with the checks on 64 sub-identifiers and 1024 octets |
| `Decode.PduHdrParse` | core/snmp_msg_in.c:145-189 | decodes what the octets of a PDU header say, with its three error codes |
| `Decode.VarBindParse` | core/snmp_msg_in.c:191-234 | the loop that counts the list length down terminates with the bindings the octets say |
| `Decode.Data` | core/snmp_msg_in.c:452-574 | decodes version, community or security part, PDU header and bindings, with all error codes of every version, up to where a message may be enciphered |
| `DecodeSecure.GlobalAt` | core/snmp_msg_in.c:236-284 | decodes what the octets of the global data say, with its four error codes |
| `DecodeSecure.ParametersAt` | core/snmp_msg_in.c:286-380 | decodes engine, boots, time, user and both parameters as their octets say, with the checks on lengths and all error codes |
| `DecodeSecure.ScopeAt` | core/snmp_msg_in.c:521-543 | decodes the head of the scoped PDU |
| `Decode.Recv` | core/snmp_msg_in.c:622-656 | checks the outermost tag and length, and then decodes what the octets say |
| `Elements.ReadInt` | core/snmp_msg_in.c:157-184 | an integer element is read back whatever follows |
| `Elements.ReadText` | core/snmp_msg_in.c:310-323 | a string whose length is allowed is read back whatever follows |
| `SecureHeader.ReadGlobal` | core/snmp_msg_in.c:236-284 | message id, maximal size, flags and security model are read back from the global data |
| `SecureHeader.ReadParameters` | core/snmp_msg_in.c:286-380 | engine identifier, boots, time, user and both parameters are read back from the security parameters |
| `SecureHeader.ReadHead` | core/snmp_msg_in.c:236-380 | every field of the security part is read back |
| `Receive.ReadBinding` | core/snmp_msg_in.c:92-143 | a binding with an encodable identifier is read back whatever follows |
| `Receive.ReadBindings` | core/snmp_msg_in.c:191-234 | a list of bindings is read back in order and uses up the list length exactly |
| `Receive.RoundTrip` | core/snmp_msg_in.c:442-574 | decoding a response of any version that is not enciphered gives back version, every security field, both engine identifiers, context name, PDU type, ids and the list of bindings |
| `AgentX.OidRoundTrip` | core/agentx_decoder.c:107-126 | an identifier of up to 260 sub-identifiers is read back if and only if it is empty or starts with 1.3.6.1 and a fifth sub-identifier below 256, and is not 1.3.6.1.0 |
| `AgentX.WordTypes` | core/agentx_decoder.c:83-92 | types 02, 41, 42 and 43 take four octets, the least significant first |
| `AgentX.LongType` | core/agentx_decoder.c:93-99 | type 46 takes eight octets |
| `AgentX.TextTypes` | core/agentx_decoder.c:100-106 | types 04 and 40 take a length word of at most 1024, that many octets, and padding to a multiple of four |
| `AgentX.NameType` | core/agentx_decoder.c:107-126 | type 06 takes a count, a prefix and that many words, and stands for them after 1.3.6.1 and the prefix |
| `AgentX.OtherTypes` | core/agentx_decoder.c:127-129 | all other types take nothing |
| `AgentX.AddressRead` | core/agentx_decoder.c:100-106 | an address is read as its four octets |
| `AgentX.SizesAgree` | core/agentx_msg_out.c:381-414 | for every list of bindings the size computed is the number of octets written |
| `AgentX.PduAligned` | core/agentx_msg_out.c:381-414 | the PDU takes a multiple of four octets |
| `AgentX.ReadBinding` | core/agentx_msg_in.c:70-121 | a binding is read back whatever follows |
| `AgentX.ReadBindings` | core/agentx_msg_in.c:172-197 | all bindings are read back and use up the payload exactly |
| `AgentX.PduRoundTrip` | core/agentx_msg_in.c:227-296 | a response with plain flags reads back as its header fields and all its bindings, and nothing is left |
| `AgentX.ReservedZero` | core/agentx_msg_out.c:416-503 | reserved octets, the time and padding are zero |
| `AgentXCodec.SizePdu` | core/agentx_msg_out.c:381-414 | the sizing pass computes the size of the PDU |
| `AgentXCodec.ResponsePdu` | core/agentx_msg_out.c:366-503 | the writing pass writes the specified PDU, as many octets as the sizing pass computed, a multiple of four, and the decoder reads it back |
| `AgentXCodec.OidAt` | core/agentx_decoder.c:107-126 | the loop reads the identifier its octets stand for and moves the pointer past it |
| `AgentXCodec.VarBindAlloc` | core/agentx_msg_in.c:70-121 | reads what the octets of a binding say, type by type, with the checks on 64 sub-identifiers and 1024 octets |
| `AgentXCodec.VarBindParse` | core/agentx_msg_in.c:172-197 | the loop that counts the payload down terminates with the bindings the octets say |
| `AgentXCodec.Decode` | core/agentx_msg_in.c:227-296 | reads header, error and bindings of a response |
| `Md32.AddCount` | 3rd/crypto/openssl_md32_common.h:291-297 | the two 32-bit halves hold the bit count modulo 2^64, across the carry, for every length |
| `Md32.BlockDataOrder` | 3rd/crypto/openssl_md5.c:84-180 | blocks go through the compression function in order |
| `Md32.Context.constructor` | 3rd/crypto/openssl_md5.c:70-78 | a new context has streamed nothing |
| `Md32.Context.Update` | 3rd/crypto/openssl_md32_common.h:282-337 | the bytes are appended to the message streamed, in all of buffered, filled-up and direct paths, and the count follows |
| `Md32.Context.Final` | 3rd/crypto/openssl_md32_common.h:347-383 | the result is the digest of the padded message, with one or two final blocks: the message, 0x80, zeros, and the number of its bits in eight bytes of the algorithm's byte order |
| `Md32.PadLong` | 3rd/crypto/openssl_md32_common.h:352-361 | the padding of a message whose last block has no room for the count |
| `Digests.CountMeans` | 3rd/crypto/openssl_md32_common.h:364-371 | the eight bytes written stand for the number of bits modulo 2^64, low byte first or high byte first |
| `Digests.PadIs` | 3rd/crypto/openssl_md32_common.h:347-371 | the padding is 0x80, zeros up to eight bytes before a block boundary, and that count |
| `Digests.PaddedUnique` | 3rd/crypto/openssl_md32_common.h:347-371 | there is only one such padded message |
| `Md5.Streaming` | 3rd/crypto/openssl_md32_common.h:282-383 | however a message is split into updates, the digest is that of the registers after the blocks of the whole padded message |
| `Md5.Md5Hmac` | 3rd/crypto/openssl_md5.c:248-334 | refuses exactly wrong key sizes and empty arguments; otherwise the digest of the outer key block and the digest of the inner key block and the message, where the key blocks are the key and zeros with the bits of 0x36 (inner) and 0x5c (outer) flipped in every byte |
| `Digests.XorBit` | 3rd/crypto/openssl_md5.c:275-278 | a bit is set in an exclusive or exactly when it is set in one of the two numbers |
| `Digests.HmacUnique` | 3rd/crypto/openssl_md5.c:273-324 | the key blocks, given bit by bit, determine the keyed digest |
| `Md5.Md5Key` | 3rd/crypto/openssl_md5.c:185-232 | the digest of a megabyte of repeated password, localized between two copies of it |
| `Cfb.Inverts` | 3rd/crypto/openssl_cfb128.c:120-177 | for any block function, self-inverse combination, state and length, decryption inverts encryption and leaves the same state |
| `Cfb.XorInverts` | 3rd/crypto/openssl_cfb128.c:120-177 | so it does for the exclusive or of bytes |
| `Cfb.ByteByByte` | 3rd/crypto/openssl_cfb128.c:120-128 | the byte-at-a-time path runs the mode over the input |
| `CfbWide.FreshBlock` | 3rd/crypto/openssl_cfb128.c:97-114 | the mode over the first bytes of a fresh block is one exclusive or with the refreshed register |
| `CfbWide.ModeFeedsBack` | 3rd/crypto/openssl_cfb128.c:86-117 | over whole blocks the mode is ciphertext feedback: every byte is combined with its byte of the enciphered ciphertext block before it, in both directions |
| `CfbWide.BlockByBlock` | 3rd/crypto/openssl_cfb128.c:86-117 | the block-at-a-time path, in both directions, gives the output and register of the byte-at-a-time path, and its count of used bytes if and only if it starts at a block boundary or gets past one |

## Left out

- Sockets, event loops, transports, signals, the Lua C API, logging and allocation failure.
- Values, access modes and error statuses of variables: handlers are modelled by the identifiers they serve, so a Lua getter that returns nil or a column that is not accessible, whose rows the group handler skips, is not modelled.
- Exception tags of GET: which of noSuchObject and noSuchInstance is reported when nothing is found.
- The view functions of SNMPv3 users (core/mib_view.c:287-545), which repeat those of communities, and SNMPv3 request processing: authentication outcome, decryption and encryption.
- GETBULK non-repeaters, which the agent ignores, and the error status of SET responses.
- Dispatch of the BER codec on value types (core/snmp_encoder.c:166-201, 355-393; core/snmp_decoder.c:50-80, 162-195): bindings carry their encoded value.
- Integers of more than four octets and lengths that lead outside of the buffer: decoding them is reported as malformed instead of being followed.
- Other AgentX PDUs and search ranges, contexts, and the network byte order flag.
- The rounds of MD5, SHA-1 and AES: the compression and block functions are arbitrary.
- Word access in CFB on machines with strict alignment, and the 1-bit and 8-bit CFB modes.
- Big-endian branches; traps, sample MIBs, command line and build scripts.
- Bulk.BulkGet: assumes that sub-identifiers are below 2^31, where comparison does not wrap.
- Bulk.WalkFrom: assumes that sub-identifiers are below 2^31, where comparison does not wrap.
- LuaAgent.RequestExactly: asks for views that are neither variables nor stop inside an array key; without this, Requests.GetNext and LuaAgent.RightExactly have the condition.
- Receive.RoundTrip: leaves out messages whose flags ask for encryption, and messages whose recorded lengths are not exact.
- Decode.Data: a version 3 message whose flags ask for authentication and encryption is decoded up to the part that may be enciphered; whether it is depends on the user and the keys.
- MibNodes.Expand: arrays are sequences that are replaced, so sharing of the C arrays is not modelled; a group that already holds 47421 children is excluded, since the next capacity does not fit 16 bits (MibNodes.CapOverflow).
- MibTrees.MibTree.InstanceInsert: excludes identifiers whose path meets a group of 47421 children, for the same reason.
- MibTrees.MibTree.NodeReg: excludes identifiers whose path meets a group of 47421 children, for the same reason.
- MibTrees.MibTree.Replay: excludes runs that put more than 47421 children into a group, for the same reason.
- ViewLists.Add: asks for views with sub-identifiers below 2^31, where comparison does not wrap; others can be put out of order (Oids.CmpWrapExample).
- Views.ViewTable.ViewCreate: asks for a view with sub-identifiers below 2^31, for the same reason.
- Views.ViewTable.Bind: asks for a view with sub-identifiers below 2^31, for the same reason.
- Views.ViewTable.CommunityReg: asks for a view with sub-identifiers below 2^31, for the same reason.
- Views.ViewTable.Replay: asks for views with sub-identifiers below 2^31, for the same reason.
- TreeNext.Traverse: the backlog and the identifier buffer are sequences; their bounds are stated by TreeNext.BacklogBound.
- LuaGetnext.Getnext: the request table is passed and returned by value; that callers share it is modelled by LuaHandler.GroupGetnext, which goes on with the rewritten request.
- LuaSegments.TableSegment: assumes of a table what LuaSegments.Generate assumes of a group.
- LuaSegments.Generate: assumes what the source asserts or documents of a group: one numbered entry per table, a cascaded index of at least one list, no number twice in such a list, and keys that are not empty. It also assumes that no two keys of a table are read as the same array; the source does not check this, and the keys "1.2" and "1-2" are.
- LuaHandler.GroupGetnext: assumes of a group what LuaSegments.Generate assumes of it.
- BerDecode.IntDec: excludes strings of no octets and of more than four, for which the unsigned count of padding octets wraps.
- Framing.SentCount: the octets of the message flags are those received; that octets after the first are kept where the C field has only padding is taken for granted.
- BerOid.OidEncTry: excludes identifiers of more than 255 sub-identifiers, on which its 8-bit loop counter would never end.
- Md5.Md5Hmac: asks for at most the 64 bytes that the local buffer holds.
- Md5.Md5Key: asks for a password that is not empty, whose length is a divisor, and for an engine identifier of at most the 32 bytes that fit the local buffer between two digests.
