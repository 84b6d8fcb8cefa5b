# SCI message layer and cloudlet plumbing, modelled in Dafny

SCI is the tree-structured message layer with which one front end drives thousands of back ends. This project
models its routing table, its launch trees, its back-end map, its wire format and its event notification, and
beside it the thread pool and two body codecs of the HTTP library the same program is linked with. It proves
properties of the models for all inputs, all runs and all interleavings.

The parts depend on each other as they do in the program:

- `Ranges`, `SortedSets`, `Groups`: a set of ids as a sorted list of half-open ranges, refined by the in-place
  insertion, deletion and iteration of `Group`.
- `Tables`, `TableAlgebra`, `Routing`, `CacheCoherence`, `Runs`: the distributed group table as a value. One
  slice of every group per successor, four derived caches, what each operation means, the invariant that makes
  slice-wise algebra sound, and the invariant over every run.
- `TableEffects`: the same operations back end by back end and key by key, stated apart from the values.
- `TableLoops`, `DistributedGroups`: the class with its nested loops, proved to compute those values and to have those
  effects.
- `Packing`, `TableCodec`: network byte order, the growing pack buffer, the packed table.
- `Arithmetic`, `Launch`, `AgentNumbers`, `LaunchTrees`: splitting a range of back ends among children by ceiling
  division, the trees this gives, and the numbering of their agents.
- `Delivery`, `GroupCommands`, `GroupFrees`, `ListUnions`: the running tree with the routing table of every node, what
  reaches whom through those tables, and group commands on their way down.
- `Sights`, `Refinement`, `Sessions`, `ExactSessions`, `StuckSessions`: the same tree with every table reduced to sets,
  the proof that the tables follow the sets, and any session of group requests: what it does and when it fails.
- `AgentThresholds`, `Deployments`, `Launcher`, `LaunchVariants`: how many back ends it takes for an agent id to occur,
  the launch loops that build the tree, and what the result delivers.
- `BackEndMaps`, `Startup`: host-file lines to a map from ids to hosts, and from there to the running tree.
- `LongCodec`, `Streams`, `Messages`: the buffered stream, messages on the wire, segments.
- `WireLayout`: where everything lies on the wire, byte by byte.
- `Notifications`, `NotifyProtocol`, `StrayNotifiers`: recycled event slots, under any interleaving, with one
  notification per allocation and with any number of callers.
- `ThreadPools`: the pool as a step system.
- `HttpText`, `Multipart`, `Chunked`, `ChunkedStreams`: the multipart body scanner (section 5.1.1 of RFC 2046) and
  chunked transfer coding (section 7.1 of RFC 9112).

`dafny verify dfyconfig.toml` checks everything.

Where the code and its comments or its likely intent part ways the code is followed:

- Union with a list copies ALL's slice and not the group's own (`sci/libsci/dgroup.cpp:326`), so it may yield more
  than the union: `OperateExtUnion`, `OperateExtUnionTooLarge`, and in the tree `UnionExact`, `UnionExactIff`.
  Such a group is wider at upper nodes than at lower ones; as an operand it can make later requests fail:
  `LooseOperandFails`, `NoRequestFailsIff`, `UnionCarriedIff`.
- Nothing keeps an agent from getting the id that stands for the attached back ends: `DeployedDeliversIff`,
  `ThresholdExact`, `HalvesLose`.
- `unpackMsg` makes no entry for a group without slices and rebuilds no cache: `RoundTrip`.
- `long` values are split by shifts of `sizeof(int)`, that is of 4, bits: `LongRoundTripIff`.
- `notify` releases a slot before the waiter has left, and the assertion in `test` assigns: `NotifiedWaiterLeavesIff`,
  `NotificationCanBeLost`, `BoundedIffCareful`, `StrayMark`, `MarkIsNoChange`.
- The comment on `JoinAll` promises an empty queue: `JoinedAllRanIff`, `JoinedQueueEmptyIff`, `JoinedQueueCanHoldJobs`,
  `OverlappingAddCanBeLost`.
- The scheme with a back end first makes one child more than `ref` when there are more back ends than the fan-out:
  `LaunchTree4`.

## Model

| member | source | states |
|---|---|---|
| `Ranges.PredicatesMeanSets` | sci/common/range.cpp:55-85 | for non-empty ranges the five comparisons mean overlap, overlap-or-adjacency, precedence, inclusion and strict two-sided inclusion of the id sets |
| `Ranges.Range.Union` | sci/common/range.cpp:87-91 | the union of touching ranges is one range with exactly the ids of both |
| `Ranges.Range.Difference` | sci/common/range.cpp:93-107 | what is left of a range that is neither split nor swallowed is one range with exactly the remaining ids |
| `Groups.CanonicalUnique` | sci/common/group.cpp:50-58 | two sorted, non-touching range lists denote the same set exactly when they are the same list |
| `Groups.Group.constructor` | sci/common/group.cpp:31-33 | a new group is the empty set in canonical form |
| `Groups.Group.Copy` | sci/common/group.cpp:45-48 | a copy has the same range list |
| `Groups.AbsorbCorrect` | sci/common/group.cpp:112-134 | merging a grown range with every following range it touches restores the canonical form and keeps the set |
| `Groups.SweepCorrect` | sci/common/group.cpp:155-182 | sweeping from any suitable position removes exactly the ids of the range and keeps the canonical form |
| `Groups.SplitCorrect` | sci/common/group.cpp:164-168 | deleting from the inside of a range leaves two ranges with exactly the other ids |
| `Groups.Group.AddAt` | sci/common/group.cpp:112-134 | from any hint with everything before it strictly below, insertion gives exactly the union in canonical form, and the returned position holds the range added |
| `Groups.Group.Add` | sci/common/group.cpp:107-110 | insertion from the start gives the exact union |
| `Groups.Group.AddId` | sci/common/group.cpp:102-105 | adding one id |
| `Groups.Group.AddGroup` | sci/common/group.cpp:136-143 | the sweep that reuses each returned position gives the union of both sets |
| `Groups.Group.DeleteAt` | sci/common/group.cpp:155-182 | deletion from any valid hint gives the exact difference in canonical form, and the returned position is a valid hint for the next range |
| `Groups.Group.Delete` | sci/common/group.cpp:150-153 | deletion from the start gives the exact difference |
| `Groups.Group.DeleteId` | sci/common/group.cpp:145-148 | deleting one id |
| `Groups.Group.DeleteGroup` | sci/common/group.cpp:184-191 | the sweep that reuses each returned position gives the difference of both sets |
| `Groups.Group.Equals` | sci/common/group.cpp:50-58 | the element-wise comparison answers equality of sets |
| `Groups.Group.HasMember` | sci/common/group.cpp:60-72 | membership, both ways |
| `Groups.RankIsPosition` | sci/common/group.cpp:84-100 | the sum of the lengths of earlier ranges plus the offset is the number of smaller members and the position in the ascending list |
| `Groups.Group.Index` | sci/common/group.cpp:84-100 | the index of a member is the number of smaller members |
| `Groups.Group.Size` | sci/common/group.cpp:208-219 | size is the cardinality of the set |
| `Groups.ListingIsEnumeration` | sci/common/group.cpp:198-255 | listing range by range is the ascending enumeration of the set, without repetition |
| `Groups.GroupIterator.constructor` | sci/common/group.cpp:221-228 | a new iterator has the whole ascending enumeration before it |
| `Groups.GroupIterator.Next` | sci/common/group.cpp:235-245 | one step consumes exactly the next id |
| `Groups.Iterate` | sci/common/group.cpp:198-255 | iteration visits every member once, in ascending order, in exactly size() steps |
| `TableAlgebra.BeListExact` | sci/libsci/dgroup.cpp:764-805 | over disjoint slices the cached back-end list holds every member exactly once, so its length is the cardinality |
| `TableAlgebra.SuccListMultiset` | sci/libsci/dgroup.cpp:764-805 | the successor list is the slice keys with the attached back ends in place of their key |
| `TableAlgebra.CreateExact` | sci/libsci/dgroup.cpp:142-173 | a created group is ALL restricted to the given list |
| `TableAlgebra.OperateExact` | sci/libsci/dgroup.cpp:196-290 | under the routing invariant slice-wise union, intersection and difference are the global ones, and a non-union reports a result exactly when it is not empty |
| `TableAlgebra.OperateExtExact` | sci/libsci/dgroup.cpp:292-387 | intersection and difference with a list are exact, and an empty result is reported exactly when the set is empty |
| `TableAlgebra.OperateExtUnion` | sci/libsci/dgroup.cpp:317-346 | union with a list yields the whole ALL slice of every successor the group uses plus ALL restricted to the list: always a superset of the union, equal to it exactly when each such ALL slice lies inside the group's slice and the list |
| `TableAlgebra.OperateExtUnionTooLarge` | sci/libsci/dgroup.cpp:317-346 | a table in which union with the empty list is not the group itself |
| `Routing.OwnerUnique` | sci/libsci/dgroup.cpp:717-736 | a back end found in any group's slice has the same, unique owner in ALL |
| `Routing.RemoveBEPointwise` | sci/libsci/dgroup.cpp:450-495 | removing a back end takes it from every slice of every group and changes nothing else |
| `Routing.DropPointwise` | sci/libsci/dgroup.cpp:497-524 | slice by slice, dropping an agent empties its slice in every group, dropping a back end takes it from the attached slices, and nothing else changes |
| `Routing.MergePointwise` | sci/libsci/dgroup.cpp:526-591 | slice by slice: the merged successor, or the attached slice for a back end, gains exactly the incoming group, or the back end itself, and every other slice loses just that |
| `Routing.MergeMembership` | sci/libsci/dgroup.cpp:526-591 | for a group that is merged, membership is old plus incoming (or plus the successor itself when it is a back end), the successor's slice owns all of it, slices stay disjoint; other groups are untouched |
| `Routing.MergeOwnedIff` | sci/libsci/dgroup.cpp:526-591 | after a merge ALL's slices are disjoint, and containment in ALL survives exactly when each local group's members among the incoming back ends are in the incoming group |
| `TableEffects.CreateDoes` | sci/libsci/dgroup.cpp:142-173 | back end by back end and key by key what creating a group does: each successor's slice of ALL cut down to the list, a key exactly for those that are not empty, every other group untouched |
| `TableEffects.OperateDoes` | sci/libsci/dgroup.cpp:196-290 | likewise for the three operations on two groups, and when the new group exists |
| `TableEffects.OperateExtDoes` | sci/libsci/dgroup.cpp:292-387 | likewise for the three operations with a list |
| `TableEffects.InitSubGroupDoes` | sci/libsci/dgroup.cpp:389-424 | ALL's slice of the successor is exactly the ids from the first to the last; everything else stays |
| `TableEffects.AddBEDoes` | sci/libsci/dgroup.cpp:426-448 | one slice gains one id; everything else stays |
| `TableEffects.RemoveBEDoes` | sci/libsci/dgroup.cpp:450-495 | no slice of any group has the back end, and otherwise all are as before; a key goes exactly when its slice is then empty, except those of agents and attached back ends in ALL, and a group when it has no key left |
| `TableEffects.DropDoes` | sci/libsci/dgroup.cpp:497-524 | a dropped agent has no key in any group, a dropped back end is in no attached slice; all other keys and slices, and all groups, are as before |
| `TableEffects.ListedIff` | sci/libsci/dgroup.cpp:764-805 | who is in the cached successor list, by the keys and the attached slice |
| `TableEffects.DropUnlists` | sci/libsci/dgroup.cpp:497-524 | afterwards the successor is in no group's successor list, and the other agents are in the lists they were in |
| `TableEffects.MergeDoes` | sci/libsci/dgroup.cpp:526-591 | of every merged group: its members are the old and the incoming ones, the successor's slice gains exactly the incoming group, every other slice loses what is in that slice, and no other key comes or goes; for a back end the same with the attached slice and the back end itself; other groups are untouched, and which new ones come is said by the overwrite flag |
| `CacheCoherence.InitSubGroupCoherentIff` | sci/libsci/dgroup.cpp:389-424 | appending to the cached lists keeps them right exactly when the successor had no slice in ALL (or an empty attached one) |
| `CacheCoherence.AddBECoherent` | sci/libsci/dgroup.cpp:426-448 | adding a back end leaves every cache right |
| `CacheCoherence.RemoveBECoherent` | sci/libsci/dgroup.cpp:450-495 | removing a back end rebuilds the caches of every group left and erases those of every group that vanished |
| `CacheCoherence.DropCoherent` | sci/libsci/dgroup.cpp:497-524 | dropping a successor rebuilds the caches of every group that used it |
| `CacheCoherence.MergeCoherent` | sci/libsci/dgroup.cpp:526-591 | a merge leaves every cache right, whether or not the tables agree |
| `Runs.StepKeepsOwned` | sci/libsci/dgroup.cpp:142-591 | every allowed operation keeps ALL partitioned and every group inside ALL, successor by successor |
| `Runs.StepKeepsCoherent` | sci/libsci/dgroup.cpp:142-591 | every allowed operation keeps the four caches right |
| `Runs.RunKeepsInvariant` | sci/libsci/dgroup.cpp:142-591 | so does every run |
| `Runs.ReachableTables` | sci/libsci/dgroup.cpp:142-591 | in every table reachable from the empty one, for every group: unique owners, the cached list is the group's set as a multiset, the count its cardinality, successor list and count match the slices |
| `DistributedGroups.DistributedGroup.constructor` | sci/libsci/dgroup.cpp:40-52 | a new table is empty |
| `DistributedGroups.Intersect` | sci/libsci/dgroup.cpp:157-162 | deleting the difference gives the intersection, and it is empty exactly when the sets do not meet |
| `DistributedGroups.ListToGroup` | sci/libsci/dgroup.cpp:144-147 | a list of ids becomes the set of its elements |
| `DistributedGroups.DistributedGroup.Reset` | sci/libsci/dgroup.cpp:764-805 | the caches of one group are rebuilt from its slices in key order; no other cache changes |
| `DistributedGroups.DistributedGroup.Create` | sci/libsci/dgroup.cpp:142-173 | the loop over ALL's slices computes the specified table, with the effect of CreateDoes |
| `DistributedGroups.DistributedGroup.Remove` | sci/libsci/dgroup.cpp:175-194 | group and caches are gone, the rest is unchanged |
| `DistributedGroups.DistributedGroup.Operate` | sci/libsci/dgroup.cpp:196-290 | the three loops compute the specified table, with the effect of OperateDoes, and succeed exactly when the new group exists |
| `DistributedGroups.DistributedGroup.OperateExt` | sci/libsci/dgroup.cpp:292-387 | the three loops compute the specified table, with the effect of OperateExtDoes, and succeed exactly when the new group exists |
| `DistributedGroups.DistributedGroup.InitSubGroup` | sci/libsci/dgroup.cpp:389-424 | the slice of ALL is set and ids are appended to ALL's cached lists |
| `DistributedGroups.DistributedGroup.AddBE` | sci/libsci/dgroup.cpp:426-448 | the slice grows by one id and the group is re-cached |
| `DistributedGroups.DistributedGroup.RemoveBE` | sci/libsci/dgroup.cpp:450-495 | the nested loops with their junk lists compute the specified table, with the effect of RemoveBEDoes |
| `DistributedGroups.DistributedGroup.DropSuccessor` | sci/libsci/dgroup.cpp:497-524 | the loop over the groups computes the specified table, with the effect of DropDoes: an agent's slice is dropped from every group, a back end leaves the attached slice |
| `DistributedGroups.DistributedGroup.Merge` | sci/libsci/dgroup.cpp:526-591 | the nested loops over incoming groups and slices compute the specified table, with the effect of MergeDoes |
| `DistributedGroups.DistributedGroup.ResetAll` | sci/libsci/dgroup.cpp:807-813 | every group is re-cached |
| `DistributedGroups.DistributedGroup.IsGroupExist` | sci/libsci/dgroup.cpp:593-604 | answers presence of the group, both ways |
| `DistributedGroups.DistributedGroup.NumOfBE` | sci/libsci/dgroup.cpp:631-643 | in every table a run can produce, the number of members of the group |
| `DistributedGroups.DistributedGroup.RetrieveBEList` | sci/libsci/dgroup.cpp:676-686 | in every such table, each member of the group once, as many as the count says |
| `DistributedGroups.DistributedGroup.NumOfSuccessor` | sci/libsci/dgroup.cpp:645-657 | in every table a run can produce, the number of agents in use and attached members together |
| `DistributedGroups.DistributedGroup.RetrieveSuccessorList` | sci/libsci/dgroup.cpp:688-698 | in every such table, each agent in use and each attached member once, as many as the count says |
| `DistributedGroups.DistributedGroup.QuerySuccessorId` | sci/libsci/dgroup.cpp:717-736 | the least successor holding the back end in ALL, or the invalid id exactly when there is none; the look-up that delivery is proved with |
| `DistributedGroups.DistributedGroup.IsSuccessorExist` | sci/libsci/dgroup.cpp:606-629 | a slice key of ALL or an attached back end, both ways |
| `DistributedGroups.DistributedGroup.RetrieveBEListOfSuccessor` | sci/libsci/dgroup.cpp:700-715 | the successor's ids in ascending order |
| `Packing.IntRoundTrip` | sci/common/packer.cpp:65-74 | every 32-bit integer survives the byte form |
| `Packing.BytesRoundTrip` | sci/common/packer.cpp:114-123 | every four bytes are the form of the integer read from them |
| `Packing.Packer.CheckBuffer` | sci/common/packer.cpp:150-165 | after any number of doublings there is room and nothing packed is lost |
| `Packing.Packer.PackInt` | sci/common/packer.cpp:65-74 | packing appends exactly the four bytes |
| `Packing.Unpacker.UnpackInt` | sci/common/packer.cpp:114-123 | reading takes the next four bytes |
| `TableCodec.PackMsg` | sci/libsci/dgroup.cpp:84-116 | the three nested loops pack parent, groups, slices and ids in key order |
| `TableCodec.UnpackMsg` | sci/libsci/dgroup.cpp:118-140 | from a packed table, possibly followed by other bytes: the parent and, range for range, every slice, laid over whatever groups and slices were there; the caches are not rebuilt |
| `TableCodec.RoundTrip` | sci/libsci/dgroup.cpp:84-140 | packing and unpacking into a fresh table restores parent id and every slice of every group, and drops exactly the groups without slices |
| `Launch.StepsExact` | sci/libsci/launcher.cpp:648-733 | the repeated ceiling division makes exactly min(n, fanOut) children, child i getting n/fanOut plus one for the first n mod fanOut |
| `Launch.StepsCover` | sci/libsci/launcher.cpp:648-733 | the shares are positive and sum to n |
| `Launch.StepsShrink` | sci/libsci/launcher.cpp:648-733 | every child is smaller than its parent exactly when the fan-out is at least two |
| `Launcher.LaunchTree2` | sci/libsci/launcher.cpp:631-736 | the loop makes exactly the planned children, hands every entry of the host map to exactly one of them, files each with the routing table as that run of initSubGroup and addBE, and makes exactly `ref` of them |
| `Launch.Steps4Exact` | sci/libsci/launcher.cpp:866-960 | the scheme with a back end first makes min(n, fanOut) children, one more when n exceeds the fan-out, covering all ids with smaller shares |
| `Launcher.LaunchTree4` | sci/libsci/launcher.cpp:859-964 | its loop makes exactly the planned children and hands every entry of the host map to exactly one of them; their number is `ref` exactly when n is at most the fan-out |
| `Launcher.LaunchIsRun` | sci/libsci/launcher.cpp:648-733 | for both schemes ALL then holds for every child exactly its contiguous ids, and the calls are allowed ones exactly when no agent gets the reserved id after that is in use |
| `Launcher.Deploy` | sci/libsci/topology.cpp:215-234 | launching by either scheme, with every agent launching its own share in turn, terminates with the specified tree, and every back end is started on the host that the map names for it; whatever the ids, every table files exactly the node's children and never lists the reserved id as a successor, and without a reserved agent id it is a sound table |
| `LaunchTrees.TreeLeaves` | sci/libsci/launcher.cpp:631-736 | for both schemes the leaves of the tree, left to right, are exactly the ids given to its root, each once |
| `LaunchTrees.TreeDepthIff` | sci/libsci/launcher.cpp:631-736 | for both schemes the tree has at most d levels exactly when its back ends fit the capacity of d levels |
| `LaunchTrees.EvenCapacity` | sci/libsci/launcher.cpp:648-733 | which is fanOut^d for even shares |
| `LaunchTrees.TreeNumbered` | sci/libsci/topology.cpp:220-220 | the agents are numbered downwards from the formula for the first child |
| `AgentNumbers.AgentIdsUnique` | sci/libsci/topology.cpp:220-220 | in every tree numbered by the formula all agent ids differ |
| `AgentNumbers.AgentIdBound` | sci/libsci/topology.cpp:220-220 | how far below -1 those ids reach, by the depth of the tree |
| `AgentNumbers.MaxIndexClosed` | sci/libsci/topology.cpp:220-220 | and in closed form |
| `Delivery.DeliverExact` | sci/libsci/routinglist.cpp:245-257 | with the tables of the nodes, a message for a back-end id reaches it in as many steps as there are agents above it exactly when it is in the tree and no agent on the way has the id that means not found; otherwise it does not arrive |
| `Delivery.ConveyedExact` | sci/libsci/routinglist.cpp:259-285 | when at every node the successor list serves exactly the children with members below, a message to the group is received exactly once by every member in the tree and by nobody else |
| `Delivery.BroadcastExact` | sci/libsci/routinglist.cpp:259-285 | so it is when the slices are those of ALL restricted to the members, and only a group without members in the tree may be unknown |
| `Delivery.NetDelivers` | sci/libsci/api.cpp:416-446 | an id that is no back end is refused, a message to a back end arrives or is lost on the way, and one to ALL or to any group the tree carries reaches each member once |
| `GroupCommands.CommandTable` | sci/libsci/routinglist.cpp:102-159 | what carrying out a group command does at one node: the slices of the new group, all others unchanged, whether the group exists afterwards, the cached successors, the invariant |
| `GroupCommands.CommandExact` | sci/libsci/routinglist.cpp:102-159 | on operands that have the same members at every node a creation, an operation on two groups, an intersection or difference with a list, or a union with a list into which every child with a member fits, handed from node to node as the code does it, meets only nodes that can carry it out, and the new group again has the same members at every node, exactly the resulting set |
| `GroupCommands.OthersCarried` | sci/libsci/routinglist.cpp:102-159 | all other groups have the members they had, in every node |
| `GroupCommands.OthersUnknown` | sci/libsci/routinglist.cpp:102-159 | and ids that were unknown stay unknown in every node |
| `Refinement.CommandRefines` | sci/libsci/routinglist.cpp:102-159 | for any operands: a command meets a node that looks up a group it does not have exactly when the tree with every table reduced to sets says so, and otherwise it leaves the tables that those sets say |
| `Refinement.FreeRefines` | sci/libsci/routinglist.cpp:121-129 | freeing any group meets only nodes that know it exactly when every agent a node lists for the group knows the group, and then leaves sound tables without it |
| `Refinement.ReceivedExact` | sci/libsci/routinglist.cpp:259-285 | a message to any group is received once by everyone in the audience that the sets give and by nobody else; an agent that does not know the group drops it |
| `Sights.NewLinkedIff` | sci/libsci/routinglist.cpp:130-159 | in a new group every agent a node lists knows the group exactly when the operation leaves a member at every agent the command is handed to |
| `Sights.OthersLinked` | sci/libsci/routinglist.cpp:102-159 | groups with that property keep it |
| `GroupFrees.FreeClears` | sci/libsci/routinglist.cpp:121-129 | and afterwards no node has a slice of it |
| `ListUnions.UnionExact` | sci/libsci/dgroup.cpp:317-346 | a union with a list likewise meets only nodes that can carry it out, and a message to the new group then goes to the members, the listed back ends, and every back end attached beside a member |
| `ListUnions.UnionExactIff` | sci/libsci/dgroup.cpp:326-326 | which is the union exactly when every back end attached beside a member is in it |
| `ListUnions.UnionCarriedIff` | sci/libsci/dgroup.cpp:317-346 | the new group is the union at every node, and so an operand like any other, exactly when every child of the front end with a member below it lies inside the union |
| `Sessions.ServeRefines` | sci/libsci/api.cpp:546-708 | any request whose operands exist at the front end, as the interface checks: it fails at some node exactly when the sets say so, and if not the tables follow the sets |
| `Sessions.SessionRefines` | sci/libsci/api.cpp:546-708 | so does any sequence of such requests |
| `Sessions.NoRequestFailsIff` | sci/libsci/api.cpp:546-708 | no request can fail next exactly when for every group of the front end every agent that gets its messages knows it |
| `Sessions.NextLinkedIff` | sci/libsci/routinglist.cpp:102-159 | a request keeps this exactly when the group it makes, if any, is made at every agent the request is handed to |
| `Sessions.ThoroughNeverFails` | sci/libsci/api.cpp:546-708 | so on an unused tree a session keeps it at all times exactly when all its requests are such ones, and then it never fails |
| `Sessions.SessionServed` | sci/libsci/api.cpp:416-446 | after any sequence of requests that did not fail, which the sets decide, a message to a group that exists reaches its audience once and nobody else, one to a back end arrives within the depth or is lost on the way, and one to any other id is refused |
| `StuckSessions.LooseOperandFails` | sci/libsci/dgroup.cpp:175-194 | on the tree deployed over five back ends with fan-out two: an accepted session whose intersection of a union with a list makes a group that reaches nobody and cannot be freed |
| `ExactSessions.ExactServed` | sci/libsci/api.cpp:546-708 | a session whose operands have the same members at every node never fails, and every group then reaches exactly the members that set algebra gives it, or for a union with a list those and the surplus |
| `Deployments.ShallowNoneReserved` | sci/libsci/topology.cpp:220-220 | no agent has a reserved id as long as the levels keep the ids small enough |
| `Deployments.LostBelow` | sci/libsci/routinglist.cpp:245-257 | below an agent with the reserved id no back end gets a message, neither its own nor one to ALL |
| `Deployments.DeployedDeliversIff` | sci/libsci/routinglist.cpp:245-273 | a deployed tree does what the sets say for every sequence of requests and every message if and only if no agent in it has the reserved id, and agent ids are unique |
| `AgentThresholds.ThresholdExact` | sci/libsci/launcher.cpp:631-736 | for both schemes an id is that of an agent in the tree exactly from a number of back ends on that follows from the id and the fan-out |
| `Launcher.HalvesThreshold` | sci/libsci/launcher.cpp:648-733 | for the reserved id, even shares and fan-out two that number is 2^30 + 1 |
| `Launcher.HalvesLose` | sci/libsci/launcher.cpp:648-733 | a deployed tree of that size does not deliver |
| `Launcher.AllClearIff` | sci/libsci/routinglist.cpp:248-249 | every way is clear of the id that means not found exactly below that number for it |
| `Launcher.DeployedTreeDelivers` | sci/libsci/launcher.cpp:631-736 | all of this for the tree and the tables that Deploy returns, for both schemes: it delivers within d levels if and only if there are fewer back ends than it takes for an agent to get the reserved id |
| `LaunchVariants.Tree1Split` | sci/libsci/launcher.cpp:546-615 | when n is at most fanOut^levels every share fits fanOut^(levels-1) and there are at most fanOut shares, so the levels left are a termination measure |
| `LaunchVariants.Tree1Leaves` | sci/libsci/launcher.cpp:537-629 | the tree with few agents places every id once as a leaf and has depth at most the levels |
| `LaunchVariants.ChunksExact` | sci/libsci/launcher.cpp:584-615 | every share but the last is as large as the step, the last is what remains |
| `LaunchVariants.Step1Least` | sci/libsci/launcher.cpp:566-583 | the step is the least with which the fewest agents suffice whose subtrees are as wide as the levels below them allow |
| `LaunchVariants.Tree1Numbered` | sci/libsci/topology.cpp:220-220 | its agents are numbered by the same formula |
| `LaunchVariants.AgentStepsAreRun` | sci/libsci/launcher.cpp:584-615 | ALL then files every agent with its chunk, and the initSubGroup calls of the loop are allowed ones exactly when no agent gets the reserved id after that is in use |
| `LaunchVariants.LaunchTree1` | sci/libsci/launcher.cpp:537-629 | back ends directly when they fit the fan-out, else agents with consecutive shares, every entry of the host map going to exactly one of them; the filter list's reference count is the number of children plus one |
| `LaunchVariants.Deploy1` | sci/libsci/topology.cpp:215-234 | launching this way terminates with the specified tree and the same tables, and every back end is started on the host that the map names for it |
| `LaunchVariants.DeployedTree1Delivers` | sci/libsci/launcher.cpp:537-629 | the tree and the tables that Deploy1 returns deliver if and only if no agent has the reserved id |
| `BackEndMaps.UnusedIsLeast` | sci/libsci/bemap.cpp:399-421 | the id handed out is the least unused one |
| `BackEndMaps.EntryCount` | sci/libsci/bemap.cpp:153-189 | the host count of a line is the number of its entries: the names in the range times the repetitions |
| `BackEndMaps.EntryAt` | sci/libsci/bemap.cpp:170-189 | entry by entry, the host is front, number and tail, where the digits read from left to right say first + i * stride, are at least as many as asked for, and have no leading zero beyond that |
| `BackEndMaps.PaddedReads` | sci/libsci/bemap.cpp:178-184 | what the zero-padded format writes reads back as the number |
| `BackEndMaps.TasksAt` | sci/libsci/bemap.cpp:284-298 | task i of a range is first + i * stride, and of a list its element i |
| `BackEndMaps.HandedOutLeast` | sci/libsci/bemap.cpp:398-424 | the ids handed out to a line are unused and ascending, and every smaller id is used or handed out before |
| `BackEndMaps.HandOutExact` | sci/libsci/bemap.cpp:398-424 | a line without task ids is accepted exactly when it fits, entry i then gets the i-th of those ids, and no earlier pairing changes |
| `BackEndMaps.AssignExact` | sci/libsci/bemap.cpp:382-397 | a line with task ids is accepted exactly when they are non-negative, new, distinct and fit; task i is then paired with entry i, and no earlier pairing changes |
| `BackEndMaps.HandOutGapless` | sci/libsci/bemap.cpp:399-421 | handing out ids to a map without gaps leaves none |
| `BackEndMaps.MaxBelowSizeIff` | sci/libsci/bemap.cpp:101-112 | comparing the largest id with the size accepts exactly the maps with ids 0 to size-1 |
| `BackEndMaps.ReadLinesKeeps` | sci/libsci/bemap.cpp:72-97 | ids stay non-negative over a whole file |
| `BackEndMaps.LineRefused` | sci/libsci/bemap.cpp:430-471 | a line without the form, or with a count, stride or bound out of range, fails and changes nothing |
| `BackEndMaps.LineRead` | sci/libsci/bemap.cpp:430-471 | any other line hands out unused ids if it names none, pairs ids and hosts if there are as many, and fails otherwise |
| `BackEndMaps.ReadLinesConcat` | sci/libsci/bemap.cpp:72-97 | a file is read line by line, up to the first line that fails or until the map is full |
| `BackEndMaps.ReadLinesExtends` | sci/libsci/bemap.cpp:72-97 | no line moves or removes an id, and the limit is never passed |
| `BackEndMaps.BEMap.GenerateHostRange` | sci/libsci/bemap.cpp:153-168 | the numbers of a host range and the host count |
| `BackEndMaps.BEMap.GenerateHostEntries` | sci/libsci/bemap.cpp:170-189 | the host names in order, each spelled out as EntryAt says and as often as it is repeated |
| `BackEndMaps.BEMap.GenerateTaskRange` | sci/libsci/bemap.cpp:284-298 | the task ids and their count |
| `BackEndMaps.BEMap.NextId` | sci/libsci/bemap.cpp:401-421 | the search from the cursor to the largest id finds the least unused id, because the ids below the cursor are all taken |
| `BackEndMaps.BEMap.HandOutIds` | sci/libsci/bemap.cpp:398-424 | every host without a task id gets the least unused id, until the map is full |
| `BackEndMaps.BEMap.AssignIds` | sci/libsci/bemap.cpp:382-397 | task i is paired with host entry i, and a negative or duplicate id stops with an error |
| `BackEndMaps.BEMap.ExpandLine` | sci/libsci/bemap.cpp:430-471 | a line is rejected or applied as specified; the pairing never runs off the end |
| `BackEndMaps.BEMap.Input` | sci/libsci/bemap.cpp:55-115 | a host file is accepted exactly when every line could be used and the ids are 0 to size-1 |
| `Startup.Start` | sci/libsci/bemap.cpp:55-115 | an accepted file gives a tree over its ids, with every back end started on the host the file gives it, that delivers exactly when there are fewer back ends than it takes for an agent to get the reserved id; no other file gives one |
| `LongCodec.OrClearLowNibble` | sci/common/stream.cpp:221-221 | or-ing a number with itself less its low four bits gives the number |
| `LongCodec.JoinSplit` | sci/common/stream.cpp:209-224 | what a long decodes to: its low 32 bits, sign-extended |
| `LongCodec.LongRoundTripIff` | sci/common/stream.cpp:304-316 | a long survives the wire exactly when it fits in 32 signed bits |
| `Streams.Socket.Send` | sci/common/socket.cpp:349-371 | however the network takes the bytes, all are sent in order, or a beginning of them when sending fails |
| `Streams.Socket.Recv` | sci/common/socket.cpp:373-401 | the next bytes, fewer when nothing more has arrived, failing only when the connection has ended, closed or broken, with too few left |
| `Streams.Stream.constructor` | sci/common/stream.cpp:40-49 | a new stream has written nothing |
| `Streams.Stream.Flush` | sci/common/stream.cpp:171-185 | everything written is sent; when that fails the buffer is emptied and what was sent is a beginning of what was written |
| `Streams.Stream.CheckBuffer` | sci/common/stream.cpp:370-374 | what is to follow fits, or the buffer is empty |
| `Streams.Stream.Write` | sci/common/stream.cpp:123-137 | for a block of any size, sent plus buffered grows by exactly the block and the cursor never passes the buffer; after a failure what was sent is a beginning of what was written |
| `Streams.Stream.WriteInt` | sci/common/stream.cpp:294-302 | four bytes in network order |
| `Streams.Stream.WriteLong` | sci/common/stream.cpp:304-316 | width, low part, high part |
| `Streams.Stream.WriteVector` | sci/common/stream.cpp:344-361 | length and bytes |
| `Streams.Stream.WriteString` | sci/common/stream.cpp:318-342 | the bytes up to the first NUL, with their terminator |
| `Streams.Stream.Read` | sci/common/stream.cpp:110-121 | under any fragmentation exactly the next bytes, failing exactly when too few will ever arrive |
| `Streams.Stream.ReadInt` | sci/common/stream.cpp:201-207 | an integer, whatever the fragmentation |
| `Streams.Stream.ReadLong` | sci/common/stream.cpp:209-224 | a long, with the optional high part |
| `Streams.Stream.ReadVector` | sci/common/stream.cpp:252-264 | a byte vector, rejecting lengths beyond 8 MB or negative |
| `Streams.Stream.ReadString` | sci/common/stream.cpp:235-250 | a string cut at its first NUL, rejecting lengths beyond 8 MB or negative |
| `Streams.TakePutVector` | sci/common/stream.cpp:252-264 | a vector is read back exactly when it is within the limit |
| `Streams.TakePutString` | sci/common/stream.cpp:235-250 | a string is read back up to its first NUL exactly when it is within the limit |
| `Messages.MessageRoundTrip` | sci/libsci/message.cpp:192-251 | under every security module that accepts its own signatures, reading an encoded message gives the message and leaves the bytes after it |
| `Messages.ForgedRefused` | sci/libsci/message.cpp:217-223 | a message whose signature is not accepted is refused |
| `Messages.SendMessage` | sci/libsci/message.cpp:228-251 | sends exactly the encoding with its signature and leaves the buffer empty, or a beginning of it when sending fails |
| `Messages.SendAll` | sci/libsci/message.cpp:228-251 | a list of messages goes out as the concatenation of the encodings, or a beginning of it when sending fails |
| `Messages.ReceiveMessage` | sci/libsci/message.cpp:192-226 | under any fragmentation what the byte string determines: message, ended connection, bad type or bad signature |
| `Messages.ReceiveAll` | sci/libsci/message.cpp:192-226 | under any fragmentation a receiver of an encoded list gets exactly that list |
| `Messages.Build` | sci/libsci/message.cpp:115-138 | a message holds the concatenation of the buffers |
| `Messages.PieceAt` | sci/libsci/routinglist.cpp:211-242 | the sizes computed by division cut the content into consecutive pieces that end exactly at its end |
| `Messages.GetSegments` | sci/libsci/routinglist.cpp:211-242 | the cutting loop makes one message that says how many follow, with the message's group, filter and id, and then one for every piece, field by field, with the bytes it cuts out |
| `Messages.JoinSegments` | sci/libsci/message.cpp:89-113 | header fields of the first segment, contents of all |
| `Messages.JoinSegmentsInverse` | sci/libsci/message.cpp:89-113 | cutting and joining gives the message back, for every segment size and every non-empty content |
| `Messages.SegmentsSendable` | sci/libsci/routinglist.cpp:211-242 | segments of a message that can be sent can be sent |
| `Messages.ReceiveSegmented` | sci/libsci/message.cpp:66-87 | a segmented message sent over a stream is put together again under any fragmentation |
| `WireLayout.NetworkOrder` | sci/common/stream.cpp:294-302 | an integer is its 32-bit two's complement, most significant byte first |
| `WireLayout.NetworkRead` | sci/common/stream.cpp:201-207 | and is read that way |
| `WireLayout.LongLayout` | sci/common/stream.cpp:304-316 | a long is the width 8, its low 32 bits, and the low 32 bits of its sixteenth part |
| `WireLayout.NarrowLong` | sci/common/stream.cpp:209-224 | one with the width 4 is read from one word |
| `WireLayout.VectorLayout` | sci/common/stream.cpp:344-361 | a vector is its length as a long and its bytes |
| `WireLayout.StringLayout` | sci/common/stream.cpp:318-342 | a string is its length with the NUL, its bytes and the NUL |
| `WireLayout.StringOfLength` | sci/common/stream.cpp:235-250 | what a string of any given length is read as: refused, cut at its NUL, or short |
| `WireLayout.VectorOfLength` | sci/common/stream.cpp:252-264 | and a vector |
| `WireLayout.MessageLayout` | sci/libsci/message.cpp:228-251 | where each header field of a message lies, then its content, then its signature as a vector |
| `WireLayout.UnknownTypeRefused` | sci/libsci/message.cpp:192-226 | a type that is not one of the known ones is refused before anything else is read |
| `WireLayout.NoContents` | sci/libsci/message.cpp:192-226 | a message with a length of zero or less is read without content and keeps that length |
| `WireLayout.SliceLayout` | sci/libsci/dgroup.cpp:84-116 | a packed slice is its key, its number of ids and the ids |
| `WireLayout.TableExample` | sci/libsci/dgroup.cpp:84-116 | the words of one packed table with two groups |
| `Notifications.AllocateSucceeds` | sci/libsci/eventntf.cpp:56-77 | when no more slots are used than were counted out the cyclic search ends with an unused slot |
| `Notifications.AllocateDoes` | sci/libsci/eventntf.cpp:56-77 | twice the slots when all were counted out; the id is that of the first unused slot after the last one given out, all on the way to it being in use; that slot is taken and no other changes |
| `Notifications.EventNotify.constructor` | sci/libsci/eventntf.cpp:40-46 | 1024 unused slots |
| `Notifications.EventNotify.Allocate` | sci/libsci/eventntf.cpp:56-77 | the loop ends, with the effect of AllocateDoes |
| `Notifications.IdIsExclusive` | sci/libsci/eventntf.cpp:56-102 | in every sequence of critical sections, from an allocation until the next notification on its id no other allocation returns it |
| `Notifications.FreezeNeedsNotify` | sci/libsci/eventntf.cpp:79-102 | a freeze returns only after a notification on its id that came after the freeze began |
| `Notifications.BoundStepIff` | sci/libsci/eventntf.cpp:56-192 | every critical section keeps the used slots within the count exactly when a marked or left slot is in use or fewer slots are used than counted |
| `StrayNotifiers.BoundedIffCareful` | sci/libsci/eventntf.cpp:56-192 | with any number of callers testing and notifying the same id, the used slots stay within the count in every state exactly when every marking and leaving is such a careful one |
| `StrayNotifiers.CrowdAllocates` | sci/libsci/eventntf.cpp:56-192 | from the start, and then an allocation succeeds after the run |
| `StrayNotifiers.CountNeverNegative` | sci/libsci/eventntf.cpp:56-92 | over every run the count is the number of waiters that have not left, so it is never negative and never more than there are slots |
| `StrayNotifiers.AttendedIffTimely` | sci/libsci/eventntf.cpp:79-192 | no used slot is ever without a waiter exactly when nobody marks a slot after its waiters have left |
| `StrayNotifiers.TimelyIsBounded` | sci/libsci/eventntf.cpp:56-192 | and then the used slots stay within the count |
| `StrayNotifiers.StrayMark` | sci/libsci/eventntf.cpp:94-192 | a run in which two callers see the slot frozen and the second marks it after the waiter has left: one slot used, none counted |
| `NotifyProtocol.StepKeeps` | sci/libsci/eventntf.cpp:56-192 | every step of any interleaving with one notification per allocation, tested any number of times before, keeps the slot invariant |
| `NotifyProtocol.MarkIsNoChange` | sci/libsci/eventntf.cpp:189-189 | with one notification per allocation the assignment in the assertion changes nothing |
| `NotifyProtocol.ReachableAllocates` | sci/libsci/eventntf.cpp:56-102 | with one notification per allocation, over all interleavings used slots <= count <= table size, and an allocation succeeds |
| `NotifyProtocol.ReachableExclusive` | sci/libsci/eventntf.cpp:56-102 | over all interleavings no two allocations awaiting notification share an id |
| `NotifyProtocol.NotifiedWaiterLeavesIff` | sci/libsci/eventntf.cpp:79-102 | a notified waiter can return exactly when its slot is not held by a later allocation awaiting its own notification |
| `NotifyProtocol.NotificationCanBeLost` | sci/libsci/eventntf.cpp:94-102 | a run in which a notified waiter cannot return, because its slot was handed out again |
| `ThreadPools.StepKeeps` | src/threadpool.hpp:38-152 | every step of workers, adders and the joiner keeps the accounting |
| `ThreadPools.ReachablePool` | src/threadpool.hpp:38-152 | over all interleavings the count plus a half-finished AddJob equals the queue plus the jobs in flight, jobs start in the order added, and none runs twice |
| `ThreadPools.JoinAllWaits` | src/threadpool.hpp:123-152 | a waiting JoinAll that no AddJob overlaps sets the bailout flag only after every job has run exactly once |
| `ThreadPools.OverlappingAddCanBeLost` | src/threadpool.hpp:106-152 | a job added while a waiting JoinAll is past its wait may never run |
| `ThreadPools.JoinedAllRanIff` | src/threadpool.hpp:50-152 | however JoinAll is called and whatever is added meanwhile: after joining every job ever added has run once exactly when, at the moment the flag was set, the queue held only the job a worker was already taking, and nothing was added after |
| `ThreadPools.JoinedQueueEmptyIff` | src/threadpool.hpp:50-139 | the queue is empty after joining exactly then |
| `ThreadPools.JoinedQueueCanHoldJobs` | src/threadpool.hpp:113-139 | a run of JoinAll(false) that ends with jobs in the queue, against the comment on JoinAll |
| `Multipart.MultipartFormDataParser.BufAppend` | src/httplib.h:4960-4976 | compaction and growth keep the unread bytes and add the new ones |
| `Multipart.MultipartFormDataParser.BufFind` | src/httplib.h:4937-4958 | the first occurrence in the unread bytes, or their number exactly when there is none |
| `Multipart.MultipartFormDataParser.ParseBody` | src/httplib.h:4843-4865 | one call hands out the bytes before the delimiter, or all but the last delimiter-length ones; it fails exactly when there is something to hand out and the callback refuses, and then nothing is lost |
| `Multipart.MultipartFormDataParser.ParseAll` | src/httplib.h:4843-4865 | for every way of cutting the input, what was handed out is exactly the bytes before the first delimiter, or all that can be handed out so far |
| `Multipart.FoundIsFirst` | src/httplib.h:4843-4865 | a delimiter found in the retained bytes is the first one of the whole input |
| `Multipart.CutsAgree` | src/httplib.h:4843-4865 | two ways of cutting the same input give the same content and leave the same bytes |
| `Chunked.ReadToHex` | src/httplib.h:2522-2530 | hexadecimal digits read back as the number |
| `Chunked.StrtoulToHex` | src/httplib.h:4208-4213 | a written size line is read as its number, up to the largest unsigned long |
| `Chunked.HexDigitValues` | src/httplib.h:2522-2530 | the sixteen digits in lower and in upper case have the values 0 to 15, and no other byte has one |
| `Chunked.ToHexLower` | src/httplib.h:2522-2530 | what is written is digits in lower case |
| `Chunked.ToHexNumber` | src/httplib.h:2522-2530 | that say the number, place by place |
| `Chunked.StrtoulReads` | src/httplib.h:4208-4213 | white space, a sign and a prefix are skipped, digits in either case say the number, a minus sign negates it modulo 2^64, a number too large is the largest, and what follows the digits does not matter |
| `Chunked.StrtoulRefuses` | src/httplib.h:4208-4213 | without a digit there is no number |
| `Chunked.LineEndFirst` | src/httplib.h:2851-2884 | a line ends with the first CR LF, or with the input |
| `Chunked.FromIToHex` | src/httplib.h:2522-2530 | the digit loop computes the hexadecimal form |
| `Chunked.ReadChunk` | src/httplib.h:4205-4224 | one chunk decodes to its data |
| `Chunked.FieldsRead` | src/httplib.h:4240-4257 | trailer lines are read back field by field up to the empty line |
| `Chunked.ReadEmission` | src/httplib.h:4195-4258 | the decoder delivers exactly the bytes written before the first `done`, succeeds exactly when there was one, with its trailer, and leaves what came after |
| `Chunked.ChunkAccepted` | src/httplib.h:4208-4223 | a chunk is read with any size line that says its length |
| `Chunked.BadSizeRefused` | src/httplib.h:4208-4211 | a size line without a number, or with the largest one, is refused |
| `Chunked.ShortChunkRefused` | src/httplib.h:4215-4217 | a chunk that is cut short is delivered as far as it goes, and refused |
| `Chunked.UnclosedChunkRefused` | src/httplib.h:4219-4221 | a chunk without its closing CR LF is delivered, and refused |
| `Chunked.TrailerEnds` | src/httplib.h:4240-4243 | the absence of all lines after the last chunk is accepted, a line over the limit is not |
| `Chunked.FieldKept` | src/httplib.h:4242-4255 | a field line is kept without its CR LF; without the empty line after it the body is refused |
| `Chunked.EmitWrite` | src/httplib.h:4494-4502 | a chunk is the length in hexadecimal, CR LF, the data, CR LF |
| `Chunked.EmitDone` | src/httplib.h:4537-4553 | the end is 0, CR LF, every field as name, colon, space, value, CR LF, and CR LF |
| `ChunkedStreams.StreamLineReader.Append` | src/httplib.h:2886-2897 | a byte is added whichever buffer holds the line, and the fixed one keeps its terminator |
| `ChunkedStreams.StreamLineReader.GetLine` | src/httplib.h:2851-2884 | a line up to CR LF or the end of input, failing exactly at the end |
| `ChunkedStreams.ReadContentWithLength` | src/httplib.h:4146-4166 | exactly the next bytes are given, failing exactly when there are too few or a callback refuses |
| `ChunkedStreams.ReadContentChunked` | src/httplib.h:4194-4258 | under any fragmentation what the whole byte string determines, trailer lines included; it stops short of that only if the receiver refuses a piece, which is then the last of a beginning of it |
| `ChunkedStreams.ReadTrailer` | src/httplib.h:4240-4257 | the lines handed to the header parser, up to an empty line; their absence is accepted |
| `ChunkedStreams.DataSink.Do` | src/httplib.h:4483-4560 | a write emits one chunk, or nothing when empty; done emits marker, trailer and empty line; when writing fails each of these parts may be cut short, and afterwards nothing more is written |
| `ChunkedStreams.PartsAreEmission` | src/httplib.h:4483-4560 | the parts written are together what is emitted |
| `ChunkedStreams.CallsMade` | src/httplib.h:4562-4577 | the calls made are those up to the first that cancels or ends with no data to come |
| `ChunkedStreams.WriteContentChunked` | src/httplib.h:4474-4577 | the provider is called until a call ends with no data to come or cancels; success means that exactly what it did was emitted, cancelling is reported exactly as such, and otherwise whole actions were emitted, with the next one cut short exactly when a write failed |
| `ChunkedStreams.OnePerCallComplete` | src/httplib.h:4562-4577 | non-empty payloads followed by done are all written before done, with its trailer |
| `ChunkedStreams.ReceivePerformed` | src/httplib.h:4146-4258 | what was written before done, and its trailer, is what the receiver delivers, under any fragmentation |

## Left out

- Process launching, environment strings, ssh tokens, host look-up and the choice of an agent's host: operating-system calls.
- `launch_tree3`: it overwrites a host entry while shifting; a side effect, not a harder property.
- Memory management of `Group` objects and aliasing between slices: slices in the table are held as values, so sharing and deletion of `Group` objects are not captured. Locks around the table are not modelled; each operation is one step.
- 32-bit overflow of back-end and agent ids and of counters: unbounded integers, except on the wire.
- Empty ranges given to a group, adding a group to itself, and list operations on unknown groups or without ALL: the code dereferences an end iterator or reads a changing list there.
- `numOfBEOfSuccessor`, `HasRange`, `Clear`, `dump`: easy copies of what is modelled.
- Group commands and messages that overtake each other: each one reaches all its nodes before the next one starts. What a node does after looking up a group it does not have: the session counts as failed.
- GroupCommands.CommandExact: requires operands with the same members at every node; `CommandRefines` is for any operands.
- ExactSessions.ExactServed: requires such operands throughout; `SessionServed` does not.
- Parsing of host-file text: lines start as host and task regions with their numbers, or as lines that do not have the form. A host list given as an array (`sci/libsci/bemap.cpp:40-53`) is a plain copy.
- What the security module computes: signing and checking are parameters.
- Reference counts of messages and the message queues.
- `freeze_i`, `notify_i`, time-outs, and the `ret` values of event slots.
- Wake-ups: which waiting thread a condition variable wakes, and liveness in general, in the event slots and the thread pool. Several callers of `JoinAll` are not modelled.
- Multipart states other than the body: header expressions, and the initial boundary, which depends on how the input is cut.
- Compression, the splitting of trailer lines into names and values, and read errors of HTTP streams.
- DistributedGroups.DistributedGroup.Create: requires ALL to exist; the code dereferences the end iterator otherwise. The same holds of the first group of `Operate`, the group or ALL of `OperateExt`, and the group of `Remove`.
- DistributedGroups.DistributedGroup.Merge: requires the incoming table to be another object.
- What the launcher does after giving an agent the reserved id -1073741824: it has no queue for it. The model says what the tables then do with messages.
- LaunchVariants.LaunchTree1: requires a back end; the code dereferences the end iterator without one.
- Streams.Stream.ReadString: for a string received without a NUL the code reads past its buffer; the model keeps all the bytes.
- Messages.ReceiveSegmented: requires non-empty content; with no content the code would read a segment that does not exist.
- NotifyProtocol.ReachableAllocates: requires one notification per allocation; `BoundedIffCareful` gives the exact condition with any number.
- ThreadPools.JoinAllWaits: requires that no `AddJob` overlaps the call; `JoinedAllRanIff` gives the exact condition without that.
- Multipart.MultipartFormDataParser.ParseBody: ends where the scanner leaves the body state, within a call.
- The rest of the HTTP library, the RPC and JSON plumbing, and the tools.
