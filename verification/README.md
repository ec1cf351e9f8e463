# Netspoc: optimisers and data structures

Netspoc compiles a network policy to packet filters and static routes.  This project models
the parts of the compiler that rewrite rule sets, route tables, address sets and port sets,
and proves that the rewriting keeps their meaning.  `dafny verify dfyconfig.toml` checks it.

| file | part of Netspoc |
|---|---|
| `Prefixes`, `PrefixLists`, `Sorting`, `Wrappers` | networks as aligned blocks of numbers, canonical lists of networks, sorting |
| `Iptables`, `ChainCompiler` | iptables as a machine with jump and goto, and the compiler of nested trees to chains |
| `AddrBintree`, `PrtBintree`, `GenprtBintree`, `ProtocolTree`, `BintreeViews` | binary trees of networks and of ports |
| `RuleTrees`, `FindChains`, `LostRules` | rule trees, sharing of equal subtrees, the whole way from rules to chains, and when a packet gets lost |
| `AclSpec`, `AclOptimizer` | deletion of redundant rules and widening of secondary rules |
| `CombineAdjacent`, `SplitIpRange` | buddy networks are combined; ranges of addresses are split |
| `PortRanges`, `ProtocolRelation`, `PortNames` | relation of port ranges and of all protocols in pass 2, names of ranges |
| `JoinRanges`, `CiscoAcl` | joining of port ranges, and the way of Cisco rules through both steps |
| `Routes` | compression of static routes |
| `OrderProtocols`, `ClassifyProtocols` | splitting of overlapping port ranges in pass 1 |
| `PathWalk` | search for all paths through a cluster of loops |
| `RedundantRules` | nested rule trees of pass 1 and the search for redundant rules |
| `SubnetRelation`, `IpNetRelation`, `ZoneSubnets`, `Aggregates` | smallest supernet of each network, in pass 2 and in the zones of pass 1 |
| `CombineSubnets`, `ConvertHosts` | relation between the subnets of a network, and their combination |

An address is a natural number and a network is a pair of its address and its number of host
bits.  Objects whose fields the program overwrites are classes here, and the methods that
overwrite them are proved against functions and predicates on their values.

## Results

* `FindChains.FindChains`: for one group of rules with the same action, the machine started with
  the generated rules and chains falls through for all packets that no rule of the group matches.
  It decides exactly the packets that some rule matches, if no rule shadows another one or no three
  protocols below 'ip' are nested, and in general exactly those that match a path of keys which all
  got nodes (see below).  `ProtocolRelation.SetupPrtRelation` establishes the relation of protocols
  on which this relies.
* `AclSpec.OptimizeKeepsDecisions`, `AclSpec.OptimizeWidens`, `AclSpec.RemainingUncovered`:
  `optimizeRules` keeps all decisions; with secondary rules it denies the same packets and only adds
  what widened secondary rules permit; no remaining rule covers another one.
* `CiscoAcl.JoinOptimized`: `optimizeRules` followed by `joinRanges` decides each packet as before.
* `Routes.PrintRoutes`: longest prefix match is unchanged for every covered address.
* `PathWalk.PathFinder.ClusterPathMark1`: the depth first search finds exactly the simple paths and
  restores all marks.
* `OrderProtocols.OrderRanges`, `ClassifyProtocols.ArrangedMatch`: overlapping port ranges become
  a laminar family, without loss or overlap of ports.
* `CombineAdjacent.CombinedRange`: combining networks that form a range ends with the list to which
  `splitIpRange` splits this range; this list has at most 62 networks for IPv4 (`SplitIpRange.SizeBound`).
* `JoinRanges.KeyPortsKept`, `JoinRanges.NoNeighborsRemain`: joining ranges keeps the ports of each
  key and leaves no two adjacent ranges.
* `RedundantRules.SearchFindsCovered`: the search over the shortened protocol chains finds exactly the
  covered pairs of rules.
* `IpNetRelation.SetupIPNetRelation`, `ZoneSubnets.FindSubnetsInZone`,
  `Aggregates.LinkImplicitAggregateToZone`: links to the smallest supernet.
* `ConvertHosts.ConvertHosts`, `CombineSubnets.CombineSubnets`: neighbors are linked to what they make
  up, and combining them keeps the addresses.

Two properties turned out not to hold of the code.

* `genprtBintree` ignores a protocol that has the same subtree as the next larger protocol of the
  current set (go/cmd/spoc2/main.go:1418-1431).  A smaller protocol below the ignored one is then
  collected under it and gets no node.  `GenprtBintree.ProtocolGetsLost` gives such a set: tcp,
  tcp 80-90 with the subtree of tcp, and tcp 85.  `GenprtBintree.LostIff` says when nothing is lost.
  This concerns whole groups of rules, because `findChains` gets its rules without any deletion of
  redundant ones (go/cmd/spoc2/main.go:2374-2384): for any three nested protocols below 'ip',
  `LostRules.PacketGetsLost` gives five rules where the chains fall through for a packet which the
  last rule matches.  `LostRules.DecidesAllIff` says that all groups of rules are decided exactly if
  and only if no three known protocols below 'ip' are nested; `FindChains.UnshadowedMatches` and
  `FindChains.LosslessMatches` give conditions for a single group of rules.
* `optimizeRules` does not widen a destination that needs protection (go/cmd/spoc2/main.go:549).  If an
  unprotected network lies inside of it, then a rule for the small network may be deleted in
  favour of the rule for the large network and the other way round.  `AclSpec.KeepsPermitsIff` says
  for which sets of networks permitted packets stay permitted.  Denied packets stay the same even so.

## Model

| member | source | states |
|---|---|---|
| Prefixes.TruncUnique | go/cmd/spoc2/main.go:189-199 | Masking an address yields the base of the one aligned block of this size that contains the address. |
| Prefixes.TruncTrunc | go/cmd/spoc2/main.go:189-199 | Masking with a fine and then with a coarse mask is masking with the coarse mask. |
| Prefixes.CoversInterval | go/cmd/spoc2/main.go:189-199 | Covering, found by masking, is inclusion of the intervals of addresses, in both directions. |
| Prefixes.NestedOrDisjoint | go/cmd/spoc2/main.go:1214-1300 | Two networks are nested or disjoint. |
| Prefixes.BuddiesUnite | go/cmd/spoc2/main.go:834-848 | The left and right half have together exactly the addresses of the combined network. |
| PrefixLists.NotCombinableCanonical | go/cmd/spoc2/main.go:800-868 | A sorted list of disjoint networks without combinable neighbors is canonical: each network inside the set of addresses lies in one element. |
| PrefixLists.CanonicalUnique | go/cmd/spoc2/main.go:800-868 | Two canonical lists with the same addresses are the same list. |
| Sorting.Sort | go/cmd/spoc2/main.go:816-818 | The result is ordered by the key and has the same elements with the same multiplicity. |
| Iptables.RunEval | go/cmd/spoc2/main.go:1876-1954 | The stack machine with jump, goto and return, started on any stack, computes the recursive meaning of a list of rules, and continues at the return position when the list falls through. |
| Iptables.EvalHits | go/cmd/spoc2/main.go:1876-1954 | With safe gotos, a list of rules decides exactly the packets which some path through the list hits. |
| Iptables.GotoSkips | go/cmd/spoc2/main.go:1938-1946 | Behind a matching goto the rest of the chain does not matter. |
| Iptables.CallReturns | go/cmd/spoc2/main.go:1888-1915 | A called chain that does not decide returns behind the calling rule. |
| Iptables.GotoSafeConcat | go/cmd/spoc2/main.go:1876-1954 | A list stays safe when rules are appended, if no goto in front matches a packet that a later rule matches. |
| Iptables.HitsExtend | go/cmd/spoc2/main.go:1844-1852 | Chains that are added later do not change the meaning of a rule. |
| ChainCompiler.SeqHits | go/cmd/spoc2/main.go:1854-1871 | A tree hits a packet if its own subtree, one of the first nodes below it or the last one does. |
| ChainCompiler.AttachedHits | go/cmd/spoc2/main.go:1905-1927 | Adding the test of a node to the rules of its subtree, and turning goto into a call where needed, makes them hit exactly the packets that pass the test and were hit before. |
| ChainCompiler.TestedBranchSound | go/cmd/spoc2/main.go:1941-1954 | The single rule that tests the root and branches to a new chain hits exactly the packets of the tree. |
| ChainCompiler.Compiler.NewChain | go/cmd/spoc2/main.go:1844-1852 | A chain is appended, the chains generated before stay, and all chains stay safe. |
| ChainCompiler.Compiler.SubtreeRules | go/cmd/spoc2/main.go:1880-1899 | The rules for a subtree hit the packets of the subtree; they are generated once and taken from the cache afterwards, without new chains. |
| ChainCompiler.Compiler.SiblingRules | go/cmd/spoc2/main.go:1931-1940 | The rules for all nodes below a node but the last one hit exactly the packets of these nodes. |
| ChainCompiler.Compiler.NodeRules | go/cmd/spoc2/main.go:1880-1929 | The rules for a subtree and for the nodes in front of the last one hit exactly their packets, and their gotos do not skip the last node; without other nodes, a branch at the end is a goto. |
| ChainCompiler.Compiler.TreeRules | go/cmd/spoc2/main.go:1876-1929 | The loop over the last nodes yields rules that hit exactly the packets of the tree. |
| ChainCompiler.Compiler.OwnChain | go/cmd/spoc2/main.go:1931-1943 | Several rules become a new chain; a single rule tests the root and goes there. |
| ChainCompiler.Compiler.GenChain | go/cmd/spoc2/main.go:1876-1946 | The rules and chains for a tree hit exactly the packets that the tree accepts; all gotos are safe, a branch at the end of a list is a goto, earlier chains and cached rules stay, and there is a single rule unless the root has no test. |
| ChainCompiler.TreeHitsWithin | go/cmd/spoc2/main.go:1876-1954 | A node accepts only packets that pass its own test. |
| AddrBintree.InsertCorrect | go/cmd/spoc2/main.go:1214-1300 | Inserting a network adds exactly its addresses with its subtree to the relation of the tree, although redundant nodes are discarded and siblings are merged; the tree keeps its shape and stays ready for smaller networks. |
| AddrBintree.CommonRootSmallest | go/cmd/spoc2/main.go:1251-1270 | The created root is the smallest network that contains both. |
| AddrBintree.Redundant | go/cmd/spoc2/main.go:1224-1250 | A network below a node with the same subtree adds nothing to the relation. |
| AddrBintree.MergeKeeps | go/cmd/spoc2/main.go:1272-1300 | Merging two halves with the same subtree keeps the relation and the shape. |
| AddrBintree.InsertReduced | go/cmd/spoc2/main.go:1214-1300 | No two halves with the same subtree remain that could be merged, and no node lies below one with the same subtree. |
| AddrBintree.NetBintree.MergeHalves | go/cmd/spoc2/main.go:1272-1300 | The linked node is changed in place as specified, and nothing else is. |
| AddrBintree.AddBintree | go/cmd/spoc2/main.go:1214-1300 | The linked tree, changed in place, has the value that insertion specifies. |
| AddrBintree.GenAddrBintree | go/cmd/spoc2/main.go:1303-1347 | The tree leads an address to a subtree exactly if some network of the list does; it has no needless nodes, and its root has no test exactly if it is the network of all addresses. |
| PrtBintree.Halves | go/cmd/spoc2/main.go:1452-1478 | The list is split into two parts with the same elements, all ports of the first part below those of the second one. |
| PrtBintree.GenLohitrees | go/cmd/spoc2/main.go:1452-1478 | One or two trees for a list of disjoint ranges have the relation of the list, and span exactly its ports. |
| PrtBintree.JoinedCorrect | go/cmd/spoc2/main.go:1480-1518 | An artificial or merged node spans exactly from the lowest to the highest port of its branches, and keeps the relation. |
| PrtBintree.JoinedReduced | go/cmd/spoc2/main.go:1485-1522 | No two adjacent ranges with the same subtree remain that could be merged. |
| PrtBintree.GenRangetree | go/cmd/spoc2/main.go:1480-1518 | The tree for a forest of ranges has the relation of the forest; siblings are disjoint. |
| GenprtBintree.GroupProtocols | go/cmd/spoc2/main.go:1404-1441 | Each protocol is listed below the next larger protocol of the set, at the top if there is none, and nowhere if both have the same subtree. |
| GenprtBintree.SubForest | go/cmd/spoc2/main.go:1404-1441 | The protocols listed below a protocol are disjoint and lie inside it. |
| GenprtBintree.TopForest | go/cmd/spoc2/main.go:1404-1441 | The protocols at the top are disjoint. |
| GenprtBintree.LostIff | go/cmd/spoc2/main.go:1418-1431 | The nodes mean the same as the set of protocols if and only if every ignored protocol has the subtree of a larger protocol with node. |
| GenprtBintree.ProtocolGetsLost | go/cmd/spoc2/main.go:1418-1431 | A set of three protocols of which one gets no node. |
| ProtocolTree.TopTree | go/cmd/spoc2/main.go:1522-1527 | The tree for the top protocols of tcp or udp has the relation of their forests. |
| ProtocolTree.AddProtos | go/cmd/spoc2/main.go:1529-1538 | Numeric protocols become single nodes with their subtrees, sorted by the text of their numbers, and together they have exactly the packets of these protocols. |
| PortNames.TextKeyOrder | go/cmd/spoc2/main.go:1530-1533 | The key for sorting numeric protocols orders them like the comparison of strings. |
| ProtocolTree.GenprtBintree | go/cmd/spoc2/main.go:1396-1653 | The tree has a packet exactly if a protocol that gets a node has it and leads to a subtree that has it. |
| ProtocolTree.RootIsIP | go/cmd/spoc2/main.go:1640-1652 | The root has no test exactly if it stands for 'ip', either as a protocol of the set or above several protocols. |
| BintreeViews.NetValueHits | go/cmd/spoc2/main.go:1349-1371 | Seen through its methods as a tree of tests, a tree of networks has a packet exactly if its address leads to a subtree that has it. |
| BintreeViews.NetValueWellFormed | go/cmd/spoc2/main.go:1349-1371 | Seen that way, the tree is well-formed: nodes below a node lie inside it and are disjoint. |
| RuleTrees.BuildTree | go/cmd/spoc2/main.go:2031-2052 | The paths of the tree are exactly the keys of the rules, in the given order of attributes. |
| RuleTrees.TreeMatches | go/cmd/spoc2/main.go:2031-2052 | The nested maps have a path for a packet exactly if some rule matches the packet. |
| RuleTrees.AcceptsInTree | go/cmd/spoc2/main.go:1418-1431 | A packet that matches keys with nodes matches the rule tree: ignoring protocols never adds a match. |
| RuleTrees.LosslessAccepts | go/cmd/spoc2/main.go:1418-1431 | If at each level every protocol without node has the subtree of a larger one with node, then the keys with nodes match the same packets as all keys. |
| RuleTrees.TreeUnshadowed | go/cmd/spoc2/main.go:1418-1431 | If no rule is a copy of another one for a smaller protocol, then no set of protocols in the tree loses a node. |
| FindChains.SameNodes | go/cmd/spoc2/main.go:1418-1431 | Sharing of equal subtrees is what decides which protocols get nodes: the same ones in the rule tree and in the map of binary trees. |
| FindChains.InsertNets | go/cmd/spoc2/main.go:1759-1788 | The binary tree for a level of addresses decides like the rule tree. |
| FindChains.InsertPrts | go/cmd/spoc2/main.go:1759-1788 | The binary tree for a level of protocols decides like those protocols of the rule tree that get nodes. |
| FindChains.FindOrder | go/cmd/spoc2/main.go:2012-2031 | Attributes with fewer different keys come first. |
| FindChains.FewestFirst | go/cmd/spoc2/main.go:2012-2031 | Among attributes with the same number of different keys, the given order is kept. |
| FindChains.Merger.MergeSubtrees1 | go/cmd/spoc2/main.go:1796-1822 | Each subtree gets a binary tree which decides like it; subtrees that were seen before keep theirs. |
| FindChains.Merger.MergeSubtrees | go/cmd/spoc2/main.go:1824-1841 | The binary tree of the root decides like the keys with nodes of the rule tree. |
| FindChains.FindChains | go/cmd/spoc2/main.go:1711-2084 | The machine, started with the generated rules and chains, decides with the action of the group about exactly the packets that match a path of keys with nodes in the rule tree, hence about no packet that no rule matches; if no rule shadows another one or no three protocols below 'ip' are nested, about exactly the packets that some rule matches. Each chain has several rules, and a branch at its end is a goto. |
| FindChains.AcceptedMatches | go/cmd/spoc2/main.go:1711-2084 | What the rule tree accepts, some rule matches. |
| FindChains.LosslessMatches | go/cmd/spoc2/main.go:1418-1431 | If nothing gets lost at any level, the rule tree accepts exactly the packets that some rule matches. |
| FindChains.UnshadowedMatches | go/cmd/spoc2/main.go:1418-1431 | The same, if no rule is a copy of another one for a smaller protocol or source range. |
| RuleTrees.FlatNothingLost | go/cmd/spoc2/main.go:1418-1431 | Without three nested protocols below 'ip', an ignored protocol always has the subtree of a larger one with node. |
| FindChains.FlatMatches | go/cmd/spoc2/main.go:1418-1431 | Without three nested protocols below 'ip', the rule tree accepts exactly the packets that some rule matches. |
| LostRules.PacketGetsLost | go/cmd/spoc2/main.go:1418-1431 | For three nested protocols below 'ip', five rules for which the machine falls through for a packet that the last rule matches. |
| LostRules.DecidesAllIff | go/cmd/spoc2/main.go:1418-1431 | The rule trees of all groups of rules over the known protocols accept exactly the packets that some rule matches, if and only if no three of these protocols below 'ip' are strictly nested. |
| FindChains.MachineDecides | go/cmd/spoc2/main.go:1876-1954 | The machine halts, and decides like the compiled tree. |
| AclSpec.NetBelowIff | go/cmd/spoc2/main.go:378-440 | Exactly the networks that are reached by following links lie above a network. |
| AclSpec.PrtBelowIff | go/cmd/spoc2/main.go:378-440 | The same for protocols. |
| AclSpec.CoversHas | go/cmd/spoc2/main.go:378-440 | A covering key has all packets of the covered key. |
| AclSpec.Survivor | go/cmd/spoc2/main.go:378-440 | Each rule of a tree is covered by a rule that is not deleted, even if the rule that caused its deletion is deleted, too; it has the value of log of the first rule with the same key. |
| AclSpec.RemainingUncovered | go/cmd/spoc2/main.go:498-577 | Of the rules that optimizeRules leaves, widened or not, none covers a different one with the same value of log: deny covers permit, and each other attribute all smaller ones. |
| AclSpec.DeletedIsRedundant | go/cmd/spoc2/main.go:498-577 | A rule is deleted only if another rule, widened or not, has its key, or covers it and has the same value of log. |
| AclSpec.SecondaryFields | go/cmd/spoc2/main.go:529-556 | A remaining secondary rule gets the largest marked networks around its source and its destination, if there are any, and protocol ip without source range; a destination that needs protection stays. |
| AclSpec.OtherFields | go/cmd/spoc2/main.go:529-556 | All other rules stay as they are. |
| AclSpec.OptimizeKeepsDecisions | go/cmd/spoc2/main.go:498-577 | Without secondary rules each packet is permitted, denied or left alone as before. |
| AclSpec.WidenedCovers | go/cmd/spoc2/main.go:529-565 | If a secondary rule covers the original key of another secondary rule, it also covers its widened key, provided that no secondary rule has an unprotected destination inside the protected one of another secondary rule. |
| AclSpec.OptNetworksLargest | go/cmd/spoc2/main.go:204-217 | The propagated attribute is the largest marked network around a network. |
| AclSpec.OptimizeWidens | go/cmd/spoc2/main.go:498-577 | With secondary rules: denied packets are the same, and what is permitted in addition matches a widened secondary rule. |
| AclSpec.OptimizeKeepsPermitted | go/cmd/spoc2/main.go:498-577 | With secondary rules: permitted packets stay permitted, provided that no secondary rule has an unprotected destination inside the protected one of another secondary rule. |
| AclSpec.LossyAclLoses | go/cmd/spoc2/main.go:545-565 | For an unprotected network inside a protected one there is an ACL of two rules which delete each other, so that a permitted packet is lost. |
| AclSpec.KeepsPermitsIff | go/cmd/spoc2/main.go:498-577 | Permitted packets stay permitted for all ACLs over a set of networks if and only if the set has no unprotected network inside a protected one that would be widened. |
| AclOptimizer.SearchComplete | go/cmd/spoc2/main.go:378-440 | The nested search visits exactly the product of the chains, and so finds a covering rule exactly if there is one. |
| AclOptimizer.OptimizeRedundantRules | go/cmd/spoc2/main.go:378-440 | A rule is marked exactly if a different rule of the other tree with the same value of log covers its key; all other fields stay. |
| AclOptimizer.FillTree | go/cmd/spoc2/main.go:502-525 | The rule tree has the first rule of each key; later ones are marked. |
| AclOptimizer.WidenRules | go/cmd/spoc2/main.go:529-558 | Exactly the remaining secondary rules are widened, as specified. |
| AclOptimizer.OptimizeRules | go/cmd/spoc2/main.go:498-577 | Fields and marks of all rules, and the list of remaining rules, are as specified; so the results on the specification hold for the rules changed in place. Secondary rules have the largest marked networks, exactly the unmarked rules remain, and none of them is redundant. |
| CombineAdjacent.MergeKeeps | go/cmd/spoc2/main.go:825-848 | Replacing two halves by the larger network keeps the list sorted and disjoint. |
| CombineAdjacent.MergeHas | go/cmd/spoc2/main.go:825-848 | Replacing two halves by the larger network keeps the addresses. |
| CombineAdjacent.MergeNoneBefore | go/cmd/spoc2/main.go:850-866 | After a merge, the network before can be combined only if the new network is a right half; otherwise there is no need to step back. |
| CombineAdjacent.Combiner.Merge | go/cmd/spoc2/main.go:825-848 | The left rule gets the larger network, the right rule is marked and removed, and the rules behind it move up. |
| CombineAdjacent.Combiner.CombineAdjacentIPMask | go/cmd/spoc2/main.go:800-868 | Terminates with rules whose disjoint networks have the same addresses as before and of which no two neighbors can be combined; exactly the other rules are marked, and nothing but the network of rules changes. |
| CombineAdjacent.CombinedMatches | go/cmd/spoc2/main.go:800-868 | Rules which differ only in the combined network match the same packets before and after. |
| CombineAdjacent.CombinedRange | go/cmd/spoc2/main.go:800-868 | If the addresses of the rules form a range, then the resulting networks are the result of splitIpRange for it. |
| SplitIpRange.SplitIpRange | go/pkg/pass1/convert-hosts.go:17-72 | Errors for wrong ranges; else networks that follow each other without gap from the first to the last address, each as large as possible. |
| SplitIpRange.RangeOfIs | go/pkg/pass1/convert-hosts.go:17-34 | Which pairs of addresses are split, from which to which number, and which are rejected with which error. |
| SplitIpRange.TilesHas | go/pkg/pass1/convert-hosts.go:50-72 | The networks have exactly the addresses of the range. |
| SplitIpRange.GreedyCovers | go/pkg/pass1/convert-hosts.go:50-72 | Each network that fits into the range lies in a single network of the result. |
| SplitIpRange.GreedyCanonical | go/pkg/pass1/convert-hosts.go:50-72 | The result is canonical. |
| SplitIpRange.AtMostTwo | go/pkg/pass1/convert-hosts.go:50-72 | No three networks of the result have the same size. |
| SplitIpRange.UpSticksOut | go/pkg/pass1/convert-hosts.go:50-72 | No network of the result could be replaced by the network of twice its size. |
| SplitIpRange.AscendToLarger | go/pkg/pass1/convert-hosts.go:50-72 | In front of a larger network each size occurs once. |
| SplitIpRange.DescendFromLarger | go/pkg/pass1/convert-hosts.go:50-72 | Behind a larger network each size occurs once. |
| SplitIpRange.SizeBound | go/pkg/pass1/convert-hosts.go:50-72 | With addresses of n > 1 bits, the result has at most 2n - 2 networks. |
| SplitIpRange.BoundReached | go/pkg/pass1/convert-hosts.go:50-72 | For all addresses but the first and the last one, it has exactly 2n - 2 networks. |
| SplitIpRange.EndsUnlessWrapped | go/pkg/pass1/convert-hosts.go:50-72 | With numbers of 64 bits, the loop ends if and only if the range ends before the last number. |
| Routes.CombineKeeps | go/pkg/pass1/print-code.go:175-255 | Combining two adjacent networks with the same hop does not change forwarding of any address. |
| Routes.CombineRoutes | go/pkg/pass1/print-code.go:136-255 | The table with combined networks forwards all addresses as before; no two halves with the same hop remain, unless the network they make up was collected itself; there are not more routes than before. |
| Routes.KeptKeeps | go/pkg/pass1/print-code.go:257-322 | Leaving out networks whose next larger network has the same hop does not change forwarding of any address. |
| Routes.RemoveSmall | go/pkg/pass1/print-code.go:257-322 | Removes exactly these networks, and marks the networks that a default route must not replace. |
| Routes.FindMax | go/pkg/pass1/print-code.go:328-349 | Finds a hop with the largest number of replaceable routes, if there are at least two. |
| Routes.DefaultKeeps | go/pkg/pass1/print-code.go:350-369 | The default route leaves covered addresses as they are and takes all others. |
| Routes.NoDefaultYet | go/pkg/pass1/print-code.go:328-349 | If a route for all addresses is in the table, the default route is not introduced. |
| Routes.KeptMinimal | go/pkg/pass1/print-code.go:257-322 | No network remains whose next larger network has the same hop. |
| Routes.DefaultMinimal | go/pkg/pass1/print-code.go:350-369 | The same with a default route. |
| Routes.CountReplaceable | go/pkg/pass1/print-code.go:328-349 | The counted routes are those without larger network. |
| Routes.ChosenWith | go/pkg/pass1/print-code.go:328-369 | The default route is introduced for the hop with the most routes without larger network, and replaces all of them. |
| Routes.ChosenWithout | go/pkg/pass1/print-code.go:328-369 | Without at least two routes to replace, there is no default route. |
| Routes.PrintRoutes | go/pkg/pass1/print-code.go:136-369 | Each address that is covered by a collected route is forwarded as before; the others stay uncovered, or all of them take the default route. No printed route could be left out, no two halves with the same hop remain, and a default route is introduced exactly if it replaces at least two routes. |
| PathWalk.PathIsSimple | go/pkg/pass1/path-walk.go:151-259 | A path found by following marks leaves each node through another of its interfaces, in a loop that may be entered next, visits no node twice and no path restriction of two interfaces, avoids what was marked, and each such path is found. |
| PathWalk.PathFinder.ClusterPathMark1 | go/pkg/pass1/path-walk.go:151-259 | Returns true exactly if there is a simple path; adds exactly the last interfaces and the consecutive pairs of interfaces of all paths; restores all marks; terminates. |
| PathWalk.PathFinder.TryIntf | go/pkg/pass1/path-walk.go:218-250 | The same for the paths through one interface. |
| OrderProtocols.Arranger.FindOrInsertRange | go/pkg/pass1/order-protocols.go:200-243 | Returns the range from the list, or inserts it such that the list stays ordered; nothing in front changes. |
| OrderProtocols.Arranger.SplitOverlap | go/pkg/pass1/order-protocols.go:186-250 | An overlapping range gets two adjacent parts, which are in the list, and counts as visited. |
| OrderProtocols.Arranger.CheckSubrange | go/pkg/pass1/order-protocols.go:154-252 | Visits all ranges that start inside a range, although the list grows meanwhile; terminates, because the position only moves forward in the order of ranges. |
| OrderProtocols.Arranger.CheckRange | go/pkg/pass1/order-protocols.go:159-250 | One range that starts in another one is visited with all its sub-ranges, or is split; the position moves forward. |
| OrderProtocols.OrderRanges | go/pkg/pass1/order-protocols.go:140-271 | Unsplit ranges are nested or disjoint, each but the largest is linked to the smallest one around it, split ranges consist of two listed parts, no range is lost, only parts of split ranges are new, and a range is split only at the end of a listed range that overlaps with it. |
| ClassifyProtocols.ExpandCovers | go/pkg/pass1/protocol.go:3-15 | The expanded parts have exactly the ports of the range. |
| ClassifyProtocols.ExpandParts | go/pkg/pass1/protocol.go:3-15 | The expanded parts are unsplit, in ascending order and disjoint. |
| ClassifyProtocols.ClassifyProtocols | go/pkg/pass1/protocol.go:24-54 | The two lists have the entries of all protocols without and with modifiers, in order; protocols without ports are taken over exactly, with their modifiers. |
| ClassifyProtocols.WholeStems | go/pkg/pass1/protocol.go:24-54 | An entry without ports stems from a protocol without ports with these modifiers, and each such protocol has its entry. |
| ClassifyProtocols.EntriesMatch | go/pkg/pass1/protocol.go:24-54 | The entries of a TCP or UDP protocol match exactly its pairs of source and destination port, each pair by one entry, and keep its modifiers. |
| ClassifyProtocols.ClassifiedMatch | go/pkg/pass1/protocol.go:24-54 | For given modifiers, the result matches a pair of ports exactly if a protocol of the list with these modifiers does. |
| ClassifyProtocols.ArrangedMatch | go/pkg/pass1/protocol.go:24-54 | The same for the ranges of TCP and UDP as orderRanges leaves them. |
| PortRanges.MarkNeighbors | go/cmd/spoc2/main.go:273-290 | Marks a range and all ranges that start directly behind it, and no others. |
| PortRanges.CheckSubrange | go/cmd/spoc2/main.go:267-316 | Visits the ranges inside of a range; stops exactly at overlapping ranges. |
| PortRanges.OrderRanges | go/cmd/spoc2/main.go:245-334 | Fails if and only if ranges overlap; else each range is linked to the smallest range around it, and exactly the ranges adjacent to another one are marked. |
| ProtocolRelation.SetupPrtRelation | go/cmd/spoc2/main.go:336-375 | Fails exactly if ranges overlap; else numeric protocols are linked to 'ip', ranges of TCP and UDP to the smallest range around them, and the whole is the relation which findChains takes as given. |
| ProtocolRelation.RelatedUp | go/cmd/spoc2/main.go:336-375 | The links lead each protocol to the smallest protocol around it, and protocols are nested or disjoint, in a common numbering of all protocols. |
| ProtocolRelation.EnvOfProtocols | go/cmd/spoc2/main.go:2366-2375 | With 'tcp' and 'udp' added, the protocols are an environment for findChains. |
| PortNames.AtoiItoa | go/cmd/spoc2/main.go:110-118 | A number that is written and read again is the same. |
| PortNames.AtoiOther | go/cmd/spoc2/main.go:110-118 | Signs are read, large numbers end at the limits of 64 bits, and what is no number counts as zero. |
| PortNames.NameRoundTrip | go/pkg/jcode/types.go:43-51 | Reading the name of a port range gives its protocol and its ports. |
| PortNames.NamesDiffer | go/pkg/jcode/types.go:43-51 | Different ranges have different names. |
| PortNames.NameAgain | go/pkg/jcode/types.go:43-51 | Writing the ports that were read from the name of a protocol, a port or a range gives this name. |
| PortNames.OtherNames | go/cmd/spoc2/main.go:85-130 | Numeric protocols, ICMP with type and code, and established TCP are read from their names. |
| JoinRanges.Joiner.GetPrtObj | go/cmd/spoc2/main.go:135-142 | Returns the protocol which the name describes; known protocols stay. |
| JoinRanges.Joiner.JoinSorted | go/cmd/spoc2/main.go:614-640 | Sorted disjoint ranges keep their ports, and no two of the remaining ones are adjacent. |
| JoinRanges.Collect | go/cmd/spoc2/main.go:590-606 | Each rule whose range has a neighbor is in the group of its key, and in no other one. |
| JoinRanges.Joiner.JoinRanges | go/cmd/spoc2/main.go:580-654 | All groups are joined, other rules do not change, and the rules that are not deleted remain in order. |
| JoinRanges.KindKept | go/cmd/spoc2/main.go:580-654 | A rule keeps its protocol, and a rule without neighbor its range. |
| JoinRanges.KeyPortsKept | go/cmd/spoc2/main.go:580-654 | Under each key and protocol the same ports are covered as before. |
| JoinRanges.NoNeighborsRemain | go/cmd/spoc2/main.go:580-654 | If neighbors are marked as orderRanges does, then no two remaining rules of a key have adjacent ranges. |
| CiscoAcl.InsideBelow | go/cmd/spoc2/main.go:245-334 | The chain of a range has all ranges around it. |
| CiscoAcl.OptimizedApart | go/cmd/spoc2/main.go:2377-2384 | After optimizeRules, the ranges of different rules with the same key do not overlap. |
| CiscoAcl.OptimizedJoinable | go/cmd/spoc2/main.go:2377-2384 | What joinRanges relies on is established by orderRanges and optimizeRules. |
| CiscoAcl.MatchesByKey | go/cmd/spoc2/main.go:580-654 | Before and after joining, a packet matches some rule with the action for the same ports and protocols. |
| CiscoAcl.JoinOptimized | go/cmd/spoc2/main.go:2377-2384 | Optimized and joined rules decide each packet like the optimized ones, and without secondary rules like the original ones. |
| RedundantRules.SetLocalPrtRelation | go/pkg/pass1/check-redundant.go:120-140 | localUp of each protocol of the rules is the nearest larger protocol of the rules; others do not change. |
| RedundantRules.LocalAbove | go/pkg/pass1/check-redundant.go:114-140 | Between protocols of the rules, the short chain leads to the same ones as the full chain. |
| RedundantRules.AboveFlag | go/pkg/pass1/check-redundant.go:459-532 | The search goes from stateless to stateful rules, and from permit to deny. |
| RedundantRules.AboveObj | go/pkg/pass1/check-redundant.go:459-532 | The search over sources and destinations visits an object and exactly the objects around it. |
| RedundantRules.AbovePrt | go/pkg/pass1/check-redundant.go:459-532 | The search over protocols visits a protocol and exactly the larger ones. |
| RedundantRules.FirstRuleIs | go/pkg/pass1/check-redundant.go:414-457 | A path leads to a rule exactly if it is the first rule with these attributes. |
| RedundantRules.DuplicatesIff | go/pkg/pass1/check-redundant.go:440-449 | Reported as duplicates are exactly the rules behind a rule with the same attributes, each with the first one. |
| RedundantRules.GetPut | go/pkg/pass1/check-redundant.go:361-408 | Adding to nested maps changes only what is found below the given path. |
| RedundantRules.BuildRuleTree | go/pkg/pass1/check-redundant.go:414-457 | The tree has the first rule of each combination of attributes, also after the simple tree has been inserted, and exactly the other rules are reported as duplicates. |
| RedundantRules.FindRedundantRules | go/pkg/pass1/check-redundant.go:459-532 | The nested loops collect exactly the pairs found by walking up the chain of each attribute. |
| RedundantRules.PairsIff | go/pkg/pass1/check-redundant.go:459-532 | Walking up full chains finds exactly the pairs of different rules with equal log, where each attribute of the second rule lies on the chain of the first one. |
| RedundantRules.LocalSame | go/pkg/pass1/check-redundant.go:459-532 | The search over short chains finds the same pairs as the search over full chains. |
| RedundantRules.SearchFindsCovered | go/pkg/pass1/check-redundant.go:459-532 | The search in the built tree finds exactly the pairs of different rules with equal log, each the first one with its attributes, where the second rule covers the first one: stateful covers stateless, deny covers permit, larger source ranges, objects and protocols cover smaller ones. |
| SubnetRelation.FindSupernet | go/pkg/pass1/find-subnets.go:46-58 | The first network found by masking with larger masks is the smallest one around; none is found only if there is none. |
| SubnetRelation.SubnetPairs | go/pkg/pass1/find-subnets.go:19-61 | Calls are made for exactly the pairs of a network and its smallest supernet, for small networks first. |
| IpNetRelation.SetUps | go/cmd/spoc2/main.go:171-202 | Each network is linked to the smallest network around it. |
| IpNetRelation.AboveIffCovers | go/cmd/spoc2/main.go:171-202 | A network is found on the up chain of another one exactly if it equals or strictly contains it. |
| IpNetRelation.EndsAtNet00 | go/cmd/spoc2/main.go:151-202 | Every chain ends at the network of all addresses. |
| IpNetRelation.SetupIPNetRelation | go/cmd/spoc2/main.go:151-217 | Links all networks, after adding the one of all addresses, and sets optNetworks of each to the largest marked network that contains it. |
| ZoneSubnets.Collect | go/pkg/pass1/find-subnets.go:128-163 | Stores one network for each address and mask, and reports each other one. |
| ZoneSubnets.Work | go/pkg/pass1/find-subnets.go:166-179 | Links a network and hands itself or the networks of an aggregate to the larger one. |
| ZoneSubnets.SetSubnets | go/pkg/pass1/find-subnets.go:166-179 | Each object is linked to the smallest object around it, and has exactly the networks inside it that lie in no smaller network which is no aggregate. |
| ZoneSubnets.MaxNetIff | go/pkg/pass1/find-subnets.go:185-206 | A largest enclosing network is found exactly if some network that is no aggregate is or contains the object. |
| ZoneSubnets.RemoveSubnets | go/pkg/pass1/find-subnets.go:185-270 | Exactly the networks inside no other network which is no aggregate remain networks of the zone. |
| ZoneSubnets.FindSubnetsInZone | go/pkg/pass1/find-subnets.go:119-276 | The three previous results together. |
| Aggregates.AddSubnets | go/pkg/pass1/get-aggregates.go:63-69 | Collects exactly the networks inside a network, at any depth. |
| Aggregates.CollectObjects | go/pkg/pass1/get-aggregates.go:44-73 | Collects exactly the objects of the zone. |
| Aggregates.FindSubnets | go/pkg/pass1/get-aggregates.go:75-98 | Exactly the objects in the aggregate without smaller supernet are linked to it, and it gets their networks. |
| Aggregates.FindSupernet | go/pkg/pass1/get-aggregates.go:100-119 | The aggregate is linked to the smallest object around it. |
| Aggregates.LinkImplicitAggregateToZone | go/pkg/pass1/get-aggregates.go:37-122 | With the new aggregate, each object of the zone is still linked to the smallest object around it and has the networks that belong to it. |
| ConvertHosts.FindUp | go/pkg/pass1/convert-hosts.go:183-205 | Finds the smallest subnet around a subnet, or the network. |
| ConvertHosts.UpAfterAdd | go/pkg/pass1/convert-hosts.go:277-298 | A subnet that is added for two halves is the smallest one around them, has the supernet they had, and changes no other relation. |
| ConvertHosts.LinkPair | go/pkg/pass1/convert-hosts.go:268-302 | Two halves are linked to each other and both to what they make up, which is added if it is missing; all other relations stay. |
| ConvertHosts.ConvertHosts | go/pkg/pass1/convert-hosts.go:183-305 | Each subnet is linked to the smallest object around it; exactly the left halves without NAT and ID whose right half exists are linked to it, and both to the object they make up; only such objects are added. |
| ConvertHosts.RelationsLinked | go/pkg/pass1/convert-hosts.go:207-305 | These relations are what combining of subnets relies on. |
| CombineSubnets.NotSwallowed | go/pkg/pass1/convert-hosts.go:343-367 | If no subnets of the list overlap and the right neighbor is in the list, then nothing larger has taken the place of the left one. |
| CombineSubnets.SlotsSubnet | go/pkg/pass1/convert-hosts.go:352-363 | Replacing two neighbors by the subnet they make up keeps the addresses, also if one of them has already been taken out. |
| CombineSubnets.SlotsNetwork | go/pkg/pass1/convert-hosts.go:352-358 | The same if they make up the whole network. |
| CombineSubnets.CombinePairs | go/pkg/pass1/convert-hosts.go:343-367 | Terminates with subnets and networks that have the same addresses, and without pairs; a family of disjoint subnets stays disjoint. |
| CombineSubnets.CombineSubnets | go/pkg/pass1/convert-hosts.go:319-378 | The resulting list has the same addresses, no subnet together with its neighbor, all other objects, and besides only objects to which two neighbors are linked; disjoint subnets lead to disjoint ones. |

## Left out

- FindChains.LosslessMatches: gives a sufficient condition for a single group of rules, because what gets lost on one path may be matched by other rules; the exact set of decided packets is stated by `FindChains.FindChains`, and the exact condition for all groups by `LostRules.DecidesAllIff`.
- FindChains.FindChains: left out are several groups of rules with alternating action, where the last rule of a group must not use goto; rules without source range are modelled by `None`.
- FindChains.FindChains: besides, pointers to subtrees are compared by value, and the default values for missing tests in the printed rules are not modelled.
- ProtocolTree.GenprtBintree: ICMP types and codes, and 'tcp established'.
- GenprtBintree.GroupProtocols: the list of ICMP protocols.
- ProtocolRelation.SetupPrtRelation: ICMP types and codes, and 'tcp established'.
- CiscoAcl.JoinOptimized: optimized rules are given by their values in `AclSpec`; the two classes for rules are related by these values.
- AclSpec.KeepsPermitsIff: speaks of sets of networks with fixed attributes; how `needProtect` is derived from interfaces is not part of the model.
- AclOptimizer.OptimizeRules: lists of rules are filtered even if nothing was deleted; protection rules and `isSupernetOfNeedProtect` are not modelled.
- Routes.PrintRoutes: routes of ASA with site-to-site VPN, hidden networks, the collection of routes and the order of the printed lines.
- PathWalk.PathFinder.ClusterPathMark1: active marks of nodes and path restrictions are sets of the search; navigation and membership in loops are parameters.
- SplitIpRange.SplitIpRange: ranges whose last 64 bits are all ones, for which the loop of the program does not end, see `SplitIpRange.EndsUnlessWrapped`.
- CombineAdjacent.Combiner.CombineAdjacentIPMask: names of networks are replaced by networks as keys of the map of known networks; object groups are not modelled.
- PortRanges.OrderRanges: the map of protocols is given by its values in some order; the messages of errors are left out here and elsewhere.
- PortNames.NameRoundTrip: for ports up to the largest signed number of 64 bits.
- ClassifyProtocols.ClassifyProtocols: flags of modifiers other than source ports are opaque.
- RedundantRules.FindRedundantRules: the six nested loops are one method that calls itself for the next attribute; counting, and comparison of owners of overlapping services, are left out.
- RedundantRules.BuildRuleTree: no rule has 'ip' as source range, because source ranges are ranges of TCP or UDP and 'ip' is always left unset (go/pkg/pass1/reverse-rules.go:139-141).
- ZoneSubnets.FindSubnetsInZone: one address per network, no NAT; checks of interfaces and hosts in subnets and `maxRoutingNet` are left out.
- Aggregates.LinkImplicitAggregateToZone: links to the zone and to the list of all networks are left out.
- ConvertHosts.ConvertHosts: starts with the subnets of one network; creation of subnets from hosts, names, owners and NAT are left out.  As in the program, only the left one of two neighbors is looked at for NAT and ID.
- Machine integers are unbounded except where the model says otherwise; concurrency, files, JSON, messages, parsing and printing of policies and device configurations are not part of the model.
