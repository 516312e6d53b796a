# Fabric planner of the Pluribus zero-touch-provisioning modules

The Ansible modules `pn_ztp.py` and `pn_ebgp.py` bring up a leaf–spine fabric of
Pluribus switches. Apart from the CLI calls they issue, they hold a small planner.
This project models that planner in Dafny and proves what it promises.

- **Link addresses.** `calculate_link_ip_addresses` takes the IPv4 block
  `address/cidr` and carves it into `/supernet` sub-blocks, where the supernet
  is 27, 28, 29 or 30. It lists every usable host of every sub-block as the
  string `b0.b1.third.host/supernet`.
  - The modules `Octets`, `LinkAddresses` and `LinkAddressFacts` cover it.
  - The bit arithmetic (Python 2 integer division, the mask, network and
    broadcast loops) is written out over unbounded integers.
- **Link cursor.** The cursor loop of `auto_configure_link_ips` walks every
  spine, every leaf and every leaf port that faces that spine ('Success'
  when none does). It gives the leaf port the head address and the spine
  port the next one, then pops the rest of the sub-block.
  - The modules `LinkCursor` and `LinkCursorFacts` cover it.
- **Sequential addresses.** `assign_loopback_ip` and `assign_inband_ip` give
  the k-th vrouter or switch the first three octets of a base address plus k.
  - The module `ZtpAddressing` covers them.
- **Check-then-create.** `create_cluster`, `create_trunk`, `create_vlag` and
  `create_vrouter` list the names that exist and issue the create command only
  when the wanted name is absent. `create_trunk_vlag` names a trunk and unions
  the ports towards its destinations.
  - The module `FabricTables` covers them. It keeps everything the planner
    creates as a value `Tables`, which each operation takes and returns.
- **Leaf pairing.** `leaf_no_cluster` finds the unclustered leaves. The
  worklist loops of `create_leaf_cluster_vlag` (ztp) and
  `leaf_cluster_formation` (ebgp) pop the head leaf and cluster it with its
  first LLDP neighbour that is not a spine and is still waiting.
  `create_nonclusterleaf_vlag` and `configure_auto_vlag` build the vlags
  around these clusters.
  - The modules `Pairing`, `ZtpVlag` and `Ebgp` cover them.
- **BGP AS numbering.** `assigning_bgp_as` gives spine vrouters the base AS.
  Every other vrouter gets the next value of a counter that starts at base+1.
  - The module `Ebgp` covers it.

Every switch query becomes an input. Port listings are a sequence of
`PortRecord` rows, and LLDP neighbours and fabric nodes are functions from a
switch name to a sequence. The order that `list(set(...))` produces is such an
input too.

Each loop of the source is a `method` with a `while` or `for` loop. It is proved
equal to a specification function, and lemmas state the properties of that
function.

The model keeps these behaviours of the code exactly as written:

- Only the first third octet starts at the aligned base. Later third octets
  restart at host 0.
- The first two octets of every link address come from the broadcast address.
- Nothing checks that the supernet is at least as long as the cidr.
  `LinkAddressFacts.HostsLeaveShortBlock` shows hosts outside a `/30` block
  when the supernet is 27. `LinkAddressFacts.HostsWithinBlock` proves that the
  hosts stay inside the block when `cidr <= supernet`.
- The fabric filter of `create_leaf_cluster_vlag` removes entries from the list
  it iterates over. It therefore skips the entry after each removal:
  `Pairing.FabricFilterSkips` shows a non-fabric name that survives.
- The loopback counter advances even for a vrouter that already holds its
  address.
- run_cli answers 'Success' when a listing comes back empty. A leaf cabled to
  no port of a spine therefore lists the single port 'Success'. The cursor
  loop serves that port and uses up a sub-block
  (`LinkCursorFacts.UncabledPairServed`), and create_trunk_vlag adds
  'Success' to the trunk's ports.
- Running out of link addresses is an `IndexError`. The cursor keeps the
  interfaces it requested before that point (`Cursor.failed`).

## Model

| member | source | states |
|---|---|---|
| Text.Decimal | ansible/library/pn_ztp.py:391-395 | `str` of a non-negative int is a non-empty string of decimal digits |
| Text.DecimalRoundTrip | ansible/library/pn_ztp.py:391-395 | reading back the digits of `str(n)` gives `n` |
| Text.DecimalInjective | ansible/library/pn_ztp.py:548 | different numbers print differently, so different counters give different addresses |
| Text.Drop | ansible/library/pn_ztp.py:783 | `s[n:]` is empty when `n >= len(s)`; otherwise it is the suffix after `n` characters |
| Text.Split | ansible/library/pn_ztp.py:346 | `str.split(sep)` has at least one piece, and no piece contains the separator |
| Text.SplitJoin | ansible/library/pn_ztp.py:532-534 | joining the pieces of a split with the separator gives back the string |
| Text.JoinSplit | ansible/library/pn_ztp.py:532-534 | splitting a join of separator-free pieces gives back the pieces |
| Text.SplitPrefix | ansible/library/pn_ztp.py:1024 | a separator-free prefix glues onto the first piece of the split |
| Octets.NetworkOctetClearsHostBits | ansible/library/pn_ztp.py:358-365 | ANDing an address octet with its mask octet clears its host bits, rounding it down to a multiple of the block size |
| LinkAddresses.SupernetRange | ansible/library/pn_ztp.py:349-355 | the mapping is defined exactly for supernets 27..30; each value plus 2 is the sub-block size `2^(32-supernet)` |
| LinkAddresses.Plan | ansible/library/pn_ztp.py:346-379 | KeyError exactly for supernets outside 27..30; IndexError for an address with fewer than four fields or a cidr above 32; otherwise a four-octet network and broadcast |
| LinkAddresses.Netmask | ansible/library/pn_ztp.py:358-360 | the mask loop finishes exactly when cidr ≤ 32 and builds the prefix mask |
| LinkAddresses.NetworkAddress | ansible/library/pn_ztp.py:363-365 | the network is the address ANDed with the mask, octet by octet |
| LinkAddresses.Broadcast | ansible/library/pn_ztp.py:368-371 | the broadcast sets the low 32−cidr bits of the network |
| LinkAddresses.AppendBlock | ansible/library/pn_ztp.py:381-386 | the hostmin..hostmax loop appends the `range` hosts `i+1 … i+range` of one sub-block to the list |
| LinkAddresses.SubBlockHosts | ansible/library/pn_ztp.py:380-389 | the inner loops list the usable hosts of consecutive sub-blocks from the start |
| LinkAddresses.FormatRow | ansible/library/pn_ztp.py:390-397 | one row renders every host of one third octet as `b0.b1.third.host/supernet` |
| LinkAddresses.AllRows | ansible/library/pn_ztp.py:377-401 | the outer loop renders the rows of every third octet from the network's to the broadcast's |
| LinkAddresses.AddressesInBlock | ansible/library/pn_ztp.py:356-401 | once the supernet and cidr are accepted, network, broadcast and the row loops give exactly the planned address list |
| LinkAddresses.CalculateLinkIpAddresses | ansible/library/pn_ztp.py:336-402 | the whole procedure returns the planned address list or raises the planned exception |
| LinkAddressFacts.BlocksLayout | ansible/library/pn_ztp.py:381-388 | the n-th host of a row is `start + (n / range)·(range+2) + n % range + 1`, so each sub-block gives exactly `range` consecutive hosts |
| LinkAddressFacts.BlocksAvoidSubBlockEnds | ansible/library/pn_ztp.py:374-389 | from an aligned start, every host h has `1 ≤ h mod (range+2) ≤ range`, so no sub-block network or broadcast is listed |
| LinkAddressFacts.BlocksAscending | ansible/library/pn_ztp.py:381-388 | the hosts of a row are above the start and strictly ascending |
| LinkAddressFacts.BlocksBelow | ansible/library/pn_ztp.py:381-388 | from an aligned start, no host of a row passes the last octet of the broadcast |
| LinkAddressFacts.HostsShape | ansible/library/pn_ztp.py:377-400 | the third octets run from the first to the last row, hosts stay inside their sub-blocks, and the list is strictly ordered |
| LinkAddressFacts.AlignedStart | ansible/library/pn_ztp.py:373-374 | the first sub-block starts at or below the address's last octet and on a multiple of supernet_range + 2 |
| LinkAddressFacts.PlanHostsOrdered | ansible/library/pn_ztp.py:374-400 | third octets lie between network[2] and broadcast[2], every host is inside a sub-block, and the list is strictly ordered |
| LinkAddressFacts.PlanBlock | ansible/library/pn_ztp.py:358-371 | per octet, the network is the address rounded down to the block and the broadcast is the network plus the block size minus one |
| LinkAddressFacts.NetmaskContiguous | ansible/library/pn_ztp.py:358-360 | the mask has exactly cidr bits set, and an octet carries mask bits only if the octets before it are full |
| LinkAddressFacts.DottedInjective | ansible/library/pn_ztp.py:391-395 | two hosts with the same rendered string are the same host |
| LinkAddressFacts.LinkIpsDistinct | ansible/library/pn_ztp.py:377-402 | the returned address list has no duplicates |
| LinkAddressFacts.HostsWithinBlock | ansible/library/pn_ztp.py:373-400 | when cidr ≤ supernet, every listed host lies between the network and the broadcast address |
| LinkAddressFacts.RowsBelow | ansible/library/pn_ztp.py:379-400 | from an aligned start, no host of any row passes the broadcast's last octet |
| LinkAddressFacts.HostsLeaveShortBlock | ansible/library/pn_ztp.py:349-400 | for 192.168.1.0/30 with supernet 27 the network is 192.168.1.0 and the broadcast 192.168.1.3, yet 30 hosts are listed and the last, 192.168.1.30, lies above the broadcast |
| LinkAddressFacts.Slash24Into30 | ansible/library/pn_ztp.py:336-402 | 192.168.1.0/24 with supernet 30 starts with .1, .2, .5, .6 |
| LinkCursor.LeafPortsListed | ansible/library/pn_ztp.py:606-608 | the split listing holds exactly the leaf's ports cabled to the spine, and is `['Success']` (run_cli's answer to an empty listing) when there are none |
| LinkCursor.RemotePortRow | ansible/library/pn_ztp.py:619-622 | the remote port is the rport of the first row of the leaf for that port, or 'Success' (run_cli's answer to an empty listing) when no row matches |
| LinkCursor.ServeLink | ansible/library/pn_ztp.py:610-631 | one pass gives the head address to the leaf port and the next one to the spine port, then pops the padding, failing when the list runs out |
| LinkCursor.ServeLeaf | ansible/library/pn_ztp.py:610-631 | the `while leaf_port` loop serves the leaf's listed ports towards one spine in listing order, including the pass on port 'Success' of a leaf cabled to no port of that spine |
| LinkCursor.ServeSpine | ansible/library/pn_ztp.py:604-631 | the leaf loop serves the links of one spine, leaf by leaf, each leaf with at least one pass |
| LinkCursor.AssignLinkIps | ansible/library/pn_ztp.py:603-631 | the nested loops serve all links spine-major, then leaf, then port, 'Success' links included |
| LinkCursorFacts.ConsumeOutcome | ansible/library/pn_ztp.py:610-631 | the cursor succeeds iff the list holds `links·(pad+2)` addresses; then it issues two interfaces per link and leaves exactly the rest |
| LinkCursorFacts.ConsumePositions | ansible/library/pn_ztp.py:610-631 | interface n belongs to link n/2, leaf side when n is even and spine side when odd, and takes the address at `(n/2)·(pad+2) + n%2` |
| LinkCursorFacts.ConsumeDistinct | ansible/library/pn_ztp.py:610-631 | from a duplicate-free address list, no address is issued twice |
| LinkCursorFacts.PadIsSupernetRange | ansible/library/pn_ztp.py:626-631 | for supernets 27..30 each link consumes exactly `supernet_mapping[supernet]` addresses |
| LinkCursorFacts.PairLinksMembers | ansible/library/pn_ztp.py:606-622 | the links of one leaf and spine are exactly its ports cabled to the spine, or the one port 'Success' when none is, each paired with its remote port |
| LinkCursorFacts.SpineLinksMembers | ansible/library/pn_ztp.py:604-608 | the links of one spine are exactly those of the leaves in the leaf list |
| LinkCursorFacts.AllLinksMembers | ansible/library/pn_ztp.py:603-608 | a link is served iff its spine and leaf are listed, its leaf port faces the spine (or is 'Success' and no port does) and its spine port is the remote port |
| LinkCursorFacts.UncabledPairServed | ansible/library/pn_ztp.py:606-631 | a leaf cabled to no port of a spine still takes one pass on port 'Success', which binds the head address and uses up `pad + 2` addresses |
| FabricTables.ListingsGrow | ansible/library/pn_ztp.py:656-664 | once created, a cluster, trunk, vlag or vrouter name stays listed |
| FabricTables.CreateCluster | ansible/library/pn_ztp.py:656-664 | the create is issued iff the name is absent; afterwards the name is listed; otherwise nothing changes and the answer is "Already part of a cluster" |
| FabricTables.CreateTrunk | ansible/library/pn_ztp.py:698-707 | the same check-then-create for trunks on one switch, with "Already part of a trunk" |
| FabricTables.CreateVlag | ansible/library/pn_ztp.py:754-763 | the same check-then-create for vlags on one switch, with "Already part of a vlag" |
| FabricTables.CreateVrouter | ansible/library/pn_ztp.py:413-437 | vrouter `switch[3:]-vrouter` on vnet `fabric-global` is created only if absent, with the created or already-exists message |
| FabricTables.CreateClusterIdempotent | ansible/library/pn_ztp.py:658-664 | a repeated create_cluster changes nothing and answers "Already part of a cluster" |
| FabricTables.CreateTrunkIdempotent | ansible/library/pn_ztp.py:700-707 | a repeated create_trunk, with any ports, changes nothing |
| FabricTables.CreateVlagIdempotent | ansible/library/pn_ztp.py:756-763 | a repeated create_vlag, with any peer, changes nothing |
| FabricTables.CreateVrouterIdempotent | ansible/library/pn_ztp.py:428-435 | a repeated create_vrouter changes nothing |
| FabricTables.CreateClusterKeepsNamesUnique | ansible/library/pn_ztp.py:658-664 | no two clusters share a name after a create |
| FabricTables.CreateTrunkKeepsNamesUnique | ansible/library/pn_ztp.py:700-707 | no switch has two trunks of one name after a create |
| FabricTables.CreateVlagKeepsNamesUnique | ansible/library/pn_ztp.py:756-763 | no switch has two vlags of one name after a create |
| FabricTables.CreateVrouterKeepsNamesUnique | ansible/library/pn_ztp.py:428-435 | no switch has two vrouters of one name after a create |
| FabricTables.PortsTowardsMembers | ansible/library/pn_ztp.py:778-782 | the port union holds exactly the ports facing some destination, plus 'Success' when some destination faces no port |
| FabricTables.TrunkVlag | ansible/library/pn_ztp.py:766-786 | the result is `node1[5:]-to-<dests concatenated>`, that trunk is listed on node1 afterwards, and only the trunks change |
| FabricTables.TrunkVlagPorts | ansible/library/pn_ztp.py:777-784 | a newly created trunk is on node1 under that name, over exactly the ports facing the destinations, plus 'Success' for a destination that faces none |
| FabricTables.CreateTrunkVlag | ansible/library/pn_ztp.py:766-786 | the get_ports loop, with 'Success' for an empty reply, computes that trunk and name |
| Pairing.RemoveFirst | ansible/library/pn_ztp.py:840 | `list.remove` shortens the list by one and removes one occurrence of the value |
| Pairing.RemoveFirstNoDups | ansible/library/pn_ztp.py:840 | on a duplicate-free list, remove leaves exactly the other entries, still duplicate-free |
| Pairing.ColumnsClustered | ansible/library/pn_ztp.py:724-729 | a switch is in a cluster-node column iff it belongs to a cluster |
| Pairing.Unclustered | ansible/library/pn_ztp.py:731-735 | a leaf is kept iff it is in neither column; a duplicate-free leaf list stays duplicate-free |
| Pairing.UnclusteredWithoutClusters | ansible/library/pn_ztp.py:731-735 | with no clusters, every leaf is kept, in order |
| Pairing.LeafNoCluster | ansible/library/pn_ztp.py:710-735 | the loop (also pn_ebgp.py:348-371) keeps, in order, the leaves in neither column |
| Pairing.FilterFromKeepsFabric | ansible/library/pn_ztp.py:826-828 | the filter only removes entries, and never a fabric node |
| Pairing.FabricFilterKeepsFabric | ansible/library/pn_ztp.py:826-828 | every kept name was a neighbour, and every neighbour that is a fabric node is kept |
| Pairing.FabricFilterSkips | ansible/library/pn_ztp.py:826-828 | with neighbours ["a", "b"] and no fabric nodes, "b" is skipped and survives |
| Pairing.FilterFabric | ansible/library/pn_ztp.py:826-828 | the for-loop computes that filter |
| Pairing.FindFrom | ansible/library/pn_ztp.py:832-864 | the partner is the first neighbour that is not a spine and is still in the worklist, or there is none |
| Pairing.FindPartner | ansible/library/pn_ztp.py:830-864 | the flag-driven loop stops at that first eligible neighbour |
| Pairing.PairsValid | ansible/library/pn_ztp.py:805-864 | every pair joins two worklist leaves; the partner is not a spine and is a candidate neighbour of the popped leaf |
| Pairing.PairsDisjoint | ansible/library/pn_ztp.py:805-864 | from a duplicate-free worklist, no leaf is in two clusters |
| ZtpAddressing.StaticPart | ansible/library/pn_ztp.py:532-534 | the static part exists iff the address has at least three dot-separated fields |
| ZtpAddressing.NthAddressOctets | ansible/library/pn_ztp.py:548 | the k-th address keeps the first three fields and has `str(k)` as its fourth |
| ZtpAddressing.NthAddressInjective | ansible/library/pn_ztp.py:548 | different counters give different addresses |
| ZtpAddressing.HoldersOfMeans | ansible/library/pn_ztp.py:550-554 | a vrouter is in the listing for an ip iff it holds that loopback |
| ZtpAddressing.AddLoopbacksKeeps | ansible/library/pn_ztp.py:547-562 | existing loopbacks are kept |
| ZtpAddressing.AddLoopbacksHolds | ansible/library/pn_ztp.py:547-562 | afterwards vrouter j holds address `k + j`, including when the counter advanced past an existing one |
| ZtpAddressing.AddLoopbacksOnly | ansible/library/pn_ztp.py:547-562 | every loopback afterwards was there or is a planned one |
| ZtpAddressing.AddLoopbacksAgain | ansible/library/pn_ztp.py:547-562 | when every planned loopback exists, nothing is added |
| ZtpAddressing.LoopbackFailures | ansible/library/pn_ztp.py:544-566 | failure iff the address has no three fields (IndexError), no vrouters ("no vrouters present") or more than 255 ("Not enough ips for all the vrouters"), and then nothing changes |
| ZtpAddressing.LoopbackAssignments | ansible/library/pn_ztp.py:544-562 | on success the k-th vrouter (k from 1) holds the three fields plus k, and only loopbacks are added |
| ZtpAddressing.LoopbackIdempotent | ansible/library/pn_ztp.py:547-562 | a second run changes nothing |
| ZtpAddressing.AssignLoopbackIp | ansible/library/pn_ztp.py:524-568 | the counter loop computes that plan |
| ZtpAddressing.InbandParts | ansible/library/pn_ztp.py:1024-1028 | the address parses iff it has four fields and a '/' in the fourth; its prefix is the static part |
| ZtpAddressing.InbandAssignedKeys | ansible/library/pn_ztp.py:1041-1048 | exactly the listed switches get an in-band address |
| ZtpAddressing.SetInbandOverrides | ansible/library/pn_ztp.py:1041-1048 | the loop overwrites the setting of the listed switches and leaves the others |
| ZtpAddressing.InbandAssignedAt | ansible/library/pn_ztp.py:1039-1048 | the last occurrence of a switch at position j gets `prefix.(k+j)/subnet` |
| ZtpAddressing.InbandFailures | ansible/library/pn_ztp.py:1038-1052 | failure iff the address lacks its parts (IndexError), no switches ("No switches present") or more than 255 ("Not enough inband ips for all the switches"), and then nothing changes |
| ZtpAddressing.InbandAssignments | ansible/library/pn_ztp.py:1038-1048 | on success the k-th switch gets `prefix.k/subnet`, other switches keep theirs, and only in-band settings change |
| ZtpAddressing.InbandIdempotent | ansible/library/pn_ztp.py:1041-1048 | a second run changes nothing |
| ZtpAddressing.AssignInbandIp | ansible/library/pn_ztp.py:1016-1054 | the counter loop computes that plan |
| ZtpVlag.PairListedGrows | ansible/library/pn_ztp.py:835-857 | the objects of a formed cluster stay listed as the tables grow |
| ZtpVlag.ClusterPairListed | ansible/library/pn_ztp.py:835-857 | after a pair is served, its cluster, both leaf trunks, the leaf vlag, both spine trunks and the spine vlag are listed |
| ZtpVlag.LeafClustersListed | ansible/library/pn_ztp.py:805-864 | after the worklist loop, the objects of every formed pair are listed |
| ZtpVlag.ClusterPair | ansible/library/pn_ztp.py:835-857 | one pair creates its cluster, trunks and vlags in the source's order |
| ZtpVlag.CreateLeafClusterVlag | ansible/library/pn_ztp.py:789-865 | the worklist loop serves the greedy pairs of the fabric-filtered neighbours |
| ZtpVlag.LoneLeafListed | ansible/library/pn_ztp.py:877-887 | after one lone leaf is served, its trunk, both spine trunks and the spine vlag are listed |
| ZtpVlag.LoneLeavesListed | ansible/library/pn_ztp.py:877-887 | after the loop, every listed leaf is served |
| ZtpVlag.LoneLeaf | ansible/library/pn_ztp.py:877-887 | one pass creates the lone leaf's trunks and vlag |
| ZtpVlag.CreateNonclusterLeafVlag | ansible/library/pn_ztp.py:868-889 | the loop serves every unclustered leaf |
| ZtpVlag.AutoVlagCovers | ansible/library/pn_ztp.py:892-910 | IndexError iff fewer than two spines; otherwise "spine-cluster" exists, every pair formed has its cluster, trunks and vlags listed, and every leaf is in a cluster or has its lone-leaf vlag |
| ZtpVlag.AutoVlagPairs | ansible/library/pn_ztp.py:901-905 | the pairs formed are disjoint, are leaves, never spines, and were unclustered |
| ZtpVlag.ConfigureAutoVlag | ansible/library/pn_ztp.py:892-910 | the sequence computes that outcome |
| Ebgp.AsPlan | ansible/library/pn_ebgp.py:156-173 | one setting per vrouter, in listing order |
| Ebgp.AsPlanValues | ansible/library/pn_ebgp.py:143-173 | a spine vrouter gets the base AS; any other gets the counter plus the number of non-spine vrouters before it |
| Ebgp.AsPlanIncreasing | ansible/library/pn_ebgp.py:167-173 | leaf AS values are at least the counter's start and strictly increase in listing order |
| Ebgp.BgpAsOutcome | ansible/library/pn_ebgp.py:143-175 | "No vrouters present/created in this switch" iff the listing is empty; otherwise spines get the base, others base+1, base+2, …, pairwise distinct and never the base |
| Ebgp.AssigningBgpAs | ansible/library/pn_ebgp.py:135-177 | the counter loop computes that plan |
| Ebgp.ClusterPairsListed | ansible/library/pn_ebgp.py:429-446 | every formed pair's cluster `node1-to-node2-cluster` is listed, and only clusters change |
| Ebgp.LeafClusterFormation | ansible/library/pn_ebgp.py:400-448 | the worklist loop creates the clusters of the greedy pairs over the unfiltered neighbours |
| Ebgp.LeafClusterOutcome | ansible/library/pn_ebgp.py:451-463 | the pairs are disjoint unclustered leaves, each partner a non-spine LLDP neighbour, and each cluster is listed afterwards |
| Ebgp.CreateLeafCluster | ansible/library/pn_ebgp.py:451-463 | leaf_no_cluster followed by the worklist loop computes that outcome |

## Left out

- `pn_cli`, `run_cli`, `shlex` and `exit_json`, the process I/O of both modules.
  Each CLI listing is an input, and each create or modify is an update of `Tables`.
- The `'switch' in cli` / `rpartition` prefix handling, which is session plumbing.
- The output strings built from CLI replies. `Reply` and `Failure` stand in for
  the fixed messages the planner decides on.
- `create_interface`, `delete_trunk` and `disable_trunk`. The cursor ends at the
  list of requested interfaces (`Binding`). What the switch does with each
  request, and the conflicting-trunk clean-up, are switch-side CLI effects.
- `auto_configure_link_ips` apart from its cursor loop. Its `create_vrouter` loop
  over the fabric nodes uses `FabricTables.CreateVrouter`. Its trailing
  `assign_loopback_ip` call is modelled on its own.
- The one-shot settings (`auto_accept_eula`, `modify_stp`, `modify_stp_local`,
  `configure_control_network`, `create_fabric`, `update_fabric_network_to_inband`),
  `enable_ports`, `toggle_40g`, `toggle_40g_local` and `main`. They hold no
  planner logic.
- `bgp_neighbor`, `assign_router_id`, `bgp_redistribute` and `bgp_maxpath` in
  `pn_ebgp.py`. They are control-plane queries without planner logic.
- The order of Python `set` iteration. Each `list(set(...))` is an input
  sequence: LLDP neighbours, fabric nodes and the trunk port union.
- LinkAddresses.Plan: address fields are taken as octets 0..255. The parsing of
  the dotted string by `int()`, fields above 255, non-numeric fields, and a
  negative or non-numeric cidr are not modelled.
- LinkCursor.AssignLinkIps: the supernet is an integer of at most 32. A
  non-numeric `pn_supernet`, or a supernet above 32 (a negative shift), is not
  modelled.
- Ebgp.AssigningBgpAs: the base AS is taken as its number. The `int()` parse of
  the `bgp_as` string, and the spine AS being passed through as the user's
  string, are not modelled.
- ZtpAddressing.LoopbackPlan: the `vrouter-loopback-interface-show ip …`
  listing is read as the vrouters holding that address. The source asks for the
  `switch` column and compares it with vrouter names.
- LinkCursor.RemotePort: the `port-show port … format rport` reply is taken as
  the rport of the first matching row. If several rows matched, the source
  would pass their joined rports on as one port name. That case is not
  modelled.
- FabricTables.CreateCluster: cluster listings are fabric-wide. The switch the
  create command runs on (node2 in the pairing loops) is not recorded.
- FabricTables.Trunk: ports are a set. The comma-joined port string passed to
  `trunk-create` is not modelled.
- ZtpVlag.ClusterPair, ZtpVlag.CreateLeafClusterVlag,
  ZtpVlag.CreateNonclusterLeafVlag: these require two spines, as the source
  indexes `spine_list[0]` and `spine_list[1]`. `ZtpVlag.ConfigureAutoVlag`
  models the IndexError for fewer.
- `leaf_no_cluster` and `create_cluster` of `pn_ebgp.py` are the same code as in
  `pn_ztp.py` and are modelled once, in `Pairing` and `FabricTables`.
- The empty-listing branches "no vrouters present", "No switches present"
  (`pn_ztp.py`) and "No vrouters present/created in this switch"
  (`pn_ebgp.py`) are modelled for an empty listing. In the source they
  cannot fire, because run_cli answers 'Success' for an empty listing and
  the split listing is then `['Success']`; the models take the listing as given.
- The "switch already has a cluster" and "switch is a spine" prints, which are
  console output.
