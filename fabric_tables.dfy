/** The switch-side objects the planner creates, seen as tables of names,
    and the check-then-create decisions of create_cluster, create_trunk,
    create_vlag and create_vrouter: each lists the names that exist and
    issues the create command only when the wanted name is absent. */
module FabricTables {
  import opened Text
  import opened LinkCursor

  /** A cluster; cluster listings are fabric-wide. */
  datatype Cluster = Cluster(name: string, node1: string, node2: string)
  /** A trunk (link aggregation) on one switch over a set of ports. */
  datatype Trunk = Trunk(switch: string, name: string, ports: set<string>)
  /** A vlag on `switch` pairing trunk `port` with trunk `peerPort` of `peerSwitch`. */
  datatype Vlag = Vlag(switch: string, name: string, peerSwitch: string, port: string, peerPort: string)
  /** A vrouter on one switch, attached to a vnet. */
  datatype Vrouter = Vrouter(switch: string, name: string, vnet: string)
  /** A loopback interface address of a vrouter. */
  datatype Loopback = Loopback(vrouter: string, ip: string)

  /** Everything the planner creates, in creation order; in-band addresses
      are a per-switch setting, overwritten by each modification. */
  datatype Tables = Tables(
    clusters: seq<Cluster>,
    trunks: seq<Trunk>,
    vlags: seq<Vlag>,
    vrouters: seq<Vrouter>,
    loopbacks: seq<Loopback>,
    inband: map<string, string>)

  /** A fabric with nothing configured yet. */
  const Empty := Tables([], [], [], [], [], map[])

  /** What a check-then-create call answers: the create command was issued
      (its reply is the command's own output), or a fixed message. */
  datatype Reply = Issued | Already(message: string)

  /** Failures the planner can end in: a Python IndexError, or a message
      returned in place of doing the work. */
  datatype Failure = IndexError | Reported(message: string)

  /** `cluster-show format name`. */
  function ClusterNames(cs: seq<Cluster>): set<string>
  {
    set c | c in cs :: c.name
  }

  /** `cluster-show format cluster-node-1` and `... cluster-node-2`, as sets. */
  predicate Clustered(cs: seq<Cluster>, node: string)
  {
    exists c :: c in cs && (c.node1 == node || c.node2 == node)
  }

  /** `switch <sw> trunk-show format name`. */
  function TrunkNames(ts: seq<Trunk>, sw: string): set<string>
  {
    set x | x in ts && x.switch == sw :: x.name
  }

  /** `switch <sw> vlag-show format name`. */
  function VlagNames(vs: seq<Vlag>, sw: string): set<string>
  {
    set x | x in vs && x.switch == sw :: x.name
  }

  /** `switch <sw> vrouter-show format name`. */
  function VrouterNames(vs: seq<Vrouter>, sw: string): set<string>
  {
    set x | x in vs && x.switch == sw :: x.name
  }

  /** Nothing created before is lost, and in-band settings stay set. */
  predicate Grows(t: Tables, t': Tables)
  {
    t.clusters <= t'.clusters && t.trunks <= t'.trunks && t.vlags <= t'.vlags
    && t.vrouters <= t'.vrouters && t.loopbacks <= t'.loopbacks
    && t.inband.Keys <= t'.inband.Keys
  }

  lemma GrowsTrans(t: Tables, t': Tables, t'': Tables)
    requires Grows(t, t') && Grows(t', t'')
    ensures Grows(t, t'')
  {
  }

  lemma ListingsGrow(t: Tables, t': Tables, sw: string, node: string)
    requires Grows(t, t')
    ensures ClusterNames(t.clusters) <= ClusterNames(t'.clusters)
    ensures Clustered(t.clusters, node) ==> Clustered(t'.clusters, node)
    ensures TrunkNames(t.trunks, sw) <= TrunkNames(t'.trunks, sw)
    ensures VlagNames(t.vlags, sw) <= VlagNames(t'.vlags, sw)
    ensures VrouterNames(t.vrouters, sw) <= VrouterNames(t'.vrouters, sw)
  {
    forall x | x in t.clusters ensures x in t'.clusters {
      assert x == t'.clusters[..|t.clusters|][IndexIn(t.clusters, x)];
    }
    forall x | x in t.trunks ensures x in t'.trunks {
      assert x == t'.trunks[..|t.trunks|][IndexIn(t.trunks, x)];
    }
    forall x | x in t.vlags ensures x in t'.vlags {
      assert x == t'.vlags[..|t.vlags|][IndexIn(t.vlags, x)];
    }
    forall x | x in t.vrouters ensures x in t'.vrouters {
      assert x == t'.vrouters[..|t.vrouters|][IndexIn(t.vrouters, x)];
    }
  }

  function IndexIn<T(==)>(s: seq<T>, x: T): (k: nat)
    requires x in s
    ensures k < |s| && s[k] == x
  {
    if s[0] == x then 0 else 1 + IndexIn(s[1..], x)
  }

  /** create_cluster: the cluster is created unless its name is listed.
      Which switch runs the create command does not matter to the listing. */
  function CreateCluster(t: Tables, name: string, node1: string, node2: string): (r: (Tables, Reply))
    ensures r.1 == Issued <==> name !in ClusterNames(t.clusters)
    ensures name in ClusterNames(r.0.clusters) && Grows(t, r.0)
    ensures r.1 == Issued ==>
      r.0 == t.(clusters := t.clusters + [Cluster(name, node1, node2)])
    ensures r.1 != Issued ==> r.0 == t && r.1 == Already("Already part of a cluster")
  {
    if name !in ClusterNames(t.clusters) then
      var c := Cluster(name, node1, node2);
      assert c in t.clusters + [c];
      (t.(clusters := t.clusters + [c]), Issued)
    else
      (t, Already("Already part of a cluster"))
  }

  /** create_trunk: the trunk is created on `sw` unless `sw` lists its name. */
  function CreateTrunk(t: Tables, sw: string, name: string, ports: set<string>): (r: (Tables, Reply))
    ensures r.1 == Issued <==> name !in TrunkNames(t.trunks, sw)
    ensures name in TrunkNames(r.0.trunks, sw) && Grows(t, r.0)
    ensures r.1 == Issued ==>
      r.0 == t.(trunks := t.trunks + [Trunk(sw, name, ports)])
    ensures r.1 != Issued ==> r.0 == t && r.1 == Already("Already part of a trunk")
  {
    if name !in TrunkNames(t.trunks, sw) then
      var x := Trunk(sw, name, ports);
      assert x in t.trunks + [x];
      (t.(trunks := t.trunks + [x]), Issued)
    else
      (t, Already("Already part of a trunk"))
  }

  /** create_vlag: the vlag is created on `sw` unless `sw` lists its name. */
  function CreateVlag(t: Tables, sw: string, name: string, peerSwitch: string, port: string, peerPort: string): (r: (Tables, Reply))
    ensures r.1 == Issued <==> name !in VlagNames(t.vlags, sw)
    ensures name in VlagNames(r.0.vlags, sw) && Grows(t, r.0)
    ensures r.1 == Issued ==>
      r.0 == t.(vlags := t.vlags + [Vlag(sw, name, peerSwitch, port, peerPort)])
    ensures r.1 != Issued ==> r.0 == t && r.1 == Already("Already part of a vlag")
  {
    if name !in VlagNames(t.vlags, sw) then
      var x := Vlag(sw, name, peerSwitch, port, peerPort);
      assert x in t.vlags + [x];
      (t.(vlags := t.vlags + [x]), Issued)
    else
      (t, Already("Already part of a vlag"))
  }

  /** The vrouter of a switch: the switch name without its first three
      characters, then "-vrouter". */
  function VrouterName(sw: string): string
  {
    Drop(sw, 3) + "-vrouter"
  }

  /** create_vrouter: the switch's vrouter is created in the fabric's global
      vnet unless the switch lists its name; the message says which. */
  function CreateVrouter(t: Tables, sw: string, fabricName: string): (r: (Tables, string))
    ensures VrouterName(sw) in VrouterNames(r.0.vrouters, sw) && Grows(t, r.0)
    ensures VrouterName(sw) !in VrouterNames(t.vrouters, sw) ==>
      r.0 == t.(vrouters := t.vrouters + [Vrouter(sw, VrouterName(sw), fabricName + "-global")])
      && r.1 == " Created vrouter " + VrouterName(sw) + " on switch " + sw + " "
    ensures VrouterName(sw) in VrouterNames(t.vrouters, sw) ==>
      r.0 == t && r.1 == " Vrouter name " + VrouterName(sw) + " on switch " + sw + " already exists. "
  {
    var name := VrouterName(sw);
    if name !in VrouterNames(t.vrouters, sw) then
      var x := Vrouter(sw, name, fabricName + "-global");
      assert x in t.vrouters + [x];
      (t.(vrouters := t.vrouters + [x]), " Created vrouter " + name + " on switch " + sw + " ")
    else
      (t, " Vrouter name " + name + " on switch " + sw + " already exists. ")
  }

  /** Repeating create_cluster changes nothing and answers "Already part of a cluster". */
  lemma CreateClusterIdempotent(t: Tables, name: string, node1: string, node2: string)
    ensures var t1 := CreateCluster(t, name, node1, node2).0;
      CreateCluster(t1, name, node1, node2) == (t1, Already("Already part of a cluster"))
  {
  }

  /** Repeating create_trunk changes nothing, even with other ports. */
  lemma CreateTrunkIdempotent(t: Tables, sw: string, name: string, ports: set<string>, ports': set<string>)
    ensures var t1 := CreateTrunk(t, sw, name, ports).0;
      CreateTrunk(t1, sw, name, ports') == (t1, Already("Already part of a trunk"))
  {
  }

  /** Repeating create_vlag changes nothing, even with other peers. */
  lemma CreateVlagIdempotent(t: Tables, sw: string, name: string, peer: string, port: string, peerPort: string,
                             peer': string, port': string, peerPort': string)
    ensures var t1 := CreateVlag(t, sw, name, peer, port, peerPort).0;
      CreateVlag(t1, sw, name, peer', port', peerPort') == (t1, Already("Already part of a vlag"))
  {
  }

  /** Repeating create_vrouter changes nothing and reports that the vrouter exists. */
  lemma CreateVrouterIdempotent(t: Tables, sw: string, fabricName: string)
    ensures var t1 := CreateVrouter(t, sw, fabricName).0;
      CreateVrouter(t1, sw, fabricName).0 == t1
  {
  }

  /** Every name created on one switch is listed there once: the check
      before each create keeps the per-switch listings free of repeats. */
  predicate NamesUnique(t: Tables)
  {
    (forall i, j :: 0 <= i < j < |t.clusters| ==> t.clusters[i].name != t.clusters[j].name)
    && (forall i, j :: 0 <= i < j < |t.trunks| && t.trunks[i].switch == t.trunks[j].switch ==>
          t.trunks[i].name != t.trunks[j].name)
    && (forall i, j :: 0 <= i < j < |t.vlags| && t.vlags[i].switch == t.vlags[j].switch ==>
          t.vlags[i].name != t.vlags[j].name)
    && (forall i, j :: 0 <= i < j < |t.vrouters| && t.vrouters[i].switch == t.vrouters[j].switch ==>
          t.vrouters[i].name != t.vrouters[j].name)
  }

  /** create_cluster keeps cluster names unique. */
  lemma CreateClusterKeepsNamesUnique(t: Tables, name: string, node1: string, node2: string)
    requires NamesUnique(t)
    ensures NamesUnique(CreateCluster(t, name, node1, node2).0)
  {
    if name !in ClusterNames(t.clusters) {
      forall i | 0 <= i < |t.clusters| ensures t.clusters[i].name != name {
        assert t.clusters[i].name in ClusterNames(t.clusters);
      }
    }
  }

  /** create_trunk keeps trunk names unique per switch. */
  lemma CreateTrunkKeepsNamesUnique(t: Tables, sw: string, name: string, ports: set<string>)
    requires NamesUnique(t)
    ensures NamesUnique(CreateTrunk(t, sw, name, ports).0)
  {
    if name !in TrunkNames(t.trunks, sw) {
      forall i | 0 <= i < |t.trunks| && t.trunks[i].switch == sw
        ensures t.trunks[i].name != name
      {
        assert t.trunks[i].name in TrunkNames(t.trunks, sw);
      }
    }
  }

  /** create_vlag keeps vlag names unique per switch. */
  lemma CreateVlagKeepsNamesUnique(t: Tables, sw: string, name: string, peer: string, port: string, peerPort: string)
    requires NamesUnique(t)
    ensures NamesUnique(CreateVlag(t, sw, name, peer, port, peerPort).0)
  {
    if name !in VlagNames(t.vlags, sw) {
      forall i | 0 <= i < |t.vlags| && t.vlags[i].switch == sw
        ensures t.vlags[i].name != name
      {
        assert t.vlags[i].name in VlagNames(t.vlags, sw);
      }
    }
  }

  /** create_vrouter keeps vrouter names unique per switch. */
  lemma CreateVrouterKeepsNamesUnique(t: Tables, sw: string, fabricName: string)
    requires NamesUnique(t)
    ensures NamesUnique(CreateVrouter(t, sw, fabricName).0)
  {
    if VrouterName(sw) !in VrouterNames(t.vrouters, sw) {
      forall i | 0 <= i < |t.vrouters| && t.vrouters[i].switch == sw
        ensures t.vrouters[i].name != VrouterName(sw)
      {
        assert t.vrouters[i].name in VrouterNames(t.vrouters, sw);
      }
    }
  }

  /** The concatenation of the names, as `string2 += str(node)` builds it. */
  function Concat(names: seq<string>): string
  {
    if names == [] then "" else Concat(names[..|names| - 1]) + names[|names| - 1]
  }

  /** Two names run together. */
  lemma ConcatPair(a: string, b: string)
    ensures Concat([a, b]) == a + b
  {
    assert [a, b][..1] == [a];
    assert [a][..0] == [];
    assert Concat([a]) == "" + a == a;
  }

  /** The trunk from `node` towards `dests`: the node name without its
      first five characters, "-to-", and the destination names run together. */
  function TrunkName(node: string, dests: seq<string>): string
  {
    Drop(node, 5) + "-to-" + Concat(dests)
  }

  /** The leaf-side vlag of a leaf cluster. */
  function LeafVlagName(node1: string, node2: string): string
  {
    Drop(node1, 5) + node2 + "-to-" + "spine"
  }

  /** The spine-side vlag towards `leaves` (a clustered pair or a single leaf). */
  function SpineVlagName(spine1: string, spine2: string, leaves: seq<string>): string
  {
    Drop(spine1, 5) + spine2 + "-to-" + Concat(leaves)
  }

  /** The spine-side vlag of a leaf cluster, as `spine1[5:] + spine2 + '-to-' + node1 + node2` spells it. */
  lemma SpineVlagPairName(spine1: string, spine2: string, node1: string, node2: string)
    ensures Drop(spine1, 5) + spine2 + "-to-" + node1 + node2 == SpineVlagName(spine1, spine2, [node1, node2])
  {
    ConcatPair(node1, node2);
    var head := Drop(spine1, 5) + spine2 + "-to-";
    assert head + node1 + node2 == head + (node1 + node2);
  }

  /** The cluster of two leaves. */
  function ClusterName(node1: string, node2: string): string
  {
    node1 + "-to-" + node2 + "-cluster"
  }

  /** The ports of `node` facing each of `dests`, in order, as `src_ports`
      accumulates them before deduplication. */
  function PortsTowards(topo: seq<PortRecord>, node: string, dests: seq<string>): seq<string>
  {
    if dests == [] then []
    else PortsTowards(topo, node, dests[..|dests| - 1]) + LeafPorts(topo, node, dests[|dests| - 1])
  }

  /** Every port the trunk gathers faces one of `dests`, or is the
      'Success' of a destination no port faces. */
  lemma {:induction false} PortsTowardsSound(topo: seq<PortRecord>, node: string, dests: seq<string>, p: string)
    requires p in PortsTowards(topo, node, dests)
    ensures exists k :: 0 <= k < |dests| && p in LeafPorts(topo, node, dests[k])
    decreases |dests|
  {
    var init := dests[..|dests| - 1];
    if p in PortsTowards(topo, node, init) {
      PortsTowardsSound(topo, node, init, p);
      var k :| 0 <= k < |init| && p in LeafPorts(topo, node, init[k]);
      assert dests[k] == init[k];
    } else {
      assert p in LeafPorts(topo, node, dests[|dests| - 1]);
    }
  }

  /** Every port listed towards the k-th destination is gathered into the trunk. */
  lemma {:induction false} PortsTowardsComplete(topo: seq<PortRecord>, node: string, dests: seq<string>, k: nat, p: string)
    requires k < |dests| && p in LeafPorts(topo, node, dests[k])
    ensures p in PortsTowards(topo, node, dests)
    decreases |dests|
  {
    var init := dests[..|dests| - 1];
    var last := LeafPorts(topo, node, dests[|dests| - 1]);
    assert PortsTowards(topo, node, dests) == PortsTowards(topo, node, init) + last;
    if k < |init| {
      assert init[k] == dests[k];
      PortsTowardsComplete(topo, node, init, k, p);
    } else {
      assert dests[k] == dests[|dests| - 1];
    }
  }

  /** The ports of a trunk from `node` are exactly its ports facing one of
      `dests`, plus 'Success' when some destination faces no port of it. */
  lemma PortsTowardsMembers(topo: seq<PortRecord>, node: string, dests: seq<string>, p: string)
    ensures p in PortsTowards(topo, node, dests) <==>
      exists k :: 0 <= k < |dests| && Listed(topo, node, dests[k], p)
  {
    if p in PortsTowards(topo, node, dests) {
      PortsTowardsSound(topo, node, dests, p);
      var k :| 0 <= k < |dests| && p in LeafPorts(topo, node, dests[k]);
      assert Listed(topo, node, dests[k], p);
    }
    if exists k :: 0 <= k < |dests| && Listed(topo, node, dests[k], p) {
      var k :| 0 <= k < |dests| && Listed(topo, node, dests[k], p);
      assert p in LeafPorts(topo, node, dests[k]);
      PortsTowardsComplete(topo, node, dests, k, p);
    }
  }

  /** create_trunk_vlag: a trunk from `node` over its ports facing `dests`,
      named after them; answers the trunk's name. */
  function TrunkVlag(t: Tables, topo: seq<PortRecord>, node: string, dests: seq<string>): (r: (Tables, string))
    ensures r.1 == TrunkName(node, dests) && r.1 in TrunkNames(r.0.trunks, node) && Grows(t, r.0)
    ensures r.0 == t.(trunks := r.0.trunks)
  {
    var ports := set p | p in PortsTowards(topo, node, dests);
    (CreateTrunk(t, node, TrunkName(node, dests), ports).0, TrunkName(node, dests))
  }

  /** The trunk created by create_trunk_vlag holds one port per port of
      `node` facing a destination, with repeats merged, and the port
      'Success' when a destination faces none. */
  lemma TrunkVlagPorts(t: Tables, topo: seq<PortRecord>, node: string, dests: seq<string>, p: string)
    requires TrunkVlag(t, topo, node, dests).1 !in TrunkNames(t.trunks, node)
    ensures var x := TrunkVlag(t, topo, node, dests).0.trunks[|t.trunks|];
      x.switch == node && x.name == TrunkName(node, dests) &&
      (p in x.ports <==> exists k :: 0 <= k < |dests| && Listed(topo, node, dests[k], p))
  {
    PortsTowardsMembers(topo, node, dests, p);
  }

  /** create_trunk_vlag, one destination at a time as the source loops. */
  method CreateTrunkVlag(t: Tables, topo: seq<PortRecord>, node: string, dests: seq<string>)
    returns (t': Tables, name: string)
    ensures (t', name) == TrunkVlag(t, topo, node, dests)
  {
    var srcPorts: seq<string> := [];
    var joined := "";
    var i := 0;
    while i < |dests|
      invariant 0 <= i <= |dests|
      invariant srcPorts == PortsTowards(topo, node, dests[..i])
      invariant joined == Concat(dests[..i])
      decreases |dests| - i
    {
      assert dests[..i + 1][..i] == dests[..i];
      srcPorts := srcPorts + LeafPorts(topo, node, dests[i]);
      joined := joined + dests[i];
      i := i + 1;
    }
    assert dests[..i] == dests;
    name := Drop(node, 5) + "-to-" + joined;
    var created := CreateTrunk(t, node, name, set p | p in srcPorts);
    t' := created.0;
  }
}
