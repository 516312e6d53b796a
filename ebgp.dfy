/** The planning logic of pn_ebgp.py: BGP AS numbers for the vrouters
    (assigning_bgp_as) and leaf clusters formed without the fabric filter
    (leaf_cluster_formation, fed by leaf_no_cluster in create_leaf_cluster). */
module Ebgp {
  import opened Results
  import opened FabricTables
  import opened Pairing

  /** A `vrouter-modify name <vrouter> bgp-as <asn>` command. */
  datatype AsSetting = AsSetting(vrouter: string, asn: nat)

  /** A vrouter whose location is a listed spine. */
  predicate OnSpine(vrouter: string, location: string -> string, spines: seq<string>)
  {
    location(vrouter) in spines
  }

  /** The settings from counter `next` on: a vrouter on a spine gets the
      base AS, any other the counter, which then advances. */
  function AsPlan(vrouters: seq<string>, location: string -> string, spines: seq<string>, base: nat, next: nat): (r: seq<AsSetting>)
    ensures |r| == |vrouters| && forall k :: 0 <= k < |r| ==> r[k].vrouter == vrouters[k]
    decreases |vrouters|
  {
    if vrouters == [] then []
    else if OnSpine(vrouters[0], location, spines) then
      [AsSetting(vrouters[0], base)] + AsPlan(vrouters[1..], location, spines, base, next)
    else
      [AsSetting(vrouters[0], next)] + AsPlan(vrouters[1..], location, spines, base, next + 1)
  }

  /** How many of the vrouters are not on a spine. */
  function LeafCount(vrouters: seq<string>, location: string -> string, spines: seq<string>): nat
    decreases |vrouters|
  {
    if vrouters == [] then 0
    else (if OnSpine(vrouters[0], location, spines) then 0 else 1) + LeafCount(vrouters[1..], location, spines)
  }

  /** assigning_bgp_as on a vrouter listing: an empty listing only reports. */
  function BgpAs(vrouters: seq<string>, location: string -> string, spines: seq<string>, base: nat): Result<seq<AsSetting>, Failure>
  {
    if |vrouters| == 0 then Err(Reported("No vrouters present/created in this switch"))
    else Ok(AsPlan(vrouters, location, spines, base, base + 1))
  }

  /** Vrouter k gets the base AS when on a spine, and otherwise the counter
      advanced once per earlier vrouter not on a spine. */
  lemma {:induction false} AsPlanValues(vrouters: seq<string>, location: string -> string, spines: seq<string>, base: nat, next: nat)
    ensures forall k :: 0 <= k < |vrouters| ==>
      AsPlan(vrouters, location, spines, base, next)[k].asn ==
        if OnSpine(vrouters[k], location, spines) then base
        else next + LeafCount(vrouters[..k], location, spines)
    decreases |vrouters|
  {
    if vrouters != [] {
      var step := if OnSpine(vrouters[0], location, spines) then 0 else 1;
      AsPlanValues(vrouters[1..], location, spines, base, next + step);
      forall k | 0 <= k < |vrouters|
        ensures AsPlan(vrouters, location, spines, base, next)[k].asn ==
          if OnSpine(vrouters[k], location, spines) then base
          else next + LeafCount(vrouters[..k], location, spines)
      {
        if k > 0 {
          assert vrouters[..k][1..] == vrouters[1..][..k - 1];
          assert vrouters[1..][k - 1] == vrouters[k];
        }
      }
    }
  }

  /** The counter never repeats: vrouters not on a spine get strictly
      increasing numbers, all at least `next`. */
  lemma {:induction false} AsPlanIncreasing(vrouters: seq<string>, location: string -> string, spines: seq<string>, base: nat, next: nat)
    ensures var r := AsPlan(vrouters, location, spines, base, next);
      (forall k :: 0 <= k < |r| && !OnSpine(vrouters[k], location, spines) ==> r[k].asn >= next)
      && (forall i, j :: 0 <= i < j < |r| && !OnSpine(vrouters[i], location, spines) && !OnSpine(vrouters[j], location, spines) ==>
            r[i].asn < r[j].asn)
    decreases |vrouters|
  {
    if vrouters != [] {
      var step := if OnSpine(vrouters[0], location, spines) then 0 else 1;
      AsPlanIncreasing(vrouters[1..], location, spines, base, next + step);
      var r := AsPlan(vrouters, location, spines, base, next);
      var rest := AsPlan(vrouters[1..], location, spines, base, next + step);
      assert forall k :: 1 <= k < |r| ==> r[k] == rest[k - 1] && vrouters[k] == vrouters[1..][k - 1];
    }
  }

  /** The outcome of assigning_bgp_as: an empty listing reports and sets
      nothing; otherwise every vrouter is set once, in listing order, spine
      vrouters to the base AS and the others to base+1, base+2, ... in turn,
      so no two of those share an AS and none shares the spines' AS. */
  lemma BgpAsOutcome(vrouters: seq<string>, location: string -> string, spines: seq<string>, base: nat)
    ensures BgpAs(vrouters, location, spines, base).Err? <==> |vrouters| == 0
    ensures |vrouters| == 0 ==>
      BgpAs(vrouters, location, spines, base) == Err(Reported("No vrouters present/created in this switch"))
    ensures BgpAs(vrouters, location, spines, base).Ok? ==>
      var r := BgpAs(vrouters, location, spines, base).value;
      |r| == |vrouters|
      && (forall k :: 0 <= k < |r| ==>
            (r[k].vrouter == vrouters[k] &&
             r[k].asn == if OnSpine(vrouters[k], location, spines) then base
                         else base + 1 + LeafCount(vrouters[..k], location, spines)))
      && (forall k :: 0 <= k < |r| && !OnSpine(vrouters[k], location, spines) ==> r[k].asn != base)
      && (forall i, j :: 0 <= i < j < |r| && !OnSpine(vrouters[i], location, spines) && !OnSpine(vrouters[j], location, spines) ==>
            r[i].asn != r[j].asn)
  {
    if |vrouters| > 0 {
      AsPlanValues(vrouters, location, spines, base, base + 1);
      AsPlanIncreasing(vrouters, location, spines, base, base + 1);
    }
  }

  lemma AsPlanStep(vrouters: seq<string>, i: nat, location: string -> string, spines: seq<string>, base: nat, next: nat)
    requires i < |vrouters|
    ensures AsPlan(vrouters[i..], location, spines, base, next) ==
      if OnSpine(vrouters[i], location, spines)
      then [AsSetting(vrouters[i], base)] + AsPlan(vrouters[i + 1..], location, spines, base, next)
      else [AsSetting(vrouters[i], next)] + AsPlan(vrouters[i + 1..], location, spines, base, next + 1)
  {
    assert vrouters[i..][1..] == vrouters[i + 1..];
  }

  /** assigning_bgp_as: one pass over the vrouter listing with a counter. */
  method AssigningBgpAs(base: nat, vrouters: seq<string>, location: string -> string, spines: seq<string>)
    returns (r: Result<seq<AsSetting>, Failure>)
    ensures r == BgpAs(vrouters, location, spines, base)
  {
    var bgpLeaf: nat := base + 1;
    if |vrouters| == 0 {
      return Err(Reported("No vrouters present/created in this switch"));
    }
    var settings: seq<AsSetting> := [];
    for i := 0 to |vrouters|
      invariant settings + AsPlan(vrouters[i..], location, spines, base, bgpLeaf)
        == AsPlan(vrouters, location, spines, base, base + 1)
    {
      var vrouter := vrouters[i];
      AsPlanStep(vrouters, i, location, spines, base, bgpLeaf);
      ghost var tail := AsPlan(vrouters[i + 1..], location, spines, base,
                               if location(vrouter) in spines then bgpLeaf else bgpLeaf + 1);
      if location(vrouter) in spines {
        assert settings + ([AsSetting(vrouter, base)] + tail) == settings + [AsSetting(vrouter, base)] + tail;
        settings := settings + [AsSetting(vrouter, base)];
      } else {
        assert settings + ([AsSetting(vrouter, bgpLeaf)] + tail) == settings + [AsSetting(vrouter, bgpLeaf)] + tail;
        settings := settings + [AsSetting(vrouter, bgpLeaf)];
        bgpLeaf := bgpLeaf + 1;
      }
    }
    assert settings + AsPlan([], location, spines, base, bgpLeaf) == settings;
    return Ok(settings);
  }

  /** leaf_cluster_formation looks at the LLDP neighbours unfiltered. */
  const Unfiltered: string -> seq<string> := (node: string) => []

  /** The clusters leaf_cluster_formation creates, pair by pair. */
  function ClusterPairs(t: Tables, pairs: seq<Pair>): Tables
    decreases |pairs|
  {
    if pairs == [] then t
    else ClusterPairs(CreateCluster(t, ClusterName(pairs[0].node1, pairs[0].node2), pairs[0].node1, pairs[0].node2).0, pairs[1..])
  }

  /** After leaf_cluster_formation every pair's cluster name is listed, only
      clusters were created and nothing was lost. */
  lemma {:induction false} ClusterPairsListed(t: Tables, pairs: seq<Pair>)
    ensures var t' := ClusterPairs(t, pairs);
      Grows(t, t') && t' == t.(clusters := t'.clusters)
      && forall p :: p in pairs ==> ClusterName(p.node1, p.node2) in ClusterNames(t'.clusters)
    decreases |pairs|
  {
    if pairs != [] {
      var t1 := CreateCluster(t, ClusterName(pairs[0].node1, pairs[0].node2), pairs[0].node1, pairs[0].node2).0;
      var r := ClusterPairs(t, pairs);
      ClusterPairsListed(t1, pairs[1..]);
      GrowsTrans(t, t1, r);
      ListingsGrow(t1, r, "", "");
      forall p | p in pairs ensures ClusterName(p.node1, p.node2) in ClusterNames(r.clusters) {
        if p != pairs[0] {
          assert p in pairs[1..];
        }
      }
    }
  }

  /** leaf_cluster_formation: the worklist loop without the fabric filter. */
  method LeafClusterFormation(t: Tables, nonClusterLeaf: seq<string>, lldp: string -> seq<string>, spines: seq<string>)
    returns (t': Tables)
    ensures t' == ClusterPairs(t, Pairs(nonClusterLeaf, lldp, Unfiltered, false, spines))
  {
    var work := nonClusterLeaf;
    t' := t;
    while |work| > 0
      invariant ClusterPairs(t', Pairs(work, lldp, Unfiltered, false, spines))
        == ClusterPairs(t, Pairs(nonClusterLeaf, lldp, Unfiltered, false, spines))
      decreases |work|
    {
      var node1 := work[0];
      var before := work;
      work := RemoveFirst(work, node1);
      assert work == before[1..];
      var systems := lldp(node1);
      var partner := FindPartner(systems, spines, work);
      if partner.Some? {
        var node2 := partner.value;
        var created := CreateCluster(t', node1 + "-to-" + node2 + "-cluster", node1, node2);
        t' := created.0;
        work := RemoveFirst(work, node2);
      }
    }
  }

  /** create_leaf_cluster: leaf_no_cluster, then leaf_cluster_formation. */
  function LeafClusterPlan(t: Tables, leaves: seq<string>, lldp: string -> seq<string>, spines: seq<string>): Tables
  {
    var work := Unclustered(leaves, Column1(t.clusters), Column2(t.clusters));
    ClusterPairs(t, Pairs(work, lldp, Unfiltered, false, spines))
  }

  /** From a leaf list without repeats, create_leaf_cluster pairs only
      leaves that were in no cluster, never with a spine or twice, and
      lists every pair's cluster. */
  lemma LeafClusterOutcome(t: Tables, leaves: seq<string>, lldp: string -> seq<string>, spines: seq<string>)
    requires NoDups(leaves)
    ensures var work := Unclustered(leaves, Column1(t.clusters), Column2(t.clusters));
      var pairs := Pairs(work, lldp, Unfiltered, false, spines);
      var t' := LeafClusterPlan(t, leaves, lldp, spines);
      NoDups(Members(pairs)) && Grows(t, t') && t' == t.(clusters := t'.clusters)
      && forall p :: p in pairs ==>
           (p.node1 in leaves && p.node2 in leaves && p.node2 !in spines && p.node2 in lldp(p.node1)
            && !Clustered(t.clusters, p.node1) && !Clustered(t.clusters, p.node2)
            && ClusterName(p.node1, p.node2) in ClusterNames(t'.clusters))
  {
    var work := Unclustered(leaves, Column1(t.clusters), Column2(t.clusters));
    var pairs := Pairs(work, lldp, Unfiltered, false, spines);
    PairsDisjoint(work, lldp, Unfiltered, false, spines);
    PairsValid(work, lldp, Unfiltered, false, spines);
    ClusterPairsListed(t, pairs);
    forall p | p in pairs
      ensures !Clustered(t.clusters, p.node1) && !Clustered(t.clusters, p.node2)
    {
      ColumnsClustered(t.clusters, p.node1);
      ColumnsClustered(t.clusters, p.node2);
    }
  }

  /** create_leaf_cluster, in the source's order. */
  method CreateLeafCluster(t: Tables, leaves: seq<string>, lldp: string -> seq<string>, spines: seq<string>)
    returns (t': Tables)
    ensures t' == LeafClusterPlan(t, leaves, lldp, spines)
  {
    var nonClusterLeaf := LeafNoCluster(leaves, Column1(t.clusters), Column2(t.clusters));
    t' := LeafClusterFormation(t, nonClusterLeaf, lldp, spines);
  }
}
