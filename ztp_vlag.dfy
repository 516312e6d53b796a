/** Cluster, trunk and vlag creation in pn_ztp.py: create_leaf_cluster_vlag
    pairs leaves and builds, per pair, the cluster, the leaf trunks and vlag
    towards the spines and the spine trunks and vlag towards the pair;
    create_nonclusterleaf_vlag does the same for each leaf left alone; and
    configure_auto_vlag runs the spine cluster, the pairing and then the
    leaves still unclustered. Two spines are required throughout. */
module ZtpVlag {
  import opened Results
  import opened Text
  import opened LinkCursor
  import opened FabricTables
  import opened Pairing

  /** What create_leaf_cluster_vlag creates for the pair node1, node2. */
  function ClusterPairObjects(t: Tables, topo: seq<PortRecord>, node1: string, node2: string, spines: seq<string>): Tables
    requires |spines| >= 2
  {
    var t1 := CreateCluster(t, ClusterName(node1, node2), node1, node2).0;
    var (t2, name1) := TrunkVlag(t1, topo, node1, spines);
    var (t3, name2) := TrunkVlag(t2, topo, node2, spines);
    var t4 := CreateVlag(t3, node1, LeafVlagName(node1, node2), node2, name1, name2).0;
    var (t5, spineName1) := TrunkVlag(t4, topo, spines[0], [node1, node2]);
    var (t6, spineName2) := TrunkVlag(t5, topo, spines[1], [node1, node2]);
    CreateVlag(t6, spines[0], SpineVlagName(spines[0], spines[1], [node1, node2]), spines[1], spineName1, spineName2).0
  }

  /** The names a pair ends up with: its cluster, its trunks towards the
      spines, its vlag on the first leaf, the spine trunks towards it and
      its vlag on the first spine. */
  predicate PairListed(t: Tables, node1: string, node2: string, spines: seq<string>)
    requires |spines| >= 2
  {
    ClusterName(node1, node2) in ClusterNames(t.clusters)
    && TrunkName(node1, spines) in TrunkNames(t.trunks, node1)
    && TrunkName(node2, spines) in TrunkNames(t.trunks, node2)
    && LeafVlagName(node1, node2) in VlagNames(t.vlags, node1)
    && TrunkName(spines[0], [node1, node2]) in TrunkNames(t.trunks, spines[0])
    && TrunkName(spines[1], [node1, node2]) in TrunkNames(t.trunks, spines[1])
    && SpineVlagName(spines[0], spines[1], [node1, node2]) in VlagNames(t.vlags, spines[0])
  }

  /** Later creations never unlist a name. */
  lemma PairListedGrows(t: Tables, t': Tables, node1: string, node2: string, spines: seq<string>)
    requires |spines| >= 2 && Grows(t, t') && PairListed(t, node1, node2, spines)
    ensures PairListed(t', node1, node2, spines)
  {
    ListingsGrow(t, t', node1, node1);
    ListingsGrow(t, t', node2, node1);
    ListingsGrow(t, t', spines[0], node1);
    ListingsGrow(t, t', spines[1], node1);
  }

  /** After one pair's creations every one of its names is listed, whether
      created now or found, and nothing was lost. */
  lemma ClusterPairListed(t: Tables, topo: seq<PortRecord>, node1: string, node2: string, spines: seq<string>)
    requires |spines| >= 2
    ensures Grows(t, ClusterPairObjects(t, topo, node1, node2, spines))
    ensures PairListed(ClusterPairObjects(t, topo, node1, node2, spines), node1, node2, spines)
  {
    var t1 := CreateCluster(t, ClusterName(node1, node2), node1, node2).0;
    var (t2, name1) := TrunkVlag(t1, topo, node1, spines);
    var (t3, name2) := TrunkVlag(t2, topo, node2, spines);
    var t4 := CreateVlag(t3, node1, LeafVlagName(node1, node2), node2, name1, name2).0;
    var (t5, spineName1) := TrunkVlag(t4, topo, spines[0], [node1, node2]);
    var (t6, spineName2) := TrunkVlag(t5, topo, spines[1], [node1, node2]);
    var t7 := ClusterPairObjects(t, topo, node1, node2, spines);
    GrowsTrans(t, t1, t2); GrowsTrans(t, t2, t3); GrowsTrans(t, t3, t4);
    GrowsTrans(t, t4, t5); GrowsTrans(t, t5, t6); GrowsTrans(t, t6, t7);
    ListingsGrow(t1, t7, node1, node1);
    GrowsTrans(t2, t3, t4); GrowsTrans(t2, t4, t5); GrowsTrans(t2, t5, t6); GrowsTrans(t2, t6, t7);
    ListingsGrow(t2, t7, node1, node1);
    GrowsTrans(t3, t4, t5); GrowsTrans(t3, t5, t6); GrowsTrans(t3, t6, t7);
    ListingsGrow(t3, t7, node2, node1);
    GrowsTrans(t4, t5, t6); GrowsTrans(t4, t6, t7);
    ListingsGrow(t4, t7, node1, node1);
    GrowsTrans(t5, t6, t7);
    ListingsGrow(t5, t7, spines[0], node1);
    ListingsGrow(t6, t7, spines[1], node1);
  }

  /** The pair creations, in the order the pairs were formed. */
  function LeafClusters(t: Tables, topo: seq<PortRecord>, pairs: seq<Pair>, spines: seq<string>): Tables
    requires |spines| >= 2
    decreases |pairs|
  {
    if pairs == [] then t
    else LeafClusters(ClusterPairObjects(t, topo, pairs[0].node1, pairs[0].node2, spines), topo, pairs[1..], spines)
  }

  /** After all pair creations every pair's names are listed. */
  lemma {:induction false} LeafClustersListed(t: Tables, topo: seq<PortRecord>, pairs: seq<Pair>, spines: seq<string>)
    requires |spines| >= 2
    ensures Grows(t, LeafClusters(t, topo, pairs, spines))
    ensures forall p :: p in pairs ==> PairListed(LeafClusters(t, topo, pairs, spines), p.node1, p.node2, spines)
    decreases |pairs|
  {
    if pairs != [] {
      var t1 := ClusterPairObjects(t, topo, pairs[0].node1, pairs[0].node2, spines);
      var r := LeafClusters(t, topo, pairs, spines);
      ClusterPairListed(t, topo, pairs[0].node1, pairs[0].node2, spines);
      LeafClustersListed(t1, topo, pairs[1..], spines);
      GrowsTrans(t, t1, r);
      PairListedGrows(t1, r, pairs[0].node1, pairs[0].node2, spines);
      forall p | p in pairs ensures PairListed(r, p.node1, p.node2, spines) {
        if p != pairs[0] {
          assert p in pairs[1..];
        }
      }
    }
  }

  /** One pair's creations, in the source's order. */
  method ClusterPair(t: Tables, topo: seq<PortRecord>, node1: string, node2: string, spines: seq<string>) returns (t': Tables)
    requires |spines| >= 2
    ensures t' == ClusterPairObjects(t, topo, node1, node2, spines)
  {
    var created := CreateCluster(t, ClusterName(node1, node2), node1, node2);
    var t1 := created.0;
    var t2, name1 := CreateTrunkVlag(t1, topo, node1, spines);
    var t3, name2 := CreateTrunkVlag(t2, topo, node2, spines);
    var vlag := CreateVlag(t3, node1, Drop(node1, 5) + node2 + "-to-" + "spine", node2, name1, name2);
    var t4 := vlag.0;
    var spine1 := spines[0];
    var spine2 := spines[1];
    var t5, spineName1 := CreateTrunkVlag(t4, topo, spine1, [node1, node2]);
    var t6, spineName2 := CreateTrunkVlag(t5, topo, spine2, [node1, node2]);
    var spineVlagName := Drop(spine1, 5) + spine2 + "-to-" + node1 + node2;
    SpineVlagPairName(spine1, spine2, node1, node2);
    var spineVlag := CreateVlag(t6, spine1, spineVlagName, spine2, spineName1, spineName2);
    t' := spineVlag.0;
  }

  /** create_leaf_cluster_vlag: the worklist loop; each popped leaf looks
      through its filtered LLDP neighbours for a partner. */
  method CreateLeafClusterVlag(t: Tables, topo: seq<PortRecord>, nonClusterLeaf: seq<string>,
                               lldp: string -> seq<string>, fabric: string -> seq<string>, spines: seq<string>)
    returns (t': Tables)
    requires |spines| >= 2
    ensures t' == LeafClusters(t, topo, Pairs(nonClusterLeaf, lldp, fabric, true, spines), spines)
  {
    var work := nonClusterLeaf;
    t' := t;
    while |work| > 0
      invariant LeafClusters(t', topo, Pairs(work, lldp, fabric, true, spines), spines)
        == LeafClusters(t, topo, Pairs(nonClusterLeaf, lldp, fabric, true, spines), spines)
      decreases |work|
    {
      var node1 := work[0];
      var before := work;
      work := RemoveFirst(work, node1);
      assert work == before[1..];
      var systems := FilterFabric(lldp(node1), fabric(node1));
      var partner := FindPartner(systems, spines, work);
      if partner.Some? {
        var node2 := partner.value;
        t' := ClusterPair(t', topo, node1, node2, spines);
        work := RemoveFirst(work, node2);
      }
    }
  }

  /** What create_nonclusterleaf_vlag creates for one leaf left alone. */
  function LoneLeafObjects(t: Tables, topo: seq<PortRecord>, leaf: string, spines: seq<string>): Tables
    requires |spines| >= 2
  {
    var t1 := TrunkVlag(t, topo, leaf, spines).0;
    var (t2, spineName1) := TrunkVlag(t1, topo, spines[0], [leaf]);
    var (t3, spineName2) := TrunkVlag(t2, topo, spines[1], [leaf]);
    CreateVlag(t3, spines[0], SpineVlagName(spines[0], spines[1], [leaf]), spines[1], spineName1, spineName2).0
  }

  /** The lone-leaf creations, leaf by leaf. */
  function LoneLeaves(t: Tables, topo: seq<PortRecord>, leaves: seq<string>, spines: seq<string>): Tables
    requires |spines| >= 2
    decreases |leaves|
  {
    if leaves == [] then t
    else LoneLeaves(LoneLeafObjects(t, topo, leaves[0], spines), topo, leaves[1..], spines)
  }

  /** The vlag a lone leaf ends up with on the first spine. */
  predicate LoneListed(t: Tables, leaf: string, spines: seq<string>)
    requires |spines| >= 2
  {
    TrunkName(leaf, spines) in TrunkNames(t.trunks, leaf)
    && SpineVlagName(spines[0], spines[1], [leaf]) in VlagNames(t.vlags, spines[0])
  }

  lemma LoneLeafListed(t: Tables, topo: seq<PortRecord>, leaf: string, spines: seq<string>)
    requires |spines| >= 2
    ensures Grows(t, LoneLeafObjects(t, topo, leaf, spines))
    ensures LoneListed(LoneLeafObjects(t, topo, leaf, spines), leaf, spines)
  {
    var t1 := TrunkVlag(t, topo, leaf, spines).0;
    var (t2, spineName1) := TrunkVlag(t1, topo, spines[0], [leaf]);
    var (t3, spineName2) := TrunkVlag(t2, topo, spines[1], [leaf]);
    var t4 := LoneLeafObjects(t, topo, leaf, spines);
    GrowsTrans(t, t1, t2); GrowsTrans(t, t2, t3); GrowsTrans(t, t3, t4);
    GrowsTrans(t1, t2, t3); GrowsTrans(t1, t3, t4);
    ListingsGrow(t1, t4, leaf, leaf);
  }

  /** After create_nonclusterleaf_vlag every leaf it was given has its
      trunk and its vlag on the first spine, and nothing was lost. */
  lemma {:induction false} LoneLeavesListed(t: Tables, topo: seq<PortRecord>, leaves: seq<string>, spines: seq<string>)
    requires |spines| >= 2
    ensures Grows(t, LoneLeaves(t, topo, leaves, spines))
    ensures forall leaf :: leaf in leaves ==> LoneListed(LoneLeaves(t, topo, leaves, spines), leaf, spines)
    decreases |leaves|
  {
    if leaves != [] {
      var t1 := LoneLeafObjects(t, topo, leaves[0], spines);
      var r := LoneLeaves(t, topo, leaves, spines);
      LoneLeafListed(t, topo, leaves[0], spines);
      LoneLeavesListed(t1, topo, leaves[1..], spines);
      GrowsTrans(t, t1, r);
      ListingsGrow(t1, r, leaves[0], leaves[0]);
      ListingsGrow(t1, r, spines[0], leaves[0]);
      forall leaf | leaf in leaves ensures LoneListed(r, leaf, spines) {
        if leaf != leaves[0] {
          assert leaf in leaves[1..];
        }
      }
    }
  }

  /** create_nonclusterleaf_vlag for one leaf, in the source's order. */
  method LoneLeaf(t: Tables, topo: seq<PortRecord>, leaf: string, spines: seq<string>) returns (t': Tables)
    requires |spines| >= 2
    ensures t' == LoneLeafObjects(t, topo, leaf, spines)
  {
    var t1, _ := CreateTrunkVlag(t, topo, leaf, spines);
    var spine1 := spines[0];
    var spine2 := spines[1];
    var t2, spineName1 := CreateTrunkVlag(t1, topo, spine1, [leaf]);
    var t3, spineName2 := CreateTrunkVlag(t2, topo, spine2, [leaf]);
    assert Concat([leaf]) == leaf by {
      assert [leaf][..0] == [];
    }
    var vlag := CreateVlag(t3, spine1, Drop(spine1, 5) + spine2 + "-to-" + leaf, spine2, spineName1, spineName2);
    t' := vlag.0;
  }

  /** create_nonclusterleaf_vlag: one pass over the lone leaves. */
  method CreateNonclusterLeafVlag(t: Tables, topo: seq<PortRecord>, leaves: seq<string>, spines: seq<string>)
    returns (t': Tables)
    requires |spines| >= 2
    ensures t' == LoneLeaves(t, topo, leaves, spines)
  {
    t' := t;
    for i := 0 to |leaves|
      invariant LoneLeaves(t', topo, leaves[i..], spines) == LoneLeaves(t, topo, leaves, spines)
    {
      assert leaves[i..][1..] == leaves[i + 1..];
      t' := LoneLeaf(t', topo, leaves[i], spines);
    }
  }

  /** configure_auto_vlag: fewer than two spines raise IndexError; otherwise
      the spine cluster, the leaf pairs among the unclustered leaves, and a
      lone-leaf vlag for each leaf still unclustered afterwards. */
  function AutoVlag(t: Tables, topo: seq<PortRecord>, spines: seq<string>, leaves: seq<string>,
                    lldp: string -> seq<string>, fabric: string -> seq<string>): Result<Tables, Failure>
  {
    if |spines| < 2 then Err(IndexError)
    else
      var t1 := CreateCluster(t, "spine-cluster", spines[0], spines[1]).0;
      var work := Unclustered(leaves, Column1(t1.clusters), Column2(t1.clusters));
      var t2 := LeafClusters(t1, topo, Pairs(work, lldp, fabric, true, spines), spines);
      var alone := Unclustered(leaves, Column1(t2.clusters), Column2(t2.clusters));
      Ok(LoneLeaves(t2, topo, alone, spines))
  }

  /** The outcome of configure_auto_vlag: with two spines the spine cluster
      exists, nothing is lost, every pair formed has all its names listed,
      and every listed leaf ends either in a cluster or with its own vlag on
      the first spine. */
  lemma AutoVlagCovers(t: Tables, topo: seq<PortRecord>, spines: seq<string>, leaves: seq<string>,
                       lldp: string -> seq<string>, fabric: string -> seq<string>)
    ensures AutoVlag(t, topo, spines, leaves, lldp, fabric).Err? <==> |spines| < 2
    ensures AutoVlag(t, topo, spines, leaves, lldp, fabric).Ok? ==>
      var t' := AutoVlag(t, topo, spines, leaves, lldp, fabric).value;
      Grows(t, t') && "spine-cluster" in ClusterNames(t'.clusters)
      && forall leaf :: leaf in leaves ==>
           Clustered(t'.clusters, leaf) || LoneListed(t', leaf, spines)
    ensures AutoVlag(t, topo, spines, leaves, lldp, fabric).Ok? ==>
      var t' := AutoVlag(t, topo, spines, leaves, lldp, fabric).value;
      var t1 := CreateCluster(t, "spine-cluster", spines[0], spines[1]).0;
      var work := Unclustered(leaves, Column1(t1.clusters), Column2(t1.clusters));
      forall p :: p in Pairs(work, lldp, fabric, true, spines) ==> PairListed(t', p.node1, p.node2, spines)
  {
    if |spines| >= 2 {
      var t1 := CreateCluster(t, "spine-cluster", spines[0], spines[1]).0;
      var work := Unclustered(leaves, Column1(t1.clusters), Column2(t1.clusters));
      var t2 := LeafClusters(t1, topo, Pairs(work, lldp, fabric, true, spines), spines);
      var alone := Unclustered(leaves, Column1(t2.clusters), Column2(t2.clusters));
      var t' := LoneLeaves(t2, topo, alone, spines);
      LeafClustersListed(t1, topo, Pairs(work, lldp, fabric, true, spines), spines);
      LoneLeavesListed(t2, topo, alone, spines);
      GrowsTrans(t, t1, t2);
      GrowsTrans(t, t2, t');
      GrowsTrans(t1, t2, t');
      ListingsGrow(t1, t', spines[0], spines[0]);
      forall leaf | leaf in leaves
        ensures Clustered(t'.clusters, leaf) || LoneListed(t', leaf, spines)
      {
        ColumnsClustered(t2.clusters, leaf);
        ListingsGrow(t2, t', spines[0], leaf);
      }
      forall p | p in Pairs(work, lldp, fabric, true, spines)
        ensures PairListed(t', p.node1, p.node2, spines)
      {
        PairListedGrows(t2, t', p.node1, p.node2, spines);
      }
    }
  }

  /** The pairs configure_auto_vlag forms from a leaf list without repeats
      are disjoint, avoid the spines, and pair only leaves that were in no
      cluster. */
  lemma AutoVlagPairs(t: Tables, spines: seq<string>, leaves: seq<string>,
                      lldp: string -> seq<string>, fabric: string -> seq<string>)
    requires |spines| >= 2 && NoDups(leaves)
    ensures var t1 := CreateCluster(t, "spine-cluster", spines[0], spines[1]).0;
      var work := Unclustered(leaves, Column1(t1.clusters), Column2(t1.clusters));
      var pairs := Pairs(work, lldp, fabric, true, spines);
      NoDups(Members(pairs))
      && forall p :: p in pairs ==>
           (p.node2 !in spines && p.node1 in leaves && p.node2 in leaves
            && !Clustered(t1.clusters, p.node1) && !Clustered(t1.clusters, p.node2))
  {
    var t1 := CreateCluster(t, "spine-cluster", spines[0], spines[1]).0;
    var work := Unclustered(leaves, Column1(t1.clusters), Column2(t1.clusters));
    PairsDisjoint(work, lldp, fabric, true, spines);
    PairsValid(work, lldp, fabric, true, spines);
    forall p | p in Pairs(work, lldp, fabric, true, spines)
      ensures !Clustered(t1.clusters, p.node1) && !Clustered(t1.clusters, p.node2)
    {
      ColumnsClustered(t1.clusters, p.node1);
      ColumnsClustered(t1.clusters, p.node2);
    }
  }

  /** configure_auto_vlag, in the source's order. */
  method ConfigureAutoVlag(t: Tables, topo: seq<PortRecord>, spines: seq<string>, leaves: seq<string>,
                           lldp: string -> seq<string>, fabric: string -> seq<string>)
    returns (r: Result<Tables, Failure>)
    ensures r == AutoVlag(t, topo, spines, leaves, lldp, fabric)
  {
    if |spines| < 2 {
      return Err(IndexError);
    }
    var spine1 := spines[0];
    var spine2 := spines[1];
    var created := CreateCluster(t, "spine-cluster", spine1, spine2);
    var t1 := created.0;
    var nonClusterLeaf := LeafNoCluster(leaves, Column1(t1.clusters), Column2(t1.clusters));
    var t2 := CreateLeafClusterVlag(t1, topo, nonClusterLeaf, lldp, fabric, spines);
    nonClusterLeaf := LeafNoCluster(leaves, Column1(t2.clusters), Column2(t2.clusters));
    var t3 := CreateNonclusterLeafVlag(t2, topo, nonClusterLeaf, spines);
    r := Ok(t3);
  }
}
