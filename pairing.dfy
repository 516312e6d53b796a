/** Greedy pairing of unclustered leaves, shared by create_leaf_cluster_vlag
    (pn_ztp.py) and leaf_cluster_formation (pn_ebgp.py): pop the head leaf,
    look through its LLDP neighbours for the first one that is not a spine
    and still waits in the worklist, and pair the two. */
module Pairing {
  import opened Results
  import opened FabricTables

  predicate NoDups(s: seq<string>)
  {
    forall i, j :: 0 <= i < j < |s| ==> s[i] != s[j]
  }

  /** Python's list.remove(x): drops the first occurrence. */
  function RemoveFirst(s: seq<string>, x: string): (r: seq<string>)
    requires x in s
    ensures |r| == |s| - 1
    ensures multiset(r) == multiset(s) - multiset{x}
  {
    if s[0] == x then
      assert s == [s[0]] + s[1..];
      s[1..]
    else
      assert s == [s[0]] + s[1..];
      [s[0]] + RemoveFirst(s[1..], x)
  }

  /** From a list without repeats, list.remove(x) takes out x and nothing else. */
  lemma {:induction false} RemoveFirstNoDups(s: seq<string>, x: string)
    requires x in s && NoDups(s)
    ensures NoDups(RemoveFirst(s, x))
    ensures forall y :: y in RemoveFirst(s, x) <==> y in s && y != x
    decreases |s|
  {
    var tail := s[1..];
    assert NoDups(tail);
    assert s[0] !in tail by {
      forall j | 0 <= j < |tail| ensures tail[j] != s[0] {
        assert tail[j] == s[j + 1];
      }
    }
    if s[0] != x {
      RemoveFirstNoDups(tail, x);
      var r' := RemoveFirst(tail, x);
      assert RemoveFirst(s, x) == [s[0]] + r';
      assert s[0] !in r';
    }
  }

  /** The cluster-node-1 column of `cluster-show`. */
  function Column1(cs: seq<Cluster>): (r: seq<string>)
    ensures |r| == |cs| && forall k :: 0 <= k < |cs| ==> r[k] == cs[k].node1
  {
    if cs == [] then [] else [cs[0].node1] + Column1(cs[1..])
  }

  /** The cluster-node-2 column of `cluster-show`. */
  function Column2(cs: seq<Cluster>): (r: seq<string>)
    ensures |r| == |cs| && forall k :: 0 <= k < |cs| ==> r[k] == cs[k].node2
  {
    if cs == [] then [] else [cs[0].node2] + Column2(cs[1..])
  }

  /** A node missing from both columns is in no cluster. */
  lemma ColumnsClustered(cs: seq<Cluster>, node: string)
    ensures node in Column1(cs) || node in Column2(cs) <==> Clustered(cs, node)
  {
    if node in Column1(cs) {
      var k :| 0 <= k < |cs| && Column1(cs)[k] == node;
      assert cs[k] in cs;
    }
    if node in Column2(cs) {
      var k :| 0 <= k < |cs| && Column2(cs)[k] == node;
      assert cs[k] in cs;
    }
    if Clustered(cs, node) {
      var c :| c in cs && (c.node1 == node || c.node2 == node);
      var k :| 0 <= k < |cs| && cs[k] == c;
      assert Column1(cs)[k] == c.node1 && Column2(cs)[k] == c.node2;
    }
  }

  /** leaf_no_cluster: the leaves, in their listed order, that appear in
      neither cluster column. */
  function Unclustered(leaves: seq<string>, column1: seq<string>, column2: seq<string>): (r: seq<string>)
    ensures forall x :: x in r <==> x in leaves && x !in column1 && x !in column2
    ensures NoDups(leaves) ==> NoDups(r)
    decreases |leaves|
  {
    if leaves == [] then []
    else
      var init := leaves[..|leaves| - 1];
      var leaf := leaves[|leaves| - 1];
      assert leaves == init + [leaf];
      assert NoDups(leaves) ==> NoDups(init) && leaf !in init;
      if leaf !in column1 && leaf !in column2 then Unclustered(init, column1, column2) + [leaf]
      else Unclustered(init, column1, column2)
  }

  /** With no clusters at all, every leaf comes back, in order. */
  lemma {:induction false} UnclusteredWithoutClusters(leaves: seq<string>)
    ensures Unclustered(leaves, [], []) == leaves
    decreases |leaves|
  {
    if leaves != [] {
      UnclusteredWithoutClusters(leaves[..|leaves| - 1]);
      assert leaves == leaves[..|leaves| - 1] + [leaves[|leaves| - 1]];
    }
  }

  /** leaf_no_cluster, appending leaf by leaf. */
  method LeafNoCluster(leaves: seq<string>, column1: seq<string>, column2: seq<string>) returns (r: seq<string>)
    ensures r == Unclustered(leaves, column1, column2)
  {
    r := [];
    for i := 0 to |leaves|
      invariant r == Unclustered(leaves[..i], column1, column2)
    {
      assert leaves[..i + 1][..i] == leaves[..i];
      if leaves[i] !in column1 && leaves[i] !in column2 {
        r := r + [leaves[i]];
      }
    }
    assert leaves[..|leaves|] == leaves;
  }

  /** The filter of create_leaf_cluster_vlag as written: it walks the LLDP
      list by position while removing from it, so the entry after each
      removed one moves into the removed slot and is never looked at. */
  function FilterFrom(systems: seq<string>, i: nat, fabric: seq<string>): (r: seq<string>)
    decreases |systems| - i
  {
    if i >= |systems| then systems
    else if systems[i] !in fabric then FilterFrom(RemoveFirst(systems, systems[i]), i + 1, fabric)
    else FilterFrom(systems, i + 1, fabric)
  }

  function FabricFilter(systems: seq<string>, fabric: seq<string>): seq<string>
  {
    FilterFrom(systems, 0, fabric)
  }

  /** The filter only ever removes names that are not fabric nodes: fabric
      nodes keep their count, and nothing is added. */
  lemma {:induction false} FilterFromKeepsFabric(systems: seq<string>, i: nat, fabric: seq<string>)
    ensures multiset(FilterFrom(systems, i, fabric)) <= multiset(systems)
    ensures forall x :: x in fabric ==> multiset(FilterFrom(systems, i, fabric))[x] == multiset(systems)[x]
    decreases |systems| - i
  {
    if i < |systems| {
      if systems[i] !in fabric {
        FilterFromKeepsFabric(RemoveFirst(systems, systems[i]), i + 1, fabric);
      } else {
        FilterFromKeepsFabric(systems, i + 1, fabric);
      }
    }
  }

  /** A neighbour that is a fabric node survives the filter, and nothing
      that survives was not a neighbour. */
  lemma FabricFilterKeepsFabric(systems: seq<string>, fabric: seq<string>, x: string)
    ensures x in FabricFilter(systems, fabric) ==> x in systems
    ensures x in fabric && x in systems ==> x in FabricFilter(systems, fabric)
  {
    FilterFromKeepsFabric(systems, 0, fabric);
    assert x in FabricFilter(systems, fabric) <==> multiset(FabricFilter(systems, fabric))[x] > 0;
    assert x in systems <==> multiset(systems)[x] > 0;
  }

  /** The skip: with no fabric nodes at all, the second of two neighbours
      is never looked at and survives the filter. */
  lemma FabricFilterSkips()
    ensures FabricFilter(["a", "b"], []) == ["b"]
  {
    assert RemoveFirst(["a", "b"], "a") == ["b"];
  }

  /** The filter as one for-loop over the list it shrinks. */
  method FilterFabric(systems: seq<string>, fabric: seq<string>) returns (r: seq<string>)
    ensures r == FabricFilter(systems, fabric)
  {
    r := systems;
    var i := 0;
    while i < |r|
      invariant FilterFrom(r, i, fabric) == FabricFilter(systems, fabric)
      decreases |r| - i
    {
      if r[i] !in fabric {
        r := RemoveFirst(r, r[i]);
      }
      i := i + 1;
    }
  }

  /** A neighbour may become the partner: not a spine, still in the worklist. */
  predicate Eligible(node: string, spines: seq<string>, work: seq<string>)
  {
    node !in spines && node in work
  }

  /** The position of the first eligible neighbour at or after k. */
  function FindFrom(cands: seq<string>, spines: seq<string>, work: seq<string>, k: nat): (r: Option<nat>)
    ensures r.Some? ==> (k <= r.value < |cands| && Eligible(cands[r.value], spines, work)
      && forall j :: k <= j < r.value ==> !Eligible(cands[j], spines, work))
    ensures r.None? ==> forall j :: k <= j < |cands| ==> !Eligible(cands[j], spines, work)
    decreases |cands| - k
  {
    if k >= |cands| then None
    else if Eligible(cands[k], spines, work) then Some(k)
    else FindFrom(cands, spines, work, k + 1)
  }

  /** The partner search, stopping at the first eligible neighbour. */
  method FindPartner(cands: seq<string>, spines: seq<string>, work: seq<string>) returns (r: Option<string>)
    ensures r == (match FindFrom(cands, spines, work, 0)
                  case None => None
                  case Some(k) => Some(cands[k]))
  {
    var count := 0;
    r := None;
    while count < |cands| && r.None?
      invariant 0 <= count <= |cands|
      invariant r.None? ==> FindFrom(cands, spines, work, count) == FindFrom(cands, spines, work, 0)
      invariant r.Some? ==> FindFrom(cands, spines, work, 0) == Some(count - 1) && r.value == cands[count - 1]
      decreases |cands| - count
    {
      var node2 := cands[count];
      if node2 !in spines {
        if node2 in work {
          r := Some(node2);
        }
      }
      count := count + 1;
    }
  }

  /** The neighbours looked at for `node`: its LLDP neighbours, passed
      through the fabric filter in the ztp variant. */
  function Candidates(lldp: string -> seq<string>, fabric: string -> seq<string>, filtered: bool, node: string): seq<string>
  {
    if filtered then FabricFilter(lldp(node), fabric(node)) else lldp(node)
  }

  datatype Pair = Pair(node1: string, node2: string)

  /** The clusters the worklist loop forms, in order. The head is popped
      (list.remove of the head is the tail); a partner found is removed too;
      a leaf without partner is dropped and never retried. */
  function Pairs(work: seq<string>, lldp: string -> seq<string>, fabric: string -> seq<string>,
                 filtered: bool, spines: seq<string>): seq<Pair>
    decreases |work|
  {
    if work == [] then []
    else
      var node1 := work[0];
      var rest := work[1..];
      var cands := Candidates(lldp, fabric, filtered, node1);
      match FindFrom(cands, spines, rest, 0)
      case None => Pairs(rest, lldp, fabric, filtered, spines)
      case Some(k) => [Pair(node1, cands[k])] + Pairs(RemoveFirst(rest, cands[k]), lldp, fabric, filtered, spines)
  }

  /** Both nodes of every cluster formed, in the order formed. */
  function Members(ps: seq<Pair>): (r: seq<string>)
    ensures |r| == 2 * |ps|
  {
    if ps == [] then [] else [ps[0].node1, ps[0].node2] + Members(ps[1..])
  }


  lemma RemoveFirstWithin(s: seq<string>, x: string)
    requires x in s
    ensures forall y :: y in RemoveFirst(s, x) ==> y in s
  {
    forall y | y in RemoveFirst(s, x)
      ensures y in s
    {
      assert multiset(RemoveFirst(s, x))[y] > 0;
    }
  }

  /** A cluster whose first node is a leaf of the worklist and whose second
      is a waiting neighbour of it that is not a spine. */
  predicate ValidPair(p: Pair, work: seq<string>, lldp: string -> seq<string>, fabric: string -> seq<string>,
                      filtered: bool, spines: seq<string>)
  {
    p.node1 in work && p.node2 in work && p.node2 !in spines
    && p.node2 in Candidates(lldp, fabric, filtered, p.node1)
  }

  /** Every cluster pairs a popped leaf with a neighbour of it that is not a
      spine and was still waiting; both come from the worklist. */
  lemma {:induction false} PairsValid(work: seq<string>, lldp: string -> seq<string>, fabric: string -> seq<string>,
                                      filtered: bool, spines: seq<string>)
    ensures forall p :: p in Pairs(work, lldp, fabric, filtered, spines) ==>
      ValidPair(p, work, lldp, fabric, filtered, spines)
    decreases |work|
  {
    if work != [] {
      var rest := work[1..];
      var cands := Candidates(lldp, fabric, filtered, work[0]);
      match FindFrom(cands, spines, rest, 0)
      case None =>
        PairsValid(rest, lldp, fabric, filtered, spines);
        PairsWithin(Pairs(rest, lldp, fabric, filtered, spines), rest, work, lldp, fabric, filtered, spines);
      case Some(k) =>
        var rest' := RemoveFirst(rest, cands[k]);
        var later := Pairs(rest', lldp, fabric, filtered, spines);
        PairsValid(rest', lldp, fabric, filtered, spines);
        RemoveFirstWithin(rest, cands[k]);
        PairsWithin(later, rest', work, lldp, fabric, filtered, spines);
        assert ValidPair(Pair(work[0], cands[k]), work, lldp, fabric, filtered, spines);
        assert Pairs(work, lldp, fabric, filtered, spines) == [Pair(work[0], cands[k])] + later;
    }
  }

  /** Clusters valid for a smaller worklist stay valid for a larger one. */
  lemma PairsWithin(ps: seq<Pair>, small: seq<string>, large: seq<string>, lldp: string -> seq<string>,
                    fabric: string -> seq<string>, filtered: bool, spines: seq<string>)
    requires forall y :: y in small ==> y in large
    requires forall p :: p in ps ==> ValidPair(p, small, lldp, fabric, filtered, spines)
    ensures forall p :: p in ps ==> ValidPair(p, large, lldp, fabric, filtered, spines)
  {
  }

  /** From a worklist without repeats, the clusters formed are pairwise
      disjoint and no leaf is clustered with itself. */
  lemma {:induction false} PairsDisjoint(work: seq<string>, lldp: string -> seq<string>, fabric: string -> seq<string>,
                                         filtered: bool, spines: seq<string>)
    requires NoDups(work)
    ensures NoDups(Members(Pairs(work, lldp, fabric, filtered, spines)))
    ensures forall x :: x in Members(Pairs(work, lldp, fabric, filtered, spines)) ==> x in work
    decreases |work|
  {
    if work != [] {
      var node1 := work[0];
      var rest := work[1..];
      assert NoDups(rest);
      assert node1 !in rest;
      var cands := Candidates(lldp, fabric, filtered, node1);
      match FindFrom(cands, spines, rest, 0)
      case None =>
        PairsDisjoint(rest, lldp, fabric, filtered, spines);
      case Some(k) =>
        var node2 := cands[k];
        var rest' := RemoveFirst(rest, node2);
        RemoveFirstNoDups(rest, node2);
        PairsDisjoint(rest', lldp, fabric, filtered, spines);
        var m := Members(Pairs(rest', lldp, fabric, filtered, spines));
        assert Members(Pairs(work, lldp, fabric, filtered, spines)) == [node1, node2] + m;
        assert node1 !in m && node2 !in m && node1 != node2;
    }
  }
}
