/** What the link-address cursor promises: each link takes exactly one
    sub-block's worth of addresses, the leaf the first and the spine the
    second, it runs out exactly when the list is shorter than that, no
    address is handed out twice, and every leaf port facing a spine is served. */
module LinkCursorFacts {
  import opened Octets
  import opened LinkAddresses
  import opened LinkCursor

  /** The list position that interface n takes, with r addresses per link. */
  function Pos(n: nat, r: nat): nat
  {
    (n / 2) * r + n % 2
  }

  /** Interface n of a run that served `links` from `avail`, r addresses per link. */
  predicate BoundAt(links: seq<L3Link>, avail: seq<string>, r: nat, n: nat, b: Binding)
  {
    n / 2 < |links| && Pos(n, r) < |avail| &&
    var l := links[n / 2];
    b == (if n % 2 == 0 then Binding(l.leaf, avail[Pos(n, r)], l.leafPort)
          else Binding(l.spine, avail[Pos(n, r)], l.spinePort))
  }

  lemma PosShift(n: nat, r: nat)
    requires n >= 2
    ensures Pos(n, r) == r + Pos(n - 2, r)
    ensures (n - 2) / 2 == n / 2 - 1 && (n - 2) % 2 == n % 2
  {
    var q := n / 2;
    assert (q - 1) * r + r == q * r;
  }

  lemma {:induction false} MulStep(a: nat, b: nat, r: nat)
    requires a < b
    ensures a * r + r <= b * r
    decreases b
  {
    assert b * r == (b - 1) * r + r;
    if a < b - 1 {
      MulStep(a, b - 1, r);
    }
  }

  /** The cursor serves every link exactly when the list holds pad + 2
      addresses for each; it then hands out two per link and keeps the rest. */
  lemma {:induction false} ConsumeOutcome(links: seq<L3Link>, avail: seq<string>, pad: nat)
    ensures !Consume(links, avail, pad).failed <==> |avail| >= |links| * (pad + 2)
    ensures !Consume(links, avail, pad).failed ==>
      |Consume(links, avail, pad).binds| == 2 * |links|
      && Consume(links, avail, pad).rest == avail[|links| * (pad + 2)..]
    decreases |links|
  {
    if links != [] {
      var r := pad + 2;
      assert (|links| - 1) * r + r == |links| * r;
      var s := Step(links[0], avail, pad);
      if !s.failed {
        ConsumeOutcome(links[1..], s.rest, pad);
        assert s.rest == avail[r..];
        if !Consume(links[1..], s.rest, pad).failed {
          assert s.rest[(|links| - 1) * r..] == avail[|links| * r..];
        }
      }
    }
  }

  /** The first link takes the first two list entries. */
  lemma StepPositions(links: seq<L3Link>, avail: seq<string>, pad: nat, n: nat)
    requires links != [] && n < |Step(links[0], avail, pad).binds|
    ensures BoundAt(links, avail, pad + 2, n, Step(links[0], avail, pad).binds[n])
  {
    assert Pos(n, pad + 2) == n;
  }

  /** Interface n - 2 of the later links is interface n of the whole run,
      pad + 2 entries further down the list. */
  lemma ShiftedPosition(links: seq<L3Link>, avail: seq<string>, pad: nat, n: nat, b: Binding)
    requires links != [] && |avail| >= pad + 2 && n >= 2
    requires BoundAt(links[1..], avail[pad + 2..], pad + 2, n - 2, b)
    ensures BoundAt(links, avail, pad + 2, n, b)
  {
    PosShift(n, pad + 2);
    assert links[1..][(n - 2) / 2] == links[n / 2];
  }

  /** Interface n goes to the leaf (n even) or the spine (n odd) of link
      n / 2 and takes list entry (n / 2) * (pad + 2) + n % 2, whether or not
      the list runs out later. */
  lemma {:induction false} ConsumePositions(links: seq<L3Link>, avail: seq<string>, pad: nat)
    ensures var c := Consume(links, avail, pad);
      |c.binds| <= 2 * |links| &&
      forall n :: 0 <= n < |c.binds| ==> BoundAt(links, avail, pad + 2, n, c.binds[n])
    decreases |links|
  {
    var c := Consume(links, avail, pad);
    if links != [] {
      var s := Step(links[0], avail, pad);
      forall n | 0 <= n < |s.binds|
        ensures BoundAt(links, avail, pad + 2, n, s.binds[n])
      {
        StepPositions(links, avail, pad, n);
      }
      if !s.failed {
        ConsumePositions(links[1..], s.rest, pad);
        var t := Consume(links[1..], s.rest, pad);
        assert c.binds == s.binds + t.binds;
        forall n | 2 <= n < |c.binds|
          ensures BoundAt(links, avail, pad + 2, n, c.binds[n])
        {
          assert c.binds[n] == t.binds[n - 2];
          ShiftedPosition(links, avail, pad, n, c.binds[n]);
        }
      }
    }
  }

  lemma PosIncreasing(p: nat, q: nat, r: nat)
    requires p < q && r >= 2
    ensures Pos(p, r) < Pos(q, r)
  {
    if p / 2 < q / 2 {
      MulStep(p / 2, q / 2, r);
    }
  }

  /** From a list without repeats, no address is handed out twice. */
  lemma ConsumeDistinct(links: seq<L3Link>, avail: seq<string>, pad: nat)
    requires forall i, j :: 0 <= i < j < |avail| ==> avail[i] != avail[j]
    ensures var c := Consume(links, avail, pad);
      forall p, q :: 0 <= p < q < |c.binds| ==> c.binds[p].ip != c.binds[q].ip
  {
    var c := Consume(links, avail, pad);
    ConsumePositions(links, avail, pad);
    forall p, q | 0 <= p < q < |c.binds|
      ensures c.binds[p].ip != c.binds[q].ip
    {
      assert BoundAt(links, avail, pad + 2, p, c.binds[p]);
      assert BoundAt(links, avail, pad + 2, q, c.binds[q]);
      PosIncreasing(p, q, pad + 2);
    }
  }

  /** For the supernets calculate_link_ip_addresses accepts, each link
      consumes exactly supernet_mapping[supernet] addresses. */
  lemma PadIsSupernetRange(supernet: int)
    requires 27 <= supernet <= 30
    ensures Pad(supernet) + 2 == SupernetRange(supernet).value
  {
  }

  /** The links of one leaf and spine are its ports facing that spine, or
      the single port 'Success' when none does. */
  lemma PairLinksMembers(topo: seq<PortRecord>, leaf: string, spine: string, l: L3Link)
    ensures l in PairLinks(topo, leaf, spine) <==>
      l.leaf == leaf && l.spine == spine && Listed(topo, leaf, spine, l.leafPort)
      && l.spinePort == RemotePort(topo, leaf, l.leafPort)
  {
    var ports := LeafPorts(topo, leaf, spine);
    var links := PairLinks(topo, leaf, spine);
    if l.leaf == leaf && l.spine == spine && l.leafPort in ports && l.spinePort == RemotePort(topo, leaf, l.leafPort) {
      var k :| 0 <= k < |ports| && ports[k] == l.leafPort;
      assert links[k] == l;
    }
  }

  lemma {:induction false} SpineLinksMembers(topo: seq<PortRecord>, spine: string, leaves: seq<string>, l: L3Link)
    ensures l in SpineLinks(topo, spine, leaves) <==>
      l.leaf in leaves && l in PairLinks(topo, l.leaf, spine)
    decreases |leaves|
  {
    if leaves != [] {
      var init := leaves[..|leaves| - 1];
      SpineLinksMembers(topo, spine, init, l);
      PairLinksMembers(topo, leaves[|leaves| - 1], spine, l);
      PairLinksMembers(topo, l.leaf, spine, l);
      assert leaves == init + [leaves[|leaves| - 1]];
    }
  }

  /** The links served are those of the listed leaf and spine pairs. */
  lemma {:induction false} AllLinksPairs(topo: seq<PortRecord>, spines: seq<string>, leaves: seq<string>, l: L3Link)
    ensures l in AllLinks(topo, spines, leaves) <==>
      l.spine in spines && l.leaf in leaves && l in PairLinks(topo, l.leaf, l.spine)
    decreases |spines|
  {
    if spines != [] {
      var init := spines[..|spines| - 1];
      AllLinksPairs(topo, init, leaves, l);
      SpineLinksMembers(topo, spines[|spines| - 1], leaves, l);
      PairLinksMembers(topo, l.leaf, spines[|spines| - 1], l);
      assert spines == init + [spines[|spines| - 1]];
    }
  }

  /** auto_configure_link_ips serves exactly the leaf ports that face a
      listed spine from a listed leaf, and the port 'Success' of a listed
      leaf with no port facing a listed spine, each with the remote port its
      listing gives. */
  lemma AllLinksMembers(topo: seq<PortRecord>, spines: seq<string>, leaves: seq<string>, l: L3Link)
    ensures l in AllLinks(topo, spines, leaves) <==>
      l.spine in spines && l.leaf in leaves && Listed(topo, l.leaf, l.spine, l.leafPort)
      && l.spinePort == RemotePort(topo, l.leaf, l.leafPort)
  {
    AllLinksPairs(topo, spines, leaves, l);
    PairLinksMembers(topo, l.leaf, l.spine, l);
  }

  /** A leaf cabled to no port of a spine still takes one pass of the
      cursor loop, on the port 'Success': it uses up a whole sub-block. */
  lemma UncabledPairServed(topo: seq<PortRecord>, leaf: string, spine: string, avail: seq<string>, pad: nat)
    requires !Cabled(topo, leaf, spine)
    ensures PairLinks(topo, leaf, spine) == [L3Link(leaf, "Success", spine, RemotePort(topo, leaf, "Success"))]
    ensures |avail| >= pad + 2 ==>
      var c := Consume(PairLinks(topo, leaf, spine), avail, pad);
      !c.failed && c.binds[0] == Binding(leaf, avail[0], "Success") && c.rest == avail[pad + 2..]
  {
    var links := PairLinks(topo, leaf, spine);
    assert LeafPorts(topo, leaf, spine) == ["Success"];
    assert |links| == 1 && links[0] == L3Link(leaf, "Success", spine, RemotePort(topo, leaf, "Success"));
    if |avail| >= pad + 2 {
      assert links[1..] == [];
    }
  }
}
