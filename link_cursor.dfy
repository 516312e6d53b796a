/** The link-address cursor of auto_configure_link_ips: for every spine, every
    leaf and every leaf port facing that spine (the one port 'Success' when
    none does), the head of the address list goes to the leaf's interface,
    the next one to the spine's, and the rest of the sub-block is skipped. */
module LinkCursor {
  import opened Octets

  /** One row of `port-show`: on `switch`, `port` is cabled to port `rport`
      of `hostname`. */
  datatype PortRecord = PortRecord(switch: string, port: string, hostname: string, rport: string)

  /** A leaf port facing a spine, with the spine port at its other end. */
  datatype L3Link = L3Link(leaf: string, leafPort: string, spine: string, spinePort: string)

  /** A vrouter interface requested by create_interface. */
  datatype Binding = Binding(switch: string, ip: string, port: string)

  /** The interfaces requested so far, the addresses not yet used, and whether
      the list ran out (IndexError) before the last link was served. */
  datatype Cursor = Cursor(binds: seq<Binding>, rest: seq<string>, failed: bool)

  /** Port `p` of `leaf` is cabled to `spine`, by some `port-show` row. */
  predicate Faces(topo: seq<PortRecord>, leaf: string, spine: string, p: string)
  {
    exists r :: r in topo && r.switch == leaf && r.hostname == spine && r.port == p
  }

  /** Some port of `leaf` is cabled to `spine`. */
  predicate Cabled(topo: seq<PortRecord>, leaf: string, spine: string)
  {
    exists r :: r in topo && r.switch == leaf && r.hostname == spine
  }

  /** What the split `port-show hostname` listing holds: the ports facing the
      spine, or the single word 'Success' that run_cli answers for an empty
      listing. */
  predicate Listed(topo: seq<PortRecord>, leaf: string, spine: string, p: string)
  {
    Faces(topo, leaf, spine, p) || (p == "Success" && !Cabled(topo, leaf, spine))
  }

  /** The rows of `leaf` cabled to `spine`, in listing order, by port. */
  function FacingPorts(topo: seq<PortRecord>, leaf: string, spine: string): (ports: seq<string>)
    ensures forall p :: p in ports <==> Faces(topo, leaf, spine, p)
    ensures ports == [] <==> !Cabled(topo, leaf, spine)
  {
    if topo == [] then []
    else
      var r := topo[0];
      var rest := FacingPorts(topo[1..], leaf, spine);
      assert forall x :: x in topo <==> x == r || x in topo[1..];
      if r.switch == leaf && r.hostname == spine then [r.port] + rest else rest
  }

  /** `run_cli(switch leaf port-show hostname spine format port).split()`:
      the leaf's ports facing the spine in listing order, and ['Success']
      when there are none. */
  function LeafPorts(topo: seq<PortRecord>, leaf: string, spine: string): (ports: seq<string>)
    ensures |ports| >= 1
  {
    var facing := FacingPorts(topo, leaf, spine);
    if facing == [] then ["Success"] else facing
  }

  /** A port is in the listing exactly when it faces the spine, or it is
      'Success' and none does. */
  lemma LeafPortsListed(topo: seq<PortRecord>, leaf: string, spine: string, p: string)
    ensures p in LeafPorts(topo, leaf, spine) <==> Listed(topo, leaf, spine, p)
    ensures !Cabled(topo, leaf, spine) ==> LeafPorts(topo, leaf, spine) == ["Success"]
  {
    var facing := FacingPorts(topo, leaf, spine);
    assert p in facing <==> Faces(topo, leaf, spine, p);
  }

  /** `switch leaf port-show port p format rport`: the remote port of the first
      matching row; run_cli answers 'Success' when the listing is empty. */
  function RemotePort(topo: seq<PortRecord>, leaf: string, port: string): (rport: string)
    ensures (exists r :: r in topo && r.switch == leaf && r.port == port) || rport == "Success"
  {
    if topo == [] then "Success"
    else if topo[0].switch == leaf && topo[0].port == port then topo[0].rport
    else RemotePort(topo[1..], leaf, port)
  }

  /** A `port-show` row of the leaf for that port. */
  predicate PortRow(r: PortRecord, leaf: string, port: string)
  {
    r.switch == leaf && r.port == port
  }

  /** The remote port is the rport of the first row of the leaf for that port,
      or 'Success' exactly when no row matches. */
  lemma {:induction false} RemotePortRow(topo: seq<PortRecord>, leaf: string, port: string)
    ensures var rport := RemotePort(topo, leaf, port);
      (exists k :: 0 <= k < |topo| && PortRow(topo[k], leaf, port) && rport == topo[k].rport
                   && forall j :: 0 <= j < k ==> !PortRow(topo[j], leaf, port))
      || (rport == "Success" && forall r :: r in topo ==> !PortRow(r, leaf, port))
  {
    if topo == [] {
    } else if PortRow(topo[0], leaf, port) {
      assert PortRow(topo[0], leaf, port) && RemotePort(topo, leaf, port) == topo[0].rport;
    } else {
      var rest := topo[1..];
      RemotePortRow(rest, leaf, port);
      assert RemotePort(topo, leaf, port) == RemotePort(rest, leaf, port);
      if k :| 0 <= k < |rest| && PortRow(rest[k], leaf, port) && RemotePort(rest, leaf, port) == rest[k].rport
              && forall j :: 0 <= j < k ==> !PortRow(rest[j], leaf, port) {
        assert topo[k + 1] == rest[k];
        forall j | 0 <= j < k + 1
          ensures !PortRow(topo[j], leaf, port)
        {
          if j > 0 {
            assert topo[j] == rest[j - 1];
          }
        }
      } else {
        forall r | r in topo
          ensures !PortRow(r, leaf, port)
        {
          if r != topo[0] {
            assert r in rest;
          }
        }
      }
    }
  }

  /** The links between one leaf and one spine, in the order of its ports. */
  function PairLinks(topo: seq<PortRecord>, leaf: string, spine: string): seq<L3Link>
  {
    var ports := LeafPorts(topo, leaf, spine);
    seq(|ports|, k requires 0 <= k < |ports| => L3Link(leaf, ports[k], spine, RemotePort(topo, leaf, ports[k])))
  }

  /** `for leaf in leaf_list` for one spine. */
  function SpineLinks(topo: seq<PortRecord>, spine: string, leaves: seq<string>): seq<L3Link>
    decreases |leaves|
  {
    if leaves == [] then []
    else SpineLinks(topo, spine, leaves[..|leaves| - 1]) + PairLinks(topo, leaves[|leaves| - 1], spine)
  }

  /** `for spine in spine_list: for leaf in leaf_list: while leaf_port`: all
      links, spine-major, then leaf, then port. */
  function AllLinks(topo: seq<PortRecord>, spines: seq<string>, leaves: seq<string>): seq<L3Link>
    decreases |spines|
  {
    if spines == [] then []
    else AllLinks(topo, spines[..|spines| - 1], leaves) + SpineLinks(topo, spines[|spines| - 1], leaves)
  }

  /** One pass of `while len(leaf_port) > 0`: available_ips[0] to the leaf,
      the next head to the spine, then `pad` pops. */
  function Step(l: L3Link, avail: seq<string>, pad: nat): Cursor
  {
    if |avail| == 0 then Cursor([], [], true)
    else if |avail| == 1 then Cursor([Binding(l.leaf, avail[0], l.leafPort)], [], true)
    else
      var two := [Binding(l.leaf, avail[0], l.leafPort), Binding(l.spine, avail[1], l.spinePort)];
      if |avail| - 2 < pad then Cursor(two, [], true)
      else Cursor(two, avail[2 + pad..], false)
  }

  /** The links served in order, stopping at the first that runs out. */
  function Consume(links: seq<L3Link>, avail: seq<string>, pad: nat): Cursor
    decreases |links|
  {
    if links == [] then Cursor([], avail, false)
    else
      var c := Step(links[0], avail, pad);
      if c.failed then c
      else
        var r := Consume(links[1..], c.rest, pad);
        Cursor(c.binds + r.binds, r.rest, r.failed)
  }

  /** (1 << (32 - supernet)) - 4 pops per link; none when that is negative. */
  function Pad(supernet: int): nat
    requires supernet <= 32
  {
    var count := Pow2(32 - supernet) - 4;
    if count < 0 then 0 else count
  }

  lemma {:induction false} ConsumeSnoc(xs: seq<L3Link>, l: L3Link, avail: seq<string>, pad: nat)
    requires !Consume(xs, avail, pad).failed
    ensures var c := Consume(xs, avail, pad);
      var s := Step(l, c.rest, pad);
      Consume(xs + [l], avail, pad) == Cursor(c.binds + s.binds, s.rest, s.failed)
    decreases |xs|
  {
    if xs != [] {
      var c := Step(xs[0], avail, pad);
      assert (xs + [l])[0] == xs[0];
      assert (xs + [l])[1..] == xs[1..] + [l];
      ConsumeSnoc(xs[1..], l, c.rest, pad);
    } else {
      assert [l][1..] == [];
    }
  }

  lemma {:induction false} ConsumeFailedPrefix(xs: seq<L3Link>, ys: seq<L3Link>, avail: seq<string>, pad: nat)
    requires xs <= ys && Consume(xs, avail, pad).failed
    ensures Consume(ys, avail, pad) == Consume(xs, avail, pad)
    decreases |xs|
  {
    assert xs != [];
    assert ys[0] == xs[0];
    var c := Step(xs[0], avail, pad);
    if !c.failed {
      assert xs[1..] <= ys[1..];
      ConsumeFailedPrefix(xs[1..], ys[1..], c.rest, pad);
    }
  }

  lemma PrefixExtend(x: seq<L3Link>, y: seq<L3Link>, z: seq<L3Link>)
    requires y <= z
    ensures x + y <= x + z
  {
    assert (x + z)[..|x + y|] == x + y;
  }

  lemma {:induction false} SpineLinksPrefix(topo: seq<PortRecord>, spine: string, leaves: seq<string>, j: nat)
    requires j <= |leaves|
    ensures SpineLinks(topo, spine, leaves[..j]) <= SpineLinks(topo, spine, leaves)
    decreases |leaves|
  {
    if j < |leaves| {
      var init := leaves[..|leaves| - 1];
      assert init[..j] == leaves[..j];
      SpineLinksPrefix(topo, spine, init, j);
    } else {
      assert leaves[..j] == leaves;
    }
  }

  lemma {:induction false} AllLinksPrefix(topo: seq<PortRecord>, spines: seq<string>, leaves: seq<string>, j: nat)
    requires j <= |spines|
    ensures AllLinks(topo, spines[..j], leaves) <= AllLinks(topo, spines, leaves)
    decreases |spines|
  {
    if j < |spines| {
      var init := spines[..|spines| - 1];
      assert init[..j] == spines[..j];
      AllLinksPrefix(topo, init, leaves, j);
    } else {
      assert spines[..j] == spines;
    }
  }

  lemma SpineLinksNext(topo: seq<PortRecord>, spine: string, leaves: seq<string>, li: nat)
    requires li < |leaves|
    ensures SpineLinks(topo, spine, leaves[..li + 1]) == SpineLinks(topo, spine, leaves[..li]) + PairLinks(topo, leaves[li], spine)
  {
    assert leaves[..li + 1][..li] == leaves[..li];
  }

  lemma AllLinksNext(topo: seq<PortRecord>, spines: seq<string>, leaves: seq<string>, si: nat)
    requires si < |spines|
    ensures AllLinks(topo, spines[..si + 1], leaves) == AllLinks(topo, spines[..si], leaves) + SpineLinks(topo, spines[si], leaves)
  {
    assert spines[..si + 1][..si] == spines[..si];
  }

  /** One pass of `while len(leaf_port) > 0`: the leaf takes the head of the
      list, the spine the next one, then (1 << (32 - supernet)) - 4 pops. */
  method ServeLink(link: L3Link, availableIps: seq<string>, supernet: int) returns (s: Cursor)
    requires supernet <= 32
    ensures s == Step(link, availableIps, Pad(supernet))
  {
    var avail := availableIps;
    if |avail| == 0 {
      return Cursor([], [], true);
    }
    var ip := avail[0];
    var binds := [Binding(link.leaf, ip, link.leafPort)];
    avail := avail[1..];
    if |avail| == 0 {
      return Cursor(binds, [], true);
    }
    ip := avail[0];
    binds := binds + [Binding(link.spine, ip, link.spinePort)];
    avail := avail[1..];
    ghost var afterTwo := avail;
    var i := 0;
    var count := Pow2(32 - supernet) - 4;
    while i < count
      invariant 0 <= i <= Pad(supernet) && i <= |afterTwo| && avail == afterTwo[i..]
      invariant count < 0 || count == Pad(supernet)
    {
      if |avail| == 0 {
        return Cursor(binds, [], true);
      }
      avail := avail[1..];
      i := i + 1;
    }
    assert availableIps[2 + Pad(supernet)..] == afterTwo[i..];
    return Cursor(binds, avail, false);
  }

  lemma {:induction false} ConsumeAppend(xs: seq<L3Link>, ys: seq<L3Link>, avail: seq<string>, pad: nat)
    requires !Consume(xs, avail, pad).failed
    ensures var c := Consume(xs, avail, pad);
      var d := Consume(ys, c.rest, pad);
      Consume(xs + ys, avail, pad) == Cursor(c.binds + d.binds, d.rest, d.failed)
    decreases |xs|
  {
    if xs != [] {
      var c := Step(xs[0], avail, pad);
      assert (xs + ys)[0] == xs[0];
      assert (xs + ys)[1..] == xs[1..] + ys;
      ConsumeAppend(xs[1..], ys, c.rest, pad);
      var r := Consume(xs[1..], c.rest, pad);
      var d := Consume(ys, r.rest, pad);
      assert c.binds + (r.binds + d.binds) == (c.binds + r.binds) + d.binds;
    } else {
      assert xs + ys == ys;
    }
  }

  /** `while len(leaf_port) > 0` for one leaf and one spine. */
  method ServeLeaf(topo: seq<PortRecord>, leaf: string, spine: string, availableIps: seq<string>, supernet: int)
    returns (c: Cursor)
    requires supernet <= 32
    ensures c == Consume(PairLinks(topo, leaf, spine), availableIps, Pad(supernet))
  {
    ghost var pad := Pad(supernet);
    ghost var links := PairLinks(topo, leaf, spine);
    var leafPort := LeafPorts(topo, leaf, spine);
    var avail := availableIps;
    var binds: seq<Binding> := [];
    ghost var pi := 0;
    while |leafPort| > 0
      invariant 0 <= pi <= |links| && leafPort == LeafPorts(topo, leaf, spine)[pi..]
      invariant Consume(links[..pi], availableIps, pad) == Cursor(binds, avail, false)
      decreases |leafPort|
    {
      var lport := leafPort[0];
      var sport := RemotePort(topo, leaf, lport);
      var link := L3Link(leaf, lport, spine, sport);
      assert link == links[pi];
      assert links[..pi + 1] == links[..pi] + [link];
      ConsumeSnoc(links[..pi], link, availableIps, pad);
      var s := ServeLink(link, avail, supernet);
      binds := binds + s.binds;
      if s.failed {
        ConsumeFailedPrefix(links[..pi + 1], links, availableIps, pad);
        return Cursor(binds, [], true);
      }
      avail := s.rest;
      leafPort := leafPort[1..];
      pi := pi + 1;
    }
    assert links[..pi] == links;
    return Cursor(binds, avail, false);
  }

  /** `for leaf in leaf_list` for one spine. */
  method ServeSpine(topo: seq<PortRecord>, spine: string, leaves: seq<string>, availableIps: seq<string>, supernet: int)
    returns (c: Cursor)
    requires supernet <= 32
    ensures c == Consume(SpineLinks(topo, spine, leaves), availableIps, Pad(supernet))
  {
    ghost var pad := Pad(supernet);
    var avail := availableIps;
    var binds: seq<Binding> := [];
    var li := 0;
    assert leaves[..0] == [];
    while li < |leaves|
      invariant 0 <= li <= |leaves|
      invariant Consume(SpineLinks(topo, spine, leaves[..li]), availableIps, pad) == Cursor(binds, avail, false)
    {
      ghost var done := SpineLinks(topo, spine, leaves[..li]);
      ghost var links := PairLinks(topo, leaves[li], spine);
      ConsumeAppend(done, links, availableIps, pad);
      SpineLinksNext(topo, spine, leaves, li);
      var s := ServeLeaf(topo, leaves[li], spine, avail, supernet);
      binds := binds + s.binds;
      if s.failed {
        SpineLinksPrefix(topo, spine, leaves, li + 1);
        ConsumeFailedPrefix(done + links, SpineLinks(topo, spine, leaves), availableIps, pad);
        return Cursor(binds, s.rest, true);
      }
      avail := s.rest;
      li := li + 1;
    }
    assert leaves[..li] == leaves;
    return Cursor(binds, avail, false);
  }

  /** The spine and leaf loops of auto_configure_link_ips, with
      create_interface recorded as a Binding. */
  method AssignLinkIps(topo: seq<PortRecord>, spines: seq<string>, leaves: seq<string>,
                       availableIps: seq<string>, supernet: int) returns (c: Cursor)
    requires supernet <= 32
    ensures c == Consume(AllLinks(topo, spines, leaves), availableIps, Pad(supernet))
  {
    ghost var pad := Pad(supernet);
    var avail := availableIps;
    var binds: seq<Binding> := [];
    var si := 0;
    assert spines[..0] == [];
    while si < |spines|
      invariant 0 <= si <= |spines|
      invariant Consume(AllLinks(topo, spines[..si], leaves), availableIps, pad) == Cursor(binds, avail, false)
    {
      ghost var done := AllLinks(topo, spines[..si], leaves);
      ghost var links := SpineLinks(topo, spines[si], leaves);
      ConsumeAppend(done, links, availableIps, pad);
      AllLinksNext(topo, spines, leaves, si);
      var s := ServeSpine(topo, spines[si], leaves, avail, supernet);
      binds := binds + s.binds;
      if s.failed {
        AllLinksPrefix(topo, spines, leaves, si + 1);
        ConsumeFailedPrefix(done + links, AllLinks(topo, spines, leaves), availableIps, pad);
        return Cursor(binds, s.rest, true);
      }
      avail := s.rest;
      si := si + 1;
    }
    assert spines[..si] == spines;
    return Cursor(binds, avail, false);
  }
}
