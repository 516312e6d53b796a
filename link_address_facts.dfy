/** What calculate_link_ip_addresses promises about the addresses it lists:
    every sub-block yields `range` consecutive hosts, never a sub-block's own
    network or broadcast address, in strictly ascending order, and the
    strings it renders are pairwise distinct. */
module LinkAddressFacts {
  import opened Results
  import opened Text
  import opened Octets
  import opened LinkAddresses

  /** Host n is position n % range of the (n / range)-th sub-block after i. */
  predicate SubBlockLayout(r: seq<nat>, i: nat, range: nat)
    requires range >= 1
  {
    |r| % range == 0 &&
    forall n :: 0 <= n < |r| ==> r[n] == i + (n / range) * (range + 2) + n % range + 1
  }

  predicate Ascending(r: seq<nat>)
  {
    forall p, q :: 0 <= p < q < |r| ==> r[p] < r[q]
  }

  predicate Above(r: seq<nat>, i: int)
  {
    forall n :: 0 <= n < |r| ==> i < r[n]
  }

  /** No host is the network (h % (range + 2) == 0) or broadcast
      (h % (range + 2) == range + 1) address of its sub-block. */
  predicate StrictlyInside(r: seq<nat>, range: nat)
  {
    forall n :: 0 <= n < |r| ==> 1 <= r[n] % (range + 2) <= range
  }

  predicate Below(r: seq<nat>, last: int)
  {
    forall n :: 0 <= n < |r| ==> r[n] < last
  }

  lemma NextBlockPosition(i: nat, range: nat, n: nat)
    requires range >= 1 && n >= range
    ensures i + range + 2 + ((n - range) / range) * (range + 2) + (n - range) % range + 1
            == i + (n / range) * (range + 2) + n % range + 1
  {
    var m := n - range;
    DivModUnique(n, range, m / range + 1, m % range);
    var q := n / range;
    assert (q - 1) * (range + 2) + (range + 2) == q * (range + 2);
  }

  /** Each sub-block contributes exactly `range` consecutive hosts, and the
      next one starts range + 2 further on. */
  lemma {:induction false} BlocksLayout(i: nat, count: nat, last: int, range: nat)
    requires count <= i && range >= 1
    ensures SubBlockLayout(BlocksFrom(i, count, last, range), i, range)
    decreases last - count
  {
    var r := BlocksFrom(i, count, last, range);
    if count < last {
      var b, rest := Block(i, range), BlocksFrom(i + range + 2, i + range + 2, last, range);
      BlocksLayout(i + range + 2, i + range + 2, last, range);
      assert r == b + rest;
      forall n | 0 <= n < |r|
        ensures r[n] == i + (n / range) * (range + 2) + n % range + 1
      {
        if n < range {
          DivModUnique(n, range, 0, n);
          assert r[n] == b[n];
        } else {
          assert r[n] == rest[n - range];
          NextBlockPosition(i, range, n);
        }
      }
      DivModUnique(|r|, range, |rest| / range + 1, 0);
    }
  }

  /** Sub-block numbers are multiples of range + 2 from the aligned start on,
      so no host is a sub-block network (h % (range + 2) == 0) or broadcast
      (h % (range + 2) == range + 1) address. */
  lemma BlocksAvoidSubBlockEnds(i: nat, count: nat, last: int, range: nat)
    requires count <= i && range >= 1 && i % (range + 2) == 0
    ensures StrictlyInside(BlocksFrom(i, count, last, range), range)
  {
    var r := BlocksFrom(i, count, last, range);
    BlocksLayout(i, count, last, range);
    forall n | 0 <= n < |r|
      ensures 1 <= r[n] % (range + 2) <= range
    {
      var q := i / (range + 2) + n / range;
      assert r[n] == q * (range + 2) + (n % range + 1);
      DivModUnique(r[n], range + 2, q, n % range + 1);
    }
  }

  lemma {:induction false} BlocksAscending(i: nat, count: nat, last: int, range: nat)
    requires count <= i
    ensures Above(BlocksFrom(i, count, last, range), i)
    ensures Ascending(BlocksFrom(i, count, last, range))
    decreases last - count
  {
    var r := BlocksFrom(i, count, last, range);
    if count < last {
      var b, rest := Block(i, range), BlocksFrom(i + range + 2, i + range + 2, last, range);
      BlocksAscending(i + range + 2, i + range + 2, last, range);
      assert r == b + rest;
      forall n | 0 <= n < |r|
        ensures i < r[n] && (n < range ==> r[n] < i + range + 2) && (n >= range ==> r[n] > i + range + 2)
      {
        if n < range {
          assert r[n] == b[n];
        } else {
          assert r[n] == rest[n - range];
        }
      }
    }
  }

  lemma PositiveFactor(x: int, m: int)
    requires m >= 1 && x * m > 0
    ensures x >= 1
  {
  }

  lemma MultipleStep(j: nat, n: nat, m: nat)
    requires m >= 1 && j % m == 0 && n % m == 0 && j < n
    ensures j + m <= n
  {
    var a, b := j / m, n / m;
    assert j == a * m && n == b * m;
    assert (b - a) * m == n - j;
    PositiveFactor(b - a, m);
    assert (a + 1) * m <= b * m;
  }

  /** When last + 1 is a multiple of the sub-block size, no host reaches last. */
  lemma {:induction false} BlocksBelow(i: nat, count: nat, last: nat, range: nat)
    requires count <= i <= last && range >= 1
    requires i % (range + 2) == 0 && (last + 1) % (range + 2) == 0
    ensures Below(BlocksFrom(i, count, last, range), last)
    decreases last - count
  {
    var r := BlocksFrom(i, count, last, range);
    if count < last {
      var b, rest := Block(i, range), BlocksFrom(i + range + 2, i + range + 2, last, range);
      MultipleStep(i, last + 1, range + 2);
      assert r == b + rest;
      if i + range + 2 <= last {
        DivModUnique(i + range + 2, range + 2, i / (range + 2) + 1, 0);
        BlocksBelow(i + range + 2, i + range + 2, last, range);
      } else {
        assert rest == [];
      }
      forall n | 0 <= n < |r|
        ensures r[n] < last
      {
        if n < range {
          assert r[n] == b[n];
        } else {
          assert r[n] == rest[n - range];
        }
      }
    }
  }

  /** Generated addresses in the order the loops list them: third octet
      first, then host. */
  predicate Precedes(a: HostAddr, b: HostAddr)
  {
    a.third < b.third || (a.third == b.third && a.host < b.host)
  }

  predicate StrictlyOrdered(hs: seq<HostAddr>)
  {
    forall p, q :: 0 <= p < q < |hs| ==> Precedes(hs[p], hs[q])
  }

  predicate ThirdsWithin(hs: seq<HostAddr>, lo: int, hi: int)
  {
    forall n :: 0 <= n < |hs| ==> lo <= hs[n].third <= hi
  }

  predicate InsideSubBlocks(hs: seq<HostAddr>, range: nat)
  {
    forall n :: 0 <= n < |hs| ==> 1 <= hs[n].host % (range + 2) <= range
  }

  lemma RowFacts(t: nat, hosts: seq<nat>, range: nat)
    requires Ascending(hosts) && StrictlyInside(hosts, range)
    ensures ThirdsWithin(Row(t, hosts), t, t)
    ensures InsideSubBlocks(Row(t, hosts), range)
    ensures StrictlyOrdered(Row(t, hosts))
  {
  }

  lemma ConcatRows(row: seq<HostAddr>, rest: seq<HostAddr>, t: int, hi: int, range: nat)
    requires ThirdsWithin(row, t, t) && ThirdsWithin(rest, t + 1, hi) && t <= hi
    requires StrictlyOrdered(row) && StrictlyOrdered(rest)
    requires InsideSubBlocks(row, range) && InsideSubBlocks(rest, range)
    ensures ThirdsWithin(row + rest, t, hi)
    ensures InsideSubBlocks(row + rest, range)
    ensures StrictlyOrdered(row + rest)
  {
    var hs := row + rest;
    forall n | 0 <= n < |hs|
      ensures t <= hs[n].third <= hi && 1 <= hs[n].host % (range + 2) <= range
    {
      if n < |row| {
        assert hs[n] == row[n];
      } else {
        assert hs[n] == rest[n - |row|];
      }
    }
    forall p, q | 0 <= p < q < |hs|
      ensures Precedes(hs[p], hs[q])
    {
      if q < |row| {
        assert hs[p] == row[p] && hs[q] == row[q];
      } else if p >= |row| {
        assert hs[p] == rest[p - |row|] && hs[q] == rest[q - |row|];
      } else {
        assert hs[p] == row[p] && hs[q] == rest[q - |row|];
      }
    }
  }

  /** Rows run over ascending third octets t..lastThird; within a row the
      hosts ascend; no host is a sub-block network or broadcast address. */
  lemma {:induction false} HostsShape(t: nat, lastThird: int, i: nat, last: int, range: nat)
    requires range >= 1 && i % (range + 2) == 0
    ensures ThirdsWithin(HostsFrom(t, lastThird, i, last, range), t, lastThird)
    ensures InsideSubBlocks(HostsFrom(t, lastThird, i, last, range), range)
    ensures StrictlyOrdered(HostsFrom(t, lastThird, i, last, range))
    decreases lastThird + 1 - t
  {
    if t <= lastThird {
      var hosts := BlocksFrom(i, 0, last, range);
      BlocksAscending(i, 0, last, range);
      BlocksAvoidSubBlockEnds(i, 0, last, range);
      RowFacts(t, hosts, range);
      HostsShape(t + 1, lastThird, 0, last, range);
      ConcatRows(Row(t, hosts), HostsFrom(t + 1, lastThird, 0, last, range), t, lastThird, range);
    }
  }

  /** Plan's successful result, spelled out. */
  lemma PlanValue(address: seq<Octet>, cidr: nat, supernet: int)
    requires Plan(address, cidr, supernet).Ok?
    ensures 27 <= supernet <= 30 && |address| >= 4 && cidr <= 32
    ensures var range := SupernetRange(supernet).value;
      var network := NetworkOf(address, cidr);
      var broadcast := BroadcastOf(network, cidr);
      Plan(address, cidr, supernet).value
      == AddressPlan(network, broadcast,
                     HostsFrom(network[2], broadcast[2], AlignDown(address[3], range + 2), broadcast[3], range))
  {
  }

  /** The addresses calculate_link_ip_addresses lists run, in strictly
      ascending order, over the third octets network[2]..broadcast[2], and
      none is the network or broadcast address of its /supernet sub-block. */
  lemma PlanHostsOrdered(address: seq<Octet>, cidr: nat, supernet: int)
    requires Plan(address, cidr, supernet).Ok?
    ensures var p := Plan(address, cidr, supernet).value;
      ThirdsWithin(p.hosts, p.network[2], p.broadcast[2])
      && InsideSubBlocks(p.hosts, SupernetRange(supernet).value)
      && StrictlyOrdered(p.hosts)
  {
    var p := Plan(address, cidr, supernet).value;
    PlanValue(address, cidr, supernet);
    var range := SupernetRange(supernet).value;
    var network := NetworkOf(address, cidr);
    var broadcast := BroadcastOf(network, cidr);
    var start := AlignDown(address[3], range + 2);
    AlignedDown(address[3], range + 2);
    HostsShapeOf(p.hosts, network[2], broadcast[2], start, broadcast[3], range);
  }

  lemma HostsShapeOf(hosts: seq<HostAddr>, t: nat, lastThird: int, i: nat, last: int, range: nat)
    requires range >= 1 && i % (range + 2) == 0 && hosts == HostsFrom(t, lastThird, i, last, range)
    ensures ThirdsWithin(hosts, t, lastThird) && InsideSubBlocks(hosts, range) && StrictlyOrdered(hosts)
  {
    HostsShape(t, lastThird, i, last, range);
  }

  lemma {:induction false} Pow2Add(a: nat, b: nat)
    ensures Pow2(a + b) == Pow2(a) * Pow2(b)
    decreases a
  {
    if a > 0 {
      Pow2Add(a - 1, b);
    }
  }

  lemma AlignedDown(a: nat, p: nat)
    requires p >= 1
    ensures (a - a % p) % p == 0 && (a - a % p + p - 1) % p == p - 1
  {
    var q := a / p;
    assert a - a % p == q * p;
    DivModUnique(q * p, p, q, 0);
    DivModUnique(q * p + p - 1, p, q, p - 1);
  }

  lemma OctetBlockDivides(pb: nat)
    requires pb <= 8
    ensures 256 % Pow2(8 - pb) == 0
  {
    Pow2Add(8 - pb, pb);
    assert Pow2(8) == 256;
    DivModUnique(256, Pow2(8 - pb), Pow2(pb), 0);
  }

  /** Octet `a` of an address, with nw and bc the octets of its network and
      broadcast address: nw is `a` with the p - 1 host bits cleared, bc is
      nw with them set. */
  predicate OctetBlock(a: nat, nw: nat, bc: nat, p: nat)
    requires p >= 1
  {
    nw == a - a % p && nw % p == 0 && bc == nw + p - 1 && bc % p == p - 1 && nw <= a <= bc <= 255
  }

  /** An address octet lies in the block [network, network + p - 1] of its
      prefix, which is aligned to p and ends at or below 255. */
  lemma OctetInBlock(a: Octet, cidr: int, k: int)
    ensures OctetBlock(a, BitAnd(a, MaskOctet(cidr, k)),
                       BitAnd(a, MaskOctet(cidr, k)) + Pow2(8 - PrefixBits(cidr, k)) - 1,
                       Pow2(8 - PrefixBits(cidr, k)))
  {
    var pb := PrefixBits(cidr, k);
    var p := Pow2(8 - pb);
    var nw := BitAnd(a, MaskOctet(cidr, k));
    NetworkOctetClearsHostBits(a, cidr, k);
    OctetBlockDivides(pb);
    BlockOfOctet(a, p, nw);
  }

  lemma BlockOfOctet(a: nat, p: nat, nw: nat)
    requires 1 <= p && a < 256 && 256 % p == 0 && nw == a - a % p
    ensures OctetBlock(a, nw, nw + p - 1, p)
  {
    AlignedDown(a, p);
    MultipleStep(nw, 256, p);
  }

  lemma PlanBlockOctet(address: seq<Octet>, cidr: nat, k: nat)
    requires |address| >= 4 && k < 4
    ensures var network := NetworkOf(address, cidr);
      OctetBlock(address[k], network[k], BroadcastOf(network, cidr)[k], Pow2(8 - PrefixBits(cidr, k)))
  {
    var network := NetworkOf(address, cidr);
    OctetInBlock(address[k], cidr, k);
    assert network[k] == BitAnd(address[k], MaskOctet(cidr, k));
  }

  /** Network and broadcast of calculate_link_ip_addresses: every octet of
      the network is the address octet with its host bits cleared, the
      broadcast octet has them all set, and the address lies between them. */
  lemma PlanBlock(address: seq<Octet>, cidr: nat, supernet: int)
    requires Plan(address, cidr, supernet).Ok?
    ensures var pl := Plan(address, cidr, supernet).value;
      forall k :: 0 <= k < 4 ==>
        OctetBlock(address[k], pl.network[k], pl.broadcast[k], Pow2(8 - PrefixBits(cidr, k)))
  {
    PlanValue(address, cidr, supernet);
    forall k | 0 <= k < 4
      ensures var network := NetworkOf(address, cidr);
        OctetBlock(address[k], network[k], BroadcastOf(network, cidr)[k], Pow2(8 - PrefixBits(cidr, k)))
    {
      PlanBlockOctet(address, cidr, k);
    }
  }

  /** The mask has exactly cidr leading one bits: full octets, then one
      partial octet, then empty ones. */
  lemma NetmaskContiguous(cidr: nat)
    requires cidr <= 32
    ensures PrefixBits(cidr, 0) + PrefixBits(cidr, 1) + PrefixBits(cidr, 2) + PrefixBits(cidr, 3) == cidr
    ensures forall k :: 0 <= k < 3 && PrefixBits(cidr, k + 1) > 0 ==> PrefixBits(cidr, k) == 8
  {
  }

  lemma DottedShape(b0: nat, b1: nat, a: HostAddr, suffix: string)
    ensures Dotted(b0, b1, a, suffix)
            == (Decimal(b0) + "." + Decimal(b1) + ".") + (Decimal(a.third) + ['.'] + (Decimal(a.host) + ['/'] + suffix))
  {
  }

  /** Different generated addresses render as different strings. */
  lemma DottedInjective(b0: nat, b1: nat, a: HostAddr, a': HostAddr, suffix: string)
    requires Dotted(b0, b1, a, suffix) == Dotted(b0, b1, a', suffix)
    ensures a == a'
  {
    DottedShape(b0, b1, a, suffix);
    DottedShape(b0, b1, a', suffix);
    PrefixCancel(Decimal(b0) + "." + Decimal(b1) + ".",
                 Decimal(a.third) + ['.'] + (Decimal(a.host) + ['/'] + suffix),
                 Decimal(a'.third) + ['.'] + (Decimal(a'.host) + ['/'] + suffix));
    DigitsHaveNo(Decimal(a.third), '.');
    DigitsHaveNo(Decimal(a'.third), '.');
    SplitAtSeparator(Decimal(a.third), Decimal(a.host) + ['/'] + suffix,
                     Decimal(a'.third), Decimal(a'.host) + ['/'] + suffix, '.');
    DigitsHaveNo(Decimal(a.host), '/');
    DigitsHaveNo(Decimal(a'.host), '/');
    SplitAtSeparator(Decimal(a.host), suffix, Decimal(a'.host), suffix, '/');
    DecimalInjective(a.third, a'.third);
    DecimalInjective(a.host, a'.host);
  }

  /** calculate_link_ip_addresses never lists the same address twice. */
  lemma LinkIpsDistinct(address: seq<Octet>, cidr: nat, supernet: int, supernetStr: string)
    requires LinkIps(address, cidr, supernet, supernetStr).Ok?
    ensures var ips := LinkIps(address, cidr, supernet, supernetStr).value;
      forall p, q :: 0 <= p < q < |ips| ==> ips[p] != ips[q]
  {
    var pl := Plan(address, cidr, supernet).value;
    PlanHostsOrdered(address, cidr, supernet);
    var ips := RenderAll(pl.broadcast[0], pl.broadcast[1], pl.hosts, supernetStr);
    forall p, q | 0 <= p < q < |ips|
      ensures ips[p] != ips[q]
    {
      assert Precedes(pl.hosts[p], pl.hosts[q]);
      if ips[p] == ips[q] {
        DottedInjective(pl.broadcast[0], pl.broadcast[1], pl.hosts[p], pl.hosts[q], supernetStr);
        assert false;
      }
    }
  }

  /** a <= b for two four-octet addresses, most significant octet first;
      for octets below 256 this is the numeric order of 32-bit addresses. */
  predicate AddrLe(a: seq<nat>, b: seq<nat>)
    requires |a| == 4 && |b| == 4
  {
    a[0] < b[0] || (a[0] == b[0] && (a[1] < b[1] || (a[1] == b[1] &&
      (a[2] < b[2] || (a[2] == b[2] && a[3] <= b[3])))))
  }

  /** The four octets of a generated address: the first two copied from the
      broadcast address. */
  function FullAddress(broadcast: seq<nat>, a: HostAddr): seq<nat>
    requires |broadcast| == 4
  {
    [broadcast[0], broadcast[1], a.third, a.host]
  }

  predicate HostsBelow(hs: seq<HostAddr>, last: int)
  {
    forall n :: 0 <= n < |hs| ==> hs[n].host < last
  }

  lemma {:induction false} RowsBelow(t: nat, lastThird: int, i: nat, last: nat, range: nat)
    requires range >= 1 && i <= last
    requires i % (range + 2) == 0 && (last + 1) % (range + 2) == 0
    ensures HostsBelow(HostsFrom(t, lastThird, i, last, range), last)
    decreases lastThird + 1 - t
  {
    if t <= lastThird {
      var hosts := BlocksFrom(i, 0, last, range);
      var row, rest := Row(t, hosts), HostsFrom(t + 1, lastThird, 0, last, range);
      BlocksBelow(i, 0, last, range);
      RowsBelow(t + 1, lastThird, 0, last, range);
      var hs := row + rest;
      forall n | 0 <= n < |hs|
        ensures hs[n].host < last
      {
        if n < |row| {
          assert hs[n] == row[n];
        } else {
          assert hs[n] == rest[n - |row|];
        }
      }
    }
  }

  lemma SubBlockDivides256(supernet: int)
    requires 27 <= supernet <= 30
    ensures 256 % (SupernetRange(supernet).value + 2) == 0
  {
  }

  lemma MultipleOfFactor(x: nat, p: nat, q: nat)
    requires p >= 1 && q >= 1 && x % (p * q) == 0
    ensures x % p == 0
  {
    var k := x / (p * q);
    assert x == (k * q) * p;
    DivModUnique(x, p, k * q, 0);
  }

  lemma AlignedBelow(j: nat, a: nat, m: nat)
    requires m >= 1 && j % m == 0 && j <= a
    ensures j <= a - a % m
  {
    AlignedDown(a, m);
    if j > a - a % m {
      MultipleStep(a - a % m, j, m);
      assert false;
    }
  }

  /** `i = base_addr - base_addr % (supernet_range + 2)`: the first sub-block
      starts at or below the address's last octet, on a sub-block boundary. */
  lemma AlignedStart(a: Octet, range: nat)
    requires range >= 1
    ensures 0 <= a - a % (range + 2) <= a && (a - a % (range + 2)) % (range + 2) == 0
  {
    AlignedDown(a, range + 2);
  }

  /** With a prefix of at most 24 bits the last octet spans 0 .. 255. */
  lemma ShortPrefixLastOctet(address: seq<Octet>, cidr: nat)
    requires |address| >= 4 && cidr <= 24
    ensures var network := NetworkOf(address, cidr);
      network[3] == 0 && BroadcastOf(network, cidr)[3] == 255
  {
    PlanBlockOctet(address, cidr, 3);
    assert PrefixBits(cidr, 3) == 0;
    Pow2Table();
  }

  /** Prefix of at most 24 bits: every row keeps its hosts below 255. */
  lemma WithinBlockShortPrefix(address: seq<Octet>, cidr: nat, supernet: int)
    requires Plan(address, cidr, supernet).Ok? && cidr <= 24
    ensures var pl := Plan(address, cidr, supernet).value;
      forall n :: 0 <= n < |pl.hosts| ==>
        AddrLe(pl.network, FullAddress(pl.broadcast, pl.hosts[n]))
        && AddrLe(FullAddress(pl.broadcast, pl.hosts[n]), pl.broadcast)
  {
    PlanValue(address, cidr, supernet);
    var range := SupernetRange(supernet).value;
    var network := NetworkOf(address, cidr);
    var broadcast := BroadcastOf(network, cidr);
    var start := AlignDown(address[3], range + 2);
    var hosts := HostsFrom(network[2], broadcast[2], start, broadcast[3], range);
    PlanOk(address, cidr, supernet, range, network, broadcast, start);
    PlanBlockOctet(address, cidr, 0);
    PlanBlockOctet(address, cidr, 1);
    PlanHostsOrdered(address, cidr, supernet);
    ShortPrefixLastOctet(address, cidr);
    SubBlockDivides256(supernet);
    AlignedStart(address[3], range);
    RowsBelow(network[2], broadcast[2], start, 255, range);
    RowsInsideBlock(network, broadcast, hosts);
  }

  /** Hosts whose third octet lies between those of network and broadcast,
      in a block whose last octet spans 0 .. 255, lie between the two. */
  lemma RowsInsideBlock(network: seq<nat>, broadcast: seq<nat>, hosts: seq<HostAddr>)
    requires |network| == 4 && |broadcast| == 4
    requires network[0] <= broadcast[0] && network[1] <= broadcast[1]
    requires network[3] == 0 && broadcast[3] == 255
    requires ThirdsWithin(hosts, network[2], broadcast[2]) && HostsBelow(hosts, 255)
    ensures forall n :: 0 <= n < |hosts| ==>
      AddrLe(network, FullAddress(broadcast, hosts[n])) && AddrLe(FullAddress(broadcast, hosts[n]), broadcast)
  {
    forall n | 0 <= n < |hosts|
      ensures AddrLe(network, FullAddress(broadcast, hosts[n]))
      ensures AddrLe(FullAddress(broadcast, hosts[n]), broadcast)
    {
      assert network[2] <= hosts[n].third <= broadcast[2];
      assert hosts[n].host < 255;
    }
  }

  lemma DividesTransitive(x: nat, m: nat, p: nat)
    requires m >= 1 && p >= 1 && p % m == 0 && x % p == 0
    ensures x % m == 0
  {
    DivModUnique(p, m, p / m, 0);
    MultipleOfFactor(x, m, p / m);
  }

  lemma Pow2Divides(i: nat, j: nat)
    requires j <= i
    ensures Pow2(i) % Pow2(j) == 0
  {
    Pow2Add(j, i - j);
    MultipleMod(Pow2(i), Pow2(j), Pow2(i - j));
  }

  lemma MultipleMod(n: int, a: int, b: int)
    requires a >= 1 && n == a * b
    ensures n % a == 0
  {
    DivModUnique(n, a, b, 0);
  }

  /** A /supernet sub-block divides a block of a prefix no longer than it. */
  lemma SubBlockDividesBlock(cidr: nat, supernet: int)
    requires 27 <= supernet <= 30 && cidr <= supernet
    ensures Pow2(32 - cidr) % (SupernetRange(supernet).value + 2) == 0
  {
    Pow2Divides(32 - cidr, 32 - supernet);
  }

  /** The last octet of a block longer than /24: its network and broadcast
      are aligned to every sub-block no longer than the block. */
  lemma LastOctetAligned(nw: nat, bc: nat, p: nat, m: nat)
    requires m >= 1 && p >= 1 && p % m == 0
    requires nw % p == 0 && bc == nw + p - 1
    ensures nw % m == 0 && (bc + 1) % m == 0
  {
    DivModUnique(bc + 1, p, nw / p + 1, 0);
    DividesTransitive(nw, m, p);
    DividesTransitive(bc + 1, m, p);
  }

  lemma SingleRow(t: nat, i: nat, last: int, range: nat)
    ensures HostsFrom(t, t, i, last, range) == Row(t, BlocksFrom(i, 0, last, range))
  {
    assert HostsFrom(t + 1, t, 0, last, range) == [];
  }

  /** A prefix longer than /24 keeps the first three octets whole. */
  lemma LongPrefixUpperOctets(address: seq<Octet>, cidr: nat)
    requires |address| >= 4 && 24 < cidr <= 32
    ensures var network := NetworkOf(address, cidr); var broadcast := BroadcastOf(network, cidr);
      network[0] == broadcast[0] && network[1] == broadcast[1] && network[2] == broadcast[2]
  {
    PlanBlockOctet(address, cidr, 0);
    PlanBlockOctet(address, cidr, 1);
    PlanBlockOctet(address, cidr, 2);
    assert PrefixBits(cidr, 0) == 8 && PrefixBits(cidr, 1) == 8 && PrefixBits(cidr, 2) == 8;
    assert Pow2(0) == 1;
  }

  /** With a prefix longer than /24 the last octet holds the whole block. */
  lemma LongPrefixLastOctet(address: seq<Octet>, cidr: nat)
    requires |address| >= 4 && 24 < cidr <= 32
    ensures var network := NetworkOf(address, cidr);
      OctetBlock(address[3], network[3], BroadcastOf(network, cidr)[3], Pow2(32 - cidr))
  {
    PlanBlockOctet(address, cidr, 3);
    assert 8 - PrefixBits(cidr, 3) == 32 - cidr;
  }

  /** Prefix longer than /24 and no longer than the supernet: the block
      lies within one third octet, and the sub-blocks walked from the
      aligned start stay within its last octet. */
  lemma LongPrefixAlignment(address: seq<Octet>, cidr: nat, supernet: int)
    requires Plan(address, cidr, supernet).Ok? && 24 < cidr <= supernet
    ensures var pl := Plan(address, cidr, supernet).value;
      var m := SupernetRange(supernet).value + 2;
      var start := AlignDown(address[3], m);
      pl.network[0] == pl.broadcast[0] && pl.network[1] == pl.broadcast[1] && pl.network[2] == pl.broadcast[2]
      && pl.network[3] <= start <= pl.broadcast[3]
      && start % m == 0 && (pl.broadcast[3] + 1) % m == 0
  {
    PlanValue(address, cidr, supernet);
    var range := SupernetRange(supernet).value;
    var m := range + 2;
    var network := NetworkOf(address, cidr);
    var broadcast := BroadcastOf(network, cidr);
    var start := AlignDown(address[3], m);
    PlanOk(address, cidr, supernet, range, network, broadcast, start);
    LongPrefixUpperOctets(address, cidr);
    LongPrefixLastOctet(address, cidr);
    SubBlockDividesBlock(cidr, supernet);
    LastOctetAligned(network[3], broadcast[3], Pow2(32 - cidr), m);
    AlignedStart(address[3], range);
    AlignedBelow(network[3], address[3], m);
  }

  /** Prefix longer than /24 and no longer than the supernet: one row, whose
      hosts stay strictly between the last octets of network and broadcast. */
  lemma WithinBlockLongPrefix(address: seq<Octet>, cidr: nat, supernet: int)
    requires Plan(address, cidr, supernet).Ok? && 24 < cidr <= supernet
    ensures var pl := Plan(address, cidr, supernet).value;
      forall n :: 0 <= n < |pl.hosts| ==>
        AddrLe(pl.network, FullAddress(pl.broadcast, pl.hosts[n]))
        && AddrLe(FullAddress(pl.broadcast, pl.hosts[n]), pl.broadcast)
  {
    PlanValue(address, cidr, supernet);
    LongPrefixAlignment(address, cidr, supernet);
    var pl := Plan(address, cidr, supernet).value;
    var range := SupernetRange(supernet).value;
    var start := AlignDown(address[3], range + 2);
    var t := pl.network[2];
    var hosts := BlocksFrom(start, 0, pl.broadcast[3], range);
    SingleRow(t, start, pl.broadcast[3], range);
    assert pl.hosts == Row(t, hosts);
    BlocksAscending(start, 0, pl.broadcast[3], range);
    BlocksBelow(start, 0, pl.broadcast[3], range);
    forall n | 0 <= n < |pl.hosts|
      ensures AddrLe(pl.network, FullAddress(pl.broadcast, pl.hosts[n]))
      ensures AddrLe(FullAddress(pl.broadcast, pl.hosts[n]), pl.broadcast)
    {
      assert pl.hosts[n] == HostAddr(t, hosts[n]);
      assert start < hosts[n] < pl.broadcast[3];
    }
  }

  /** When the supernet is at least as long as the prefix, every address
      calculate_link_ip_addresses lists lies between the network and the
      broadcast address of the /cidr block. */
  lemma HostsWithinBlock(address: seq<Octet>, cidr: nat, supernet: int)
    requires Plan(address, cidr, supernet).Ok? && cidr <= supernet
    ensures var pl := Plan(address, cidr, supernet).value;
      forall n :: 0 <= n < |pl.hosts| ==>
        AddrLe(pl.network, FullAddress(pl.broadcast, pl.hosts[n]))
        && AddrLe(FullAddress(pl.broadcast, pl.hosts[n]), pl.broadcast)
  {
    if cidr <= 24 {
      WithinBlockShortPrefix(address, cidr, supernet);
    } else {
      WithinBlockLongPrefix(address, cidr, supernet);
    }
  }

  /** An octet wholly inside the prefix is kept by the mask. */
  lemma FullOctetKept(a: Octet, cidr: int, k: int)
    requires 8 * k + 8 <= cidr
    ensures BitAnd(a, MaskOctet(cidr, k)) == a
  {
    NetworkOctetClearsHostBits(a, cidr, k);
    assert PrefixBits(cidr, k) == 8 && Pow2(0) == 1;
  }

  /** An octet wholly inside the prefix, or zero, is kept by the mask. */
  lemma OctetKept(a: Octet, cidr: int, k: int)
    requires 8 * k + 8 <= cidr || a == 0
    ensures BitAnd(a, MaskOctet(cidr, k)) == a
  {
    if a != 0 {
      FullOctetKept(a, cidr, k);
    }
  }

  /** An address whose host bits are all zero is its own network. */
  lemma NetworkKeepsAddress(address: seq<Octet>, cidr: int)
    requires |address| == 4 && forall k :: 0 <= k < 4 ==> 8 * k + 8 <= cidr || address[k] == 0
    ensures NetworkOf(address, cidr) == address
  {
    var n := NetworkOf(address, cidr);
    forall k | 0 <= k < 4
      ensures n[k] == address[k]
    {
      OctetKept(address[k], cidr, k);
    }
  }

  /* The worked examples below take their addresses as parameters fixed by
     `requires`, so that the verifier evaluates the recursive definitions
     one step at a time instead of unfolding them on literal arguments. */

  lemma ShortBlockNetwork(address: seq<Octet>)
    requires address == [192, 168, 1, 0]
    ensures NetworkOf(address, 30) == address
  {
    NetworkKeepsAddress(address, 30);
  }

  lemma ShortBlockBroadcast(network: seq<nat>)
    requires network == [192, 168, 1, 0]
    ensures BroadcastOf(network, 30) == [192, 168, 1, 3]
  {
    var b := BroadcastOf(network, 30);
    assert PrefixBits(30, 0) == 8 && PrefixBits(30, 1) == 8 && PrefixBits(30, 2) == 8 && PrefixBits(30, 3) == 6;
    Pow2Table();
    assert b[0] == 192 && b[1] == 168 && b[2] == 1 && b[3] == 3;
  }

  lemma ShortBlockHosts(last: nat, range: nat)
    requires last == 3 && range == 30
    ensures var hs := HostsFrom(1, 1, 0, last, range);
      |hs| == 30 && hs[29] == HostAddr(1, 30)
  {
    assert BlocksFrom(range + 2, range + 2, last, range) == [];
    assert BlocksFrom(0, 0, last, range) == Block(0, range);
    SingleRow(1, 0, last, range);
  }

  /** Nothing checks that the supernet is at least as long as the prefix:
      192.168.1.0/30 with supernet 27 lists 192.168.1.30, beyond the
      block's broadcast address 192.168.1.3. */
  lemma HostsLeaveShortBlock(address: seq<Octet>)
    requires address == [192, 168, 1, 0]
    ensures Plan(address, 30, 27).Ok?
    ensures var pl := Plan(address, 30, 27).value;
      pl.network == [192, 168, 1, 0] && pl.broadcast == [192, 168, 1, 3]
      && |pl.hosts| == 30 && pl.hosts[29] == HostAddr(1, 30)
      && !AddrLe(FullAddress(pl.broadcast, pl.hosts[29]), pl.broadcast)
  {
    var last, range := 3, 30;
    ShortBlockNetwork(address);
    ShortBlockBroadcast(address);
    assert AlignDown(address[3], range + 2) == 0;
    PlanOk(address, 30, 27, range, address, [192, 168, 1, last], 0);
    ShortBlockHosts(last, range);
  }

  lemma Slash24Network(address: seq<Octet>)
    requires address == [192, 168, 1, 0]
    ensures NetworkOf(address, 24) == address
  {
    NetworkKeepsAddress(address, 24);
  }

  lemma Slash24Broadcast(network: seq<nat>)
    requires network == [192, 168, 1, 0]
    ensures BroadcastOf(network, 24) == [192, 168, 1, 255]
  {
    var b := BroadcastOf(network, 24);
    assert PrefixBits(24, 0) == 8 && PrefixBits(24, 1) == 8 && PrefixBits(24, 2) == 8 && PrefixBits(24, 3) == 0;
    Pow2Table();
    assert b[0] == 192 && b[1] == 168 && b[2] == 1 && b[3] == 255;
  }

  lemma Slash24Texts()
    ensures Decimal(192) == "192" && Decimal(168) == "168" && Decimal(1) == "1"
  {
    assert Decimal(19) == "19" && Decimal(16) == "16";
  }

  /** A host of 192.168.1.0/24 below 10, rendered with supernet 30. */
  lemma RenderSlash24(h: nat)
    requires h < 10
    ensures Dotted(192, 168, HostAddr(1, h), "30") == "192.168.1." + [DigitChar(h)] + "/30"
  {
    Slash24Texts();
  }

  lemma Slash24Hosts(last: nat, range: nat)
    requires last == 255 && range == 2
    ensures var hs := HostsFrom(1, 1, 0, last, range);
      |hs| >= 4 && hs[..4] == [HostAddr(1, 1), HostAddr(1, 2), HostAddr(1, 5), HostAddr(1, 6)]
  {
    var r := BlocksFrom(0, 0, last, range);
    var rest := BlocksFrom(8, 8, last, range);
    assert BlocksFrom(4, 4, last, range) == Block(4, range) + rest;
    assert r == Block(0, range) + Block(4, range) + rest;
    SingleRow(1, 0, last, range);
    assert r[0] == 1 && r[1] == 2 && r[2] == 5 && r[3] == 6;
  }

  lemma RenderAt(hs: seq<HostAddr>, n: nat, h: nat, digit: char)
    requires n < |hs| && h < 10 && hs[n] == HostAddr(1, h) && digit == DigitChar(h)
    ensures RenderAll(192, 168, hs, "30")[n] == "192.168.1." + [digit] + "/30"
  {
    RenderSlash24(h);
  }

  /** The first four renderings of hosts .1, .2, .5 and .6 of 192.168.1.0/24. */
  lemma RenderFirstFour(hs: seq<HostAddr>)
    requires |hs| >= 4 && hs[..4] == [HostAddr(1, 1), HostAddr(1, 2), HostAddr(1, 5), HostAddr(1, 6)]
    ensures var ips := RenderAll(192, 168, hs, "30");
      |ips| >= 4 && ips[..4] == ["192.168.1.1/30", "192.168.1.2/30", "192.168.1.5/30", "192.168.1.6/30"]
  {
    assert hs[0] == HostAddr(1, 1) && hs[1] == HostAddr(1, 2) && hs[2] == HostAddr(1, 5) && hs[3] == HostAddr(1, 6);
    RenderAt(hs, 0, 1, '1');
    RenderAt(hs, 1, 2, '2');
    RenderAt(hs, 2, 5, '5');
    RenderAt(hs, 3, 6, '6');
    var ips := RenderAll(192, 168, hs, "30");
    assert ips[0] == "192.168.1.1/30" && ips[1] == "192.168.1.2/30";
    assert ips[2] == "192.168.1.5/30" && ips[3] == "192.168.1.6/30";
  }

  /** 192.168.1.0/24 cut into /30 sub-blocks: the first two sub-blocks give
      192.168.1.1, .2, .5 and .6. */
  lemma Slash24Into30(address: seq<Octet>)
    requires address == [192, 168, 1, 0]
    ensures LinkIps(address, 24, 30, "30").Ok?
    ensures var ips := LinkIps(address, 24, 30, "30").value;
      |ips| >= 4 && ips[..4] == ["192.168.1.1/30", "192.168.1.2/30", "192.168.1.5/30", "192.168.1.6/30"]
  {
    Slash24Network(address);
    Slash24Broadcast(address);
    assert AlignDown(address[3], 4) == 0;
    var broadcast := [192, 168, 1, 255];
    LinkIpsOk(address, 24, 30, "30", 2, address, broadcast, 0);
    Slash24Hosts(255, 2);
    RenderFirstFour(HostsFrom(1, 1, 0, 255, 2));
  }
}
