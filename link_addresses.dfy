/** The point-to-point address generator of pn_ztp.py
    (calculate_link_ip_addresses): carve the /cidr block of an IPv4 address
    into /supernet sub-blocks and list, as "a.b.c.d/supernet" strings, every
    address of every sub-block except the sub-block's own network and
    broadcast address. */
module LinkAddresses {
  import opened Results
  import opened Text
  import opened Octets

  /** Why calculate_link_ip_addresses raises instead of returning a list. */
  datatype PlanError =
    | UnknownSupernet  // KeyError: supernet is not a key of supernet_mapping
    | MissingOctet     // IndexError: the address has fewer than four fields
    | PrefixTooLong    // IndexError: a cidr above 32 indexes mask[4]

  /** supernet_mapping: the usable host count of one /supernet sub-block. */
  function SupernetRange(supernet: int): (r: Option<nat>)
    ensures r.Some? <==> 27 <= supernet <= 30
    ensures r.Some? ==> r.value >= 2 && r.value + 2 == Pow2(32 - supernet)
  {
    if supernet == 30 then Some(2)
    else if supernet == 29 then Some(6)
    else if supernet == 28 then assert Pow2(4) == 16; Some(14)
    else if supernet == 27 then assert Pow2(5) == 32; Some(30)
    else None
  }

  /** A generated address: its third and fourth octet (the first two are
      copied from the block's broadcast address). */
  datatype HostAddr = HostAddr(third: nat, host: nat)

  datatype AddressPlan = AddressPlan(network: seq<nat>, broadcast: seq<nat>, hosts: seq<HostAddr>)

  /** hostmin..hostmax of the sub-block whose network number is i. */
  function Block(i: nat, range: nat): seq<nat>
  {
    seq(range, k requires 0 <= k < range => i + 1 + k)
  }

  /** What `while count < last_ip[3]` appends from the state (i, count). */
  function BlocksFrom(i: nat, count: nat, last: int, range: nat): seq<nat>
    requires count <= i
    decreases last - count
  {
    if count < last then Block(i, range) + BlocksFrom(i + range + 2, i + range + 2, last, range)
    else []
  }

  /** The generated addresses of one third octet. */
  function Row(third: nat, hosts: seq<nat>): seq<HostAddr>
  {
    seq(|hosts|, k requires 0 <= k < |hosts| => HostAddr(third, hosts[k]))
  }

  /** What `while third_octet <= last_ip[2]` produces from third octet t,
      with i the sub-block the row starts at. */
  function HostsFrom(t: nat, lastThird: int, i: nat, last: int, range: nat): seq<HostAddr>
    decreases lastThird + 1 - t
  {
    if t <= lastThird then Row(t, BlocksFrom(i, 0, last, range)) + HostsFrom(t + 1, lastThird, 0, last, range)
    else []
  }

  function MaskOf(cidr: int): seq<nat>
  {
    seq(4, k requires 0 <= k < 4 => MaskOctet(cidr, k))
  }

  function NetworkOf(address: seq<Octet>, cidr: int): seq<nat>
    requires |address| >= 4
  {
    seq(4, k requires 0 <= k < 4 => BitAnd(address[k], MaskOctet(cidr, k)))
  }

  function BroadcastOf(network: seq<nat>, cidr: int): seq<nat>
    requires |network| == 4
  {
    seq(4, k requires 0 <= k < 4 => network[k] + Pow2(8 - PrefixBits(cidr, k)) - 1)
  }

  /** x rounded down to a multiple of m: the sub-block x lies in. */
  function AlignDown(x: nat, m: nat): (r: nat)
    requires m >= 1
    ensures r <= x
  {
    ModAtMost(x, m);
    x - x % m
  }

  /** Network, broadcast and generated addresses of calculate_link_ip_addresses,
      or the exception it raises. */
  function Plan(address: seq<Octet>, cidr: nat, supernet: int): (r: Result<AddressPlan, PlanError>)
    ensures r == Err(UnknownSupernet) <==> !(27 <= supernet <= 30)
    ensures r == Err(MissingOctet) <==> 27 <= supernet <= 30 && |address| < 4
    ensures r == Err(PrefixTooLong) <==> 27 <= supernet <= 30 && |address| >= 4 && cidr > 32
    ensures r.Ok? ==> |r.value.network| == 4 && |r.value.broadcast| == 4
  {
    match SupernetRange(supernet)
    case None => Err(UnknownSupernet)
    case Some(range) =>
      if |address| < 4 then Err(MissingOctet)
      else if cidr > 32 then Err(PrefixTooLong)
      else
        var network := NetworkOf(address, cidr);
        var broadcast := BroadcastOf(network, cidr);
        var start := AlignDown(address[3], range + 2);
        Ok(AddressPlan(network, broadcast, HostsFrom(network[2], broadcast[2], start, broadcast[3], range)))
  }

  /** str(b0) + '.' + str(b1) + '.' + str(third) + '.' + str(host) + "/" + supernet_str */
  function Dotted(b0: nat, b1: nat, a: HostAddr, suffix: string): string
  {
    Decimal(b0) + "." + Decimal(b1) + "." + Decimal(a.third) + "." + Decimal(a.host) + "/" + suffix
  }

  function RenderAll(b0: nat, b1: nat, hosts: seq<HostAddr>, suffix: string): seq<string>
  {
    seq(|hosts|, n requires 0 <= n < |hosts| => Dotted(b0, b1, hosts[n], suffix))
  }

  /** The list calculate_link_ip_addresses returns, or the exception it raises. */
  function LinkIps(address: seq<Octet>, cidr: nat, supernet: int, supernetStr: string): Result<seq<string>, PlanError>
  {
    match Plan(address, cidr, supernet)
    case Err(e) => Err(e)
    case Ok(plan) => Ok(RenderAll(plan.broadcast[0], plan.broadcast[1], plan.hosts, supernetStr))
  }

  lemma RenderAllAppend(b0: nat, b1: nat, xs: seq<HostAddr>, ys: seq<HostAddr>, suffix: string)
    ensures RenderAll(b0, b1, xs + ys, suffix) == RenderAll(b0, b1, xs, suffix) + RenderAll(b0, b1, ys, suffix)
  {
  }

  /** In octet q = i / 8 itself, bit i of the prefix is bit 7 - i % 8. */
  lemma MaskBitOwnOctet(i: nat, next: nat, k: int)
    requires i < 32 && next == i + 1 && k == i / 8
    ensures MaskOctet(next, k) == MaskOctet(i, k) + Pow2(7 - i % 8)
  {
    var b := i % 8;
    assert PrefixBits(next, k) == b + 1 && PrefixBits(i, k) == b;
    TopBitsOctetStep(b);
  }

  /** Bit i of the prefix leaves every other octet alone. */
  lemma MaskBitOtherOctet(i: nat, next: nat, k: int)
    requires i < 32 && next == i + 1 && 0 <= k < 4 && k != i / 8
    ensures MaskOctet(next, k) == MaskOctet(i, k)
  {
    assert PrefixBits(next, k) == PrefixBits(i, k);
  }

  /** One round of the mask loop, at bit i, sets bit 7 - i % 8 of octet i / 8. */
  lemma MaskOfStep(i: nat, next: nat)
    requires i < 32 && next == i + 1
    ensures forall k :: 0 <= k < 4 ==>
      MaskOctet(next, k) == MaskOctet(i, k) + (if k == i / 8 then Pow2(7 - i % 8) else 0)
  {
    forall k | 0 <= k < 4
      ensures MaskOctet(next, k) == MaskOctet(i, k) + (if k == i / 8 then Pow2(7 - i % 8) else 0)
    {
      if k == i / 8 {
        MaskBitOwnOctet(i, next, k);
      } else {
        MaskBitOtherOctet(i, next, k);
      }
    }
  }

  /** One round of the mask loop keeps the mask in step with the bits set. */
  lemma MaskRound(mask: seq<nat>, i: nat, next: nat, updated: seq<nat>)
    requires i < 32 && next == i + 1
    requires |mask| == 4 && forall k :: 0 <= k < 4 ==> mask[k] == MaskOctet(i, k)
    requires updated == mask[i / 8 := mask[i / 8] + Pow2(7 - i % 8)]
    ensures |updated| == 4 && forall k :: 0 <= k < 4 ==> updated[k] == MaskOctet(next, k)
  {
    MaskOfStep(i, next);
  }

  /** Four octets that agree with the mask octets are the mask. */
  lemma MaskOfMeans(mask: seq<nat>, cidr: int)
    requires |mask| == 4 && forall k :: 0 <= k < 4 ==> mask[k] == MaskOctet(cidr, k)
    ensures mask == MaskOf(cidr)
  {
  }

  /** How many of the low j bits of a 32-bit address fall in octet k. */
  function HostBits(j: int, k: int): (r: nat)
    ensures r <= 8
  {
    var bits := j - 8 * (3 - k);
    if bits < 0 then 0 else if bits > 8 then 8 else bits
  }

  /** The octet whose low h bits are set, for h = 0 .. 8. */
  const LowBitsOctet: seq<nat> := [0, 1, 3, 7, 15, 31, 63, 127, 255]

  /** The bits of octet k that are set once the low j bits of the 32-bit
      address have been set. */
  function LowOnes(j: int, k: int): nat
  {
    LowBitsOctet[HostBits(j, k)]
  }

  lemma LowBitsOctetStep(h: nat)
    requires h < 8
    ensures LowBitsOctet[h + 1] == LowBitsOctet[h] + Pow2(h)
  {
    Pow2Table();
  }

  lemma LowBitsOctetValue(h: nat)
    requires h <= 8
    ensures LowBitsOctet[h] == Pow2(h) - 1
  {
    Pow2Table();
  }

  /** Host bit j, in octet 3 - j / 8, is bit j % 8 of that octet. */
  lemma HostBitOwnOctet(j: nat, next: nat, k: int)
    requires j < 32 && next == j + 1 && k == 3 - j / 8
    ensures LowOnes(next, k) == LowOnes(j, k) + Pow2(j % 8)
  {
    assert HostBits(next, k) == j % 8 + 1 && HostBits(j, k) == j % 8;
    LowBitsOctetStep(j % 8);
  }

  /** Host bit j leaves every other octet alone. */
  lemma HostBitOtherOctet(j: nat, next: nat, k: int)
    requires j < 32 && next == j + 1 && 0 <= k < 4 && k != 3 - j / 8
    ensures LowOnes(next, k) == LowOnes(j, k)
  {
    assert HostBits(next, k) == HostBits(j, k);
  }

  lemma LowOnesStart(k: int)
    requires 0 <= k < 4
    ensures LowOnes(0, k) == 0
  {
    assert HostBits(0, k) == 0;
  }

  lemma LowOnesEnd(cidr: nat, k: int)
    requires cidr <= 32
    ensures LowOnes(32 - cidr, k) == Pow2(8 - PrefixBits(cidr, k)) - 1
  {
    assert HostBits(32 - cidr, k) == 8 - PrefixBits(cidr, k);
    LowBitsOctetValue(8 - PrefixBits(cidr, k));
  }

  lemma NoPrefixBits(k: int)
    requires 0 <= k < 4
    ensures PrefixBits(0, k) == 0
  {
  }

  lemma MaskOctetZero(k: int)
    requires 0 <= k < 4
    ensures MaskOctet(0, k) == 0
  {
    NoPrefixBits(k);
  }

  lemma MaskOfZero()
    ensures forall k :: 0 <= k < 4 ==> MaskOctet(0, k) == 0
  {
    forall k | 0 <= k < 4
      ensures MaskOctet(0, k) == 0
    {
      MaskOctetZero(k);
    }
  }

  /** The netmask loop of calculate_link_ip_addresses: one prefix bit at a
      time; None where mask[i / 8] runs past the fourth octet. */
  method Netmask(cidr: nat) returns (r: Option<seq<nat>>)
    ensures r.Some? <==> cidr <= 32
    ensures r.Some? ==> r.value == MaskOf(cidr)
  {
    var mask: seq<nat> := [0, 0, 0, 0];
    var i := 0;
    MaskOfZero();
    while i < cidr
      invariant 0 <= i <= cidr && i <= 32
      invariant |mask| == 4 && forall k :: 0 <= k < 4 ==> mask[k] == MaskOctet(i, k)
    {
      if i / 8 >= 4 {
        return None;
      }
      var updated := mask[i / 8 := mask[i / 8] + Pow2(7 - i % 8)];
      MaskRound(mask, i, i + 1, updated);
      mask := updated;
      i := i + 1;
    }
    MaskOfMeans(mask, cidr);
    return Some(mask);
  }

  /** The broadcast loop after its first j rounds: octet k has gained the
      host bits of its own that lie below bit j. */
  predicate BroadcastAfter(broadcast: seq<nat>, network: seq<nat>, j: int)
    requires |network| == 4
  {
    |broadcast| == 4 && forall k :: 0 <= k < 4 ==> broadcast[k] == network[k] + LowOnes(j, k)
  }

  /** One round of the broadcast loop sets host bit j. */
  lemma BroadcastRound(network: seq<nat>, broadcast: seq<nat>, j: nat, next: nat, updated: seq<nat>)
    requires |network| == 4 && j < 32 && next == j + 1
    requires BroadcastAfter(broadcast, network, j)
    requires updated == broadcast[3 - j / 8 := broadcast[3 - j / 8] + Pow2(j % 8)]
    ensures BroadcastAfter(updated, network, next)
  {
    forall k | 0 <= k < 4
      ensures updated[k] == network[k] + LowOnes(next, k)
    {
      if k == 3 - j / 8 {
        HostBitOwnOctet(j, next, k);
      } else {
        HostBitOtherOctet(j, next, k);
      }
    }
  }

  lemma BroadcastStart(network: seq<nat>)
    requires |network| == 4
    ensures BroadcastAfter(network, network, 0)
  {
    forall k | 0 <= k < 4
      ensures network[k] == network[k] + LowOnes(0, k)
    {
      LowOnesStart(k);
    }
  }

  lemma BroadcastEnd(network: seq<nat>, broadcast: seq<nat>, cidr: nat)
    requires |network| == 4 && cidr <= 32
    requires BroadcastAfter(broadcast, network, 32 - cidr)
    ensures broadcast == BroadcastOf(network, cidr)
  {
    var c := BroadcastOf(network, cidr);
    forall k | 0 <= k < 4
      ensures broadcast[k] == c[k]
    {
      LowOnesEnd(cidr, k);
    }
  }

  /** The broadcast loop: set the 32 - cidr host bits, one at a time. */
  method Broadcast(network: seq<nat>, cidr: nat) returns (broadcast: seq<nat>)
    requires |network| == 4 && cidr <= 32
    ensures broadcast == BroadcastOf(network, cidr)
  {
    BroadcastStart(network);
    broadcast := network;
    var j := 0;
    while j < 32 - cidr
      invariant 0 <= j <= 32 - cidr
      invariant BroadcastAfter(broadcast, network, j)
    {
      var updated := broadcast[3 - j / 8 := broadcast[3 - j / 8] + Pow2(j % 8)];
      BroadcastRound(network, broadcast, j, j + 1, updated);
      broadcast := updated;
      j := j + 1;
    }
    BroadcastEnd(network, broadcast, cidr);
  }

  /** One more host number extends a block by one. */
  lemma BlockSnoc(i: nat, n: nat)
    ensures Block(i, n) + [i + 1 + n] == Block(i, n + 1)
  {
  }

  /** The `while hostmin <= hostmax` loop: append the hosts of sub-block i. */
  method AppendBlock(ipsList: seq<nat>, i: nat, range: nat) returns (r: seq<nat>)
    ensures r == ipsList + Block(i, range)
  {
    r := ipsList;
    var hostmin := i + 1;
    var hostmax := hostmin + range - 1;
    while hostmin <= hostmax
      invariant i + 1 <= hostmin <= hostmax + 1
      invariant r == ipsList + Block(i, hostmin - i - 1)
    {
      BlockSnoc(i, hostmin - i - 1);
      r := r + [hostmin];
      hostmin := hostmin + 1;
    }
  }

  /** One pass of `while count < last_ip[3]` moves sub-block i's hosts
      from what is still to come onto the list. */
  lemma BlocksFromStep(before: seq<nat>, i: nat, count: nat, last: int, range: nat)
    requires count <= i && count < last
    ensures before + BlocksFrom(i, count, last, range)
      == (before + Block(i, range)) + BlocksFrom(i + range + 2, i + range + 2, last, range)
  {
    var rest := BlocksFrom(i + range + 2, i + range + 2, last, range);
    assert BlocksFrom(i, count, last, range) == Block(i, range) + rest;
    assert before + (Block(i, range) + rest) == (before + Block(i, range)) + rest;
  }

  /** The `while count < last_ip[3]` loop: the host numbers of one third
      octet, starting at sub-block i. */
  method SubBlockHosts(i: nat, last: int, range: nat) returns (ipsList: seq<nat>)
    ensures ipsList == BlocksFrom(i, 0, last, range)
  {
    var i, count := i, 0;
    ipsList := [];
    ghost var rowStart := i;
    while count < last
      invariant count <= i
      invariant ipsList + BlocksFrom(i, count, last, range) == BlocksFrom(rowStart, 0, last, range)
      decreases last - count
    {
      ghost var before := ipsList;
      ipsList := AppendBlock(ipsList, i, range);
      BlocksFromStep(before, i, count, last, range);
      i := i + range + 2;
      count := i;
    }
  }

  /** The `while list_index < len(ips_list)` loop: format one third octet's hosts. */
  method FormatRow(b0: nat, b1: nat, third: nat, ipsList: seq<nat>, supernetStr: string) returns (ips: seq<string>)
    ensures ips == RenderAll(b0, b1, Row(third, ipsList), supernetStr)
  {
    ips := [];
    var listIndex := 0;
    while listIndex < |ipsList|
      invariant 0 <= listIndex <= |ipsList|
      invariant ips == RenderAll(b0, b1, Row(third, ipsList[..listIndex]), supernetStr)
    {
      ips := ips + [Dotted(b0, b1, HostAddr(third, ipsList[listIndex]), supernetStr)];
      listIndex := listIndex + 1;
    }
    assert ipsList[..listIndex] == ipsList;
  }

  /** The `while third_octet <= last_ip[2]` loop: the rows of every third
      octet from `first` on, the first row starting at sub-block `start`. */
  method AllRows(b0: nat, b1: nat, first: nat, lastThird: nat, start: nat, last: nat, range: nat, supernetStr: string)
    returns (availableIps: seq<string>)
    ensures availableIps == RenderAll(b0, b1, HostsFrom(first, lastThird, start, last, range), supernetStr)
  {
    var i := start;
    var thirdOctet := first;
    availableIps := [];
    while thirdOctet <= lastThird
      invariant first <= thirdOctet
      invariant thirdOctet == first ==> i == start
      invariant thirdOctet != first ==> i == 0
      invariant availableIps + RenderAll(b0, b1, HostsFrom(thirdOctet, lastThird, i, last, range), supernetStr)
                == RenderAll(b0, b1, HostsFrom(first, lastThird, start, last, range), supernetStr)
      decreases lastThird + 1 - thirdOctet
    {
      var ipsList := SubBlockHosts(i, last, range);
      var rowIps := FormatRow(b0, b1, thirdOctet, ipsList, supernetStr);
      RenderAllAppend(b0, b1, Row(thirdOctet, ipsList), HostsFrom(thirdOctet + 1, lastThird, 0, last, range), supernetStr);
      availableIps := availableIps + rowIps;
      i := 0;
      thirdOctet := thirdOctet + 1;
    }
    assert availableIps + [] == availableIps;
  }

  /** The `for` loop that ANDs each address field with its mask octet. */
  method NetworkAddress(address: seq<Octet>, cidr: nat, mask: seq<nat>) returns (network: seq<nat>)
    requires |address| >= 4 && mask == MaskOf(cidr)
    ensures network == NetworkOf(address, cidr)
  {
    network := [];
    var k := 0;
    while k < 4
      invariant 0 <= k <= 4 && |network| == k
      invariant forall j :: 0 <= j < k ==> network[j] == BitAnd(address[j], mask[j])
    {
      network := network + [BitAnd(address[k], mask[k])];
      k := k + 1;
    }
  }

  /** Plan's result once the supernet, the address and the prefix have
      passed their checks. */
  lemma PlanOk(address: seq<Octet>, cidr: nat, supernet: int, range: nat,
               network: seq<nat>, broadcast: seq<nat>, start: nat)
    requires SupernetRange(supernet) == Some(range) && |address| >= 4 && cidr <= 32
    requires network == NetworkOf(address, cidr) && broadcast == BroadcastOf(network, cidr)
    requires start == AlignDown(address[3], range + 2)
    ensures Plan(address, cidr, supernet)
      == Ok(AddressPlan(network, broadcast, HostsFrom(network[2], broadcast[2], start, broadcast[3], range)))
  {
  }

  /** The list LinkIps returns once the supernet, the address and the prefix
      have passed their checks. */
  lemma LinkIpsOk(address: seq<Octet>, cidr: nat, supernet: int, supernetStr: string, range: nat,
                  network: seq<nat>, broadcast: seq<nat>, start: nat)
    requires SupernetRange(supernet) == Some(range) && |address| >= 4 && cidr <= 32
    requires network == NetworkOf(address, cidr) && broadcast == BroadcastOf(network, cidr)
    requires start == AlignDown(address[3], range + 2)
    ensures LinkIps(address, cidr, supernet, supernetStr)
      == Ok(RenderAll(broadcast[0], broadcast[1], HostsFrom(network[2], broadcast[2], start, broadcast[3], range), supernetStr))
  {
    PlanOk(address, cidr, supernet, range, network, broadcast, start);
  }

  lemma LinkIpsErr(address: seq<Octet>, cidr: nat, supernet: int, supernetStr: string, e: PlanError)
    requires e == UnknownSupernet ==> !(27 <= supernet <= 30)
    requires e == MissingOctet ==> 27 <= supernet <= 30 && |address| < 4
    requires e == PrefixTooLong ==> 27 <= supernet <= 30 && |address| >= 4 && cidr > 32
    ensures LinkIps(address, cidr, supernet, supernetStr) == Err(e)
  {
    assert Plan(address, cidr, supernet) == Err(e);
  }

  /** The rest of calculate_link_ip_addresses once the netmask is known:
      the network and broadcast addresses, then the listed addresses. */
  method AddressesInBlock(address: seq<Octet>, cidr: nat, supernet: int, range: nat, mask: seq<nat>, supernetStr: string)
    returns (availableIps: seq<string>)
    requires SupernetRange(supernet) == Some(range) && |address| >= 4 && cidr <= 32 && mask == MaskOf(cidr)
    ensures LinkIps(address, cidr, supernet, supernetStr) == Ok(availableIps)
  {
    var baseAddr := address[3];
    var network := NetworkAddress(address, cidr, mask);
    var lastIp := Broadcast(network, cidr);
    var diff := baseAddr % (range + 2);
    ModAtMost(baseAddr, range + 2);
    LinkIpsOk(address, cidr, supernet, supernetStr, range, network, lastIp, baseAddr - diff);
    availableIps := AllRows(lastIp[0], lastIp[1], network[2], lastIp[2], baseAddr - diff, lastIp[3], range, supernetStr);
  }

  /** calculate_link_ip_addresses. */
  method CalculateLinkIpAddresses(address: seq<Octet>, cidr: nat, supernet: int, supernetStr: string)
    returns (r: Result<seq<string>, PlanError>)
    ensures r == LinkIps(address, cidr, supernet, supernetStr)
  {
    var supernetRange := SupernetRange(supernet);
    if supernetRange.None? {
      LinkIpsErr(address, cidr, supernet, supernetStr, UnknownSupernet);
      return Err(UnknownSupernet);
    }
    var range := supernetRange.value;
    if |address| < 4 {
      LinkIpsErr(address, cidr, supernet, supernetStr, MissingOctet);
      return Err(MissingOctet);
    }
    var maybeMask := Netmask(cidr);
    if maybeMask.None? {
      LinkIpsErr(address, cidr, supernet, supernetStr, PrefixTooLong);
      return Err(PrefixTooLong);
    }
    var availableIps := AddressesInBlock(address, cidr, supernet, range, maybeMask.value, supernetStr);
    return Ok(availableIps);
  }
}
