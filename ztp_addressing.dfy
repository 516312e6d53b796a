/** Sequential last-octet addressing in pn_ztp.py: assign_loopback_ip gives
    the k-th listed vrouter the loopback a.b.c.k, and assign_inband_ip gives
    the k-th listed switch the in-band address a.b.c.k/subnet. */
module ZtpAddressing {
  import opened Results
  import opened Text
  import opened FabricTables

  /** "a.b.c." from the first three dot-separated parts; fewer parts raise
      IndexError. */
  function StaticPart(address: string): (r: Option<string>)
    ensures r.Some? <==> |Split(address, '.')| >= 3
  {
    var parts := Split(address, '.');
    if |parts| < 3 then None else Some(parts[0] + "." + parts[1] + "." + parts[2] + ".")
  }

  /** The address handed out k-th after the static part. */
  function NthAddress(prefix: string, k: nat): string
  {
    prefix + Decimal(k)
  }

  /** The k-th address keeps the first three octets of the given network
      and has k as its fourth, whatever followed the third dot there. */
  lemma NthAddressOctets(address: string, k: nat)
    requires StaticPart(address).Some?
    ensures var p := Split(address, '.');
      Split(NthAddress(StaticPart(address).value, k), '.') == [p[0], p[1], p[2], Decimal(k)]
  {
    var p := Split(address, '.');
    var parts := [p[0], p[1], p[2], Decimal(k)];
    DigitsHaveNo(Decimal(k), '.');
    assert Join(parts, '.') == NthAddress(StaticPart(address).value, k) by {
      assert Join(parts[3..], '.') == Decimal(k);
      assert Join(parts[2..], '.') == p[2] + "." + Decimal(k);
      assert Join(parts[1..], '.') == p[1] + "." + (p[2] + "." + Decimal(k));
    }
    JoinSplit(parts, '.');
  }

  /** Different counters give different addresses. */
  lemma NthAddressInjective(prefix: string, j: nat, k: nat)
    requires NthAddress(prefix, j) == NthAddress(prefix, k)
    ensures j == k
  {
    PrefixCancel(prefix, Decimal(j), Decimal(k));
    DecimalInjective(j, k);
  }

  /** `vrouter-loopback-interface-show ip <ip>`: who holds that loopback. */
  function HoldersOf(ls: seq<Loopback>, ip: string): set<string>
  {
    set l | l in ls && l.ip == ip :: l.vrouter
  }

  /** The loopback loop from counter k on: each vrouter gets the k-th
      address unless it already holds it, and the counter advances either way. */
  function AddLoopbacks(ls: seq<Loopback>, vrouters: seq<string>, prefix: string, k: nat): seq<Loopback>
    decreases |vrouters|
  {
    if vrouters == [] then ls
    else
      var ip := NthAddress(prefix, k);
      var ls' := if vrouters[0] in HoldersOf(ls, ip) then ls else ls + [Loopback(vrouters[0], ip)];
      AddLoopbacks(ls', vrouters[1..], prefix, k + 1)
  }

  lemma HoldersOfMeans(ls: seq<Loopback>, v: string, ip: string)
    ensures v in HoldersOf(ls, ip) <==> Loopback(v, ip) in ls
  {
    if Loopback(v, ip) in ls {
      assert v == Loopback(v, ip).vrouter;
    }
  }

  /** The loopback the loop plans for the j-th vrouter from counter k. */
  predicate Planned(l: Loopback, vrouters: seq<string>, prefix: string, k: nat)
  {
    exists j :: 0 <= j < |vrouters| && l == Loopback(vrouters[j], NthAddress(prefix, k + j))
  }

  /** Nothing held before the loop is lost. */
  lemma {:induction false} AddLoopbacksKeeps(ls: seq<Loopback>, vrouters: seq<string>, prefix: string, k: nat)
    ensures ls <= AddLoopbacks(ls, vrouters, prefix, k)
    decreases |vrouters|
  {
    if vrouters != [] {
      var ip := NthAddress(prefix, k);
      var ls' := if vrouters[0] in HoldersOf(ls, ip) then ls else ls + [Loopback(vrouters[0], ip)];
      AddLoopbacksKeeps(ls', vrouters[1..], prefix, k + 1);
    }
  }

  /** After the loop, vrouter j holds address k + j, whether the loop added
      it or found it. */
  lemma {:induction false} AddLoopbacksHolds(ls: seq<Loopback>, vrouters: seq<string>, prefix: string, k: nat)
    ensures forall j :: 0 <= j < |vrouters| ==>
      Loopback(vrouters[j], NthAddress(prefix, k + j)) in AddLoopbacks(ls, vrouters, prefix, k)
    decreases |vrouters|
  {
    if vrouters != [] {
      var ip := NthAddress(prefix, k);
      HoldersOfMeans(ls, vrouters[0], ip);
      var ls' := if vrouters[0] in HoldersOf(ls, ip) then ls else ls + [Loopback(vrouters[0], ip)];
      AddLoopbacksHolds(ls', vrouters[1..], prefix, k + 1);
      AddLoopbacksKeeps(ls', vrouters[1..], prefix, k + 1);
      var r := AddLoopbacks(ls, vrouters, prefix, k);
      assert Loopback(vrouters[0], ip) in ls';
      forall j | 0 <= j < |vrouters|
        ensures Loopback(vrouters[j], NthAddress(prefix, k + j)) in r
      {
        if j > 0 {
          assert vrouters[1..][j - 1] == vrouters[j];
          assert k + 1 + (j - 1) == k + j;
        }
      }
    }
  }

  /** The loop adds nothing but planned loopbacks. */
  lemma {:induction false} AddLoopbacksOnly(ls: seq<Loopback>, vrouters: seq<string>, prefix: string, k: nat)
    ensures forall l :: l in AddLoopbacks(ls, vrouters, prefix, k) ==> l in ls || Planned(l, vrouters, prefix, k)
    decreases |vrouters|
  {
    if vrouters != [] {
      var ip := NthAddress(prefix, k);
      var ls' := if vrouters[0] in HoldersOf(ls, ip) then ls else ls + [Loopback(vrouters[0], ip)];
      AddLoopbacksOnly(ls', vrouters[1..], prefix, k + 1);
      forall l | l in AddLoopbacks(ls, vrouters, prefix, k)
        ensures l in ls || Planned(l, vrouters, prefix, k)
      {
        if l !in ls {
          if l == Loopback(vrouters[0], ip) {
            assert l == Loopback(vrouters[0], NthAddress(prefix, k + 0));
          } else {
            assert Planned(l, vrouters[1..], prefix, k + 1);
            var j :| 0 <= j < |vrouters[1..]| && l == Loopback(vrouters[1..][j], NthAddress(prefix, k + 1 + j));
            assert l == Loopback(vrouters[j + 1], NthAddress(prefix, k + (j + 1)));
          }
        }
      }
    }
  }

  /** A second run adds nothing: every vrouter already holds its address. */
  lemma {:induction false} AddLoopbacksAgain(ls: seq<Loopback>, vrouters: seq<string>, prefix: string, k: nat)
    requires forall j :: 0 <= j < |vrouters| ==> Loopback(vrouters[j], NthAddress(prefix, k + j)) in ls
    ensures AddLoopbacks(ls, vrouters, prefix, k) == ls
    decreases |vrouters|
  {
    if vrouters != [] {
      HoldersOfMeans(ls, vrouters[0], NthAddress(prefix, k));
      forall j | 0 <= j < |vrouters[1..]|
        ensures Loopback(vrouters[1..][j], NthAddress(prefix, k + 1 + j)) in ls
      {
        assert Loopback(vrouters[j + 1], NthAddress(prefix, k + (j + 1))) in ls;
      }
      AddLoopbacksAgain(ls, vrouters[1..], prefix, k + 1);
    }
  }

  /** assign_loopback_ip on a vrouter listing, in its outcomes. */
  function LoopbackPlan(t: Tables, address: string, vrouters: seq<string>): Result<Tables, Failure>
  {
    match StaticPart(address)
    case None => Err(IndexError)
    case Some(prefix) =>
      if |vrouters| == 0 then Err(Reported("no vrouters present"))
      else if |vrouters| > 255 then Err(Reported("Not enough ips for all the vrouters"))
      else Ok(t.(loopbacks := AddLoopbacks(t.loopbacks, vrouters, prefix, 1)))
  }

  /** The outcomes of assign_loopback_ip: a short address raises, an empty
      or too long listing reports and assigns nothing. */
  lemma LoopbackFailures(t: Tables, address: string, vrouters: seq<string>)
    ensures LoopbackPlan(t, address, vrouters).Err? <==>
      StaticPart(address).None? || |vrouters| == 0 || |vrouters| > 255
    ensures StaticPart(address).None? ==> LoopbackPlan(t, address, vrouters) == Err(IndexError)
    ensures StaticPart(address).Some? && |vrouters| == 0 ==>
      LoopbackPlan(t, address, vrouters) == Err(Reported("no vrouters present"))
    ensures StaticPart(address).Some? && |vrouters| > 255 ==>
      LoopbackPlan(t, address, vrouters) == Err(Reported("Not enough ips for all the vrouters"))
  {
  }

  /** On success the j-th vrouter (from 1) holds a.b.c.j with j <= 255,
      only loopbacks change, nothing held is lost and nothing but those
      addresses is added. */
  lemma LoopbackAssignments(t: Tables, address: string, vrouters: seq<string>)
    requires LoopbackPlan(t, address, vrouters).Ok?
    ensures var t' := LoopbackPlan(t, address, vrouters).value;
      var prefix := StaticPart(address).value;
      t' == t.(loopbacks := t'.loopbacks) && t.loopbacks <= t'.loopbacks
      && (forall j :: 1 <= j <= |vrouters| ==> j <= 255 && Loopback(vrouters[j - 1], NthAddress(prefix, j)) in t'.loopbacks)
      && (forall l :: l in t'.loopbacks ==> (l in t.loopbacks || Planned(l, vrouters, prefix, 1)))
  {
    var prefix := StaticPart(address).value;
    var r := AddLoopbacks(t.loopbacks, vrouters, prefix, 1);
    AddLoopbacksKeeps(t.loopbacks, vrouters, prefix, 1);
    AddLoopbacksHolds(t.loopbacks, vrouters, prefix, 1);
    AddLoopbacksOnly(t.loopbacks, vrouters, prefix, 1);
    forall j | 1 <= j <= |vrouters| ensures Loopback(vrouters[j - 1], NthAddress(prefix, j)) in r {
      assert Loopback(vrouters[j - 1], NthAddress(prefix, 1 + (j - 1))) in r;
    }
  }

  /** Running assign_loopback_ip again on the same listing changes nothing. */
  lemma LoopbackIdempotent(t: Tables, address: string, vrouters: seq<string>)
    requires LoopbackPlan(t, address, vrouters).Ok?
    ensures var t' := LoopbackPlan(t, address, vrouters).value;
      LoopbackPlan(t', address, vrouters) == Ok(t')
  {
    var prefix := StaticPart(address).value;
    var t' := LoopbackPlan(t, address, vrouters).value;
    AddLoopbacksHolds(t.loopbacks, vrouters, prefix, 1);
    AddLoopbacksKeeps(t.loopbacks, vrouters, prefix, 1);
    AddLoopbacksAgain(t'.loopbacks, vrouters, prefix, 1);
  }

  /** assign_loopback_ip: one pass over the vrouter listing with a counter. */
  method AssignLoopbackIp(t: Tables, address: string, vrouters: seq<string>) returns (r: Result<Tables, Failure>)
    ensures r == LoopbackPlan(t, address, vrouters)
  {
    var staticPart := StaticPart(address);
    if staticPart.None? {
      return Err(IndexError);
    }
    var prefix := staticPart.value;
    if |vrouters| == 0 {
      return Err(Reported("no vrouters present"));
    }
    var count := 1;
    if |vrouters| + count - 1 > 255 {
      return Err(Reported("Not enough ips for all the vrouters"));
    }
    var ls := t.loopbacks;
    var i := 0;
    while i < |vrouters|
      invariant 0 <= i <= |vrouters| && count == i + 1
      invariant AddLoopbacks(ls, vrouters[i..], prefix, count) == AddLoopbacks(t.loopbacks, vrouters, prefix, 1)
      decreases |vrouters| - i
    {
      var vrouter := vrouters[i];
      var ip := prefix + Decimal(count);
      var existing := HoldersOf(ls, ip);
      assert vrouters[i..][1..] == vrouters[i + 1..];
      if vrouter !in existing {
        ls := ls + [Loopback(vrouter, ip)];
      }
      count := count + 1;
      i := i + 1;
    }
    r := Ok(t.(loopbacks := ls));
  }

  /** The static part and the subnet of "a.b.c.d/subnet"; a missing fourth
      part or a missing '/' in it raises IndexError. */
  function InbandParts(address: string): (r: Option<(string, string)>)
    ensures r.Some? <==> |Split(address, '.')| >= 4 && |Split(Split(address, '.')[3], '/')| >= 2
    ensures r.Some? ==> Some(r.value.0) == StaticPart(address)
  {
    var parts := Split(address, '.');
    if |parts| < 4 then None
    else
      var last := Split(parts[3], '/');
      if |last| < 2 then None
      else Some((parts[0] + "." + parts[1] + "." + parts[2] + ".", last[1]))
  }

  /** The in-band address handed out k-th. */
  function InbandAddress(prefix: string, k: nat, subnet: string): string
  {
    NthAddress(prefix, k) + "/" + subnet
  }

  /** The in-band settings the loop makes from counter k on, as a map; a
      switch listed twice keeps its later address. */
  function InbandAssigned(switches: seq<string>, prefix: string, subnet: string, k: nat): map<string, string>
    decreases |switches|
  {
    if switches == [] then map[]
    else map[switches[0] := InbandAddress(prefix, k, subnet)] + InbandAssigned(switches[1..], prefix, subnet, k + 1)
  }

  /** Exactly the listed switches get an in-band address. */
  lemma {:induction false} InbandAssignedKeys(switches: seq<string>, prefix: string, subnet: string, k: nat)
    ensures InbandAssigned(switches, prefix, subnet, k).Keys == set s | s in switches
    decreases |switches|
  {
    if switches != [] {
      InbandAssignedKeys(switches[1..], prefix, subnet, k + 1);
      assert forall s :: s in switches <==> s == switches[0] || s in switches[1..];
    }
  }

  /** The in-band loop from counter k on: each switch is modified in turn. */
  function SetInband(m: map<string, string>, switches: seq<string>, prefix: string, subnet: string, k: nat): map<string, string>
    decreases |switches|
  {
    if switches == [] then m
    else SetInband(m[switches[0] := InbandAddress(prefix, k, subnet)], switches[1..], prefix, subnet, k + 1)
  }

  /** The loop overrides exactly the listed switches with their addresses. */
  lemma {:induction false} SetInbandOverrides(m: map<string, string>, switches: seq<string>, prefix: string, subnet: string, k: nat)
    ensures SetInband(m, switches, prefix, subnet, k) == m + InbandAssigned(switches, prefix, subnet, k)
    decreases |switches|
  {
    if switches != [] {
      var m' := m[switches[0] := InbandAddress(prefix, k, subnet)];
      SetInbandOverrides(m', switches[1..], prefix, subnet, k + 1);
      UpdateThenMerge(m, switches[0], InbandAddress(prefix, k, subnet), InbandAssigned(switches[1..], prefix, subnet, k + 1));
    }
  }

  lemma UpdateThenMerge(m: map<string, string>, key: string, v: string, rest: map<string, string>)
    ensures m[key := v] + rest == m + (map[key := v] + rest)
  {
  }

  /** A switch listed at position j (from 0) and not again later gets address k + j. */
  lemma {:induction false} InbandAssignedAt(switches: seq<string>, prefix: string, subnet: string, k: nat, j: nat)
    requires j < |switches| && switches[j] !in switches[j + 1..]
    ensures switches[j] in InbandAssigned(switches, prefix, subnet, k)
      && InbandAssigned(switches, prefix, subnet, k)[switches[j]] == InbandAddress(prefix, k + j, subnet)
    decreases j, 1
  {
    var rest := InbandAssigned(switches[1..], prefix, subnet, k + 1);
    var first := InbandAddress(prefix, k, subnet);
    assert InbandAssigned(switches, prefix, subnet, k) == map[switches[0] := first] + rest;
    if j == 0 {
      assert switches[0] !in switches[1..];
      InbandAssignedKeys(switches[1..], prefix, subnet, k + 1);
      MergeFirst(switches[0], first, rest);
      assert k + 0 == k;
    } else {
      InbandAssignedLater(switches, prefix, subnet, k, j);
    }
  }

  /** A switch after the first keeps the address the rest of the loop gives it. */
  lemma {:induction false} InbandAssignedLater(switches: seq<string>, prefix: string, subnet: string, k: nat, j: nat)
    requires 0 < j < |switches| && switches[j] !in switches[j + 1..]
    ensures switches[j] in InbandAssigned(switches, prefix, subnet, k)
      && InbandAssigned(switches, prefix, subnet, k)[switches[j]] == InbandAddress(prefix, k + j, subnet)
    decreases j, 0
  {
    var later := switches[1..];
    var rest := InbandAssigned(later, prefix, subnet, k + 1);
    var first := InbandAddress(prefix, k, subnet);
    assert InbandAssigned(switches, prefix, subnet, k) == map[switches[0] := first] + rest;
    var x := switches[j];
    LaterSlice(switches, j);
    InbandAssignedAt(later, prefix, subnet, k + 1, j - 1);
    MergeLater(switches[0], first, rest, x);
    assert k + 1 + (j - 1) == k + j;
  }

  lemma LaterSlice(switches: seq<string>, j: nat)
    requires 0 < j < |switches|
    ensures switches[1..][j - 1] == switches[j] && switches[j] in switches[1..]
    ensures switches[1..][j - 1 + 1..] == switches[j + 1..]
  {
  }

  lemma MergeFirst(key: string, v: string, rest: map<string, string>)
    requires key !in rest
    ensures (map[key := v] + rest)[key] == v
  {
  }

  lemma MergeLater(key: string, v: string, rest: map<string, string>, x: string)
    requires x in rest
    ensures (map[key := v] + rest)[x] == rest[x]
  {
  }

  /** assign_inband_ip on a switch listing, in its outcomes. */
  function InbandPlan(t: Tables, address: string, switches: seq<string>): Result<Tables, Failure>
  {
    match InbandParts(address)
    case None => Err(IndexError)
    case Some((prefix, subnet)) =>
      if |switches| == 0 then Err(Reported("No switches present"))
      else if |switches| > 255 then Err(Reported("Not enough inband ips for all the switches"))
      else Ok(t.(inband := SetInband(t.inband, switches, prefix, subnet, 1)))
  }

  /** The outcomes of assign_inband_ip: a malformed address raises, an
      empty or too long listing reports and assigns nothing. */
  lemma InbandFailures(t: Tables, address: string, switches: seq<string>)
    ensures InbandPlan(t, address, switches).Err? <==>
      InbandParts(address).None? || |switches| == 0 || |switches| > 255
    ensures InbandParts(address).None? ==> InbandPlan(t, address, switches) == Err(IndexError)
    ensures InbandParts(address).Some? && |switches| == 0 ==>
      InbandPlan(t, address, switches) == Err(Reported("No switches present"))
    ensures InbandParts(address).Some? && |switches| > 255 ==>
      InbandPlan(t, address, switches) == Err(Reported("Not enough inband ips for all the switches"))
  {
  }

  /** On success every listed switch is set (the j-th, listed once, to
      a.b.c.j/subnet with j <= 255), unlisted switches keep their setting,
      and nothing else changes. */
  lemma InbandAssignments(t: Tables, address: string, switches: seq<string>)
    requires InbandPlan(t, address, switches).Ok?
    ensures var t' := InbandPlan(t, address, switches).value;
      var (prefix, subnet) := InbandParts(address).value;
      t' == t.(inband := t'.inband)
      && t'.inband.Keys == t.inband.Keys + (set s | s in switches)
      && (forall s :: s in t.inband && s !in switches ==> s in t'.inband && t'.inband[s] == t.inband[s])
      && (forall j :: 1 <= j <= |switches| && switches[j - 1] !in switches[j..] ==>
            j <= 255 && switches[j - 1] in t'.inband && t'.inband[switches[j - 1]] == InbandAddress(prefix, j, subnet))
  {
    var (prefix, subnet) := InbandParts(address).value;
    var a := InbandAssigned(switches, prefix, subnet, 1);
    SetInbandOverrides(t.inband, switches, prefix, subnet, 1);
    InbandAssignedKeys(switches, prefix, subnet, 1);
    forall j | 1 <= j <= |switches| && switches[j - 1] !in switches[j..]
      ensures switches[j - 1] in a && a[switches[j - 1]] == InbandAddress(prefix, j, subnet)
    {
      InbandAssignedAt(switches, prefix, subnet, 1, j - 1);
    }
  }

  /** Running assign_inband_ip again on the same listing changes nothing. */
  lemma InbandIdempotent(t: Tables, address: string, switches: seq<string>)
    requires InbandPlan(t, address, switches).Ok?
    ensures var t' := InbandPlan(t, address, switches).value;
      InbandPlan(t', address, switches) == Ok(t')
  {
    var (prefix, subnet) := InbandParts(address).value;
    var a := InbandAssigned(switches, prefix, subnet, 1);
    var t' := InbandPlan(t, address, switches).value;
    SetInbandOverrides(t.inband, switches, prefix, subnet, 1);
    SetInbandOverrides(t'.inband, switches, prefix, subnet, 1);
    assert t.inband + a + a == t.inband + a;
  }

  /** assign_inband_ip: one pass over the switch listing with a counter. */
  method AssignInbandIp(t: Tables, address: string, switches: seq<string>) returns (r: Result<Tables, Failure>)
    ensures r == InbandPlan(t, address, switches)
  {
    var parts := InbandParts(address);
    if parts.None? {
      return Err(IndexError);
    }
    var (prefix, subnet) := parts.value;
    if |switches| == 0 {
      return Err(Reported("No switches present"));
    }
    var count := 1;
    if |switches| + count - 1 > 255 {
      return Err(Reported("Not enough inband ips for all the switches"));
    }
    var m := t.inband;
    var i := 0;
    while i < |switches|
      invariant 0 <= i <= |switches| && count == i + 1
      invariant SetInband(m, switches[i..], prefix, subnet, count) == SetInband(t.inband, switches, prefix, subnet, 1)
      decreases |switches| - i
    {
      assert switches[i..][1..] == switches[i + 1..];
      m := m[switches[i] := prefix + Decimal(count) + "/" + subnet];
      count := count + 1;
      i := i + 1;
    }
    r := Ok(t.(inband := m));
  }
}
