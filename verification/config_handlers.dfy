/** The next-address logic of the `/config` handlers: `apiGetConfig` over
    the configured subnet and `GetConfig` over the fixed 10.0.0.0/24. */
module ConfigHandlers {
  import opened Outcomes
  import opened AddressPool
  import opened Records

  /** The `nextAvailableIp4` field, or the panic of `ips[1:]` on an empty
      candidate list. */
  datatype NextAddress = Offered(ip4: IpText) | SlicePanic

  /** The empty string the handlers report when the slice is empty. */
  const NoAddress: IpText := Other("")

  /** 10.0.0.0, the subnet `api/config.go` hard-codes with prefix 24. */
  const TenNet: Ipv4 := 0x0A00_0000

  const DefaultSubnet: Cidr := Cidr(TenNet, 24)

  /** `x` is the first element of `ips` that is not held. */
  ghost predicate FirstFree(ips: seq<IpText>, held: seq<IpText>, x: IpText)
  {
    exists i :: 0 <= i < |ips| && ips[i] == x && x !in held
      && forall k :: 0 <= k < i ==> ips[k] in held
  }

  lemma {:induction false} FilterHead(s: seq<IpText>, excluded: seq<IpText>)
    requires |Filter(s, excluded)| > 0
    ensures FirstFree(s, excluded, Filter(s, excluded)[0])
    decreases |s|
  {
    if s[0] in excluded {
      FilterHead(s[1..], excluded);
      var i :| 0 <= i < |s[1..]| && s[1..][i] == Filter(s, excluded)[0]
                && forall k :: 0 <= k < i ==> s[1..][k] in excluded;
      assert s[i + 1] == Filter(s, excluded)[0];
      assert forall k :: 0 <= k < i + 1 ==> s[k] in excluded by {
        forall k | 0 <= k < i + 1
          ensures s[k] in excluded
        {
          if k > 0 {
            assert s[k] == s[1..][k - 1];
          }
        }
      }
    } else {
      assert s[0] == Filter(s, excluded)[0];
    }
  }

  /** The selection `apiGetConfig` and `GetConfig` share: keep the first
      candidate for the gateway (`ips[1:]`, which panics on an empty list),
      call `remove` for every held string while discarding its result,
      then report `ips[0]`, or "" for an empty slice. */
  function SelectNext(ips: seq<IpText>, held: seq<IpText>): (r: NextAddress)
    ensures r.SlicePanic? <==> |ips| == 0
    ensures |ips| == 1 ==> r == Offered(NoAddress)
  {
    if |ips| == 0 then SlicePanic
    else
      var arr := DiscardAll(ips[1..], held);
      if |arr| > 0 then Offered(arr[0]) else Offered(NoAddress)
  }

  /** Over candidates without duplicates, `SelectNext` offers a candidate
      above the gateway: the first free one while one is free, otherwise
      one that is held. */
  lemma SelectNextOffers(ips: seq<IpText>, held: seq<IpText>)
    requires |ips| >= 2 && Distinct(ips)
    ensures var r := SelectNext(ips, held);
            && r.Offered? && r.ip4 in ips[1..]
            && ((exists k :: 1 <= k < |ips| && ips[k] !in held) ==> FirstFree(ips[1..], held, r.ip4))
            && ((forall k :: 1 <= k < |ips| ==> ips[k] in held) ==> r.ip4 in held)
  {
    LiveSlice(ips, held);
    var cands := ips[1..];
    if exists k :: 1 <= k < |ips| && ips[k] !in held {
      var k :| 1 <= k < |ips| && ips[k] !in held;
      assert cands[k - 1] !in held;
    } else {
      assert forall k :: 0 <= k < |cands| ==> cands[k] == ips[k + 1];
    }
  }

  /** After the loop, the slice holding the candidates is as long as before
      and its live prefix is the unassigned candidates. */
  lemma LiveSlice(ips: seq<IpText>, held: seq<IpText>)
    requires |ips| >= 1 && Distinct(ips)
    ensures var cands := ips[1..];
            var arr := DiscardAll(cands, held);
            var live := Filter(cands, held);
            && |arr| == |cands|
            && |live| <= |arr| && arr[..|live|] == live
            && (forall i :: 0 <= i < |arr| ==> arr[i] in cands)
            && (|live| > 0 ==> FirstFree(cands, held, arr[0]))
            && (|live| == 0 ==> forall k :: 0 <= k < |cands| ==> cands[k] in held)
  {
    var cands := ips[1..];
    assert Distinct(cands);
    FilterNone(cands, []);
    LivePrefix(cands, cands, [], held);
    assert [] + held == held;
    var live := Filter(cands, held);
    if |live| > 0 {
      FilterHead(cands, held);
    }
  }

  lemma HostsDistinct(lo: nat, n: nat)
    requires lo + n <= AddressSpace
    ensures Distinct(Hosts(lo, n))
  {
  }

  /** Some address in `lo .. hi - 1` is not held. */
  ghost predicate SomeFree(lo: nat, hi: nat, held: seq<IpText>)
  {
    exists a: Ipv4 :: lo <= a < hi && HostRoute(a) !in held
  }

  /** Every address in `lo .. hi - 1` is held. */
  ghost predicate AllHeld(lo: nat, hi: nat, held: seq<IpText>)
  {
    forall a: Ipv4 :: lo <= a < hi ==> HostRoute(a) in held
  }

  /** The next address for a subnet: the lowest candidate above the gateway
      that no client holds; a stale, already-held candidate when every one
      is held; a panic when the subnet has no candidates at all. */
  function NextFromSubnet(subnet: Option<Cidr>, held: seq<IpText>): (r: NextAddress)
    ensures r.SlicePanic? <==> subnet.None? || BlockSize(subnet.value.prefix) <= 2
    ensures subnet.Some? && BlockSize(subnet.value.prefix) > 2 ==>
              var n := Network(subnet.value);
              var b := BlockSize(subnet.value.prefix);
              && r.Offered? && r.ip4.HostRoute?
              && n + 2 <= r.ip4.addr < n + b - 1
              && (SomeFree(n + 2, n + b - 1, held) ==>
                    r.ip4 !in held && AllHeld(n + 2, r.ip4.addr, held))
              && (AllHeld(n + 2, n + b - 1, held) ==> r.ip4 in held)
  {
    var ips := FindAvailableIps(subnet);
    if subnet.Some? && BlockSize(subnet.value.prefix) > 2 then
      var c := subnet.value;
      var n := Network(c);
      var b := BlockSize(c.prefix);
      assert ips == Hosts(n + 1, b - 2);
      BlockSizeAboveTwo(c.prefix);
      SelectOverHosts(n, b, held);
      SelectNext(ips, held)
    else
      assert ips == [];
      SelectNext(ips, held)
  }

  /** A prefix leaving more than two addresses leaves at least four. */
  lemma BlockSizeAboveTwo(p: Prefix)
    ensures BlockSize(p) > 2 ==> BlockSize(p) >= 4
  {
    if 32 - p >= 2 {
      assert Pow2(32 - p) == 4 * Pow2(30 - p);
    }
  }

  /** `SelectNext` over the candidates of a subnet with network address
      `n` and `b >= 4` addresses. */
  lemma SelectOverHosts(n: nat, b: nat, held: seq<IpText>)
    requires b >= 4 && n + b <= AddressSpace
    ensures var r := SelectNext(Hosts(n + 1, b - 2), held);
            && r.Offered? && r.ip4.HostRoute?
            && n + 2 <= r.ip4.addr < n + b - 1
            && (SomeFree(n + 2, n + b - 1, held) ==>
                  r.ip4 !in held && AllHeld(n + 2, r.ip4.addr, held))
            && (AllHeld(n + 2, n + b - 1, held) ==> r.ip4 in held)
  {
    HostsRun(n + 1, b - 2);
    SelectOverRun(Hosts(n + 1, b - 2), n + 2, held);
  }

  lemma HostsRun(lo: nat, m: nat)
    requires m >= 1 && lo + m <= AddressSpace
    ensures |Hosts(lo, m)| == m && Distinct(Hosts(lo, m)) && Addresses(Hosts(lo, m)[1..], lo + 1)
  {
    HostsDistinct(lo, m);
  }

  /** `SelectNext` over a gateway followed by the run of addresses `lo` ... */
  lemma SelectOverRun(ips: seq<IpText>, lo: nat, held: seq<IpText>)
    requires |ips| >= 2 && Distinct(ips) && Addresses(ips[1..], lo)
    ensures var r := SelectNext(ips, held);
            && r.Offered? && r.ip4.HostRoute?
            && lo <= r.ip4.addr < lo + |ips| - 1
            && (SomeFree(lo, lo + |ips| - 1, held) ==>
                  r.ip4 !in held && AllHeld(lo, r.ip4.addr, held))
            && (AllHeld(lo, lo + |ips| - 1, held) ==> r.ip4 in held)
  {
    SelectNextOffers(ips, held);
    var cands := ips[1..];
    var r := SelectNext(ips, held);
    InAddresses(cands, lo, r.ip4);
    if SomeFree(lo, lo + |ips| - 1, held) {
      SomeFreeCandidate(cands, lo, held);
      FirstFreeAddress(cands, lo, held, r.ip4);
    }
    if AllHeld(lo, lo + |ips| - 1, held) {
      AllHeldCandidates(cands, lo, held);
    }
  }

  /** `s` is the run of host routes `lo`, `lo + 1`, ... */
  ghost predicate Addresses(s: seq<IpText>, lo: nat)
  {
    lo + |s| <= AddressSpace && forall k :: 0 <= k < |s| ==> s[k] == HostRoute(lo + k)
  }

  lemma InAddresses(s: seq<IpText>, lo: nat, x: IpText)
    requires Addresses(s, lo) && x in s
    ensures x.HostRoute? && lo <= x.addr < lo + |s|
  {
    var k :| 0 <= k < |s| && s[k] == x;
  }

  lemma SomeFreeCandidate(s: seq<IpText>, lo: nat, held: seq<IpText>)
    requires Addresses(s, lo) && SomeFree(lo, lo + |s|, held)
    ensures exists k :: 0 <= k < |s| && s[k] !in held
  {
    var a: Ipv4 :| lo <= a < lo + |s| && HostRoute(a) !in held;
    assert s[a - lo] == HostRoute(a);
  }

  lemma FirstFreeAddress(s: seq<IpText>, lo: nat, held: seq<IpText>, x: IpText)
    requires Addresses(s, lo) && FirstFree(s, held, x)
    ensures x.HostRoute? && x !in held && AllHeld(lo, x.addr, held)
  {
    var i :| 0 <= i < |s| && s[i] == x && x !in held
              && forall k :: 0 <= k < i ==> s[k] in held;
    forall a: Ipv4 | lo <= a < x.addr
      ensures HostRoute(a) in held
    {
      assert s[a - lo] == HostRoute(a);
    }
  }

  lemma AllHeldCandidates(s: seq<IpText>, lo: nat, held: seq<IpText>)
    requires Addresses(s, lo) && AllHeld(lo, lo + |s|, held)
    ensures forall k :: 0 <= k < |s| ==> s[k] in held
  {
    forall k | 0 <= k < |s|
      ensures s[k] in held
    {
      assert s[k] == HostRoute(lo + k);
    }
  }

  /** A client record in the bbolt bucket as `apiGetConfig` reads it: its
      `AllowedIps` strings, or a value that fails to decode. */
  datatype BoltClient = Decoded(allowedIps: seq<IpText>) | Undecodable

  /** Every address string of every decodable record, in cursor order;
      records that fail to decode are skipped. */
  function AssignedIps(records: seq<BoltClient>): (r: seq<IpText>)
    ensures forall x :: x in r <==> exists i :: 0 <= i < |records| && records[i].Decoded? && x in records[i].allowedIps
    decreases |records|
  {
    if |records| == 0 then []
    else
      var rest := AssignedIps(records[1..]);
      assert forall i :: 1 <= i < |records| ==> records[i] == records[1..][i - 1];
      match records[0]
      case Undecodable => rest
      case Decoded(ips) => ips + rest
  }

  /** `apiGetConfig`'s `nextAvailableIp4` for the configured subnet. */
  function RouterGetConfig(subnet: Option<Cidr>, records: seq<BoltClient>): (r: NextAddress)
    ensures r.SlicePanic? <==> subnet.None? || BlockSize(subnet.value.prefix) <= 2
    ensures r.Offered? ==>
              && subnet.Some?
              && r.ip4.HostRoute?
              && r.ip4.addr != Network(subnet.value) + 1
              && Network(subnet.value) + 2 <= r.ip4.addr
              && r.ip4.addr < Network(subnet.value) + BlockSize(subnet.value.prefix) - 1
  {
    NextFromSubnet(subnet, AssignedIps(records))
  }

  /** The default subnet with no clients offers 10.0.0.2/32: 10.0.0.1 is
      the gateway. */
  lemma RouterDefaultSubnetFirstOffer()
    ensures RouterGetConfig(Some(DefaultSubnet), []) == Offered(HostRoute(TenNet + 2))
  {
    DefaultSubnetShape();
    var held := AssignedIps([]);
    assert held == [];
    var r := NextFromSubnet(Some(DefaultSubnet), held);
    assert RouterGetConfig(Some(DefaultSubnet), []) == r;
    var gatewayNext: Ipv4 := TenNet + 2;
    assert HostRoute(gatewayNext) !in held;
    assert SomeFree(TenNet + 2, TenNet + 255, held);
    assert AllHeld(TenNet + 2, r.ip4.addr, held);
    assert r.ip4.addr == gatewayNext;
  }

  /** The 254 host routes 10.0.0.1/32 .. 10.0.0.254/32 of `api/config.go`'s
      `findAvailableIps`, which ignores the configured subnet. */
  function FixedSubnetIps(): (r: seq<IpText>)
    ensures |r| == 254
    ensures forall k :: 0 <= k < 254 ==> r[k] == HostRoute(TenNet + 1 + k)
  {
    DefaultSubnetShape();
    HostsAt(TenNet + 1, 254);
    FindAvailableIps(Some(DefaultSubnet))
  }

  lemma DefaultSubnetShape()
    ensures Network(DefaultSubnet) == TenNet
    ensures BlockSize(24) == 256
    ensures FindAvailableIps(Some(DefaultSubnet)) == Hosts(TenNet + 1, 254)
  {
    assert Pow2(8) == 256 by {
      assert Pow2(4) == 16;
    }
  }

  /** The `AllowedIp4` of each row, in the order gorm returns them. */
  function AllowedIp4s(clients: seq<DbClient>): (r: seq<IpText>)
    ensures |r| == |clients|
    ensures forall i :: 0 <= i < |r| ==> r[i] == clients[i].allowedIp4
  {
    seq(|clients|, i requires 0 <= i < |clients| => clients[i].allowedIp4)
  }

  /** `GetConfig`'s `nextAvailableIp4`: never a panic, never "", never the
      gateway 10.0.0.1/32; the lowest free address of 10.0.0.2 .. 10.0.0.254
      while one is free, otherwise a stale address some client holds. */
  function ApiGetConfig(clients: seq<DbClient>): (r: NextAddress)
    ensures r.Offered? && r.ip4 != NoAddress && r.ip4 != HostRoute(TenNet + 1)
    ensures r.ip4.HostRoute? && TenNet + 2 <= r.ip4.addr <= TenNet + 254
    ensures SomeFree(TenNet + 2, TenNet + 255, AllowedIp4s(clients)) ==>
              r.ip4 !in AllowedIp4s(clients) && AllHeld(TenNet + 2, r.ip4.addr, AllowedIp4s(clients))
    ensures AllHeld(TenNet + 2, TenNet + 255, AllowedIp4s(clients)) ==>
              exists i :: 0 <= i < |clients| && clients[i].allowedIp4 == r.ip4
  {
    DefaultNext(AllowedIp4s(clients));
    var r := NextFromSubnet(Some(DefaultSubnet), AllowedIp4s(clients));
    HeldByClient(clients, r.ip4);
    r
  }

  /** `NextFromSubnet` over 10.0.0.0/24. */
  lemma DefaultNext(held: seq<IpText>)
    ensures var r := NextFromSubnet(Some(DefaultSubnet), held);
            && r.Offered? && r.ip4.HostRoute? && TenNet + 2 <= r.ip4.addr <= TenNet + 254
            && (SomeFree(TenNet + 2, TenNet + 255, held) ==> r.ip4 !in held && AllHeld(TenNet + 2, r.ip4.addr, held))
            && (AllHeld(TenNet + 2, TenNet + 255, held) ==> r.ip4 in held)
  {
    DefaultSubnetBounds();
  }

  lemma DefaultSubnetBounds()
    ensures Network(DefaultSubnet) == TenNet && BlockSize(DefaultSubnet.prefix) == 256
  {
    DefaultSubnetShape();
  }

  /** An address among the clients' addresses is some client's. */
  lemma HeldByClient(clients: seq<DbClient>, x: IpText)
    ensures x in AllowedIp4s(clients) ==> exists i :: 0 <= i < |clients| && clients[i].allowedIp4 == x
  {
    var held := AllowedIp4s(clients);
    if x in held {
      var i :| 0 <= i < |held| && held[i] == x;
      assert clients[i].allowedIp4 == x;
    }
  }

  /** Because `remove`'s result is discarded, the candidate slice of
      `GetConfig` keeps all 253 slots; its live prefix is the candidates
      minus the clients' addresses, in their original order, and every
      slot still holds a candidate. */
  lemma ApiCandidateSlice(clients: seq<DbClient>)
    ensures var cands := FixedSubnetIps()[1..];
            var arr := DiscardAll(cands, AllowedIp4s(clients));
            var live := Filter(cands, AllowedIp4s(clients));
            && |arr| == 253
            && arr[..|live|] == live
            && forall i :: 0 <= i < |arr| ==> arr[i] in cands
  {
    var ips := FixedSubnetIps();
    DefaultSubnetShape();
    HostsDistinct(TenNet + 1, 254);
    LiveSlice(ips, AllowedIp4s(clients));
  }

  /** With no clients, `GetConfig` offers 10.0.0.2/32. */
  lemma ApiFirstOffer()
    ensures ApiGetConfig([]) == Offered(HostRoute(TenNet + 2))
  {
    DefaultSubnetShape();
    var ips := FindAvailableIps(Some(DefaultSubnet));
    assert DiscardAll(ips[1..], []) == ips[1..];
  }

  /** A /30 subnet whose only candidate is held by a client: the discarded
      `remove` leaves the slice as it was, so the held address is offered
      again. */
  lemma StaleOfferOnFullSubnet()
    ensures var subnet := Cidr(TenNet, 30);
            RouterGetConfig(Some(subnet), [Decoded([HostRoute(TenNet + 2)])])
              == Offered(HostRoute(TenNet + 2))
  {
    var x := HostRoute(TenNet + 2);
    var ips := SlashThirtyIps();
    var held := AssignedIps([Decoded([x])]);
    assert held == [x] by {
      assert AssignedIps([Decoded([x])][1..]) == [];
    }
    DiscardOnlyCandidate(x);
    assert ips[1..] == [x];
    assert SelectNext(ips, held) == Offered(x);
  }

  /** The candidates of 10.0.0.0/30: the gateway 10.0.0.1 and 10.0.0.2. */
  lemma SlashThirtyIps() returns (ips: seq<IpText>)
    ensures ips == FindAvailableIps(Some(Cidr(TenNet, 30)))
    ensures ips == [HostRoute(TenNet + 1), HostRoute(TenNet + 2)]
  {
    var c := Cidr(TenNet, 30);
    assert BlockSize(30) == 4 by {
      assert Pow2(2) == 4;
    }
    assert Network(c) == TenNet by {
      assert TenNet % 4 == 0;
    }
    ips := FindAvailableIps(Some(c));
    assert ips == Hosts(TenNet + 1, 2);
    HostsPair(TenNet + 1);
  }

  lemma HostsPair(lo: nat)
    requires lo + 2 <= AddressSpace
    ensures Hosts(lo, 2) == [HostRoute(lo), HostRoute(lo + 1)]
  {
  }

  /** Discarding the removal of the only candidate leaves it in place. */
  lemma DiscardOnlyCandidate(x: IpText)
    ensures DiscardAll([x], [x]) == [x]
  {
    assert RemoveFirst([x], x) == [];
    assert RemoveDiscarded([x], x) == [x];
    assert DiscardAll([x], [x]) == DiscardAll([x], []);
  }

  /** Every held string removed from the slice, keeping each result. */
  function RemoveAll(s: seq<IpText>, xs: seq<IpText>): (r: seq<IpText>)
    requires Distinct(s)
    ensures r == Filter(s, xs)
    decreases |xs|
  {
    if |xs| == 0 then
      FilterNone(s, []);
      s
    else
      RemoveStep(s, xs);
      RemoveAll(RemoveFirst(s, xs[0]), xs[1..])
  }

  /** Removing the first held string is filtering it out. */
  lemma RemoveStep(s: seq<IpText>, xs: seq<IpText>)
    requires Distinct(s) && |xs| > 0
    ensures Distinct(RemoveFirst(s, xs[0]))
    ensures Filter(RemoveFirst(s, xs[0]), xs[1..]) == Filter(s, xs)
  {
    RemoveFirstDistinct(s, xs[0]);
    FilterDistinct(s, [xs[0]]);
    FilterThen(s, [xs[0]], xs[1..]);
    assert [xs[0]] + xs[1..] == xs;
  }

  lemma {:induction false} FilterThen(s: seq<IpText>, a: seq<IpText>, b: seq<IpText>)
    ensures Filter(Filter(s, a), b) == Filter(s, a + b)
    decreases |s|
  {
    if |s| > 0 {
      FilterThen(s[1..], a, b);
      if s[0] !in a {
        assert ([s[0]] + Filter(s[1..], a))[1..] == Filter(s[1..], a);
      }
    }
  }

  /** The selection with `ips = remove(ips, ip)`: the first free candidate
      above the gateway, or "" once every candidate is held. */
  function SelectNextKeepingResult(ips: seq<IpText>, held: seq<IpText>): (r: NextAddress)
    requires Distinct(ips)
    ensures r.SlicePanic? <==> |ips| == 0
    ensures (exists k :: 1 <= k < |ips| && ips[k] !in held) ==>
              r.Offered? && FirstFree(ips[1..], held, r.ip4)
    ensures |ips| >= 1 && (forall k :: 1 <= k < |ips| ==> ips[k] in held) ==>
              r == Offered(NoAddress)
  {
    if |ips| == 0 then SlicePanic
    else
      var cands := ips[1..];
      assert Distinct(cands);
      var left := RemoveAll(cands, held);
      if |left| > 0 then
        FilterHead(cands, held);
        Offered(left[0])
      else Offered(NoAddress)
  }

  /** With results kept, a full subnet reports "" instead of a held address. */
  lemma KeepingResultOnFullSubnet()
    ensures var ips := FindAvailableIps(Some(Cidr(TenNet, 30)));
            SelectNextKeepingResult(ips, [HostRoute(TenNet + 2)]) == Offered(NoAddress)
  {
    var ips := SlashThirtyIps();
    assert ips[1..] == [HostRoute(TenNet + 2)];
  }
}
