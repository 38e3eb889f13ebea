/** Peer reconciliation: the `wgtypes.Config` lists that `initWireguard`
    (`main.go`) and `Run` (`wireguard/wireguard.go`) build at startup, the
    single-peer configs of `AddClient`/`RemoveClient` and their twins in
    `Wireguard.go`, and `getAllowedIpNets`. The device is not visible from
    the repository; `Apply` states the semantics assumed for
    `ConfigureDevice` with `ReplacePeers` false. */
module Reconcile {
  import opened Outcomes
  import opened Bytes
  import opened AddressPool
  import opened Records

  /** A WireGuard public key. */
  type Key = seq<byte>

  /** The zero key `wgtypes.ParseKey` returns with its error. */
  const ZeroKey: Key := seq(32, _ => 0)

  /** A peer the device reports. */
  datatype Peer = Peer(key: Key, allowedIps: seq<Cidr>)

  datatype PeerConfig = PeerConfig(
    key: Key, remove: bool, updateOnly: bool, replaceAllowedIps: bool, allowedIps: seq<Cidr>)

  /** A device configuration; the private key and listen port are left
      out. */
  datatype Config = Config(replacePeers: bool, peers: seq<PeerConfig>)

  /** The two parsers the code calls: `wgtypes.ParseKey` on the public key
      text and `net.ParseCIDR` on the address string. */
  datatype Parsers = Parsers(parseKey: string -> Option<Key>, parseCidr: IpText -> Option<Cidr>)

  /** `ParseCIDR` reads the "/32" strings of the address pool as host
      routes. */
  ghost predicate ReadsHostRoutes(p: Parsers)
  {
    forall a: Ipv4 :: p.parseCidr(HostRoute(a)) == Some(Cidr(a, 32))
  }

  /** `getAllowedIpNets`: the one network of the client's address, with the
      host bits cleared; `None` stands for the nil dereference that follows
      an unparsable address. */
  function AllowedIpNets(p: Parsers, c: DbClient): (r: Option<seq<Cidr>>)
    ensures r.Some? <==> p.parseCidr(c.allowedIp4).Some?
    ensures r.Some? ==>
              var parsed := p.parseCidr(c.allowedIp4).value;
              && |r.value| == 1
              && r.value[0].prefix == parsed.prefix
              && r.value[0].addr == Network(r.value[0])
              && Contains(r.value[0], parsed.addr)
  {
    match p.parseCidr(c.allowedIp4)
    case None => None
    case Some(parsed) =>
      NetworkBounds(parsed);
      Some([Cidr(Network(parsed), parsed.prefix)])
  }

  /** A "/32" address string yields exactly that host. */
  lemma HostRouteNets(p: Parsers, c: DbClient)
    requires ReadsHostRoutes(p) && c.allowedIp4.HostRoute?
    ensures AllowedIpNets(p, c) == Some([Cidr(c.allowedIp4.addr, 32)])
  {
    assert BlockSize(32) == 1;
  }

  function Removal(peer: Peer): PeerConfig
  {
    PeerConfig(peer.key, true, false, false, peer.allowedIps)
  }

  /** One removal per device peer, carrying its key and allowed IPs. */
  function Removals(peers: seq<Peer>): (r: seq<PeerConfig>)
    ensures |r| == |peers|
    ensures forall i :: 0 <= i < |r| ==>
              && r[i].remove && !r[i].updateOnly && !r[i].replaceAllowedIps
              && r[i].key == peers[i].key && r[i].allowedIps == peers[i].allowedIps
  {
    seq(|peers|, i requires 0 <= i < |peers| => Removal(peers[i]))
  }

  /** The clients whose key parses, in directory order. */
  function Parsable(p: Parsers, clients: seq<DbClient>): (r: seq<DbClient>)
    ensures forall i :: 0 <= i < |r| ==> r[i] in clients && p.parseKey(r[i].publicKey).Some?
    ensures forall c :: c in clients && p.parseKey(c.publicKey).Some? ==> c in r
    decreases |clients|
  {
    if |clients| == 0 then []
    else
      var rest := Parsable(p, clients[1..]);
      assert forall c :: c in clients[1..] ==> c in clients;
      if p.parseKey(clients[0].publicKey).Some? then [clients[0]] + rest else rest
  }

  /** `r` lists elements of `xs` at the strictly increasing positions
      `idx`. */
  ghost predicate PicksAt<T>(r: seq<T>, xs: seq<T>, idx: seq<nat>)
  {
    && |idx| == |r|
    && (forall k :: 0 <= k < |idx| ==> idx[k] < |xs| && r[k] == xs[idx[k]])
    && (forall k, l :: 0 <= k < l < |idx| ==> idx[k] < idx[l])
  }

  /** Picking from a list with one more element in front: the old
      positions move up by one, and position 0 is picked when `x` is kept. */
  lemma PicksCons<T>(x: T, tail: seq<T>, rest: seq<T>, idx0: seq<nat>, keep: bool)
    returns (idx: seq<nat>)
    requires PicksAt(rest, tail, idx0)
    ensures PicksAt(if keep then [x] + rest else rest, [x] + tail, idx)
    ensures 0 in idx <==> keep
    ensures forall j :: 1 <= j <= |tail| ==> (j in idx <==> j - 1 in idx0)
  {
    var xs := [x] + tail;
    var shifted := PicksShift(x, tail, rest, idx0);
    if keep {
      idx := [0] + shifted;
      var r := [x] + rest;
      forall k | 1 <= k < |idx|
        ensures idx[k] < |xs| && r[k] == xs[idx[k]]
      {
        assert idx[k] == shifted[k - 1] && r[k] == rest[k - 1];
      }
      assert PicksAt(r, xs, idx);
    } else {
      idx := shifted;
    }
  }

  /** The old positions, moved up by one. */
  lemma PicksShift<T>(x: T, tail: seq<T>, rest: seq<T>, idx0: seq<nat>)
    returns (shifted: seq<nat>)
    requires PicksAt(rest, tail, idx0)
    ensures PicksAt(rest, [x] + tail, shifted)
    ensures forall k :: 0 <= k < |shifted| ==> shifted[k] >= 1
    ensures forall j :: 1 <= j <= |tail| ==> (j in shifted <==> j - 1 in idx0)
    ensures 0 !in shifted
  {
    shifted := seq(|idx0|, k requires 0 <= k < |idx0| => idx0[k] + 1);
    var xs := [x] + tail;
    forall k | 0 <= k < |shifted|
      ensures shifted[k] < |xs| && rest[k] == xs[shifted[k]]
    {
      assert xs[idx0[k] + 1] == tail[idx0[k]];
    }
    forall j | 1 <= j <= |tail|
      ensures j in shifted <==> j - 1 in idx0
    {
      if j - 1 in idx0 {
        var k :| 0 <= k < |idx0| && idx0[k] == j - 1;
        assert shifted[k] == j;
      }
    }
  }

  /** The positions whose key parses, picked with one more client in
      front. */
  lemma KeyFilterCons(p: Parsers, clients: seq<DbClient>, rest: seq<DbClient>, idx0: seq<nat>)
    returns (idx: seq<nat>)
    requires |clients| > 0
    requires PicksAt(rest, clients[1..], idx0)
    requires forall j :: 0 <= j < |clients| - 1 ==>
               (j in idx0 <==> p.parseKey(clients[1..][j].publicKey).Some?)
    ensures var keep := p.parseKey(clients[0].publicKey).Some?;
            PicksAt(if keep then [clients[0]] + rest else rest, clients, idx)
    ensures forall j :: 0 <= j < |clients| ==>
              (j in idx <==> p.parseKey(clients[j].publicKey).Some?)
  {
    var tail := clients[1..];
    var keep := p.parseKey(clients[0].publicKey).Some?;
    assert [clients[0]] + tail == clients;
    idx := PicksCons(clients[0], tail, rest, idx0, keep);
    forall j | 0 <= j < |clients|
      ensures j in idx <==> p.parseKey(clients[j].publicKey).Some?
    {
      if j > 0 {
        assert clients[j] == tail[j - 1];
      }
    }
  }

  /** `Parsable` is the filter: it picks, in directory order, exactly the
      positions whose key parses, each once. */
  lemma {:induction false} ParsableInOrder(p: Parsers, clients: seq<DbClient>)
    ensures exists idx :: && PicksAt(Parsable(p, clients), clients, idx)
                          && forall j :: 0 <= j < |clients| ==>
                               (j in idx <==> p.parseKey(clients[j].publicKey).Some?)
    decreases |clients|
  {
    if |clients| == 0 {
      assert PicksAt(Parsable(p, clients), clients, []);
    } else {
      var tail := clients[1..];
      ParsableInOrder(p, tail);
      var rest := Parsable(p, tail);
      var idx0 :| && PicksAt(rest, tail, idx0)
                  && forall j :: 0 <= j < |tail| ==>
                       (j in idx0 <==> p.parseKey(tail[j].publicKey).Some?);
      var idx := KeyFilterCons(p, clients, rest, idx0);
      var keep := p.parseKey(clients[0].publicKey).Some?;
      assert Parsable(p, clients) == if keep then [clients[0]] + rest else rest;
      assert PicksAt(Parsable(p, clients), clients, idx);
    }
  }

  /** `e` is the add entry the startup loop builds for client `c`. */
  predicate AddEntry(p: Parsers, c: DbClient, e: PeerConfig)
  {
    && !e.remove && !e.updateOnly && !e.replaceAllowedIps
    && Some(e.key) == p.parseKey(c.publicKey)
    && Some(e.allowedIps) == AllowedIpNets(p, c)
  }

  predicate AddressParses(p: Parsers, c: DbClient)
  {
    p.parseCidr(c.allowedIp4).Some?
  }

  /** Every client's address parses. */
  predicate AllAddressesParse(p: Parsers, ok: seq<DbClient>)
  {
    forall i :: 0 <= i < |ok| ==> AddressParses(p, ok[i])
  }

  /** `adds` holds one add entry per client of `ok`, in order. */
  predicate AddEntries(p: Parsers, ok: seq<DbClient>, adds: seq<PeerConfig>)
  {
    |adds| == |ok| && forall i :: 0 <= i < |ok| ==> AddEntry(p, ok[i], adds[i])
  }

  /** The add entries for clients whose keys parse: one per client, in
      order; `None` as soon as an address does not parse (the panic in
      `getAllowedIpNets`). */
  function AddsFor(p: Parsers, ok: seq<DbClient>): (r: Option<seq<PeerConfig>>)
    requires forall i :: 0 <= i < |ok| ==> p.parseKey(ok[i].publicKey).Some?
    ensures r.Some? <==> AllAddressesParse(p, ok)
    ensures r.Some? ==> AddEntries(p, ok, r.value)
    decreases |ok|
  {
    if |ok| == 0 then Some([])
    else
      var c := ok[0];
      var rest := AddsFor(p, ok[1..]);
      match AllowedIpNets(p, c)
      case None => None
      case Some(nets) =>
        if rest.None? then
          assert exists i :: 0 <= i < |ok| && !AddressParses(p, ok[i]) by {
            var i :| 0 <= i < |ok[1..]| && !AddressParses(p, ok[1..][i]);
            assert ok[i + 1] == ok[1..][i];
          }
          None
        else
          var r := [PeerConfig(p.parseKey(c.publicKey).value, false, false, false, nets)] + rest.value;
          assert forall i :: 1 <= i < |ok| ==> ok[i] == ok[1..][i - 1] && r[i] == rest.value[i - 1];
          Some(r)
  }

  /** The add entries of the startup loop: a client whose key does not
      parse is skipped, every other one gets an add entry in directory
      order, and an unparsable address among those is the panic in
      `getAllowedIpNets`. Skipping first and then building the entries
      gives the loop's outcome, since the skipped clients have no other
      effect. */
  function Adds(p: Parsers, clients: seq<DbClient>): (r: Option<seq<PeerConfig>>)
    ensures r.Some? <==> AllAddressesParse(p, Parsable(p, clients))
    ensures r.Some? ==> AddEntries(p, Parsable(p, clients), r.value)
  {
    AddsFor(p, Parsable(p, clients))
  }

  /** The two configurations a startup sends: first only the removals of
      every current peer, then — `cfg.Peers` is not reset — those removals
      again followed by the adds. A `Panic` records the configurations
      that had already been sent when the process crashed. */
  datatype Startup = Configured(first: Config, second: Config)
                   | Fatal
                   | Panic(sent: seq<Config>)

  function Resync(p: Parsers, peers: seq<Peer>, clients: seq<DbClient>): (r: Startup)
    ensures r.Configured? <==> Adds(p, clients).Some?
    ensures r.Configured? ==>
              && !r.first.replacePeers && !r.second.replacePeers
              && r.first.peers == Removals(peers)
              && r.second.peers == Removals(peers) + Adds(p, clients).value
    ensures !r.Configured? ==> r.Panic? && r.sent == [Config(false, Removals(peers))]
  {
    var removals := Removals(peers);
    match Adds(p, clients)
    case None => Panic([Config(false, removals)])
    case Some(adds) => Configured(Config(false, removals), Config(false, removals + adds))
  }

  /** What `wgClient.Device(name)` reports. */
  datatype Lookup = Found(peers: seq<Peer>) | NotExist | LookupError

  /** `initWireguard`: a missing device is always fatal because
      `createInterface` always fails; any other lookup error leaves the
      device nil and `device.Peers` panics before anything is sent. */
  function InitWireguard(p: Parsers, lookup: Lookup, clients: seq<DbClient>): (r: Startup)
    ensures lookup.NotExist? ==> r == Fatal
    ensures lookup.LookupError? ==> r == Panic([])
    ensures lookup.Found? ==> r == Resync(p, lookup.peers, clients)
  {
    match lookup
    case NotExist => Fatal
    case LookupError => Panic([])
    case Found(peers) => Resync(p, peers, clients)
  }

  /** `Run`: when the first lookup fails the embedded device is started;
      the device is looked up again in any case, and a failure of that
      second lookup is fatal. */
  function Run(p: Parsers, firstFound: bool, second: Option<seq<Peer>>, clients: seq<DbClient>): (r: (bool, Startup))
    ensures r.0 <==> !firstFound
    ensures second.None? ==> r.1 == Fatal
    ensures second.Some? ==> r.1 == Resync(p, second.value, clients)
  {
    var startsEmbedded := !firstFound;
    match second
    case None => (startsEmbedded, Fatal)
    case Some(peers) => (startsEmbedded, Resync(p, peers, clients))
  }

  // ---------------------------------------------------------------------
  // The assumed device semantics

  /** Device state: the allowed IPs of each peer key. */
  type DeviceState = map<Key, seq<Cidr>>

  function PeersState(peers: seq<Peer>): (s: DeviceState)
    ensures forall k :: k in s <==> exists i :: 0 <= i < |peers| && peers[i].key == k
    decreases |peers|
  {
    if |peers| == 0 then map[]
    else
      var rest := PeersState(peers[..|peers| - 1]);
      assert forall i :: 0 <= i < |peers| - 1 ==> peers[..|peers| - 1][i] == peers[i];
      rest[peers[|peers| - 1].key := peers[|peers| - 1].allowedIps]
  }

  /** One entry applied with `ReplacePeers` false: a removal deletes the
      key; anything else adds the peer or, `ReplaceAllowedIPs` being false,
      appends to its allowed IPs. This is the assumed semantics of the
      device, not something the repository shows. */
  function ApplyOne(s: DeviceState, e: PeerConfig): DeviceState
  {
    if e.remove then s - {e.key}
    else if e.key in s && !e.replaceAllowedIps then s[e.key := s[e.key] + e.allowedIps]
    else s[e.key := e.allowedIps]
  }

  function Apply(s: DeviceState, entries: seq<PeerConfig>): DeviceState
    decreases |entries|
  {
    if |entries| == 0 then s else Apply(ApplyOne(s, entries[0]), entries[1..])
  }

  lemma {:induction false} ApplyConcat(s: DeviceState, a: seq<PeerConfig>, b: seq<PeerConfig>)
    ensures Apply(s, a + b) == Apply(Apply(s, a), b)
    decreases |a|
  {
    if |a| == 0 {
      assert a + b == b;
    } else {
      assert (a + b)[0] == a[0];
      assert (a + b)[1..] == a[1..] + b;
      ApplyConcat(ApplyOne(s, a[0]), a[1..], b);
    }
  }

  /** Removal entries delete exactly their keys. */
  lemma {:induction false} ApplyRemovals(s: DeviceState, peers: seq<Peer>)
    ensures forall k :: k in Apply(s, Removals(peers)) <==>
              k in s && forall i :: 0 <= i < |peers| ==> peers[i].key != k
    decreases |peers|
  {
    if |peers| > 0 {
      var rs := Removals(peers);
      assert rs[1..] == Removals(peers[1..]);
      ApplyRemovals(ApplyOne(s, rs[0]), peers[1..]);
      forall k
        ensures k in Apply(s, rs) <==> k in s && forall i :: 0 <= i < |peers| ==> peers[i].key != k
      {
        if k in s && forall i :: 1 <= i < |peers| ==> peers[i].key != k {
          assert forall i :: 0 <= i < |peers| - 1 ==> peers[1..][i] == peers[i + 1];
        }
        if !(forall i :: 0 <= i < |peers| ==> peers[i].key != k) {
          var i :| 0 <= i < |peers| && peers[i].key == k;
          if i > 0 {
            assert peers[1..][i - 1] == peers[i];
          }
        }
      }
    }
  }

  /** Add entries add exactly their keys. */
  lemma {:induction false} ApplyAdds(s: DeviceState, adds: seq<PeerConfig>)
    requires forall i :: 0 <= i < |adds| ==> !adds[i].remove
    ensures forall k :: k in Apply(s, adds) <==>
              k in s || exists i :: 0 <= i < |adds| && adds[i].key == k
    decreases |adds|
  {
    if |adds| > 0 {
      ApplyAdds(ApplyOne(s, adds[0]), adds[1..]);
      forall k
        ensures k in Apply(s, adds) <==> k in s || exists i :: 0 <= i < |adds| && adds[i].key == k
      {
        if exists i :: 1 <= i < |adds| && adds[i].key == k {
          var i :| 1 <= i < |adds| && adds[i].key == k;
          assert adds[1..][i - 1] == adds[i];
        }
        if exists i :: 0 <= i < |adds[1..]| && adds[1..][i] == adds[i + 1] && adds[1..][i].key == k {
          var i :| 0 <= i < |adds[1..]| && adds[1..][i].key == k;
          assert adds[i + 1].key == k;
        }
      }
    }
  }

  /** The keys the adds of a startup carry: exactly the keys of the clients
      whose key parses. */
  lemma {:induction false} AddKeys(p: Parsers, clients: seq<DbClient>)
    requires Adds(p, clients).Some?
    ensures var adds := Adds(p, clients).value;
            forall k :: (exists i :: 0 <= i < |adds| && adds[i].key == k) <==>
              (exists c :: c in clients && p.parseKey(c.publicKey) == Some(k))
  {
    var adds := Adds(p, clients).value;
    forall k
      ensures (exists i :: 0 <= i < |adds| && adds[i].key == k) <==>
                (exists c :: c in clients && p.parseKey(c.publicKey) == Some(k))
    {
      if exists i :: 0 <= i < |adds| && adds[i].key == k {
        var i :| 0 <= i < |adds| && adds[i].key == k;
        var c := KeyOfAdd(p, clients, adds, i);
        assert c in clients && p.parseKey(c.publicKey) == Some(k);
      }
      if exists c :: c in clients && p.parseKey(c.publicKey) == Some(k) {
        var c :| c in clients && p.parseKey(c.publicKey) == Some(k);
        var i := AddOfKey(p, clients, adds, c);
        assert 0 <= i < |adds| && adds[i].key == k;
      }
    }
  }

  /** Every add entry carries the key of some client. */
  lemma KeyOfAdd(p: Parsers, clients: seq<DbClient>, adds: seq<PeerConfig>, i: nat) returns (c: DbClient)
    requires AddEntries(p, Parsable(p, clients), adds) && i < |adds|
    ensures c in clients && p.parseKey(c.publicKey) == Some(adds[i].key)
  {
    var ok := Parsable(p, clients);
    assert AddEntry(p, ok[i], adds[i]);
    c := ok[i];
  }

  /** Every client whose key parses has an add entry with that key. */
  lemma AddOfKey(p: Parsers, clients: seq<DbClient>, adds: seq<PeerConfig>, c: DbClient) returns (i: nat)
    requires AddEntries(p, Parsable(p, clients), adds)
    requires c in clients && p.parseKey(c.publicKey).Some?
    ensures i < |adds| && Some(adds[i].key) == p.parseKey(c.publicKey)
  {
    var ok := Parsable(p, clients);
    assert c in ok;
    i :| 0 <= i < |ok| && ok[i] == c;
    assert AddEntry(p, ok[i], adds[i]);
  }

  /** Under the assumed semantics, once the second startup configuration
      is applied the device holds exactly the keys of the clients whose key
      parses — whether or not the first configuration took effect. */
  lemma ResyncKeys(p: Parsers, peers: seq<Peer>, clients: seq<DbClient>, s: DeviceState)
    requires Resync(p, peers, clients).Configured?
    requires forall k :: k in s ==> exists i :: 0 <= i < |peers| && peers[i].key == k
    ensures var after := Apply(s, Resync(p, peers, clients).second.peers);
            forall k :: k in after <==> exists c :: c in clients && p.parseKey(c.publicKey) == Some(k)
  {
    var adds := Adds(p, clients).value;
    ApplyConcat(s, Removals(peers), adds);
    ApplyRemovals(s, peers);
    var mid := Apply(s, Removals(peers));
    assert forall k :: k !in mid;
    ApplyAdds(mid, adds);
    AddKeys(p, clients);
  }

  /** Applying the first configuration to the device's own state empties
      it, whether the startup goes on to configure the clients or crashes
      on an unparsable address; in the second case that empty device is
      what is left behind. */
  lemma FirstConfigClears(p: Parsers, peers: seq<Peer>, clients: seq<DbClient>)
    ensures var r := Resync(p, peers, clients);
            && (r.Configured? ==> Apply(PeersState(peers), r.first.peers) == map[])
            && (r.Panic? ==> |r.sent| == 1 && Apply(PeersState(peers), r.sent[0].peers) == map[])
  {
    var s := PeersState(peers);
    ApplyRemovals(s, peers);
    var after := Apply(s, Removals(peers));
    assert forall k :: k !in after;
  }

  // ---------------------------------------------------------------------
  // Incremental changes

  /** The key of a client; a parse error leaves the zero key. */
  function KeyOrZero(p: Parsers, c: DbClient): (k: Key)
    ensures p.parseKey(c.publicKey).None? ==> k == ZeroKey
    ensures p.parseKey(c.publicKey).Some? ==> k == p.parseKey(c.publicKey).value
  {
    match p.parseKey(c.publicKey)
    case None => ZeroKey
    case Some(k) => k
  }

  /** `RemoveClient` / `removeClient`: one removal entry, `ReplacePeers`
      false; `None` for the panic of an unparsable address. */
  function RemoveClient(p: Parsers, c: DbClient): (r: Option<Config>)
    ensures r.Some? <==> p.parseCidr(c.allowedIp4).Some?
    ensures r.Some? ==>
              && !r.value.replacePeers && |r.value.peers| == 1
              && r.value.peers[0].remove
              && !r.value.peers[0].updateOnly && !r.value.peers[0].replaceAllowedIps
              && r.value.peers[0].key == KeyOrZero(p, c)
              && Some(r.value.peers[0].allowedIps) == AllowedIpNets(p, c)
  {
    match AllowedIpNets(p, c)
    case None => None
    case Some(nets) => Some(Config(false, [PeerConfig(KeyOrZero(p, c), true, false, false, nets)]))
  }

  /** `AddClient` / `addClient`: one add entry, sent even when the key
      failed to parse (then with the zero key). */
  function AddClient(p: Parsers, c: DbClient): (r: Option<Config>)
    ensures r.Some? <==> p.parseCidr(c.allowedIp4).Some?
    ensures r.Some? ==>
              && !r.value.replacePeers && |r.value.peers| == 1
              && !r.value.peers[0].remove
              && !r.value.peers[0].updateOnly && !r.value.peers[0].replaceAllowedIps
              && r.value.peers[0].key == KeyOrZero(p, c)
              && Some(r.value.peers[0].allowedIps) == AllowedIpNets(p, c)
  {
    match AllowedIpNets(p, c)
    case None => None
    case Some(nets) => Some(Config(false, [PeerConfig(KeyOrZero(p, c), false, false, false, nets)]))
  }

  /** Adding a client puts its key on the device with the client's network;
      removing it again takes the key away and leaves every other peer as
      it was. */
  lemma AddThenRemove(p: Parsers, c: DbClient, s: DeviceState)
    requires p.parseCidr(c.allowedIp4).Some?
    requires KeyOrZero(p, c) !in s
    ensures var added := Apply(s, AddClient(p, c).value.peers);
            && KeyOrZero(p, c) in added
            && Some(added[KeyOrZero(p, c)]) == AllowedIpNets(p, c)
            && Apply(added, RemoveClient(p, c).value.peers) == s
  {
    var k := KeyOrZero(p, c);
    var add := AddClient(p, c).value.peers;
    var remove := RemoveClient(p, c).value.peers;
    ApplySingle(s, add);
    var added := Apply(s, add);
    assert added == s[k := AllowedIpNets(p, c).value];
    ApplySingle(added, remove);
    assert Apply(added, remove) == added - {k};
    assert added - {k} == s;
  }

  lemma ApplySingle(s: DeviceState, entries: seq<PeerConfig>)
    requires |entries| == 1
    ensures Apply(s, entries) == ApplyOne(s, entries[0])
  {
    assert entries[1..] == [];
  }
}
