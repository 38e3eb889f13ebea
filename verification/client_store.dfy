/** The bbolt `clients` bucket of `Client.go`: records under 8-byte
    big-endian keys (`itob`), plus the bucket's sequence counter. */
module ClientStore {
  import opened Outcomes
  import opened Bytes

  datatype Client = Client(id: int, name: string, ip: string, publicKey: string)

  /** A stored value: a record that decodes, or one that does not. */
  datatype Record = Valid(client: Client) | Corrupt

  /** The bucket, keyed by the unsigned number of each 8-byte key. */
  datatype Store = Store(records: map<nat, Record>, sequence: nat)

  const Uint64Space: nat := 0x1_0000_0000_0000_0000

  /** The largest id `int(id)` keeps positive on a 64-bit platform. */
  const MaxId: nat := 0x7FFF_FFFF_FFFF_FFFF

  /** `uint64(v)`: the two's-complement reading of an `int`. */
  function Uint64(v: int): (k: nat)
    ensures k < Uint64Space
    ensures 0 <= v < Uint64Space ==> k == v
  {
    v % Uint64Space
  }

  /** `itob`: eight bytes, big-endian. */
  function Itob(v: int): (r: seq<byte>)
    ensures |r| == 8
  {
    Encode(Uint64(v), 8)
  }

  lemma Pow256Eight()
    ensures Pow256(8) == Uint64Space
  {
    assert Pow256(4) == 0x1_0000_0000;
  }

  /** The key encodes the number back: `itob` is injective on the
      `uint64` range. */
  lemma ItobValue(v: int)
    ensures Value(Itob(v)) == Uint64(v)
  {
    Pow256Eight();
    ValueEncode(Uint64(v), 8);
  }

  lemma ItobInjective(a: int, b: int)
    requires 0 <= a < Uint64Space && 0 <= b < Uint64Space
    requires Itob(a) == Itob(b)
    ensures a == b
  {
    ItobValue(a);
    ItobValue(b);
  }

  /** Smaller ids get lexicographically smaller keys, so a cursor walks the
      bucket in ascending id order. */
  lemma ItobOrder(a: int, b: int)
    requires 0 <= a < b < Uint64Space
    ensures LexLess(Itob(a), Itob(b))
  {
    Pow256Eight();
    EncodeOrder(a, b, 8);
  }

  /** Every key was handed out by the sequence, and a record that decodes
      carries its own key as id. */
  ghost predicate Wf(s: Store)
  {
    && s.sequence < Uint64Space
    && forall k :: k in s.records ==>
         && 1 <= k <= s.sequence
         && (s.records[k].Valid? ==> s.records[k].client.id == k)
  }

  const EmptyStore: Store := Store(map[], 0)

  lemma EmptyStoreWf()
    ensures Wf(EmptyStore)
  {
  }

  /** `ClientFind`: the record under `itob(id)`, or nil when there is none
      or it does not decode. */
  function ClientFind(s: Store, id: int): (r: Option<Client>)
    ensures Wf(s) && r.Some? ==> 1 <= r.value.id <= s.sequence && r.value.id == Uint64(id)
    ensures Wf(s) && 0 <= id < Uint64Space && (id == 0 || s.sequence < id) ==> r.None?
  {
    var k := Uint64(id);
    if k in s.records && s.records[k].Valid? then Some(s.records[k].client) else None
  }

  /** The cursor walk from key `lo` on: decodable records in ascending id
      order, skipping the rest. */
  function Collect(s: Store, lo: nat): seq<Client>
    decreases s.sequence + 1 - lo
  {
    if lo > s.sequence then [] else At(s, lo) + Collect(s, lo + 1)
  }

  /** What the cursor yields at key `k`: the client when it decodes. */
  function At(s: Store, k: nat): (r: seq<Client>)
    ensures |r| <= 1
    ensures |r| == 1 <==> k in s.records && s.records[k].Valid?
    ensures |r| == 1 ==> r[0] == s.records[k].client
  {
    if k in s.records && s.records[k].Valid? then [s.records[k].client] else []
  }

  /** Every entry of `r` is a record stored under its own id, from `lo` on. */
  ghost predicate FromStore(s: Store, lo: nat, r: seq<Client>)
  {
    forall i :: 0 <= i < |r| ==>
      && lo <= r[i].id <= s.sequence
      && r[i].id in s.records && s.records[r[i].id] == Valid(r[i])
  }

  predicate Ascending(r: seq<Client>)
  {
    forall i, j :: 0 <= i < j < |r| ==> r[i].id < r[j].id
  }

  /** Every decodable record from key `lo` on is in `r`. */
  ghost predicate Complete(s: Store, lo: nat, r: seq<Client>)
  {
    forall k :: lo <= k && k in s.records && s.records[k].Valid? ==> s.records[k].client in r
  }

  /** The walk yields stored records only, in ascending id order. */
  lemma {:induction false} CollectFromStore(s: Store, lo: nat)
    requires Wf(s) && lo >= 1
    ensures FromStore(s, lo, Collect(s, lo)) && Ascending(Collect(s, lo))
    decreases s.sequence + 1 - lo
  {
    if lo <= s.sequence {
      CollectFromStore(s, lo + 1);
      var rest := Collect(s, lo + 1);
      var r := Collect(s, lo);
      assert r == At(s, lo) + rest;
      if |At(s, lo)| == 1 {
        assert r[0] == s.records[lo].client && r[0].id == lo;
        assert forall i :: 1 <= i < |r| ==> r[i] == rest[i - 1];
      }
    }
  }

  /** The walk misses no decodable record. */
  lemma {:induction false} CollectComplete(s: Store, lo: nat)
    requires Wf(s) && lo >= 1
    ensures Complete(s, lo, Collect(s, lo))
    decreases s.sequence + 1 - lo
  {
    if lo <= s.sequence {
      CollectComplete(s, lo + 1);
      var rest := Collect(s, lo + 1);
      var r := Collect(s, lo);
      assert r == At(s, lo) + rest;
      assert forall c :: c in rest ==> c in r;
      assert lo in s.records && s.records[lo].Valid? ==> s.records[lo].client in At(s, lo);
    }
  }

  /** `ClientList`: every record that decodes, in cursor order. */
  function ClientList(s: Store): (r: seq<Client>)
    requires Wf(s)
    ensures forall i :: 0 <= i < |r| ==> ClientFind(s, r[i].id) == Some(r[i])
    ensures forall k :: k in s.records && s.records[k].Valid? ==> s.records[k].client in r
    ensures forall i, j :: 0 <= i < j < |r| ==> r[i].id < r[j].id
  {
    CollectFromStore(s, 1);
    CollectComplete(s, 1);
    Collect(s, 1)
  }

  /** The list follows the byte order of the keys, the order bbolt's
      cursor visits them in. */
  lemma ListInCursorOrder(s: Store)
    requires Wf(s)
    ensures var r := ClientList(s);
            forall i, j :: 0 <= i < j < |r| ==> LexLess(Itob(r[i].id), Itob(r[j].id))
  {
    var r := ClientList(s);
    forall i, j | 0 <= i < j < |r|
      ensures LexLess(Itob(r[i].id), Itob(r[j].id))
    {
      ItobOrder(r[i].id, r[j].id);
    }
  }

  /** `ClientRemove`: delete the key of `id`; nothing else changes. */
  function ClientRemove(s: Store, id: int): (r: Store)
    requires Wf(s)
    ensures Wf(r)
    ensures ClientFind(r, id) == None
    ensures forall other :: Uint64(other) != Uint64(id) ==> ClientFind(r, other) == ClientFind(s, other)
    ensures Uint64(id) !in s.records ==> r == s
  {
    Store(s.records - {Uint64(id)}, s.sequence)
  }

  /** What `ClientCreate` leaves behind: the new bucket and the stored
      client. */
  datatype Created = Created(store: Store, client: Client)

  /** `ClientCreate`: take the next sequence number as id, overwriting any
      id the caller supplied, and store the client under it. */
  function ClientCreate(s: Store, c: Client): (r: Created)
    requires Wf(s) && s.sequence < MaxId
    ensures Wf(r.store)
    ensures r.client == c.(id := s.sequence + 1)
    ensures r.store.sequence == s.sequence + 1
    ensures ClientFind(r.store, r.client.id) == Some(r.client)
    ensures forall other :: Uint64(other) != Uint64(r.client.id) ==>
              ClientFind(r.store, other) == ClientFind(s, other)
    ensures s.sequence + 1 !in s.records
  {
    var id := s.sequence + 1;
    var stored := c.(id := id);
    Created(Store(s.records[id := Valid(stored)], id), stored)
  }

  /** A created client goes to the end of the list, behind every existing
      record. */
  lemma CreateAppends(s: Store, c: Client)
    requires Wf(s) && s.sequence < MaxId
    ensures var r := ClientCreate(s, c);
            ClientList(r.store) == ClientList(s) + [r.client]
  {
    var r := ClientCreate(s, c);
    CollectExtend(s, r.store, r.client, 1);
  }

  lemma {:induction false} CollectExtend(s: Store, t: Store, x: Client, lo: nat)
    requires Wf(s) && Wf(t) && 1 <= lo <= s.sequence + 1
    requires t.sequence == s.sequence + 1
    requires t.records == s.records[t.sequence := Valid(x)]
    ensures Collect(t, lo) == Collect(s, lo) + [x]
    decreases s.sequence + 1 - lo
  {
    if lo == t.sequence {
      assert Collect(t, lo + 1) == [];
      assert Collect(s, lo) == [];
    } else {
      CollectExtend(s, t, x, lo + 1);
      assert At(t, lo) == At(s, lo);
      assert Collect(t, lo) == At(s, lo) + (Collect(s, lo + 1) + [x]);
    }
  }
}
