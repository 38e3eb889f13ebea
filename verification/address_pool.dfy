/** The address pool: enumerating the host routes of an IPv4 subnet and
    taking assigned addresses out of the candidate list. */
module AddressPool {
  import opened Bytes
  import opened Outcomes

  const AddressSpace: nat := 0x1_0000_0000

  type Ipv4 = a: nat | a < 0x1_0000_0000

  /** Prefix lengths 1..32; /0 is excluded because the enumeration never
      ends there (the increment wraps back into the subnet). */
  type Prefix = p: nat | 1 <= p <= 32 witness 32

  /** What `net.ParseCIDR` yields: the address as written and the prefix. */
  datatype Cidr = Cidr(addr: Ipv4, prefix: Prefix)

  /** A candidate string. `HostRoute(a)` stands for `ip.String() + "/32"`
      of address `a` (dotted-quad formatting is injective, so comparing
      these strings compares addresses); `Other` is any other string. */
  datatype IpText = HostRoute(addr: Ipv4) | Other(text: string)

  function Pow2(n: nat): (r: nat)
    ensures r >= 1
  {
    if n == 0 then 1 else 2 * Pow2(n - 1)
  }

  /** Number of addresses in a subnet with prefix `p`. */
  function BlockSize(p: Prefix): nat
  {
    Pow2(32 - p)
  }

  /** `ip.Mask(ipnet.Mask)`: clear the host bits. */
  function Mask(a: Ipv4, p: Prefix): Ipv4
  {
    ModAtMost(a, BlockSize(p));
    a - a % BlockSize(p)
  }

  lemma ModAtMost(a: nat, b: nat)
    requires b >= 1
    ensures 0 <= a % b <= a
  {
    if a >= b {
      assert a % b < b;
    }
  }

  function Network(c: Cidr): Ipv4
  {
    Mask(c.addr, c.prefix)
  }

  /** `ipnet.Contains(ip)`: the address agrees with the network on the
      masked bits. */
  predicate Contains(c: Cidr, a: Ipv4)
  {
    Mask(a, c.prefix) == Network(c)
  }

  /** The reference list: `n` consecutive host routes starting at `lo`. */
  function Hosts(lo: nat, n: nat): (r: seq<IpText>)
    requires lo + n <= AddressSpace
  {
    seq(n, k requires 0 <= k < n => HostRoute(lo + k))
  }

  lemma HostsAt(lo: nat, n: nat)
    requires lo + n <= AddressSpace
    ensures |Hosts(lo, n)| == n
    ensures forall k :: 0 <= k < n ==> Hosts(lo, n)[k] == HostRoute(lo + k)
  {
  }

  lemma Pow2Add(a: nat, b: nat)
    ensures Pow2(a + b) == Pow2(a) * Pow2(b)
    decreases a
  {
    if a > 0 {
      Pow2Add(a - 1, b);
    }
  }

  lemma Pow256Four()
    ensures Pow256(4) == AddressSpace
  {
    assert Pow256(1) == 256;
    assert Pow256(2) == 65536;
    assert Pow256(3) == 16777216;
  }

  lemma Pow2ThirtyTwo()
    ensures Pow2(32) == AddressSpace
  {
    assert Pow2(8) == 256 by {
      assert Pow2(4) == 16;
    }
    Pow2Add(8, 8);
    Pow2Add(16, 16);
  }

  /** The subnet is aligned, ends inside the address space, and holds at
      most half of it. */
  lemma NetworkBounds(c: Cidr)
    ensures Network(c) % BlockSize(c.prefix) == 0
    ensures Network(c) + BlockSize(c.prefix) <= AddressSpace
    ensures 2 * BlockSize(c.prefix) <= AddressSpace
  {
    SpaceSplit(c.prefix);
    BlockBounds(c.addr, BlockSize(c.prefix), Pow2(c.prefix));
  }

  /** The arithmetic behind `NetworkBounds`, over plain numbers. */
  lemma BlockBounds(a: nat, B: nat, M: nat)
    requires B >= 1 && M >= 2 && M * B == AddressSpace && a < AddressSpace
    ensures (a - a % B) % B == 0
    ensures a - a % B + B <= AddressSpace
    ensures 2 * B <= AddressSpace
  {
    Aligned(a, B);
    AlignedBelow(B * (a / B), a, B, M);
    MulMono(B, 2, M);
  }

  /** The address space is 2^p blocks of the subnet size, and 2^p >= 2. */
  lemma SpaceSplit(p: Prefix)
    ensures Pow2(p) * BlockSize(p) == AddressSpace
    ensures Pow2(p) >= 2
  {
    Pow2Add(p, 32 - p);
    Pow2ThirtyTwo();
    assert Pow2(p) == 2 * Pow2(p - 1);
  }

  /** Masking leaves a multiple of the block size. */
  lemma Aligned(a: nat, B: nat)
    requires B >= 1
    ensures a - a % B == B * (a / B)
    ensures (B * (a / B)) % B == 0
  {
    ModUnique(B * (a / B), B, a / B, 0);
  }

  /** A block-aligned address below B * M leaves room for a whole block. */
  lemma AlignedBelow(n: nat, a: nat, B: nat, M: nat)
    requires B >= 1 && n % B == 0 && n <= a < M * B
    ensures n + B <= M * B
  {
    var q := n / B;
    assert n == B * q;
    if q >= M {
      MulMono(B, M, q);
      assert false;
    }
    MulMono(B, q + 1, M);
  }

  lemma MulMono(b: nat, x: nat, y: nat)
    requires x <= y
    ensures b * x <= b * y
  {
  }

  /** Membership in the subnet is the half-open range starting at the
      network address. */
  lemma ContainsRange(c: Cidr, a: Ipv4)
    ensures Contains(c, a) <==> Network(c) <= a < Network(c) + BlockSize(c.prefix)
  {
    NetworkBounds(c);
    MaskRange(a, BlockSize(c.prefix), Network(c));
  }

  /** The arithmetic behind `ContainsRange`: clearing the low part of `a`
      gives the aligned `n` exactly when `a` lies in the block at `n`. */
  lemma MaskRange(a: nat, B: nat, n: nat)
    requires B >= 1 && n % B == 0
    ensures a - a % B == n <==> n <= a < n + B
  {
    assert 0 <= a % B < B;
    if n <= a < n + B {
      var q := n / B;
      assert n == B * q + n % B;
      assert a == B * q + (a - n);
      ModUnique(a, B, q, a - n);
    }
  }

  /** The address four big-endian bytes spell. */
  function Addr(ip: seq<byte>): Ipv4
    requires |ip| == 4
  {
    Pow256Four();
    Value(ip)
  }

  /** How many addresses the loop still visits from `v` on: up to the
      block end inside the subnet, none outside it. */
  function Remaining(c: Cidr, v: Ipv4): (r: nat)
    ensures v + r <= AddressSpace
    ensures Contains(c, v) ==> v + r == Network(c) + BlockSize(c.prefix)
    ensures !Contains(c, v) ==> r == 0
  {
    NetworkBounds(c);
    ContainsRange(c, v);
    if Contains(c, v) then Network(c) + BlockSize(c.prefix) - v else 0
  }

  /** The loop of `findAvailableIps`: starting from `ip`, append every
      address the subnet contains, stepping with `Inc`. */
  function Enumerate(c: Cidr, ip: seq<byte>, acc: seq<IpText>): (r: seq<IpText>)
    requires |ip| == 4
    ensures r == acc + Hosts(Addr(ip), Remaining(c, Addr(ip)))
    decreases Remaining(c, Addr(ip))
  {
    var v := Addr(ip);
    if !Contains(c, v) then acc
    else
      var next := Inc(ip);
      IncValue(ip);
      assert Addr(next) == if v + 1 < AddressSpace then v + 1 else 0;
      EnumerateStep(c, v, Addr(next));
      assert acc + [HostRoute(v)] + Hosts(Addr(next), Remaining(c, Addr(next)))
          == acc + Hosts(v, Remaining(c, v));
      Enumerate(c, next, acc + [HostRoute(v)])
  }

  /** One turn of the loop: the remaining count drops, and the visited
      address followed by the rest is the whole remainder. */
  lemma EnumerateStep(c: Cidr, v: Ipv4, w: Ipv4)
    requires Contains(c, v)
    requires w == if v + 1 < AddressSpace then v + 1 else 0
    ensures Remaining(c, w) < Remaining(c, v)
    ensures [HostRoute(v)] + Hosts(w, Remaining(c, w)) == Hosts(v, Remaining(c, v))
  {
    StepOrWrap(c, v, w);
    var n := Remaining(c, v);
    HostsCons(v, n);
    if !Contains(c, w) {
      assert n == 1 && Remaining(c, w) == 0;
      assert Hosts(w, 0) == [] == Hosts(v + 1, 0);
    }
  }

  /** After an increment inside the subnet, the next address is either
      the successor inside the subnet or outside it. */
  lemma StepOrWrap(c: Cidr, v: Ipv4, w: Ipv4)
    requires Contains(c, v)
    requires w == if v + 1 < AddressSpace then v + 1 else 0
    ensures Contains(c, w) ==> w == v + 1
    ensures !Contains(c, w) ==> v + 1 == Network(c) + BlockSize(c.prefix)
  {
    NetworkBounds(c);
    ContainsRange(c, v);
    ContainsRange(c, w);
    StepArith(Network(c), BlockSize(c.prefix), v, w);
  }

  /** The arithmetic behind `StepOrWrap`: a block that ends at the top of
      the address space does not start at 0, so the wrapped 0 lies outside
      it. */
  lemma StepArith(n: nat, B: nat, v: nat, w: nat)
    requires n + B <= AddressSpace && 2 * B <= AddressSpace
    requires n <= v < n + B
    requires w == if v + 1 < AddressSpace then v + 1 else 0
    ensures n <= w < n + B ==> w == v + 1
    ensures !(n <= w < n + B) ==> v + 1 == n + B
  {
    if v + 1 == AddressSpace {
      assert n >= B;
    }
  }

  lemma HostsCons(lo: nat, n: nat)
    requires n >= 1 && lo + n <= AddressSpace
    ensures [HostRoute(lo)] + Hosts(lo + 1, n - 1) == Hosts(lo, n)
  {
  }

  lemma HostsInner(lo: nat, n: nat)
    requires n > 2 && lo + n <= AddressSpace
    ensures Hosts(lo, n)[1..n - 1] == Hosts(lo + 1, n - 2)
  {
  }

  /** `findAvailableIps`: every host route of the subnet except the network
      and broadcast addresses; empty for an unparsable CIDR or a subnet of
      two or fewer addresses. */
  function FindAvailableIps(parsed: Option<Cidr>): (r: seq<IpText>)
    ensures parsed.None? ==> r == []
    ensures parsed.Some? ==>
              var c := parsed.value;
              var n := Network(c);
              var b := BlockSize(c.prefix);
              && n + b <= AddressSpace
              && (b <= 2 ==> r == [])
              && (b > 2 ==> r == Hosts(n + 1, b - 2))
  {
    match parsed
    case None => []
    case Some(c) =>
      var all := Enumerate(c, Encode(Network(c), 4), []);
      EnumerateSubnet(c);
      if |all| <= 2 then []
      else
        HostsInner(Network(c), BlockSize(c.prefix));
        all[1..|all| - 1]
  }

  /** Starting the loop at the network address visits the whole subnet. */
  lemma EnumerateSubnet(c: Cidr)
    ensures Network(c) + BlockSize(c.prefix) <= AddressSpace
    ensures Enumerate(c, Encode(Network(c), 4), []) == Hosts(Network(c), BlockSize(c.prefix))
  {
    EncodeAddress(Network(c));
    ContainsRange(c, Network(c));
    NetworkBounds(c);
  }

  /** `net.IP` of an address: its four big-endian bytes. */
  lemma EncodeAddress(a: Ipv4)
    ensures Value(Encode(a, 4)) == a
  {
    Pow256Four();
    ValueEncode(a, 4);
  }

  /** The shape of `findAvailableIps`'s list: "/32" host routes inside
      the subnet, ascending, each the increment of the one before, with the
      network and broadcast addresses left out. */
  lemma FindAvailableIpsShape(c: Cidr)
    ensures var r := FindAvailableIps(Some(c));
            var n := Network(c);
            var b := BlockSize(c.prefix);
            && |r| == (if b <= 2 then 0 else b - 2)
            && (forall k :: 0 <= k < |r| ==>
                  && r[k].HostRoute?
                  && Contains(c, r[k].addr)
                  && r[k].addr != n
                  && r[k].addr != n + b - 1)
            && (forall k :: 0 <= k < |r| - 1 ==> r[k + 1].addr == r[k].addr + 1)
            && (forall i, j :: 0 <= i < j < |r| ==> r[i].addr < r[j].addr)
  {
    var r := FindAvailableIps(Some(c));
    forall k | 0 <= k < |r|
      ensures Contains(c, r[k].addr)
    {
      ContainsRange(c, r[k].addr);
    }
  }

  /** Position of the first occurrence of `x`, or `|s|` when absent. */
  function IndexOf<T(==)>(s: seq<T>, x: T): (i: nat)
    ensures i <= |s|
    ensures i < |s| ==> s[i] == x
    ensures x !in s[..i]
    ensures x in s <==> i < |s|
    decreases |s|
  {
    if |s| == 0 then 0
    else if s[0] == x then 0
    else
      var j := IndexOf(s[1..], x);
      assert s[..j + 1] == [s[0]] + s[1..][..j];
      j + 1
  }

  /** `remove(s, r)`'s returned slice: the loop scans for the first
      element equal to `x` and cuts it out; `s` comes back unchanged when
      there is none. */
  function RemoveFirst<T(==)>(s: seq<T>, x: T): (r: seq<T>)
    ensures x !in s ==> r == s
    ensures x in s ==> |r| == |s| - 1
    decreases |s|
  {
    if |s| == 0 then s
    else if s[0] == x then s[1..]
    else
      assert s == [s[0]] + s[1..];
      [s[0]] + RemoveFirst(s[1..], x)
  }

  /** The cut is at the first occurrence: everything before it stays, and
      everything after it moves down by one. */
  lemma {:induction false} RemoveFirstAt<T>(s: seq<T>, x: T)
    requires x in s
    ensures var i := IndexOf(s, x); RemoveFirst(s, x) == s[..i] + s[i + 1..]
    decreases |s|
  {
    if s[0] != x {
      var t := s[1..];
      assert s == [s[0]] + t;
      assert x in t;
      RemoveFirstAt(t, x);
      var j := IndexOf(t, x);
      ConsSlices(s, j);
    }
  }

  /** Cutting `s` around position `j + 1` is cutting its tail around `j`. */
  lemma ConsSlices<T>(s: seq<T>, j: nat)
    requires j + 1 < |s|
    ensures s[..j + 1] == [s[0]] + s[1..][..j]
    ensures s[j + 2..] == s[1..][j + 1..]
  {
  }

  /** What a caller's slice holds after `remove(s, x)` when the result is
      thrown away: `append(s[:i], s[i+1:]...)` shifts the tail left inside
      the shared backing array, the caller's length is unchanged, so its
      last slot keeps the old last element. */
  function RemoveDiscarded<T(==)>(s: seq<T>, x: T): (r: seq<T>)
    ensures |r| == |s|
    ensures x !in s ==> r == s
    ensures x in s ==> r == RemoveFirst(s, x) + [s[|s| - 1]]
  {
    var i := IndexOf(s, x);
    if i == |s| then s
    else
      RemoveFirstAt(s, x);
      s[..i] + s[i + 1..] + [s[|s| - 1]]
  }

  /** Any index before which `x` does not occur is the one `IndexOf` finds. */
  lemma IndexOfUnique<T>(s: seq<T>, x: T, i: nat)
    requires i < |s| && s[i] == x && x !in s[..i]
    ensures IndexOf(s, x) == i
  {
  }

  /** Each assigned value in turn, `remove` with its result discarded. */
  function DiscardAll<T(==)>(s: seq<T>, xs: seq<T>): (r: seq<T>)
    ensures |r| == |s|
    decreases |xs|
  {
    if |xs| == 0 then s else DiscardAll(RemoveDiscarded(s, xs[0]), xs[1..])
  }

  /** The candidates that do not occur in `excluded`, in their original
      order. */
  function Filter<T(==)>(s: seq<T>, excluded: seq<T>): (r: seq<T>)
    ensures |r| <= |s|
    ensures forall i :: 0 <= i < |r| ==> r[i] in s && r[i] !in excluded
    ensures forall i :: 0 <= i < |s| && s[i] !in excluded ==> s[i] in r
    decreases |s|
  {
    if |s| == 0 then []
    else if s[0] in excluded then Filter(s[1..], excluded)
    else [s[0]] + Filter(s[1..], excluded)
  }

  predicate Distinct<T(==)>(s: seq<T>)
  {
    forall i, j :: 0 <= i < j < |s| ==> s[i] != s[j]
  }

  lemma {:induction false} FilterDistinct<T>(s: seq<T>, excluded: seq<T>)
    requires Distinct(s)
    ensures Distinct(Filter(s, excluded))
    decreases |s|
  {
    if |s| > 0 {
      FilterDistinct(s[1..], excluded);
      assert s[0] !in s[1..];
    }
  }

  lemma {:induction false} FilterAgain<T>(s: seq<T>, excluded: seq<T>, x: T)
    ensures Filter(Filter(s, excluded), [x]) == Filter(s, excluded + [x])
    decreases |s|
  {
    if |s| > 0 {
      FilterAgain(s[1..], excluded, x);
      if s[0] !in excluded {
        assert ([s[0]] + Filter(s[1..], excluded))[1..] == Filter(s[1..], excluded);
      }
    }
  }

  lemma {:induction false} FilterNone<T>(s: seq<T>, excluded: seq<T>)
    requires forall i :: 0 <= i < |s| ==> s[i] !in excluded
    ensures Filter(s, excluded) == s
    decreases |s|
  {
    if |s| > 0 {
      FilterNone(s[1..], excluded);
      assert s == [s[0]] + s[1..];
    }
  }

  /** In a list without duplicates, removing the first occurrence removes
      every occurrence. */
  lemma {:induction false} RemoveFirstDistinct<T>(s: seq<T>, x: T)
    requires Distinct(s)
    ensures RemoveFirst(s, x) == Filter(s, [x])
    decreases |s|
  {
    if |s| > 0 {
      if s[0] == x {
        assert forall i :: 0 <= i < |s[1..]| ==> s[1..][i] !in [x];
        FilterNone(s[1..], [x]);
      } else {
        RemoveFirstDistinct(s[1..], x);
      }
    }
  }

  /** The shape of the slice after a discarded `remove` of a value found at
      index `i`. */
  lemma DiscardedAt<T>(arr: seq<T>, x: T, i: nat)
    requires i < |arr| && arr[i] == x && x !in arr[..i]
    ensures RemoveDiscarded(arr, x) == arr[..i] + arr[i + 1..] + [arr[|arr| - 1]]
  {
    IndexOfUnique(arr, x, i);
  }

  /** A discarded `remove` only ever keeps elements that were there. */
  lemma DiscardedElements<T>(arr: seq<T>, x: T, k: nat)
    requires k < |arr|
    ensures RemoveDiscarded(arr, x)[k] in arr
  {
  }

  /** Removing a value that sits in the live prefix shrinks the prefix by
      exactly that value. */
  lemma DiscardLive<T>(arr: seq<T>, live: seq<T>, x: T)
    requires Distinct(live)
    requires |live| <= |arr| && arr[..|live|] == live
    requires x in live
    ensures var arr' := RemoveDiscarded(arr, x);
            |live| - 1 <= |arr'| && arr'[..|live| - 1] == Filter(live, [x])
  {
    var j := IndexOf(live, x);
    PrefixAgrees(arr, live, j);
    assert arr[j] == x && x !in arr[..j];
    DiscardedAt(arr, x, j);
    var cut := live[..j] + live[j + 1..];
    CutPrefix(arr, live, j);
    assert RemoveDiscarded(arr, x)[..|live| - 1] == cut;
    RemoveFirstAt(live, x);
    RemoveFirstDistinct(live, x);
    assert cut == Filter(live, [x]);
  }

  lemma PrefixAgrees<T>(arr: seq<T>, live: seq<T>, j: nat)
    requires |live| <= |arr| && arr[..|live|] == live && j < |live|
    ensures arr[j] == live[j] && arr[..j] == live[..j]
  {
    assert arr[..|live|][j] == arr[j];
    assert arr[..|live|][..j] == arr[..j];
  }

  /** Cutting index `j` out of the slice cuts it out of the live prefix. */
  lemma CutPrefix<T>(arr: seq<T>, live: seq<T>, j: nat)
    requires |live| <= |arr| && arr[..|live|] == live && j < |live|
    ensures (arr[..j] + arr[j + 1..] + [arr[|arr| - 1]])[..|live| - 1] == live[..j] + live[j + 1..]
  {
    var L := |live|;
    var cut := arr[..j] + arr[j + 1..] + [arr[|arr| - 1]];
    forall k | 0 <= k < L - 1
      ensures cut[k] == (live[..j] + live[j + 1..])[k]
    {
      if k < j {
        assert cut[k] == arr[k];
        assert arr[k] == arr[..L][k];
      } else {
        assert cut[k] == arr[k + 1];
        assert arr[k + 1] == arr[..L][k + 1];
      }
    }
  }

  /** Removing a value absent from the live prefix leaves the prefix alone:
      if it occurs at all, it occurs in the stale tail. */
  lemma DiscardStale<T>(arr: seq<T>, live: seq<T>, x: T)
    requires |live| <= |arr| && arr[..|live|] == live
    requires x !in live
    ensures var arr' := RemoveDiscarded(arr, x);
            |live| <= |arr'| && arr'[..|live|] == live
  {
    if x in arr {
      var i := IndexOf(arr, x);
      DiscardedAt(arr, x, i);
      assert RemoveDiscarded(arr, x)[..|live|] == arr[..|live|];
    }
  }

  /** The invariant of the discarded-result `remove` loop over a slice
      that started as `cands`: the slice keeps its length, holds only
      candidates, and its live prefix is the candidates minus `removed`. */
  predicate Tracks<T(==)>(cands: seq<T>, arr: seq<T>, removed: seq<T>)
  {
    var live := Filter(cands, removed);
    && |arr| == |cands|
    && |live| <= |arr| && arr[..|live|] == live
    && forall i :: 0 <= i < |arr| ==> arr[i] in cands
  }

  /** One discarded-result `remove` keeps the invariant. */
  lemma DiscardStep<T>(cands: seq<T>, arr: seq<T>, removed: seq<T>, x: T)
    requires Distinct(cands) && Tracks(cands, arr, removed)
    ensures Tracks(cands, RemoveDiscarded(arr, x), removed + [x])
  {
    var live := Filter(cands, removed);
    FilterAgain(cands, removed, x);
    FilterDistinct(cands, removed);
    if x in live {
      DiscardLive(arr, live, x);
    } else {
      assert forall i :: 0 <= i < |live| ==> live[i] !in [x];
      FilterNone(live, [x]);
      DiscardStale(arr, live, x);
    }
    var arr' := RemoveDiscarded(arr, x);
    forall k | 0 <= k < |arr'|
      ensures arr'[k] in cands
    {
      DiscardedElements(arr, x, k);
    }
  }

  /** The key invariant of the discarded-result `remove` loop: after any
      run of removals the slice keeps its length, never holds anything but
      candidates, and its live prefix is exactly the candidates minus the
      removed values. */
  lemma {:induction false} LivePrefix<T>(cands: seq<T>, arr: seq<T>, removed: seq<T>, xs: seq<T>)
    requires Distinct(cands) && Tracks(cands, arr, removed)
    ensures Tracks(cands, DiscardAll(arr, xs), removed + xs)
    decreases |xs|
  {
    if |xs| > 0 {
      DiscardStep(cands, arr, removed, xs[0]);
      LivePrefix(cands, RemoveDiscarded(arr, xs[0]), removed + [xs[0]], xs[1..]);
      assert removed + [xs[0]] + xs[1..] == removed + xs;
    } else {
      assert removed + xs == removed;
    }
  }
}
