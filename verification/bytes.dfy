/** Fixed-width big-endian byte strings: the representation behind `net.IP`
    and behind the 8-byte keys that `itob` produces. */
module Bytes {

  type byte = x: int | 0 <= x < 256

  function Pow256(n: nat): (r: nat)
    ensures r >= 1
  {
    if n == 0 then 1 else 256 * Pow256(n - 1)
  }

  /** The unsigned number a big-endian byte string denotes. */
  function Value(b: seq<byte>): (r: nat)
    ensures r < Pow256(|b|)
  {
    if |b| == 0 then 0 else 256 * Value(b[..|b| - 1]) + b[|b| - 1]
  }

  /** The `width`-byte big-endian encoding of `v` modulo 256^width, as
      `binary.BigEndian.PutUint64` writes it for width 8. */
  function Encode(v: int, width: nat): (r: seq<byte>)
    ensures |r| == width
    decreases width
  {
    if width == 0 then [] else Encode(v / 256, width - 1) + [v % 256]
  }

  /** Increment with carry, as `inc` does it: walk from the last byte,
      bump it, and stop at the first byte that did not wrap to zero. */
  function Inc(b: seq<byte>): (r: seq<byte>)
    ensures |r| == |b|
  {
    if |b| == 0 then b
    else if b[|b| - 1] == 255 then Inc(b[..|b| - 1]) + [0]
    else b[..|b| - 1] + [b[|b| - 1] + 1]
  }

  /** Byte-wise lexicographic order, the order of a bbolt cursor. */
  predicate LexLess(a: seq<byte>, b: seq<byte>)
  {
    if |a| == 0 then |b| > 0
    else |b| > 0 && (a[0] < b[0] || (a[0] == b[0] && LexLess(a[1..], b[1..])))
  }

  lemma ValueSnoc(p: seq<byte>, x: byte)
    ensures Value(p + [x]) == 256 * Value(p) + x
  {
    assert (p + [x])[..|p|] == p;
  }

  /** `Inc` adds one to the number the bytes denote; the largest value
      wraps to zero. */
  lemma {:induction false} IncValue(b: seq<byte>)
    ensures Value(b) + 1 < Pow256(|b|) ==> Value(Inc(b)) == Value(b) + 1
    ensures Value(b) + 1 == Pow256(|b|) ==> Value(Inc(b)) == 0
    decreases |b|
  {
    if |b| > 0 {
      var p, last := b[..|b| - 1], b[|b| - 1];
      assert b == p + [last];
      ValueSnoc(p, last);
      assert Pow256(|b|) == 256 * Pow256(|p|);
      if last == 255 {
        IncValue(p);
        assert Inc(b) == Inc(p) + [0];
        ValueSnoc(Inc(p), 0);
      } else {
        assert Inc(b) == p + [last + 1];
        ValueSnoc(p, last + 1);
      }
    }
  }

  /** Only a string of 0xFF bytes wraps: it becomes all zeros. */
  lemma {:induction false} IncAllOnes(b: seq<byte>)
    requires forall i :: 0 <= i < |b| ==> b[i] == 255
    ensures forall i :: 0 <= i < |b| ==> Inc(b)[i] == 0
    decreases |b|
  {
    if |b| > 0 {
      IncAllOnes(b[..|b| - 1]);
      assert Inc(b) == Inc(b[..|b| - 1]) + [0];
    }
  }

  /** Carry: a trailing run of 0xFF bytes rolls over to zeros and the byte
      before it is bumped; every byte further left is untouched. */
  lemma {:induction false} IncCarry(b: seq<byte>, j: nat)
    requires j < |b| && b[j] < 255
    requires forall i :: j < i < |b| ==> b[i] == 255
    ensures Inc(b)[..j] == b[..j]
    ensures Inc(b)[j] == b[j] + 1
    ensures forall i :: j < i < |b| ==> Inc(b)[i] == 0
    decreases |b|
  {
    if j == |b| - 1 {
      assert Inc(b) == b[..j] + [b[j] + 1];
    } else {
      var p := b[..|b| - 1];
      IncCarry(p, j);
      assert Inc(b) == Inc(p) + [0];
      assert Inc(b)[..j] == Inc(p)[..j];
    }
  }

  /** Decoding inverts encoding modulo the width. */
  lemma {:induction false} ValueEncode(v: int, width: nat)
    ensures Value(Encode(v, width)) == v % Pow256(width)
    decreases width
  {
    if width > 0 {
      var e := Encode(v, width);
      assert e[..width - 1] == Encode(v / 256, width - 1);
      ValueEncode(v / 256, width - 1);
      var q := v / 256;
      var P := Pow256(width - 1);
      assert Value(e) == 256 * (q % P) + v % 256;
      ModMul(v, P);
    }
  }

  lemma ModMul(v: int, P: nat)
    requires P >= 1
    ensures 256 * ((v / 256) % P) + v % 256 == v % (256 * P)
  {
    var q := v / 256;
    var r := v % 256;
    assert v == 256 * q + r;
    var qq := q / P;
    var qr := q % P;
    assert q == P * qq + qr;
    assert v == (256 * P) * qq + (256 * qr + r);
    assert 0 <= 256 * qr + r < 256 * P;
    ModUnique(v, 256 * P, qq, 256 * qr + r);
  }

  lemma ModUnique(v: int, m: nat, q: int, r: int)
    requires m >= 1 && 0 <= r < m && v == m * q + r
    ensures v % m == r && v / m == q
  {
    var d := q - v / m;
    assert m * d == v % m - r;
    if d >= 1 {
      MulAtLeast(m, d);
    } else if d <= -1 {
      MulAtLeast(m, -d);
    }
  }

  lemma MulAtLeast(m: nat, d: int)
    requires d >= 1
    ensures m * d >= m
  {
  }

  /** Equal-width encodings of numbers below 256^width are equal only for
      equal numbers. */
  lemma EncodeInjective(a: int, b: int, width: nat)
    requires 0 <= a < Pow256(width) && 0 <= b < Pow256(width)
    requires Encode(a, width) == Encode(b, width)
    ensures a == b
  {
    ValueEncode(a, width);
    ValueEncode(b, width);
  }

  lemma {:induction false} LexLessAppend(p: seq<byte>, q: seq<byte>, x: byte, y: byte)
    requires |p| == |q|
    requires LexLess(p, q) || (p == q && x < y)
    ensures LexLess(p + [x], q + [y])
    decreases |p|
  {
    if |p| > 0 {
      assert (p + [x])[1..] == p[1..] + [x];
      assert (q + [y])[1..] == q[1..] + [y];
      if p[0] == q[0] && !LexLess(p, q) {
        assert p[1..] == q[1..];
      }
      if p[0] == q[0] && LexLess(p, q) {
        LexLessAppend(p[1..], q[1..], x, y);
      }
      if p[0] == q[0] && p == q {
        LexLessAppend(p[1..], q[1..], x, y);
      }
    }
  }

  /** Encoding preserves order: smaller numbers get lexicographically
      smaller byte strings. */
  lemma {:induction false} EncodeOrder(a: int, b: int, width: nat)
    requires 0 <= a < b < Pow256(width)
    ensures LexLess(Encode(a, width), Encode(b, width))
    decreases width
  {
    var qa, qb := a / 256, b / 256;
    assert qa <= qb;
    assert qb < Pow256(width - 1);
    if qa < qb {
      EncodeOrder(qa, qb, width - 1);
    } else {
      assert a % 256 < b % 256;
    }
    LexLessAppend(Encode(qa, width - 1), Encode(qb, width - 1), a % 256, b % 256);
  }
}
