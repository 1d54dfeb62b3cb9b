/** Byte strings: big-endian integers and the lexicographic order of the store's keys. */
module Bytes {

  type byte = x: int | 0 <= x < 256

  const TWO_32: int := 0x1_0000_0000
  const TWO_64: int := 0x1_0000_0000_0000_0000

  type u32 = x: int | 0 <= x < TWO_32
  type u64 = x: int | 0 <= x < TWO_64

  lemma MulAtLeast(m: nat, d: nat)
    requires m > 0
    ensures m * d >= d
  {
  }

  lemma QuotientUnique(x: nat, d: nat, q: nat, r: nat)
    requires d > 0 && x == q * d + r && r < d
    ensures x / d == q
  {
    var k, s := x / d, x % d;
    assert x == k * d + s;
    if k < q {
      assert (q - k) * d == s - r;
      MulAtLeast(q - k, d);
    } else if k > q {
      assert (k - q) * d == r - s;
      MulAtLeast(k - q, d);
    }
  }

  lemma SameRemainder(x: nat, r: nat, q: nat, d: nat)
    requires d > 0 && x == q * d + r
    ensures x % d == r % d
  {
    var k := r / d;
    assert x == (q + k) * d + r % d;
    QuotientUnique(x, d, q + k, r % d);
  }

  function Pow2(n: nat): (r: nat)
    ensures r > 0
  {
    if n == 0 then 1 else 2 * Pow2(n - 1)
  }

  lemma {:induction false} Pow2Add(a: nat, b: nat)
    ensures Pow2(a + b) == Pow2(a) * Pow2(b)
  {
    if a > 0 { Pow2Add(a - 1, b); }
  }

  lemma Pow2Of32()
    ensures Pow2(1) == 2 && Pow2(32) == TWO_32
  {
    Pow2Add(1, 1);
    Pow2Add(2, 2);
    Pow2Add(4, 4);
    Pow2Add(8, 8);
    Pow2Add(16, 16);
  }

  /** The number of byte strings of length n. */
  function Pow256(n: nat): (r: nat)
    ensures r > 0
  {
    if n == 0 then 1 else 256 * Pow256(n - 1)
  }

  lemma Pow256Of8()
    ensures Pow256(8) == TWO_64
  {
    assert Pow256(4) == 256 * 256 * 256 * 256;
    assert Pow256(8) == 256 * 256 * 256 * 256 * Pow256(4);
  }

  function BigEndian(x: nat, width: nat): (b: seq<byte>)
    ensures |b| == width
  {
    if width == 0 then [] else BigEndian(x / 256, width - 1) + [x % 256]
  }

  function FromBigEndian(b: seq<byte>): (x: nat)
  {
    if b == [] then 0 else 256 * FromBigEndian(b[..|b| - 1]) + b[|b| - 1]
  }

  lemma {:induction false} BigEndianRoundTrip(x: nat, width: nat)
    requires x < Pow256(width)
    ensures FromBigEndian(BigEndian(x, width)) == x
  {
    if width > 0 {
      BigEndianRoundTrip(x / 256, width - 1);
      var b := BigEndian(x, width);
      assert b[..|b| - 1] == BigEndian(x / 256, width - 1);
    }
  }

  lemma {:induction false} FromBigEndianRoundTrip(b: seq<byte>)
    ensures FromBigEndian(b) < Pow256(|b|)
    ensures BigEndian(FromBigEndian(b), |b|) == b
  {
    if b != [] {
      FromBigEndianRoundTrip(b[..|b| - 1]);
      assert b == b[..|b| - 1] + [b[|b| - 1]];
    }
  }

  lemma BigEndianInjective(x: nat, y: nat, width: nat)
    requires x < Pow256(width) && y < Pow256(width)
    requires BigEndian(x, width) == BigEndian(y, width)
    ensures x == y
  {
    BigEndianRoundTrip(x, width);
    BigEndianRoundTrip(y, width);
  }

  /** The store's key order: byte by byte, a proper prefix first. */
  predicate Less(a: seq<byte>, b: seq<byte>)
  {
    b != [] && (a == [] || a[0] < b[0] || (a[0] == b[0] && Less(a[1..], b[1..])))
  }

  lemma {:induction false} LessTransitive(a: seq<byte>, b: seq<byte>, c: seq<byte>)
    requires Less(a, b) && Less(b, c)
    ensures Less(a, c)
  {
    if a != [] && a[0] == b[0] == c[0] {
      LessTransitive(a[1..], b[1..], c[1..]);
    }
  }

  lemma {:induction false} LessTotal(a: seq<byte>, b: seq<byte>)
    ensures Less(a, b) || a == b || Less(b, a)
  {
    if a != [] && b != [] && a[0] == b[0] {
      LessTotal(a[1..], b[1..]);
      assert a == [a[0]] + a[1..] && b == [b[0]] + b[1..];
    }
  }

  lemma {:induction false} LessIrreflexive(a: seq<byte>)
    ensures !Less(a, a)
  {
    if a != [] {
      LessIrreflexive(a[1..]);
    }
  }

  lemma LessAsymmetric(a: seq<byte>, b: seq<byte>)
    requires Less(a, b)
    ensures !Less(b, a)
  {
    if Less(b, a) {
      LessTransitive(a, b, a);
      LessIrreflexive(a);
    }
  }

  lemma {:induction false} LessPrepend(p: seq<byte>, a: seq<byte>, b: seq<byte>)
    ensures Less(p + a, p + b) <==> Less(a, b)
  {
    if p == [] {
      assert p + a == a && p + b == b;
    } else {
      LessPrepend(p[1..], a, b);
      assert (p + a)[1..] == p[1..] + a && (p + b)[1..] == p[1..] + b;
    }
  }

  lemma {:induction false} LessAppend(a: seq<byte>, c: byte, b: seq<byte>, d: byte)
    requires |a| == |b|
    ensures Less(a + [c], b + [d]) <==> Less(a, b) || (a == b && c < d)
  {
    if a != [] {
      assert (a + [c])[1..] == a[1..] + [c] && (b + [d])[1..] == b[1..] + [d];
      LessAppend(a[1..], c, b[1..], d);
      assert a == [a[0]] + a[1..] && b == [b[0]] + b[1..];
    }
  }

  /** Big-endian keys of one width sort exactly as the numbers they encode. */
  lemma {:induction false} BigEndianOrder(x: nat, y: nat, width: nat)
    requires x < Pow256(width) && y < Pow256(width)
    ensures Less(BigEndian(x, width), BigEndian(y, width)) <==> x < y
  {
    if width > 0 {
      var a, b := BigEndian(x / 256, width - 1), BigEndian(y / 256, width - 1);
      LessAppend(a, x % 256, b, y % 256);
      BigEndianOrder(x / 256, y / 256, width - 1);
      if a == b {
        BigEndianInjective(x / 256, y / 256, width - 1);
      }
    }
  }

  predicate Ascending(keys: seq<seq<byte>>)
  {
    forall i, j | 0 <= i < j < |keys| :: Less(keys[i], keys[j])
  }

  predicate IsLeast(k: seq<byte>, keys: set<seq<byte>>)
  {
    k in keys && forall other | other in keys && other != k :: Less(k, other)
  }

  lemma {:induction false} LeastExists(keys: set<seq<byte>>)
    requires keys != {}
    ensures exists k :: IsLeast(k, keys)
  {
    var x :| x in keys;
    var rest := keys - {x};
    if rest == {} {
      assert keys == {x};
      assert IsLeast(x, keys);
    } else {
      LeastExists(rest);
      var k :| IsLeast(k, rest);
      LessTotal(x, k);
      if Less(x, k) {
        assert keys == rest + {x};
        forall other | other in keys && other != x
          ensures Less(x, other)
        {
          if other != k { LessTransitive(x, k, other); }
        }
        assert IsLeast(x, keys);
      } else {
        assert keys == rest + {x};
        assert IsLeast(k, keys);
      }
    }
  }

  lemma LeastUnique(a: seq<byte>, b: seq<byte>, keys: set<seq<byte>>)
    requires IsLeast(a, keys) && IsLeast(b, keys)
    ensures a == b
  {
    if a != b { LessAsymmetric(a, b); }
  }

  function Least(keys: set<seq<byte>>): (k: seq<byte>)
    requires keys != {}
    ensures IsLeast(k, keys)
  {
    LeastExists(keys);
    assert forall a, b | IsLeast(a, keys) && IsLeast(b, keys) :: a == b by {
      forall a, b | IsLeast(a, keys) && IsLeast(b, keys) ensures a == b { LeastUnique(a, b, keys); }
    }
    var k :| k in keys && IsLeast(k, keys);
    k
  }

  /** The ascending enumeration of a finite key set, the order in which a scan visits it. */
  function SortedKeys(keys: set<seq<byte>>): (r: seq<seq<byte>>)
    ensures forall k :: k in r <==> k in keys
    ensures Ascending(r)
  {
    if keys == {} then [] else
      var k := Least(keys);
      [k] + SortedKeys(keys - {k})
  }
}
