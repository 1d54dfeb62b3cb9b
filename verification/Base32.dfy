/** API keys: the streaming base32 encoder (section 6 of RFC 4648, lower case, no padding) and the
    comparison a presented key goes through. */
module Base32 {
  import opened Common
  import opened Bytes

  const ALPHABET: string := "abcdefghijklmnopqrstuvwxyz234567"

  type quintet = x: int | 0 <= x < 32

  // ----- Bits, most significant first -----

  function BitsOf(x: nat, n: nat): (b: seq<bool>)
    ensures |b| == n
  {
    if n == 0 then [] else BitsOf(x / 2, n - 1) + [x % 2 == 1]
  }

  function FromBits(b: seq<bool>): nat
  {
    if b == [] then 0 else 2 * FromBits(b[..|b| - 1]) + if b[|b| - 1] then 1 else 0
  }

  lemma {:induction false} FromBitsRoundTrip(b: seq<bool>)
    ensures FromBits(b) < Pow2(|b|) && BitsOf(FromBits(b), |b|) == b
  {
    if b != [] {
      FromBitsRoundTrip(b[..|b| - 1]);
      assert b == b[..|b| - 1] + [b[|b| - 1]];
    }
  }

  lemma {:induction false} BitsOfRoundTrip(x: nat, n: nat)
    requires x < Pow2(n)
    ensures FromBits(BitsOf(x, n)) == x
  {
    if n > 0 {
      BitsOfRoundTrip(x / 2, n - 1);
      assert BitsOf(x, n)[..n - 1] == BitsOf(x / 2, n - 1);
    }
  }

  function ShiftRight(x: nat, n: nat): nat
  {
    if n == 0 then x else ShiftRight(x / 2, n - 1)
  }

  function ShiftLeft(x: nat, n: nat): nat
  {
    if n == 0 then x else 2 * ShiftLeft(x, n - 1)
  }

  /** The high bits of a word come first. */
  lemma {:induction false} BitsSplit(x: nat, m: nat, n: nat)
    ensures BitsOf(x, m + n) == BitsOf(ShiftRight(x, n), m) + BitsOf(x, n)
  {
    if n > 0 {
      BitsSplit(x / 2, m, n - 1);
      assert BitsOf(x, m + n) == BitsOf(x / 2, m + (n - 1)) + [x % 2 == 1];
    }
  }

  lemma {:induction false} ShiftBack(x: nat, n: nat)
    ensures ShiftRight(ShiftLeft(x, n), n) == x && BitsOf(ShiftLeft(x, n), n) == Zeros(n)
  {
    if n > 0 {
      ShiftBack(x, n - 1);
      assert Zeros(n) == Zeros(n - 1) + [false];
    }
  }

  /** Bits above the ones read do not matter. */
  lemma {:induction false} BitsAgree(x: nat, y: nat, k: nat, n: nat)
    requires x == y + k * Pow2(n)
    ensures BitsOf(x, n) == BitsOf(y, n)
  {
    if n > 0 {
      var half := k * Pow2(n - 1);
      assert x == y + 2 * half;
      BitsAgree(x / 2, y / 2, k, n - 1);
    }
  }

  lemma LowBitsAgree(x: nat, y: nat, k: nat, n: nat, m: nat)
    requires x == y + k * Pow2(n) && m <= n
    ensures BitsOf(x, m) == BitsOf(y, m)
  {
    BitsAgree(x, y, k, n);
    BitsSplit(x, n - m, m);
    BitsSplit(y, n - m, m);
    assert BitsOf(x, m) == BitsOf(x, n)[n - m..];
    assert BitsOf(y, m) == BitsOf(y, n)[n - m..];
  }

  // ----- Base32 by groups of five bits -----

  function OctetBits(bytes: seq<byte>): (b: seq<bool>)
    ensures |b| == 8 * |bytes|
  {
    if bytes == [] then [] else OctetBits(bytes[..|bytes| - 1]) + BitsOf(bytes[|bytes| - 1], 8)
  }

  function SymbolBits(values: seq<quintet>): (b: seq<bool>)
    ensures |b| == 5 * |values|
  {
    if values == [] then [] else SymbolBits(values[..|values| - 1]) + BitsOf(values[|values| - 1], 5)
  }

  function Zeros(n: nat): (b: seq<bool>)
    ensures |b| == n && forall i | 0 <= i < n :: !b[i]
  {
    seq(n, i => false)
  }

  /** How many zero bits fill the last group. */
  function Padding(n: nat): (p: nat)
    ensures p < 5 && (8 * n + p) % 5 == 0
  {
    (5 - 8 * n % 5) % 5
  }

  /** values are the five-bit groups of the bytes, the last one filled with zeros. */
  predicate Groups(bytes: seq<byte>, values: seq<quintet>)
  {
    SymbolBits(values) == OctetBits(bytes) + Zeros(Padding(|bytes|))
  }

  function Letters(values: seq<quintet>): (s: string)
    ensures |s| == |values| && forall i | 0 <= i < |s| :: s[i] == ALPHABET[values[i]]
  {
    seq(|values|, i requires 0 <= i < |values| => ALPHABET[values[i]])
  }

  lemma SymbolSnoc(values: seq<quintet>, v: quintet)
    ensures SymbolBits(values + [v]) == SymbolBits(values) + BitsOf(v, 5)
  {
    assert (values + [v])[..|values|] == values;
  }

  // ----- The streaming encoder -----

  /** The shifted buffer: bits that no longer fit in 32 fall off, bits already used stay. */
  function Shift(buffer: nat, b: byte): nat
  {
    buffer * 256 % TWO_32 + b
  }

  lemma ShiftRight4(x: nat, n: nat)
    ensures ShiftRight(x, n + 4) == ShiftRight(x / 16, n)
  {
    assert ShiftRight(x, n + 4) == ShiftRight(x / 2, n + 3);
    assert ShiftRight(x / 2, n + 3) == ShiftRight(x / 4, n + 2);
    assert ShiftRight(x / 4, n + 2) == ShiftRight(x / 8, n + 1);
  }

  lemma ShiftRight8(x: nat)
    ensures ShiftRight(x, 8) == x / 256
  {
    ShiftRight4(x, 4);
    ShiftRight4(x / 16, 0);
  }

  lemma Pow2Of24()
    ensures Pow2(5) == 32 && Pow2(8) == 256 && Pow2(24) == 0x100_0000
  {
    assert Pow2(4) == 16;
    Pow2Add(4, 4);
    Pow2Add(8, 8);
    Pow2Add(16, 8);
  }

  lemma ShiftBits(buffer: nat, bits: nat, b: byte)
    requires bits < 5
    ensures BitsOf(Shift(buffer, b), bits + 8) == BitsOf(buffer, bits) + BitsOf(b, 8)
  {
    var x, high := Shift(buffer, b), buffer % 0x100_0000;
    ShiftIs(buffer, b);
    assert BitsOf(x, bits + 8) == BitsOf(x / 256, bits) + BitsOf(x, 8) by {
      ShiftRight8(x);
      BitsSplit(x, bits, 8);
    }
    assert BitsOf(x, 8) == BitsOf(b, 8) by {
      Pow2Of24();
      BitsAgree(x, b, high, 8);
    }
    assert BitsOf(high, bits) == BitsOf(buffer, bits) by {
      Pow2Of24();
      LowBitsAgree(buffer, high, buffer / 0x100_0000, 24, bits);
    }
  }

  lemma ShiftIs(buffer: nat, b: byte)
    ensures Shift(buffer, b) == b + buffer % 0x100_0000 * 256
    ensures Shift(buffer, b) / 256 == buffer % 0x100_0000
  {
    var high, k := buffer % 0x100_0000, buffer / 0x100_0000;
    SameRemainder(buffer * 256, high * 256, k, TWO_32);
  }

  lemma TakeQuintet(buffer: nat, bits: nat)
    requires bits >= 5
    ensures BitsOf(buffer, bits) == BitsOf(ShiftRight(buffer, bits - 5) % 32, 5) + BitsOf(buffer, bits - 5)
  {
    var q := ShiftRight(buffer, bits - 5);
    BitsSplit(buffer, 5, bits - 5);
    Pow2Of24();
    BitsAgree(q, q % 32, q / 32, 5);
  }

  lemma LowFive(x: nat)
    ensures BitsOf(x % TWO_32 % 32, 5) == BitsOf(x, 5)
  {
    SameRemainder(x, x % TWO_32, 0x800_0000 * (x / TWO_32), 32);
    Pow2Of24();
    BitsAgree(x, x % 32, x / 32, 5);
  }

  lemma FillQuintet(buffer: nat, bits: nat, gap: nat)
    requires bits + gap == 5
    ensures BitsOf(ShiftLeft(buffer, gap) % TWO_32 % 32, 5) == BitsOf(buffer, bits) + Zeros(gap)
  {
    LowFive(ShiftLeft(buffer, gap));
    BitsSplit(ShiftLeft(buffer, gap), bits, gap);
    ShiftBack(buffer, gap);
  }

  /** The bits taken so far are those given out and those still held. */
  predicate Held(taken: seq<bool>, values: seq<quintet>, buffer: nat, bits: nat)
  {
    taken == SymbolBits(values) + BitsOf(buffer, bits)
  }

  lemma OctetSnoc(bytes: seq<byte>, b: byte)
    ensures OctetBits(bytes + [b]) == OctetBits(bytes) + BitsOf(b, 8)
  {
    assert (bytes + [b])[..|bytes|] == bytes;
  }

  lemma Regroup(a: seq<bool>, b: seq<bool>, c: seq<bool>)
    ensures (a + b) + c == a + (b + c)
  {
  }

  lemma Feed(bytes: seq<byte>, b: byte, values: seq<quintet>, buffer: nat, bits: nat)
    requires bits < 5 && Held(OctetBits(bytes), values, buffer, bits)
    ensures Held(OctetBits(bytes + [b]), values, Shift(buffer, b), bits + 8)
  {
    OctetSnoc(bytes, b);
    ShiftBits(buffer, bits, b);
    Regroup(SymbolBits(values), BitsOf(buffer, bits), BitsOf(b, 8));
  }

  lemma Emit(taken: seq<bool>, values: seq<quintet>, buffer: nat, bits: nat)
    requires bits >= 5 && Held(taken, values, buffer, bits)
    ensures Held(taken, values + [ShiftRight(buffer, bits - 5) % 32], buffer, bits - 5)
  {
    TakeQuintet(buffer, bits);
    SymbolSnoc(values, ShiftRight(buffer, bits - 5) % 32);
  }

  lemma PaddingIs(n: nat, m: nat, bits: nat)
    requires 8 * n == 5 * m + bits && bits < 5
    ensures Padding(n) == if bits == 0 then 0 else 5 - bits
  {
  }

  lemma Finish(bytes: seq<byte>, values: seq<quintet>, buffer: nat, bits: nat)
    requires bits < 5 && Held(OctetBits(bytes), values, buffer, bits)
    ensures Groups(bytes, if bits > 0 then values + [ShiftLeft(buffer, 5 - bits) % TWO_32 % 32] else values)
  {
    PaddingIs(|bytes|, |values|, bits);
    if bits > 0 {
      FillQuintet(buffer, bits, 5 - bits);
      FinishWith(OctetBits(bytes), values, BitsOf(buffer, bits), 5 - bits, ShiftLeft(buffer, 5 - bits) % TWO_32 % 32);
    }
  }

  lemma FinishWith(taken: seq<bool>, values: seq<quintet>, held: seq<bool>, gap: nat, v: quintet)
    requires taken == SymbolBits(values) + held && BitsOf(v, 5) == held + Zeros(gap)
    ensures SymbolBits(values + [v]) == taken + Zeros(gap)
  {
    SymbolSnoc(values, v);
  }

  lemma LettersSnoc(values: seq<quintet>, v: quintet)
    ensures Letters(values + [v]) == Letters(values) + [ALPHABET[v]]
  {
  }

  /** Gives out every whole group held. */
  method Drain(text: string, ghost given: seq<quintet>, buffer: nat, held: nat, ghost taken: seq<bool>)
    returns (out: string, ghost values: seq<quintet>, bits: nat)
    requires text == Letters(given) && Held(taken, given, buffer, held)
    ensures out == Letters(values) && Held(taken, values, buffer, bits) && bits < 5
  {
    out, values, bits := text, given, held;
    while bits >= 5
      invariant Held(taken, values, buffer, bits) && out == Letters(values)
    {
      Emit(taken, values, buffer, bits);
      bits := bits - 5;
      var index := ShiftRight(buffer, bits) % 32;
      LettersSnoc(values, index);
      out := out + [ALPHABET[index]];
      values := values + [index];
    }
  }

  /** Takes in every byte, giving out each group as soon as it is whole. */
  method Absorb(bytes: seq<byte>) returns (out: string, ghost values: seq<quintet>, buffer: nat, bits: nat)
    ensures bits < 5 && Held(OctetBits(bytes), values, buffer, bits) && out == Letters(values)
  {
    out, values, buffer, bits := "", [], 0, 0;
    ghost var fed: seq<byte> := [];
    for i := 0 to |bytes|
      invariant fed == bytes[..i]
      invariant bits < 5 && Held(OctetBits(fed), values, buffer, bits) && out == Letters(values)
    {
      Feed(fed, bytes[i], values, buffer, bits);
      fed := fed + [bytes[i]];
      buffer := Shift(buffer, bytes[i]);
      out, values, bits := Drain(out, values, buffer, bits + 8, OctetBits(fed));
    }
    assert fed == bytes;
  }

  method Encode(bytes: seq<byte>) returns (out: string, ghost values: seq<quintet>)
    ensures Groups(bytes, values) && out == Letters(values)
    ensures |out| == (8 * |bytes| + 4) / 5
  {
    var buffer, bits;
    out, values, buffer, bits := Absorb(bytes);
    Finish(bytes, values, buffer, bits);
    if bits > 0 {
      var index := ShiftLeft(buffer, 5 - bits) % TWO_32 % 32;
      LettersSnoc(values, index);
      out := out + [ALPHABET[index]];
      values := values + [index];
    }
    GroupCount(bytes, values);
  }

  lemma GroupCount(bytes: seq<byte>, values: seq<quintet>)
    requires Groups(bytes, values)
    ensures |values| == (8 * |bytes| + 4) / 5
  {
    assert 5 * |values| == 8 * |bytes| + Padding(|bytes|);
  }

  // ----- Decoding -----

  function ValueOf(c: char): Option<quintet>
  {
    if 'a' <= c <= 'z' then Some(c as int - 'a' as int)
    else if '2' <= c <= '7' then Some(c as int - '2' as int + 26)
    else None
  }

  function Values(s: string): (r: Option<seq<quintet>>)
    ensures r.Some? ==> |r.value| == |s|
  {
    if s == "" then Some([]) else
      var head, last := Values(s[..|s| - 1]), ValueOf(s[|s| - 1]);
      if head.None? || last.None? then None else Some(head.value + [last.value])
  }

  /** Whole octets of a bit string; leftover bits are dropped. */
  function Octets(b: seq<bool>): seq<byte>
  {
    if |b| < 8 then [] else
      FromBitsRoundTrip(b[..8]);
      Pow2Of24();
      [FromBits(b[..8])] + Octets(b[8..])
  }

  function Decode(s: string): Option<seq<byte>>
  {
    var values := Values(s);
    if values.None? then None else Some(Octets(SymbolBits(values.value)))
  }

  lemma AlphabetRead(v: quintet)
    ensures ValueOf(ALPHABET[v]) == Some(v)
  {
  }

  lemma {:induction false} ValuesOfLetters(values: seq<quintet>)
    ensures Values(Letters(values)) == Some(values)
  {
    if values != [] {
      var n := |values| - 1;
      ValuesOfLetters(values[..n]);
      assert Letters(values)[..n] == Letters(values[..n]);
      AlphabetRead(values[n]);
      assert values == values[..n] + [values[n]];
    }
  }

  lemma {:induction false} OctetBitsFront(bytes: seq<byte>)
    requires bytes != []
    ensures OctetBits(bytes) == BitsOf(bytes[0], 8) + OctetBits(bytes[1..])
  {
    var n := |bytes| - 1;
    if n > 0 {
      OctetBitsFront(bytes[..n]);
      assert bytes[..n][1..] == bytes[1..][..n - 1];
    }
  }

  lemma ByteBits(b: byte)
    ensures FromBits(BitsOf(b, 8)) == b
  {
    Pow2Of24();
    BitsOfRoundTrip(b, 8);
  }

  lemma {:induction false} OctetsOfBits(bytes: seq<byte>, rest: seq<bool>)
    requires |rest| < 8
    ensures Octets(OctetBits(bytes) + rest) == bytes
  {
    if bytes != [] {
      var b := OctetBits(bytes) + rest;
      OctetBitsFront(bytes);
      ByteBits(bytes[0]);
      assert b[..8] == BitsOf(bytes[0], 8);
      assert b[8..] == OctetBits(bytes[1..]) + rest;
      OctetsOfBits(bytes[1..], rest);
    }
  }

  /** Decoding undoes encoding, for byte strings of every length. */
  lemma DecodeOfEncode(bytes: seq<byte>, values: seq<quintet>)
    requires Groups(bytes, values)
    ensures Decode(Letters(values)) == Some(bytes)
  {
    ValuesOfLetters(values);
    OctetsOfBits(bytes, Zeros(Padding(|bytes|)));
  }

  lemma {:induction false} SymbolBitsInjective(a: seq<quintet>, b: seq<quintet>)
    requires SymbolBits(a) == SymbolBits(b)
    ensures a == b
  {
    if a != [] && b != [] {
      var m, n := |a| - 1, |b| - 1;
      assert m == n;
      assert SymbolBits(a)[..5 * m] == SymbolBits(a[..m]) && SymbolBits(b)[..5 * n] == SymbolBits(b[..n]);
      assert SymbolBits(a)[5 * m..] == BitsOf(a[m], 5) && SymbolBits(b)[5 * n..] == BitsOf(b[n], 5);
      SymbolBitsInjective(a[..m], b[..n]);
      Pow2Of24();
      BitsOfRoundTrip(a[m], 5);
      BitsOfRoundTrip(b[n], 5);
      assert a == a[..m] + [a[m]] && b == b[..n] + [b[n]];
    }
  }

  /** The groups of a byte string are unique, and different byte strings have different texts. */
  lemma TextsDiffer(x: seq<byte>, a: seq<quintet>, y: seq<byte>, b: seq<quintet>)
    requires Groups(x, a) && Groups(y, b)
    ensures Letters(a) == Letters(b) <==> x == y
  {
    DecodeOfEncode(x, a);
    DecodeOfEncode(y, b);
    if x == y { SymbolBitsInjective(a, b); }
  }

  // ----- Comparing a presented key -----

  /** Exclusive or and inclusive or of n-bit words. */
  function Xor(a: nat, b: nat, n: nat): nat
  {
    if n == 0 then 0 else 2 * Xor(a / 2, b / 2, n - 1) + (a + b) % 2
  }

  function Or(a: nat, b: nat, n: nat): nat
  {
    if n == 0 then 0 else 2 * Or(a / 2, b / 2, n - 1) + if a % 2 == 1 || b % 2 == 1 then 1 else 0
  }

  lemma {:induction false} XorZero(a: nat, b: nat, n: nat)
    requires a < Pow2(n) && b < Pow2(n)
    ensures Xor(a, b, n) < Pow2(n) && (Xor(a, b, n) == 0 <==> a == b)
  {
    if n > 0 { XorZero(a / 2, b / 2, n - 1); }
  }

  lemma {:induction false} OrZero(a: nat, b: nat, n: nat)
    requires a < Pow2(n) && b < Pow2(n)
    ensures Or(a, b, n) < Pow2(n) && (Or(a, b, n) == 0 <==> a == 0 && b == 0)
  {
    if n > 0 { OrZero(a / 2, b / 2, n - 1); }
  }

  lemma XorSwaps(a: nat, b: nat, n: nat)
    ensures Xor(a, b, n) == Xor(b, a, n)
  {
  }

  lemma TwiceProduct(k: nat, p: nat)
    ensures k * (2 * p) == 2 * (k * p)
  {
  }

  lemma HalfOfSum(x: nat, a: nat, b: nat, half: nat)
    requires x == a + 2 * half
    ensures x / 2 == a / 2 + half && (x + b) % 2 == (a + b) % 2
  {
  }

  /** Truncating to n bits before or after makes no difference. */
  lemma {:induction false} XorLow(x: nat, a: nat, k: nat, b: nat, n: nat)
    requires x == a + k * Pow2(n)
    ensures Xor(x, b, n) == Xor(a, b, n)
  {
    if n > 0 {
      TwiceProduct(k, Pow2(n - 1));
      HalfOfSum(x, a, b, k * Pow2(n - 1));
      XorLow(x / 2, a / 2, k, b / 2, n - 1);
    }
  }

  /** The low eight bits of two lengths agree exactly when the lengths do modulo 256. */
  lemma SameLowByte(a: nat, b: nat)
    ensures Xor(a, b, 8) < 256 && (Xor(a, b, 8) == 0 <==> a % 256 == b % 256)
  {
    Pow2Of24();
    XorLow(a, a % 256, a / 256, b, 8);
    XorSwaps(a % 256, b, 8);
    XorLow(b, b % 256, b / 256, a % 256, 8);
    XorSwaps(b % 256, a % 256, 8);
    XorZero(a % 256, b % 256, 8);
  }

  lemma FoldZero(d: nat, a: nat, b: nat, n: nat)
    requires d < Pow2(n) && a < Pow2(n) && b < Pow2(n)
    ensures Xor(a, b, n) < Pow2(n) && Or(d, Xor(a, b, n), n) < Pow2(n)
    ensures Or(d, Xor(a, b, n), n) == 0 <==> d == 0 && a == b
  {
    XorZero(a, b, n);
    OrZero(d, Xor(a, b, n), n);
  }

  function At(s: seq<byte>, i: nat): byte
  {
    if i < |s| then s[i] else 0
  }

  /** Equal once the shorter is filled with zero bytes. */
  predicate SameFilled(left: seq<byte>, right: seq<byte>)
  {
    forall i | 0 <= i < |left| + |right| :: At(left, i) == At(right, i)
  }

  predicate Accepts(left: seq<byte>, right: seq<byte>)
  {
    |left| % 256 == |right| % 256 && SameFilled(left, right)
  }

  lemma FoldDifference(d: byte, a: byte, b: byte)
    ensures Xor(a, b, 8) < 256 && Or(d, Xor(a, b, 8), 8) < 256
    ensures Or(d, Xor(a, b, 8), 8) == 0 <==> d == 0 && a == b
  {
    Pow2Of24();
    FoldZero(d, a, b, 8);
  }

  /** The loop runs to the longer length and folds every difference into one byte; the lengths enter that
      byte by their low eight bits. */
  method ConstantTimeEq(left: seq<byte>, right: seq<byte>) returns (equal: bool)
    ensures equal <==> Accepts(left, right)
  {
    var width := if |left| >= |right| then |left| else |right|;
    SameLowByte(|left|, |right|);
    var difference: byte := Xor(|left|, |right|, 8);
    for i := 0 to width
      invariant difference == 0 <==>
                  |left| % 256 == |right| % 256 && forall k | 0 <= k < i :: At(left, k) == At(right, k)
    {
      FoldDifference(difference, At(left, i), At(right, i));
      difference := Or(difference, Xor(At(left, i), At(right, i), 8), 8);
    }
    equal := difference == 0;
  }

  /** a is b followed by a multiple of 256 zero bytes. */
  predicate Overlong(a: seq<byte>, b: seq<byte>)
  {
    |b| < |a| && (|a| - |b|) % 256 == 0 && b <= a && forall i | |b| <= i < |a| :: a[i] == 0
  }

  /** The comparison is equality, but for a multiple of 256 zero bytes at the end of one side. */
  lemma AcceptsIff(left: seq<byte>, right: seq<byte>)
    ensures Accepts(left, right) <==> left == right || Overlong(left, right) || Overlong(right, left)
  {
    if SameFilled(left, right) {
      forall i | 0 <= i < |left| && i < |right| ensures left[i] == right[i] { assert At(left, i) == At(right, i); }
      forall i | |right| <= i < |left| ensures left[i] == 0 { assert At(left, i) == At(right, i); }
      forall i | |left| <= i < |right| ensures right[i] == 0 { assert At(left, i) == At(right, i); }
    }
  }

  lemma ZerosCompareEqual()
    ensures var zeros := seq(256, i => 0 as byte); Accepts([], zeros) && zeros != []
  {
  }
}
