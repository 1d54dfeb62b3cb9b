/** UTF-8, the byte form of every string the program stores, prints or reads back. */
module Utf8 {
  import opened Bytes

  const REPLACEMENT: char := '\U{FFFD}'

  function EncodeChar(c: char): (b: seq<byte>)
    ensures 1 <= |b| <= 4
  {
    var n := c as int;
    if n < 0x80 then [n]
    else if n < 0x800 then [0xC0 + n / 64, 0x80 + n % 64]
    else if n < 0x10000 then [0xE0 + n / 4096, 0x80 + n / 64 % 64, 0x80 + n % 64]
    else [0xF0 + n / 262144, 0x80 + n / 4096 % 64, 0x80 + n / 64 % 64, 0x80 + n % 64]
  }

  function Encode(s: string): (b: seq<byte>)
  {
    if s == "" then [] else EncodeChar(s[0]) + Encode(s[1..])
  }

  /** The width a lead byte announces; 0 for a byte that leads nothing. */
  function LeadWidth(b: byte): nat
  {
    if b < 0x80 then 1
    else if 0xC2 <= b < 0xE0 then 2
    else if 0xE0 <= b < 0xF0 then 3
    else if 0xF0 <= b < 0xF5 then 4
    else 0
  }

  predicate Continuation(b: byte) { 0x80 <= b < 0xC0 }

  /** The second bytes that rule out overlong forms, surrogates and values past U+10FFFF. */
  predicate SecondByte(lead: byte, b: byte)
  {
    && Continuation(b)
    && (lead == 0xE0 ==> 0xA0 <= b)
    && (lead == 0xED ==> b < 0xA0)
    && (lead == 0xF0 ==> 0x90 <= b)
    && (lead == 0xF4 ==> b < 0x90)
  }

  /** The bits a byte carries beside its tag. */
  function Payload(b: byte, tag: int): int { b as int - tag }

  /** One step of lossy decoding: a character and the bytes it consumes. An ill-formed maximal
      subpart becomes one replacement character. */
  function DecodeStep(b: seq<byte>): (r: (char, nat))
    requires b != []
    ensures 1 <= r.1 <= |b|
  {
    var w := LeadWidth(b[0]);
    if w == 1 then (b[0] as char, 1)
    else if w == 0 || |b| < 2 || !SecondByte(b[0], b[1]) then (REPLACEMENT, 1)
    else if w == 2 then ((Payload(b[0], 0xC0) * 64 + Payload(b[1], 0x80)) as char, 2)
    else if |b| < 3 || !Continuation(b[2]) then (REPLACEMENT, 2)
    else if w == 3 then ((Payload(b[0], 0xE0) * 4096 + Payload(b[1], 0x80) * 64 + Payload(b[2], 0x80)) as char, 3)
    else if |b| < 4 || !Continuation(b[3]) then (REPLACEMENT, 3)
    else ((Payload(b[0], 0xF0) * 262144 + Payload(b[1], 0x80) * 4096
          + Payload(b[2], 0x80) * 64 + Payload(b[3], 0x80)) as char, 4)
  }

  function DecodeLossy(b: seq<byte>): (s: string)
  {
    if b == [] then "" else
      var (c, n) := DecodeStep(b);
      [c] + DecodeLossy(b[n..])
  }

  lemma DecodeStepTwo(n: nat, rest: seq<byte>)
    requires 0x80 <= n < 0x800
    ensures DecodeStep([0xC0 + n / 64, 0x80 + n % 64] + rest) == (n as char, 2)
  {
    var b := [0xC0 + n / 64, 0x80 + n % 64] + rest;
    assert b[0] == 0xC0 + n / 64 && b[1] == 0x80 + n % 64;
  }

  lemma DecodeStepThree(n: nat, rest: seq<byte>)
    requires 0x800 <= n < 0xD800 || 0xE000 <= n < 0x10000
    ensures DecodeStep([0xE0 + n / 4096, 0x80 + n / 64 % 64, 0x80 + n % 64] + rest) == (n as char, 3)
  {
    var b := [0xE0 + n / 4096, 0x80 + n / 64 % 64, 0x80 + n % 64] + rest;
    assert b[0] == 0xE0 + n / 4096 && b[1] == 0x80 + n / 64 % 64 && b[2] == 0x80 + n % 64;
    assert n == n / 4096 * 4096 + n / 64 % 64 * 64 + n % 64;
  }

  lemma DecodeFourDigits(p: nat, q: nat, r: nat, s: nat, rest: seq<byte>)
    requires p <= 4 && q < 64 && r < 64 && s < 64 && (p == 0 ==> q >= 16) && (p == 4 ==> q < 16)
    ensures DecodeStep([0xF0 + p, 0x80 + q, 0x80 + r, 0x80 + s] + rest) ==
            ((p * 262144 + q * 4096 + r * 64 + s) as char, 4)
  {
    var b := [0xF0 + p, 0x80 + q, 0x80 + r, 0x80 + s] + rest;
    assert b[0] == 0xF0 + p && b[1] == 0x80 + q && b[2] == 0x80 + r && b[3] == 0x80 + s;
  }

  lemma FourDigits(n: nat)
    requires 0x10000 <= n < 0x110000
    ensures var p, q := n / 262144, n / 4096 % 64;
            && p <= 4 && (p == 0 ==> q >= 16) && (p == 4 ==> q < 16)
            && n == p * 262144 + q * 4096 + n / 64 % 64 * 64 + n % 64
  {
  }

  lemma DecodeStepFour(n: nat, rest: seq<byte>)
    requires 0x10000 <= n < 0x110000
    ensures DecodeStep([0xF0 + n / 262144, 0x80 + n / 4096 % 64, 0x80 + n / 64 % 64, 0x80 + n % 64] + rest) ==
            (n as char, 4)
  {
    FourDigits(n);
    DecodeFourDigits(n / 262144, n / 4096 % 64, n / 64 % 64, n % 64, rest);
  }

  lemma DecodeStepOfEncodeChar(c: char, rest: seq<byte>)
    ensures DecodeStep(EncodeChar(c) + rest) == (c, |EncodeChar(c)|)
  {
    var n := c as int;
    if n < 0x80 {
    } else if n < 0x800 {
      DecodeStepTwo(n, rest);
    } else if n < 0x10000 {
      DecodeStepThree(n, rest);
    } else {
      DecodeStepFour(n, rest);
    }
  }

  /** Lossy decoding loses nothing of a well-formed string. */
  lemma {:induction false} DecodeOfEncode(s: string)
    ensures DecodeLossy(Encode(s)) == s
  {
    if s != "" {
      DecodeStepOfEncodeChar(s[0], Encode(s[1..]));
      var b := EncodeChar(s[0]);
      assert (b + Encode(s[1..]))[|b|..] == Encode(s[1..]);
      DecodeOfEncode(s[1..]);
    }
  }

  lemma EncodeInjective(s: string, t: string)
    requires Encode(s) == Encode(t)
    ensures s == t
  {
    DecodeOfEncode(s);
    DecodeOfEncode(t);
  }

  lemma {:induction false} EncodeConcat(s: string, t: string)
    ensures Encode(s + t) == Encode(s) + Encode(t)
  {
    if s == "" {
      assert s + t == t;
    } else {
      assert (s + t)[1..] == s[1..] + t;
      EncodeConcat(s[1..], t);
    }
  }
}
