/** IP rules: CIDR matching by shifted prefixes and the early-return decision loop. */
module IpRules {
  import opened Common
  import opened Bytes
  import opened DirectoryKeys

  const TWO_128: int := 0x1_0000_0000_0000_0000_0000_0000_0000_0000

  lemma Pow2Of32And128()
    ensures Pow2(32) == TWO_32 && Pow2(128) == TWO_128 && Pow2(33) == 2 * TWO_32
  {
    Pow2Of32();
    Pow2Add(1, 32);
    Pow2Add(32, 32);
    Pow2Add(64, 64);
  }

  type u128 = x: int | 0 <= x < TWO_128

  datatype Ip = V4(v4: u32) | V6(v6: u128)
  {
    function Bits(): nat { if V4? then v4 else v6 }
    function Width(): nat { if V4? then 32 else 128 }

    predicate Mapped() { V6? && v6 / TWO_32 == 0xFFFF }

    /** An IPv4 address in IPv6 clothing becomes the IPv4 address. */
    function Canonical(): Ip
    {
      if Mapped() then V4(v6 % TWO_32) else this
    }
  }

  datatype Action = Allow | Block

  datatype Rule = Rule(id: u64, cidr: string, action: Action)

  datatype CompiledRule = CompiledRule(network: Ip, prefix: nat, action: Action)

  // ----- parse_cidr; address syntax itself is a parameter -----

  function IndexOf(s: string, c: char): (r: Option<nat>)
    ensures r.Some? ==> r.value < |s| && s[r.value] == c && c !in s[..r.value]
    ensures r.None? ==> c !in s
  {
    if s == "" then None
    else if s[0] == c then Some(0)
    else
      var rest := IndexOf(s[1..], c);
      assert s == [s[0]] + s[1..];
      if rest.None? then None else
        assert s[..rest.value + 1] == [s[0]] + s[1..][..rest.value];
        Some(rest.value + 1)
  }

  function Digits(s: string): Option<nat>
  {
    if s == "" then Some(0) else
      var n := |s| - 1;
      var head := Digits(s[..n]);
      if head.Some? && '0' <= s[n] <= '9' then Some(10 * head.value + (s[n] as int - '0' as int)) else None
  }

  /** u8::from_str: digits with an optional plus sign, below 256. */
  function ParseU8(s: string): Option<nat>
  {
    var body := if s != "" && s[0] == '+' then s[1..] else s;
    var n := Digits(body);
    if body != "" && n.Some? && n.value < 256 then n else None
  }

  /** An address with a prefix that must fit its family, the whole width when none is given. */
  function Sized(network: Option<Ip>, prefix: Option<nat>): (r: Option<(Ip, nat)>)
    ensures r.Some? ==> r.value.1 <= r.value.0.Width()
  {
    if network.None? then None
    else
      var width := network.value.Width();
      var length := if prefix.Some? then prefix.value else width;
      if length > width then None else Some((network.value, length))
  }

  function ParseCidr(text: string, parseIp: string -> Option<Ip>): (r: Option<(Ip, nat)>)
    ensures r.Some? ==> r.value.1 <= r.value.0.Width()
  {
    var slash := IndexOf(text, '/');
    if slash.None? then Sized(parseIp(text), None)
    else
      var prefix := ParseU8(text[slash.value + 1..]);
      if prefix.None? then None else Sized(parseIp(text[..slash.value]), prefix)
  }

  lemma {:induction false} FirstIsUnique(s: string, c: char, k: nat)
    requires k < |s| && s[k] == c && c !in s[..k]
    ensures IndexOf(s, c) == Some(k)
  {
    if k > 0 {
      assert s[0] == s[..k][0];
      assert s[..k] == [s[0]] + s[1..][..k - 1];
      FirstIsUnique(s[1..], c, k - 1);
    }
  }

  /** The text is an address, the slash at k, and a number that fits the family. */
  predicate SplitAt(text: string, k: nat, parseIp: string -> Option<Ip>, network: Ip, prefix: nat)
  {
    && k < |text| && text[k] == '/' && '/' !in text[..k]
    && parseIp(text[..k]) == Some(network) && ParseU8(text[k + 1..]) == Some(prefix) && prefix <= network.Width()
  }

  /** An address alone is a network of one; with a slash, what precedes the first one must be an address and
      what follows it a number below 256 that fits the family. Nothing else is accepted. */
  ghost predicate Denotes(text: string, parseIp: string -> Option<Ip>, network: Ip, prefix: nat)
  {
    || ('/' !in text && parseIp(text) == Some(network) && prefix == network.Width())
    || (exists k: nat :: SplitAt(text, k, parseIp, network, prefix))
  }

  /** A text with a slash splits at the first one or not at all. */
  lemma SplitsAtFirst(text: string, k: nat, parseIp: string -> Option<Ip>, network: Ip, prefix: nat)
    requires IndexOf(text, '/') == Some(k)
    ensures (exists i: nat :: SplitAt(text, i, parseIp, network, prefix)) <==>
            SplitAt(text, k, parseIp, network, prefix)
  {
    if i: nat :| SplitAt(text, i, parseIp, network, prefix) {
      FirstIsUnique(text, '/', i);
    }
  }

  lemma ParsesSplit(text: string, k: nat, parseIp: string -> Option<Ip>, network: Ip, prefix: nat, tail: Option<nat>)
    requires IndexOf(text, '/') == Some(k) && tail == ParseU8(text[k + 1..])
    ensures ParseCidr(text, parseIp) == Some((network, prefix)) <==>
            parseIp(text[..k]) == Some(network) && tail == Some(prefix) && prefix <= network.Width()
  {
  }

  lemma ParseCidrExact(text: string, parseIp: string -> Option<Ip>, network: Ip, prefix: nat)
    ensures ParseCidr(text, parseIp) == Some((network, prefix)) <==> Denotes(text, parseIp, network, prefix)
  {
    var slash := IndexOf(text, '/');
    if slash.Some? {
      assert text[slash.value] in text;
      SplitsAtFirst(text, slash.value, parseIp, network, prefix);
      ParsesSplit(text, slash.value, parseIp, network, prefix, ParseU8(text[slash.value + 1..]));
    } else {
      assert forall k: nat :: !SplitAt(text, k, parseIp, network, prefix);
    }
  }

  /** A number below 256 in decimal. */
  function Decimal(n: nat): string
  {
    var digit := [('0' as int + n % 10) as char];
    if n < 10 then digit else Decimal(n / 10) + digit
  }

  lemma {:induction false} DigitsOfDecimal(n: nat)
    ensures Digits(Decimal(n)) == Some(n) && Decimal(n) != "" && '0' <= Decimal(n)[0] <= '9'
  {
    var d := Decimal(n);
    if n >= 10 {
      DigitsOfDecimal(n / 10);
      assert d[..|d| - 1] == Decimal(n / 10);
    } else {
      assert d[..0] == "";
    }
  }

  predicate AllZeros(s: string)
  {
    forall i | 0 <= i < |s| :: s[i] == '0'
  }

  /** An optional plus sign, zeros, and the number as it is written. */
  ghost predicate Writes(s: string, n: nat)
  {
    exists sign, zeros :: (sign == "" || sign == "+") && AllZeros(zeros) && s == sign + zeros + Decimal(n)
  }

  lemma DigitOf(c: char)
    requires '0' <= c <= '9'
    ensures Decimal(c as int - '0' as int) == [c]
  {
  }

  lemma {:induction false} DigitsWrite(s: string, n: nat) returns (zeros: string)
    requires s != "" && Digits(s) == Some(n)
    ensures AllZeros(zeros) && s == zeros + Decimal(n)
  {
    var m := |s| - 1;
    var head, d := Digits(s[..m]), s[m] as int - '0' as int;
    assert n == 10 * head.value + d;
    zeros := "";
    DigitOf(s[m]);
    if m == 0 {
      assert s[..0] == "" && s == [s[0]];
    } else {
      zeros := DigitsWrite(s[..m], head.value);
      if head.value == 0 {
        DigitOf('0');
        assert s[..m] == zeros + "0";
        zeros := zeros + "0";
        assert s == zeros + [s[m]];
      } else {
        assert Decimal(n) == Decimal(head.value) + [s[m]];
      }
    }
  }

  lemma {:induction false} ZerosRead(zeros: string, s: string, n: nat)
    requires AllZeros(zeros) && Digits(s) == Some(n)
    ensures Digits(zeros + s) == Some(n)
    decreases |s|, |zeros|
  {
    var whole := zeros + s;
    if s == "" {
      assert whole == zeros;
      if zeros != "" {
        var m := |zeros| - 1;
        assert zeros[..m] + "" == zeros[..m];
        ZerosRead(zeros[..m], "", 0);
      }
    } else {
      var m := |s| - 1;
      assert whole[..|whole| - 1] == zeros + s[..m];
      ZerosRead(zeros, s[..m], Digits(s[..m]).value);
    }
  }

  lemma ReadIsWritten(s: string, n: nat)
    requires ParseU8(s) == Some(n)
    ensures Writes(s, n)
  {
    var sign := if s != "" && s[0] == '+' then "+" else "";
    var body := s[|sign|..];
    var zeros := DigitsWrite(body, n);
    assert s == sign + body;
    assert s == sign + zeros + Decimal(n);
  }

  lemma WrittenIsRead(s: string, sign: string, zeros: string, n: nat)
    requires n < 256 && (sign == "" || sign == "+") && AllZeros(zeros) && s == sign + (zeros + Decimal(n))
    ensures ParseU8(s) == Some(n)
  {
    var body := zeros + Decimal(n);
    DigitsOfDecimal(n);
    ZerosRead(zeros, Decimal(n), n);
    assert body != "" && body[0] == if zeros == "" then Decimal(n)[0] else zeros[0];
    assert s[|sign|..] == body;
  }

  /** Exactly these texts are read as a number below 256. */
  lemma ParseU8Exact(s: string, n: nat)
    ensures ParseU8(s) == Some(n) <==> n < 256 && Writes(s, n)
  {
    if ParseU8(s) == Some(n) { ReadIsWritten(s, n); }
    if n < 256 && Writes(s, n) {
      var sign, zeros :| (sign == "" || sign == "+") && AllZeros(zeros) && s == sign + zeros + Decimal(n);
      assert s == sign + (zeros + Decimal(n));
      WrittenIsRead(s, sign, zeros, n);
    }
  }

  /** A network written out is read back. */
  lemma ParseCidrReadsBack(address: string, parseIp: string -> Option<Ip>, network: Ip, prefix: nat)
    requires '/' !in address && parseIp(address) == Some(network) && prefix <= network.Width()
    ensures ParseCidr(address + "/" + Decimal(prefix), parseIp) == Some((network, prefix))
  {
    var text, k := address + "/" + Decimal(prefix), |address|;
    DigitsOfDecimal(prefix);
    assert text[..k] == address && text[k] == '/' && text[k + 1..] == Decimal(prefix);
    assert SplitAt(text, k, parseIp, network, prefix);
    ParseCidrExact(text, parseIp, network, prefix);
  }

  // ----- Matching -----

  /** The leading `prefix` bits; a shift by the whole width is avoided. */
  function Masked(value: nat, prefix: nat, width: nat): int
    requires prefix <= width
  {
    if prefix == 0 then 0 else value / Pow2(width - prefix)
  }

  predicate CidrContains(network: Ip, prefix: nat, ip: Ip)
    requires prefix <= network.Width()
  {
    && network.V4? == ip.V4?
    && Masked(network.Bits(), prefix, network.Width()) == Masked(ip.Bits(), prefix, ip.Width())
  }

  /** The aligned block of 2^(width - prefix) addresses around a network address. */
  predicate InBlock(network: Ip, prefix: nat, ip: Ip)
    requires prefix <= network.Width()
  {
    var size := Pow2(network.Width() - prefix);
    var base := network.Bits() / size * size;
    network.V4? == ip.V4? && base <= ip.Bits() < base + size
  }

  lemma SameQuotient(a: nat, b: nat, size: nat)
    requires size > 0
    ensures a / size == b / size <==> a / size * size <= b < a / size * size + size
  {
    if a / size * size <= b < a / size * size + size {
      assert b == a / size * size + (b - a / size * size);
      QuotientUnique(b, size, a / size, b - a / size * size);
    }
  }

  lemma BitsFit(ip: Ip)
    ensures ip.Bits() < Pow2(ip.Width())
  {
    Pow2Of32And128();
  }

  /** Shifted-prefix equality holds exactly when the address lies in the block. */
  lemma ContainsIffInBlock(network: Ip, prefix: nat, ip: Ip)
    requires prefix <= network.Width()
    ensures CidrContains(network, prefix, ip) <==> InBlock(network, prefix, ip)
  {
    var size := Pow2(network.Width() - prefix);
    SameQuotient(network.Bits(), ip.Bits(), size);
    if prefix == 0 && network.V4? == ip.V4? {
      BitsFit(network);
      BitsFit(ip);
      QuotientUnique(network.Bits(), size, 0, network.Bits());
    }
  }

  /** A zero prefix matches every address of its family. */
  lemma ZeroPrefixMatchesFamily(network: Ip, ip: Ip)
    ensures CidrContains(network, 0, ip) <==> network.V4? == ip.V4?
  {
  }

  lemma ComposeDivision(x: nat, a: nat, b: nat, y: nat, u: nat, q: nat, v: nat)
    requires x == a * y + u && y == b * q + v && u < a && v < b
    ensures x == q * (a * b) + (a * v + u) && a * v + u < a * b
  {
    assert a * (b * q + v) == q * (a * b) + a * v;
    var w := b - 1 - v;
    assert a * b == a * v + a + a * w;
  }

  lemma DivideTwice(x: nat, a: nat, b: nat)
    requires a > 0 && b > 0
    ensures x / a / b == x / (a * b)
  {
    DivideFacts(x, a);
    var y, u := x / a, x % a;
    DivideFacts(y, b);
    var q, v := y / b, y % b;
    ComposeDivision(x, a, b, y, u, q, v);
    QuotientUnique(x, a * b, q, a * v + u);
  }

  lemma DivideFacts(x: nat, d: nat)
    requires d > 0
    ensures x == d * (x / d) + x % d && 0 <= x / d && 0 <= x % d < d
  {
  }

  /** Only the peer is made canonical, not the rule: a rule on an IPv4-mapped network matches some
      peer exactly when its prefix is shorter than 96 bits. */
  lemma MappedRuleIsLiveIff(network: Ip, prefix: nat)
    requires network.Mapped() && prefix <= 128
    ensures (exists ip: Ip :: CidrContains(network, prefix, ip.Canonical())) <==> prefix < 96
  {
    if prefix < 96 {
      var ip := V6(network.v6 - TWO_32);
      assert ip.Canonical() == ip;
      MappedNeighbour(network.v6, prefix);
      assert CidrContains(network, prefix, ip.Canonical());
    } else {
      forall ip: Ip ensures !CidrContains(network, prefix, ip.Canonical()) {
        if ip.Canonical().V6? { MappedOnly(network.v6, ip.Canonical().v6, prefix); }
      }
    }
  }

  lemma MappedNeighbour(n: u128, prefix: nat)
    requires n / TWO_32 == 0xFFFF && prefix < 96
    ensures Masked(n, prefix, 128) == Masked(n - TWO_32, prefix, 128)
  {
    if prefix > 0 {
      var s := 95 - prefix;
      Pow2Of32And128();
      Pow2Add(33, s);
      DivideTwice(n, Pow2(33), Pow2(s));
      DivideTwice(n - TWO_32, Pow2(33), Pow2(s));
      assert n / (2 * TWO_32) == (n - TWO_32) / (2 * TWO_32);
    }
  }

  lemma MappedOnly(n: u128, ip: u128, prefix: nat)
    requires 96 <= prefix <= 128 && ip / TWO_32 != n / TWO_32
    ensures Masked(n, prefix, 128) != Masked(ip, prefix, 128)
  {
    var s := 128 - prefix;
    Pow2Of32And128();
    Pow2Add(s, 32 - s);
    DivideTwice(n, Pow2(s), Pow2(32 - s));
    DivideTwice(ip, Pow2(s), Pow2(32 - s));
  }

  /** A mapped address is its IPv4 address, every other its own. */
  lemma CanonicalExact(v4: u32, ip: Ip)
    ensures V6(0xFFFF * TWO_32 + v4).Canonical() == V4(v4)
    ensures ip.V4? || !(0xFFFF * TWO_32 <= ip.v6 < 0xFFFF * TWO_32 + TWO_32) ==> ip.Canonical() == ip
  {
  }

  /** p is one of the 2^(width - prefix) numbers that share their leading bits with n. */
  predicate Within(n: nat, prefix: nat, width: nat, p: nat)
  {
    prefix <= width && var size := Pow2(width - prefix); n - n % size <= p < n - n % size + size
  }

  /** A rule covers a peer of its own family whose number is in its block; a peer that shows an IPv4 address in
      mapped form counts as that address and as nothing else. */
  predicate Covers(r: CompiledRule, peer: Ip)
  {
    var low := 0xFFFF * TWO_32;
    match r.network
    case V4(n) =>
      if peer.V4? then Within(n, r.prefix, 32, peer.v4)
      else low <= peer.v6 < low + TWO_32 && Within(n, r.prefix, 32, peer.v6 - low)
    case V6(n) => peer.V6? && !(low <= peer.v6 < low + TWO_32) && Within(n, r.prefix, 128, peer.v6)
  }

  lemma RoundDown(n: nat, size: nat)
    requires size > 0
    ensures n / size * size == n - n % size
  {
  }

  lemma MatchesV4(n: u32, prefix: nat, p: u32)
    requires prefix <= 32
    ensures CidrContains(V4(n), prefix, V4(p)) <==> Within(n, prefix, 32, p)
  {
    ContainsIffInBlock(V4(n), prefix, V4(p));
    RoundDown(n, Pow2(32 - prefix));
  }

  lemma MatchesV6(n: u128, prefix: nat, p: u128)
    requires prefix <= 128
    ensures CidrContains(V6(n), prefix, V6(p)) <==> Within(n, prefix, 128, p)
  {
    ContainsIffInBlock(V6(n), prefix, V6(p));
    RoundDown(n, Pow2(128 - prefix));
  }

  lemma MappedRange(p: u128)
    ensures V6(p).Mapped() <==> 0xFFFF * TWO_32 <= p < 0xFFFF * TWO_32 + TWO_32
    ensures V6(p).Mapped() ==> V6(p).Canonical() == V4(p - 0xFFFF * TWO_32)
  {
  }

  lemma MatchesIffCovers(r: CompiledRule, peer: Ip)
    ensures Matches(r, peer.Canonical()) <==> Covers(r, peer)
  {
    var ip := peer.Canonical();
    if peer.V6? { MappedRange(peer.v6); }
    if r.network.V4? && ip.V4? && r.prefix <= 32 { MatchesV4(r.network.v4, r.prefix, ip.v4); }
    if r.network.V6? && ip.V6? && r.prefix <= 128 { MatchesV6(r.network.v6, r.prefix, ip.v6); }
  }

  // ----- The decision loop -----

  predicate Matches(r: CompiledRule, ip: Ip)
  {
    r.prefix <= r.network.Width() && CidrContains(r.network, r.prefix, ip)
  }

  predicate WellFormed(rules: seq<CompiledRule>)
  {
    forall r | r in rules :: r.prefix <= r.network.Width()
  }

  /** Any matching Allow, else any matching Block, else nothing: a question about the set of rules. */
  function Verdict(rules: set<CompiledRule>, ip: Ip): Option<Action>
  {
    if exists r | r in rules :: r.action == Allow && Matches(r, ip) then Some(Allow)
    else if exists r | r in rules :: r.action == Block && Matches(r, ip) then Some(Block)
    else None
  }

  method Decide(rules: seq<CompiledRule>, peer: Ip) returns (r: Option<Action>)
    requires WellFormed(rules)
    ensures r == Verdict((set rule | rule in rules), peer.Canonical())
    ensures r == Some(Allow) <==> exists i | 0 <= i < |rules| :: rules[i].action == Allow && Covers(rules[i], peer)
    ensures r == Some(Block) <==>
            && (forall i | 0 <= i < |rules| :: !(rules[i].action == Allow && Covers(rules[i], peer)))
            && (exists i | 0 <= i < |rules| :: rules[i].action == Block && Covers(rules[i], peer))
  {
    var ip := peer.Canonical();
    forall rule ensures Matches(rule, ip) <==> Covers(rule, peer) { MatchesIffCovers(rule, peer); }
    var blocked := false;
    ghost var all := set rule | rule in rules;
    for i := 0 to |rules|
      invariant forall j | 0 <= j < i && Matches(rules[j], ip) :: rules[j].action == Block
      invariant blocked <==> exists j | 0 <= j < i :: Matches(rules[j], ip)
    {
      assert rules[i] in rules;
      if CidrContains(rules[i].network, rules[i].prefix, ip) {
        assert Matches(rules[i], ip);
        if rules[i].action == Allow {
          assert rules[i] in all;
          return Some(Allow);
        }
        blocked := true;
      }
    }
    if blocked {
      var j :| 0 <= j < |rules| && Matches(rules[j], ip);
      assert rules[j] in all;
    }
    r := if blocked then Some(Block) else None;
  }

  // ----- Compiling the stored rules -----

  const TAG_IP_RULE: byte := 0x31

  function RuleIds(table: map<u64, Rule>): seq<u64>
  {
    IdsIn(TAG_IP_RULE, SortedKeys(set id | id in table :: RecordKey(TAG_IP_RULE, id)))
  }

  function CompileIds(ids: seq<u64>, table: map<u64, Rule>, parseIp: string -> Option<Ip>): seq<CompiledRule>
  {
    if ids == [] then [] else
      var n := |ids| - 1;
      CompileIds(ids[..n], table, parseIp) +
      if ids[n] !in table then [] else
        var parsed := ParseCidr(table[ids[n]].cidr, parseIp);
        if parsed.None? then [] else [CompiledRule(parsed.value.0, parsed.value.1, table[ids[n]].action)]
  }

  /** The list a scan compiles: every rule whose text parses, by ascending id. */
  function Compile(table: map<u64, Rule>, parseIp: string -> Option<Ip>): seq<CompiledRule>
  {
    CompileIds(RuleIds(table), table, parseIp)
  }

  predicate CompilesTo(rule: Rule, parseIp: string -> Option<Ip>, r: CompiledRule)
  {
    ParseCidr(rule.cidr, parseIp) == Some((r.network, r.prefix)) && r.action == rule.action
  }

  lemma {:induction false} CompileIdsExact(ids: seq<u64>, table: map<u64, Rule>, parseIp: string -> Option<Ip>,
                                           r: CompiledRule)
    ensures r in CompileIds(ids, table, parseIp) <==>
            exists id | id in ids && id in table :: CompilesTo(table[id], parseIp, r)
  {
    if ids != [] {
      CompileIdsExact(ids[..|ids| - 1], table, parseIp, r);
    }
  }

  lemma RuleIdsExact(table: map<u64, Rule>, id: u64)
    ensures id in RuleIds(table) <==> id in table
  {
    var keys := set x | x in table :: RecordKey(TAG_IP_RULE, x);
    IdsInExact(TAG_IP_RULE, SortedKeys(keys), id);
    if RecordKey(TAG_IP_RULE, id) in keys {
      var x :| x in table && RecordKey(TAG_IP_RULE, x) == RecordKey(TAG_IP_RULE, id);
      KeyIdOfRecordKey(TAG_IP_RULE, RecordKey(TAG_IP_RULE, id), x);
      KeyIdOfRecordKey(TAG_IP_RULE, RecordKey(TAG_IP_RULE, id), id);
    }
  }

  /** The compiled list holds exactly the stored rules that parse, and every prefix fits. */
  lemma CompileExact(table: map<u64, Rule>, parseIp: string -> Option<Ip>)
    ensures forall r :: r in Compile(table, parseIp) <==> exists id | id in table :: CompilesTo(table[id], parseIp, r)
    ensures WellFormed(Compile(table, parseIp))
  {
    forall r ensures r in Compile(table, parseIp) <==> exists id | id in table :: CompilesTo(table[id], parseIp, r) {
      CompileIdsExact(RuleIds(table), table, parseIp, r);
      forall id ensures id in RuleIds(table) <==> id in table { RuleIdsExact(table, id); }
    }
  }
}
