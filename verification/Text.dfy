/** The string operations behind every key of the directory: trimming, ASCII lower case and the
    three normalizers built from them. */
module Text {

  /** The Unicode White_Space property, which `trim` and `split_whitespace` consult. */
  predicate IsWhitespace(c: char)
  {
    var n := c as int;
    || 0x09 <= n <= 0x0D || n == 0x20 || n == 0x85 || n == 0xA0 || n == 0x1680
    || 0x2000 <= n <= 0x200A || n == 0x2028 || n == 0x2029 || n == 0x202F || n == 0x205F || n == 0x3000
  }

  function LowerChar(c: char): (r: char)
    ensures IsWhitespace(r) <==> IsWhitespace(c)
    ensures !('A' <= r <= 'Z')
    ensures r == '@' <==> c == '@'
    ensures r == '.' <==> c == '.'
  {
    if 'A' <= c <= 'Z' then (c as int + 32) as char else c
  }

  function Lower(s: string): (r: string)
    ensures |r| == |s|
    ensures forall i | 0 <= i < |s| :: r[i] == LowerChar(s[i])
  {
    seq(|s|, i requires 0 <= i < |s| => LowerChar(s[i]))
  }

  function TrimStart(s: string): (r: string)
    ensures |r| <= |s|
    ensures r != "" ==> !IsWhitespace(r[0])
  {
    if s != "" && IsWhitespace(s[0]) then TrimStart(s[1..]) else s
  }

  function TrimEnd(s: string): (r: string)
    ensures r <= s
    ensures r != "" ==> !IsWhitespace(r[|r| - 1])
  {
    if s != "" && IsWhitespace(s[|s| - 1]) then TrimEnd(s[..|s| - 1]) else s
  }

  function TrimEndDots(s: string): (r: string)
    ensures r <= s
    ensures r != "" ==> r[|r| - 1] != '.'
  {
    if s != "" && s[|s| - 1] == '.' then TrimEndDots(s[..|s| - 1]) else s
  }

  predicate Trimmed(s: string)
  {
    s != "" ==> !IsWhitespace(s[0]) && !IsWhitespace(s[|s| - 1])
  }

  function Trim(s: string): (r: string)
    ensures Trimmed(r)
    ensures Trimmed(s) ==> r == s
  {
    TrimEnd(TrimStart(s))
  }

  /** `normalize_address`, `normalize_local_part` and `challenge_key` are this one function. */
  function Normalize(s: string): (r: string)
    ensures Trimmed(r) && Lower(r) == r
  {
    Lower(Trim(s))
  }

  function NormalizeName(s: string): (r: string)
    ensures Lower(r) == r
    ensures r != "" ==> !IsWhitespace(r[0]) && r[|r| - 1] != '.'
  {
    Lower(TrimEndDots(Trim(s)))
  }

  /** Trimmed and lower-cased strings are the fixed points of Normalize. */
  lemma NormalizeFixed(s: string)
    ensures Normalize(s) == s <==> Trimmed(s) && Lower(s) == s
  {
  }

  predicate EndsBlank(s: string)
  {
    s != "" && IsWhitespace(s[|s| - 1])
  }

  /** A second normalization of a domain name changes it exactly when the first one left a blank
      in front of the dots it cut, as in "a .". */
  lemma NormalizeNameIdempotent(s: string)
    ensures NormalizeName(NormalizeName(s)) == NormalizeName(s) <==> !EndsBlank(NormalizeName(s))
  {
    var r := NormalizeName(s);
    if EndsBlank(r) {
      assert TrimStart(r) == r;
      assert |TrimEnd(r)| < |r|;
    }
  }

  lemma NameThatStaysBlank()
    ensures NormalizeName("a .") == "a " && NormalizeName("a ") == "a"
  {
    var s := "a .";
    assert TrimStart(s) == s && TrimEnd(s) == s;
    assert s[..2] == "a " && s[..2][..1] == "a";
    assert TrimEndDots(s) == "a ";
    assert TrimStart(s[..2]) == s[..2];
    assert TrimEnd(s[..2]) == "a";
  }

  /** An address glued from normalized parts is already in the form the index stores. */
  lemma NormalizeAddress(local: string, name: string)
    requires local != "" && Trimmed(local) && Lower(local) == local
    requires name != "" && Trimmed(name) && Lower(name) == name
    ensures Normalize(local + "@" + name) == local + "@" + name
  {
    var s := local + "@" + name;
    assert s[0] == local[0] && s[|s| - 1] == name[|name| - 1];
    assert Lower(s) == s by {
      forall i | 0 <= i < |s| ensures Lower(s)[i] == s[i] {
        if i < |local| { assert Lower(local)[i] == local[i]; }
        else if i > |local| { assert Lower(name)[i - |local| - 1] == name[i - |local| - 1]; }
      }
    }
  }

  lemma NormalizeCatchAll(name: string)
    requires name != "" && Trimmed(name) && Lower(name) == name
    ensures Normalize("@" + name) == "@" + name
  {
    var s := "@" + name;
    assert s[|s| - 1] == name[|name| - 1];
    assert Lower(s) == s by {
      forall i | 0 < i < |s| ensures Lower(s)[i] == s[i] {
        assert Lower(name)[i - 1] == name[i - 1];
      }
    }
  }

  lemma {:induction false} TrimEndAppend(p: string, s: string)
    requires p != "" && !IsWhitespace(p[|p| - 1])
    ensures TrimEnd(p + s) == p + TrimEnd(s)
  {
    if s == "" {
      assert p + s == p;
    } else if IsWhitespace(s[|s| - 1]) {
      assert (p + s)[..|p + s| - 1] == p + s[..|s| - 1];
      TrimEndAppend(p, s[..|s| - 1]);
    }
  }

  /** Under any lower-case name, even one that ends blank, a normalized local part survives in full. */
  lemma NormalizeGlue(local: string, name: string)
    requires local != "" && Trimmed(local) && Lower(local) == local && Lower(name) == name
    ensures Normalize(local + "@" + name) == local + "@" + TrimEnd(name)
  {
    var p := local + "@";
    assert TrimStart(p + name) == p + name;
    TrimEndAppend(p, name);
    var r := p + TrimEnd(name);
    assert Lower(r) == r by {
      forall i | 0 <= i < |r| ensures Lower(r)[i] == r[i] {
        if i < |local| { assert Lower(local)[i] == local[i]; }
        else if i > |local| { assert Lower(name)[i - |local| - 1] == name[i - |local| - 1]; }
      }
    }
  }

  lemma LowerPrefix(s: string, r: string)
    requires Lower(s) == s && r <= s
    ensures Lower(r) == r
  {
    forall i | 0 <= i < |r| ensures LowerChar(r[i]) == r[i] { assert LowerChar(s[i]) == s[i]; }
  }

  /** A lower-case name that does not begin blank loses only the blanks at its end. */
  lemma TrimmedName(name: string) returns (core: string)
    requires name != "" && !IsWhitespace(name[0]) && Lower(name) == name
    ensures core == TrimEnd(name) == Normalize(name) && core != "" && Trimmed(core) && Lower(core) == core
  {
    core := TrimEnd(name);
    assert [name[0]] + name[1..] == name;
    TrimEndAppend([name[0]], name[1..]);
    LowerPrefix(name, core);
  }

  lemma NormalizeWildcard(name: string, core: string)
    requires core == TrimEnd(name) && core != "" && Trimmed(core) && Lower(core) == core
    ensures Normalize("@" + name) == "@" + core
  {
    TrimEndAppend("@", name);
    assert Trim("@" + name) == "@" + core;
    NormalizeCatchAll(core);
    NormalizeFixed("@" + core);
  }

  // ----- The same, character by character -----

  const WHITE_SPACE: string :=
    "\t\n\U{0B}\U{0C}\r \U{85}\U{A0}\U{1680}" +
    "\U{2000}\U{2001}\U{2002}\U{2003}\U{2004}\U{2005}\U{2006}\U{2007}\U{2008}\U{2009}\U{200A}" +
    "\U{2028}\U{2029}\U{202F}\U{205F}\U{3000}"

  const CAPITALS: string := "ABCDEFGHIJKLMNOPQRSTUVWXYZ"
  const SMALLS: string := "abcdefghijklmnopqrstuvwxyz"

  /** White space is these twenty-five characters. */
  lemma WhitespaceExact(c: char)
    ensures IsWhitespace(c) <==> c in WHITE_SPACE
  {
    var w := WHITE_SPACE;
    assert w[0] == '\t' && w[1] == '\n' && w[2] as int == 0x0B && w[3] as int == 0x0C && w[4] == '\r';
    assert w[5] == ' ' && w[6] as int == 0x85 && w[7] as int == 0xA0 && w[8] as int == 0x1680;
    assert forall i | 9 <= i < 20 :: w[i] as int == 0x2000 + i - 9;
    assert w[20] as int == 0x2028 && w[21] as int == 0x2029 && w[22] as int == 0x202F;
    assert w[23] as int == 0x205F && w[24] as int == 0x3000;
    if 0x2000 <= c as int <= 0x200A { assert w[9 + (c as int - 0x2000)] == c; }
  }

  /** The k-th capital letter becomes the k-th small one, and nothing else changes. */
  lemma LowerCharExact(c: char, k: nat)
    ensures c !in CAPITALS ==> LowerChar(c) == c
    ensures k < 26 ==> LowerChar(CAPITALS[k]) == SMALLS[k]
  {
    LettersAt(k);
    if 'A' <= c <= 'Z' { LettersAt(c as int - 'A' as int); }
  }

  lemma LettersAt(k: nat)
    ensures |CAPITALS| == |SMALLS| == 26
    ensures k < 26 ==> CAPITALS[k] as int == 65 + k && SMALLS[k] as int == 97 + k
  {
  }

  /** c is a capital letter and d the small one at the same place of the alphabet. */
  predicate CapitalOf(c: char, d: char)
  {
    'A' <= c <= 'Z' && d as int - 'a' as int == c as int - 'A' as int
  }

  /** The same character, or a capital letter and its small one. */
  predicate SameLetter(c: char, d: char)
  {
    c == d || CapitalOf(c, d) || CapitalOf(d, c)
  }

  predicate SameLetters(s: string, t: string)
  {
    |s| == |t| && forall i | 0 <= i < |s| :: SameLetter(s[i], t[i])
  }

  predicate NoCapitals(s: string)
  {
    forall i | 0 <= i < |s| :: !('A' <= s[i] <= 'Z')
  }

  lemma SameLetterIff(c: char, d: char)
    ensures LowerChar(c) == LowerChar(d) <==> SameLetter(c, d)
  {
  }

  lemma SameLettersIff(s: string, t: string)
    ensures Lower(s) == Lower(t) <==> SameLetters(s, t)
  {
    forall c, d ensures LowerChar(c) == LowerChar(d) <==> SameLetter(c, d) { SameLetterIff(c, d); }
    if Lower(s) == Lower(t) {
      forall i | 0 <= i < |s| ensures SameLetter(s[i], t[i]) { assert Lower(s)[i] == Lower(t)[i]; }
    }
  }

  lemma NoCapitalsIff(s: string)
    ensures Lower(s) == s <==> NoCapitals(s)
  {
    forall i | 0 <= i < |s| ensures Lower(s)[i] == s[i] <==> !('A' <= s[i] <= 'Z') {}
  }

  predicate Blank(s: string)
  {
    forall i | 0 <= i < |s| :: IsWhitespace(s[i])
  }

  /** s is core with white space around it. */
  ghost predicate Around(s: string, core: string)
  {
    Trimmed(core) && exists before, after :: Blank(before) && Blank(after) && s == before + core + after
  }

  lemma {:induction false} StartSplits(s: string) returns (before: string)
    ensures Blank(before) && s == before + TrimStart(s)
  {
    before := "";
    if s != "" && IsWhitespace(s[0]) {
      var rest := StartSplits(s[1..]);
      before := [s[0]] + rest;
    }
  }

  lemma {:induction false} EndSplits(s: string) returns (after: string)
    ensures Blank(after) && s == TrimEnd(s) + after
  {
    after := "";
    if s != "" && IsWhitespace(s[|s| - 1]) {
      var rest := EndSplits(s[..|s| - 1]);
      after := rest + [s[|s| - 1]];
    }
  }

  lemma TrimSplits(s: string)
    ensures Around(s, Trim(s))
  {
    var before := StartSplits(s);
    var after := EndSplits(TrimStart(s));
    assert s == before + Trim(s) + after;
  }

  lemma {:induction false} StartDrops(before: string, rest: string)
    requires Blank(before)
    ensures TrimStart(before + rest) == TrimStart(rest)
  {
    if before == "" {
      assert before + rest == rest;
    } else {
      assert (before + rest)[1..] == before[1..] + rest;
      StartDrops(before[1..], rest);
    }
  }

  lemma {:induction false} EndDrops(rest: string, after: string)
    requires Blank(after)
    ensures TrimEnd(rest + after) == TrimEnd(rest)
  {
    if after == "" {
      assert rest + after == rest;
    } else {
      var n := |after| - 1;
      assert (rest + after)[..|rest + after| - 1] == rest + after[..n];
      EndDrops(rest, after[..n]);
    }
  }

  /** Trimming finds exactly what white space is around. */
  lemma TrimExact(s: string, core: string)
    ensures Trim(s) == core <==> Around(s, core)
  {
    TrimSplits(s);
    if Around(s, core) {
      var before, after :| Blank(before) && Blank(after) && s == before + core + after;
      assert s == before + (core + after);
      StartDrops(before, core + after);
      if core == "" {
        assert core + after == after + "";
        StartDrops(after, "");
      } else {
        assert TrimStart(core + after) == core + after;
        EndDrops(core, after);
      }
    }
  }

  /** Two ways of writing one address: white space around it, and the case of its letters, aside. */
  ghost predicate SameAddress(s: string, t: string)
  {
    exists c, d :: Around(s, c) && Around(t, d) && SameLetters(c, d)
  }

  /** A key as the index stores it. */
  predicate PlainKey(s: string)
  {
    Trimmed(s) && NoCapitals(s)
  }

  lemma SameKeyIff(s: string, t: string)
    ensures Normalize(s) == Normalize(t) <==> SameAddress(s, t)
  {
    TrimSplits(s);
    TrimSplits(t);
    SameLettersIff(Trim(s), Trim(t));
    if SameAddress(s, t) {
      var c, d :| Around(s, c) && Around(t, d) && SameLetters(c, d);
      TrimExact(s, c);
      TrimExact(t, d);
    }
  }

  lemma PlainKeyIff(s: string)
    ensures Normalize(s) == s <==> PlainKey(s)
  {
    NormalizeFixed(s);
    NoCapitalsIff(s);
  }

  /** key is the plain way of writing this text. */
  ghost predicate KeyFor(s: string, key: string)
  {
    PlainKey(key) && SameAddress(s, key)
  }

  /** A normalized text is the one plain way of writing it. */
  lemma NormalizeExact(s: string, r: string)
    ensures Normalize(s) == r <==> PlainKey(r) && SameAddress(s, r)
  {
    NormalizeFixed(Normalize(s));
    PlainKeyIff(Normalize(s));
    PlainKeyIff(r);
    SameKeyIff(s, r);
    SameKeyIff(s, Normalize(s));
  }

  /** What a domain name is read as: white space around it, then dots at its end, and case are dropped. */
  ghost predicate ReadAs(s: string, name: string)
  {
    && NoCapitals(name) && (name != "" ==> name[|name| - 1] != '.')
    && exists core, dots :: AllDots(dots) && Around(s, core + dots) && SameLetters(core, name)
  }

  predicate AllDots(s: string)
  {
    forall i | 0 <= i < |s| :: s[i] == '.'
  }

  lemma {:induction false} DotsSplit(s: string) returns (dots: string)
    ensures AllDots(dots) && s == TrimEndDots(s) + dots
  {
    dots := "";
    if s != "" && s[|s| - 1] == '.' {
      var rest := DotsSplit(s[..|s| - 1]);
      dots := rest + ".";
    }
  }

  lemma {:induction false} DotsDrop(core: string, dots: string)
    requires AllDots(dots) && (core != "" ==> core[|core| - 1] != '.')
    ensures TrimEndDots(core + dots) == core
  {
    if dots == "" {
      assert core + dots == core;
    } else {
      var n := |dots| - 1;
      assert (core + dots)[..|core + dots| - 1] == core + dots[..n];
      DotsDrop(core, dots[..n]);
    }
  }

  lemma NameReadAs(s: string, name: string)
    requires name == NormalizeName(s)
    ensures ReadAs(s, name)
  {
    var core := TrimEndDots(Trim(s));
    var dots := DotsSplit(Trim(s));
    TrimSplits(s);
    NoCapitalsIff(name);
    LowerTwice(core);
    SameLettersIff(core, name);
    assert Around(s, core + dots);
  }

  lemma LowerTwice(s: string)
    ensures Lower(Lower(s)) == Lower(s)
  {
  }

  lemma LastNotDot(core: string, name: string)
    requires SameLetters(core, name) && (name != "" ==> name[|name| - 1] != '.')
    ensures core != "" ==> core[|core| - 1] != '.'
  {
    if core != "" {
      SameLetterIff(core[|core| - 1], name[|name| - 1]);
    }
  }

  lemma NormalizeNameExact(s: string, name: string)
    ensures NormalizeName(s) == name <==> ReadAs(s, name)
  {
    NameReadAs(s, NormalizeName(s));
    if ReadAs(s, name) {
      var core, dots :| AllDots(dots) && Around(s, core + dots) && SameLetters(core, name);
      TrimExact(s, core + dots);
      LastNotDot(core, name);
      DotsDrop(core, dots);
      SameLettersIff(core, name);
      NoCapitalsIff(name);
    }
  }
}
