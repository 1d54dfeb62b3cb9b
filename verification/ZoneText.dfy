/** TXT records: the text printed into a zone file, what a name server reads back from it, and the live
    check that compares the two. */
module ZoneText {
  import opened Common
  import opened Bytes
  import opened Utf8
  import opened Text

  const MAX_TXT_CHUNK: nat := 255

  function Flat(parts: seq<string>): string
  {
    if parts == [] then "" else Flat(parts[..|parts| - 1]) + parts[|parts| - 1]
  }

  lemma FlatSnoc(parts: seq<string>, part: string)
    ensures Flat(parts + [part]) == Flat(parts) + part
  {
    assert (parts + [part])[..|parts|] == parts;
  }

  // ----- split_chunks -----

  /** A byte offset that falls between two characters. */
  ghost predicate OnBoundary(value: string, offset: nat)
  {
    exists i | 0 <= i <= |value| :: |Encode(value[..i])| == offset
  }

  lemma EncodedPrefix(value: string, i: nat)
    requires i <= |value|
    ensures Encode(value) == Encode(value[..i]) + Encode(value[i..])
  {
    assert value == value[..i] + value[i..];
    EncodeConcat(value[..i], value[i..]);
  }

  /** The substring between two byte offsets; the program would stop if one were inside a character. */
  function Slice(value: string, start: nat, end: nat): string
    requires OnBoundary(value, start) && OnBoundary(value, end) && start <= end <= |Encode(value)|
  {
    DecodeLossy(Encode(value)[start..end])
  }

  lemma SliceIs(value: string, i: nat, j: nat)
    requires i <= j <= |value|
    ensures var start, end := |Encode(value[..i])|, |Encode(value[..j])|;
            && OnBoundary(value, start) && OnBoundary(value, end) && start <= end <= |Encode(value)|
            && Slice(value, start, end) == value[i..j]
            && end - start == |Encode(value[i..j])|
  {
    EncodedPrefix(value, j);
    EncodedPrefix(value[..j], i);
    assert value[..j][..i] == value[..i] && value[..j][i..] == value[i..j];
    var start, end := |Encode(value[..i])|, |Encode(value[..j])|;
    assert Encode(value)[start..end] == Encode(value[i..j]);
    DecodeOfEncode(value[i..j]);
  }

  lemma EncodeOne(c: char)
    ensures Encode([c]) == EncodeChar(c)
  {
    assert [c][1..] == "";
  }

  lemma OneMoreChar(value: string, i: nat)
    requires i < |value|
    ensures |Encode(value[..i + 1])| == |Encode(value[..i])| + |EncodeChar(value[i])|
  {
    assert value[..i + 1] == value[..i] + [value[i]];
    EncodeConcat(value[..i], [value[i]]);
    EncodeOne(value[i]);
  }

  predicate Fits(chunk: string, limit: nat)
  {
    |Encode(chunk)| <= limit
  }

  /** The chunk could not have taken the next character. */
  predicate Full(chunk: string, next: char, limit: nat)
  {
    |Encode(chunk)| + |EncodeChar(next)| > limit
  }

  /** Cut into the longest chunks that fit. */
  predicate Greedy(chunks: seq<string>, limit: nat)
  {
    && (forall k | 0 <= k < |chunks| :: Fits(chunks[k], limit))
    && (forall k | 0 < k < |chunks| :: chunks[k] != "" && Full(chunks[k - 1], chunks[k][0], limit))
  }

  predicate NoneBlank(chunks: seq<string>)
  {
    forall k | 0 <= k < |chunks| :: chunks[k] != ""
  }

  /** Characters up to a are in chunks, those from a to i are gathered for the next one. */
  predicate Cut(value: string, a: nat, i: nat, chunks: seq<string>, limit: nat)
  {
    a <= i <= |value| && Flat(chunks) == value[..a] && (limit >= 4 ==> Tight(value, a, i, chunks, limit))
  }

  predicate Tight(value: string, a: nat, i: nat, chunks: seq<string>, limit: nat)
    requires a <= i <= |value|
  {
    && Greedy(chunks, limit) && NoneBlank(chunks) && Fits(value[a..i], limit) && (a == i ==> i == 0)
    && (chunks != [] ==> a < |value| && Full(chunks[|chunks| - 1], value[a], limit))
  }

  lemma FitsOneMore(value: string, a: nat, i: nat, limit: nat)
    requires a <= i < |value|
    ensures Full(value[a..i], value[i], limit) <==> !Fits(value[a..i + 1], limit)
  {
    OneMoreChar(value[a..i + 1], i - a);
    assert value[a..i + 1][..i - a] == value[a..i] && value[a..i + 1][..i - a + 1] == value[a..i + 1];
  }

  lemma CutGrows(value: string, a: nat, i: nat, chunks: seq<string>, limit: nat)
    requires i < |value| && Cut(value, a, i, chunks, limit) && !Full(value[a..i], value[i], limit)
    ensures Cut(value, a, i + 1, chunks, limit)
  {
    FitsOneMore(value, a, i, limit);
  }

  lemma GreedySnoc(chunks: seq<string>, chunk: string, limit: nat)
    requires Greedy(chunks, limit) && NoneBlank(chunks) && chunk != "" && Fits(chunk, limit)
    requires chunks != [] ==> Full(chunks[|chunks| - 1], chunk[0], limit)
    ensures Greedy(chunks + [chunk], limit) && NoneBlank(chunks + [chunk])
  {
  }

  lemma ChunkJoins(value: string, a: nat, i: nat, chunks: seq<string>)
    requires a <= i <= |value| && Flat(chunks) == value[..a]
    ensures Flat(chunks + [value[a..i]]) == value[..i]
  {
    FlatSnoc(chunks, value[a..i]);
    assert value[..a] + value[a..i] == value[..i];
  }

  lemma FullNotBlank(chunk: string, next: char, limit: nat)
    requires limit >= 4 && Full(chunk, next, limit)
    ensures chunk != ""
  {
  }

  lemma OneFits(c: char, limit: nat)
    requires limit >= 4
    ensures Fits([c], limit)
  {
    EncodeOne(c);
  }

  lemma LastTight(value: string, a: nat, i: nat, chunks: seq<string>, limit: nat)
    requires a < i <= |value| && Tight(value, a, i, chunks, limit)
    ensures Greedy(chunks + [value[a..i]], limit) && NoneBlank(chunks + [value[a..i]])
  {
    assert value[a..i][0] == value[a];
    GreedySnoc(chunks, value[a..i], limit);
  }

  lemma TightPushes(value: string, a: nat, i: nat, chunks: seq<string>, limit: nat)
    requires a <= i < |value| && limit >= 4 && Tight(value, a, i, chunks, limit)
    requires Full(value[a..i], value[i], limit)
    ensures Tight(value, i, i + 1, chunks + [value[a..i]], limit)
  {
    FullNotBlank(value[a..i], value[i], limit);
    LastTight(value, a, i, chunks, limit);
    OneFits(value[i], limit);
    assert value[i..i + 1] == [value[i]];
  }

  lemma CutPushes(value: string, a: nat, i: nat, chunks: seq<string>, limit: nat)
    requires i < |value| && Cut(value, a, i, chunks, limit) && Full(value[a..i], value[i], limit)
    ensures Cut(value, i, i + 1, chunks + [value[a..i]], limit)
  {
    ChunkJoins(value, a, i, chunks);
    if limit >= 4 { TightPushes(value, a, i, chunks, limit); }
  }

  /** The byte offsets always fall between characters, so no slice can fail; chunks rejoin to the value and,
      when any one character fits, each is as long as the limit allows and none is blank unless all is. */
  method SplitChunks(value: string, limit: nat) returns (chunks: seq<string>)
    ensures Flat(chunks) == value && chunks != []
    ensures limit >= 4 ==> Greedy(chunks, limit) && (value != "" ==> NoneBlank(chunks))
  {
    chunks := [];
    var start, end := 0, 0;
    ghost var a := 0;
    for i := 0 to |value|
      invariant Cut(value, a, i, chunks, limit)
      invariant start == |Encode(value[..a])| && end == |Encode(value[..i])|
    {
      SliceIs(value, a, i);
      OneMoreChar(value, i);
      if end - start + |EncodeChar(value[i])| > limit {
        CutPushes(value, a, i, chunks, limit);
        chunks := chunks + [Slice(value, start, end)];
        start, a := end, i;
      } else {
        CutGrows(value, a, i, chunks, limit);
      }
      end := end + |EncodeChar(value[i])|;
    }
    SliceIs(value, a, |value|);
    ChunkJoins(value, a, |value|, chunks);
    if limit >= 4 && a < |value| { LastTight(value, a, |value|, chunks, limit); }
    if start < end || chunks == [] {
      chunks := chunks + [Slice(value, start, end)];
    }
  }

  // ----- escape and txt_value -----

  function Replace(s: string, c: char, to: string): string
  {
    if s == "" then "" else (if s[0] == c then to else [s[0]]) + Replace(s[1..], c, to)
  }

  /** Backslashes first, then quotes. */
  function Escape(chunk: string): string
  {
    Replace(Replace(chunk, '\\', "\\\\"), '"', "\\\"")
  }

  function EscapeChar(c: char): string
  {
    if c == '\\' || c == '"' then ['\\', c] else [c]
  }

  lemma {:induction false} ReplaceConcat(s: string, t: string, c: char, to: string)
    ensures Replace(s + t, c, to) == Replace(s, c, to) + Replace(t, c, to)
  {
    if s == "" {
      assert s + t == t;
    } else {
      assert (s + t)[1..] == s[1..] + t;
      ReplaceConcat(s[1..], t, c, to);
    }
  }

  /** The two passes together escape character by character. */
  lemma EscapeStep(s: string)
    requires s != ""
    ensures Escape(s) == EscapeChar(s[0]) + Escape(s[1..])
  {
    var head := if s[0] == '\\' then "\\\\" else [s[0]];
    ReplaceConcat(head, Replace(s[1..], '\\', "\\\\"), '"', "\\\"");
    assert head[1..] == if s[0] == '\\' then "\\" else "";
    assert s[0] == '\\' ==> head[1..][1..] == "";
  }

  function Quoted(chunk: string): string
  {
    "\"" + Escape(chunk) + "\""
  }

  /** Quoted chunks, joined by single spaces. */
  function Printed(chunks: seq<string>): string
  {
    if chunks == [] then ""
    else if |chunks| == 1 then Quoted(chunks[0])
    else Quoted(chunks[0]) + " " + Printed(chunks[1..])
  }

  // ----- Reading character-strings back (sections 3.3.14 and 5.1 of RFC 1035) -----

  const QUOTE: byte := 34
  const BACKSLASH: byte := 92

  predicate Blank(b: byte) { b == 32 || b == 9 }

  predicate Digit(b: byte) { 48 <= b <= 57 }

  /** An escape after its backslash: the octet it stands for and the bytes it takes. */
  function ReadEscape(b: seq<byte>): (r: Option<(byte, nat)>)
    ensures r.Some? ==> 1 <= r.value.1 <= |b|
  {
    if b == [] then None
    else if !Digit(b[0]) then Some((b[0], 1))
    else if |b| < 3 || !Digit(b[1]) || !Digit(b[2]) then None
    else
      var n := (b[0] as int - 48) * 100 + (b[1] as int - 48) * 10 + (b[2] as int - 48);
      if n < 256 then Some((n, 3)) else None
  }

  /** The rest of a quoted string, up to its closing quote, and what follows. */
  function ReadQuoted(b: seq<byte>): (r: Option<(seq<byte>, seq<byte>)>)
    ensures r.Some? ==> |r.value.1| < |b|
    decreases |b|
  {
    if b == [] then None
    else if b[0] == QUOTE then Some(([], b[1..]))
    else
      var octet := if b[0] == BACKSLASH then ReadEscape(b[1..]) else Some((b[0], 0));
      if octet.None? then None else
        var rest := ReadQuoted(b[1 + octet.value.1..]);
        if rest.None? then None else Some(([octet.value.0] + rest.value.0, rest.value.1))
  }

  /** The rest of a bare string, up to a blank. */
  function ReadBare(b: seq<byte>): (r: Option<(seq<byte>, seq<byte>)>)
    ensures r.Some? ==> |r.value.1| <= |b|
    decreases |b|
  {
    if b == [] || Blank(b[0]) then Some(([], b))
    else if b[0] == QUOTE then None
    else
      var octet := if b[0] == BACKSLASH then ReadEscape(b[1..]) else Some((b[0], 0));
      if octet.None? then None else
        var rest := ReadBare(b[1 + octet.value.1..]);
        if rest.None? then None else Some(([octet.value.0] + rest.value.0, rest.value.1))
  }

  function ReadStrings(b: seq<byte>): Option<seq<seq<byte>>>
    decreases |b|
  {
    if b == [] then Some([])
    else if Blank(b[0]) then ReadStrings(b[1..])
    else
      var first := if b[0] == QUOTE then ReadQuoted(b[1..]) else ReadBare(b);
      if first.None? || |first.value.1| >= |b| then None else
        var rest := ReadStrings(first.value.1);
        if rest.None? then None else Some([first.value.0] + rest.value)
  }

  /** A character that is no ASCII sign has no ASCII byte in it. */
  lemma PlainBytes(c: char, k: nat)
    requires c != '"' && c != '\\' && k < |EncodeChar(c)|
    ensures EncodeChar(c)[k] != QUOTE && EncodeChar(c)[k] != BACKSLASH
  {
  }

  lemma {:induction false} ReadPlain(b: seq<byte>, rest: seq<byte>)
    requires forall k | 0 <= k < |b| :: b[k] != QUOTE && b[k] != BACKSLASH
    ensures ReadQuoted(b + rest) ==
            if ReadQuoted(rest).None? then None
            else Some((b + ReadQuoted(rest).value.0, ReadQuoted(rest).value.1))
  {
    if b == [] {
      assert b + rest == rest;
      assert ReadQuoted(rest).Some? ==> b + ReadQuoted(rest).value.0 == ReadQuoted(rest).value.0;
    } else {
      assert (b + rest)[1..] == b[1..] + rest;
      ReadPlain(b[1..], rest);
      assert ReadQuoted(rest).Some? ==> b + ReadQuoted(rest).value.0 == [b[0]] + (b[1..] + ReadQuoted(rest).value.0);
    }
  }

  lemma ReadEscapedChar(c: char, rest: seq<byte>)
    requires ReadQuoted(rest).Some?
    ensures ReadQuoted(Encode(EscapeChar(c)) + rest) ==
            Some((EncodeChar(c) + ReadQuoted(rest).value.0, ReadQuoted(rest).value.1))
  {
    EncodeOne(c);
    if c == '"' || c == '\\' {
      EncodeConcat("\\", [c]);
      EncodeOne('\\');
      assert EscapeChar(c) == "\\" + [c];
      var b := Encode(EscapeChar(c)) + rest;
      assert b == [BACKSLASH] + EncodeChar(c) + rest;
      assert b[1..] == EncodeChar(c) + rest && b[2..] == rest;
    } else {
      forall k | 0 <= k < |EncodeChar(c)| ensures EncodeChar(c)[k] != QUOTE && EncodeChar(c)[k] != BACKSLASH {
        PlainBytes(c, k);
      }
      ReadPlain(EncodeChar(c), rest);
    }
  }

  lemma Regroup(a: seq<byte>, b: seq<byte>, rest: seq<byte>)
    ensures (a + b) + [QUOTE] + rest == a + (b + [QUOTE] + rest)
  {
  }

  lemma ReadClosing(rest: seq<byte>)
    ensures ReadQuoted(Encode(Escape("")) + [QUOTE] + rest) == Some((Encode(""), rest))
  {
    var b := Encode(Escape("")) + [QUOTE] + rest;
    assert b == [QUOTE] + rest;
    assert b[1..] == rest;
  }

  lemma EncodeEscaped(s: string)
    requires s != ""
    ensures Encode(Escape(s)) == Encode(EscapeChar(s[0])) + Encode(Escape(s[1..]))
    ensures Encode(s) == EncodeChar(s[0]) + Encode(s[1..])
  {
    EscapeStep(s);
    EncodeConcat(EscapeChar(s[0]), Escape(s[1..]));
  }

  /** Escaped text up to a closing quote is read as the octets of the original. */
  lemma {:induction false} ReadEscaped(s: string, rest: seq<byte>)
    ensures ReadQuoted(Encode(Escape(s)) + [QUOTE] + rest) == Some((Encode(s), rest))
  {
    if s == "" {
      ReadClosing(rest);
    } else {
      ReadEscaped(s[1..], rest);
      EncodeEscaped(s);
      Regroup(Encode(EscapeChar(s[0])), Encode(Escape(s[1..])), rest);
      ReadEscapedChar(s[0], Encode(Escape(s[1..])) + [QUOTE] + rest);
    }
  }

  function Encoded(chunks: seq<string>): (r: seq<seq<byte>>)
    ensures |r| == |chunks| && forall k | 0 <= k < |r| :: r[k] == Encode(chunks[k])
  {
    seq(|chunks|, k requires 0 <= k < |chunks| => Encode(chunks[k]))
  }

  lemma EncodeQuoted(chunk: string, rest: string)
    ensures Encode(Quoted(chunk) + rest) == [QUOTE] + (Encode(Escape(chunk)) + [QUOTE] + Encode(rest))
  {
    var e := Escape(chunk);
    assert Quoted(chunk) + rest == "\"" + (e + ("\"" + rest));
    EncodeOne('"');
    EncodeConcat("\"", e + ("\"" + rest));
    EncodeConcat(e, "\"" + rest);
    EncodeConcat("\"", rest);
    assert Encode(e) + ([QUOTE] + Encode(rest)) == Encode(e) + [QUOTE] + Encode(rest);
  }

  lemma ReadQuotedFirst(chunk: string, rest: string, strings: seq<seq<byte>>)
    requires ReadStrings(Encode(rest)) == Some(strings)
    ensures ReadStrings(Encode(Quoted(chunk) + rest)) == Some([Encode(chunk)] + strings)
  {
    EncodeQuoted(chunk, rest);
    ReadEscaped(chunk, Encode(rest));
    var b := Encode(Quoted(chunk) + rest);
    assert b[1..] == Encode(Escape(chunk)) + [QUOTE] + Encode(rest);
  }

  /** A name server reads the printed chunks back as they were. */
  lemma {:induction false} ReadPrinted(chunks: seq<string>)
    ensures ReadStrings(Encode(Printed(chunks))) == Some(Encoded(chunks))
    decreases |chunks|
  {
    if chunks != [] {
      var rest := if |chunks| == 1 then "" else " " + Printed(chunks[1..]);
      assert Printed(chunks) == Quoted(chunks[0]) + rest;
      ReadPrinted(chunks[1..]);
      AfterBlank(Printed(chunks[1..]));
      ReadQuotedFirst(chunks[0], rest, Encoded(chunks[1..]));
      assert Encoded(chunks) == [Encode(chunks[0])] + Encoded(chunks[1..]);
    }
  }

  lemma AfterBlank(s: string)
    ensures ReadStrings(Encode(" " + s)) == ReadStrings(Encode(s))
  {
    EncodeConcat(" ", s);
    EncodeOne(' ');
    assert Encode(" " + s)[1..] == Encode(s);
  }

  // ----- The live check -----

  /** A TXT record's data as the check sees it: each character-string decoded on its own. */
  function Observed(strings: seq<seq<byte>>): string
  {
    if strings == [] then "" else Observed(strings[..|strings| - 1]) + DecodeLossy(strings[|strings| - 1])
  }

  /** Chunks end between characters, so decoding them one by one loses nothing. */
  lemma {:induction false} ObservedIsFlat(chunks: seq<string>)
    ensures Observed(Encoded(chunks)) == Flat(chunks)
  {
    if chunks != [] {
      var n := |chunks| - 1;
      ObservedIsFlat(chunks[..n]);
      assert Encoded(chunks)[..n] == Encoded(chunks[..n]);
      DecodeOfEncode(chunks[n]);
    }
  }

  /** Whatever TXT value is printed, what is read back is made of strings of at most 255 bytes and is
      observed as the value itself. */
  lemma PrintedIsObserved(value: string, chunks: seq<string>)
    requires Flat(chunks) == value && Greedy(chunks, MAX_TXT_CHUNK)
    ensures var read := ReadStrings(Encode(Printed(chunks)));
            && read.Some? && Observed(read.value) == value
            && forall k | 0 <= k < |read.value| :: |read.value[k]| <= MAX_TXT_CHUNK
  {
    ReadPrinted(chunks);
    ObservedIsFlat(chunks);
    forall k | 0 <= k < |chunks| ensures |Encoded(chunks)[k]| <= MAX_TXT_CHUNK {
      assert Fits(chunks[k], MAX_TXT_CHUNK);
    }
  }

  /** The printed text is read back as strings of at most 255 bytes that add up to the value. */
  method TxtValue(value: string) returns (text: string)
    ensures var read := ReadStrings(Encode(text));
            && read.Some? && read.value != [] && Observed(read.value) == value
            && forall k | 0 <= k < |read.value| :: |read.value[k]| <= 255
    ensures exists chunks :: Flat(chunks) == value && Greedy(chunks, 255) && text == Printed(chunks)
  {
    var chunks := SplitChunks(value, MAX_TXT_CHUNK);
    text := Printed(chunks);
    ReadPrinted(chunks);
    PrintedIsObserved(value, chunks);
  }

  datatype Status = Missing | Mismatch | Pass

  /** The maximal runs without white space. */
  function Words(s: string): (r: seq<string>)
    ensures forall k | 0 <= k < |r| :: IsWord(r[k])
  {
    if s == "" then []
    else if IsWhitespace(s[0]) then Words(s[1..])
    else
      var n := WordEnd(s);
      [s[..n]] + Words(s[n..])
  }

  predicate IsWord(w: string)
  {
    w != "" && forall i | 0 <= i < |w| :: !IsWhitespace(w[i])
  }

  function WordEnd(s: string): (n: nat)
    requires s != "" && !IsWhitespace(s[0])
    ensures 1 <= n <= |s| && IsWord(s[..n]) && (n < |s| ==> IsWhitespace(s[n]))
  {
    if |s| == 1 || IsWhitespace(s[1]) then 1 else
      var m := WordEnd(s[1..]);
      assert forall i | 0 <= i < m :: s[1..][..m][i] == s[i + 1];
      m + 1
  }

  function Joined(words: seq<string>): string
  {
    if words == [] then "" else if |words| == 1 then words[0] else words[0] + " " + Joined(words[1..])
  }

  function NormalizeText(value: string, foldCase: bool): string
  {
    if foldCase then Lower(Joined(Words(value))) else Joined(Words(value))
  }

  function Decide(recordType: string, expected: string, observed: seq<string>): Status
  {
    var foldCase := recordType != "TXT";
    if observed == [] then Missing
    else if exists k | 0 <= k < |observed| :: NormalizeText(observed[k], foldCase) == NormalizeText(expected, foldCase)
    then Pass
    else Mismatch
  }

  lemma WordEndUnique(s: string, n: nat)
    requires 1 <= n <= |s| && IsWord(s[..n]) && (n < |s| ==> IsWhitespace(s[n])) && !IsWhitespace(s[0])
    ensures WordEnd(s) == n
  {
    var m := WordEnd(s);
    assert forall i | 0 <= i < m :: !IsWhitespace(s[i]) by { assert forall i | 0 <= i < m :: s[..m][i] == s[i]; }
    assert forall i | 0 <= i < n :: !IsWhitespace(s[i]) by { assert forall i | 0 <= i < n :: s[..n][i] == s[i]; }
  }

  lemma FirstWord(w: string, rest: string)
    requires IsWord(w) && (rest == "" || IsWhitespace(rest[0]))
    ensures Words(w + rest) == [w] + Words(rest)
  {
    var s := w + rest;
    assert s[..|w|] == w && s[|w|..] == rest;
    assert s[0] == w[0];
    WordEndUnique(s, |w|);
  }

  predicate AllWords(words: seq<string>)
  {
    forall k | 0 <= k < |words| :: IsWord(words[k])
  }

  lemma {:induction false} WordsOfJoined(words: seq<string>)
    requires AllWords(words)
    ensures Words(Joined(words)) == words
  {
    if words != [] {
      var rest := if |words| == 1 then "" else " " + Joined(words[1..]);
      assert Joined(words) == words[0] + rest;
      FirstWord(words[0], rest);
      WordsOfJoined(words[1..]);
      BlankThen(' ', Joined(words[1..]));
      assert words == [words[0]] + words[1..];
    }
  }

  /** White space in front of a value says nothing. */
  lemma BlankThen(c: char, s: string)
    requires IsWhitespace(c)
    ensures Words([c] + s) == Words(s) && Words("") == []
  {
    assert ([c] + s)[1..] == s;
  }

  function LowerAll(words: seq<string>): (r: seq<string>)
    requires AllWords(words)
    ensures |r| == |words| && AllWords(r) && forall k | 0 <= k < |r| :: r[k] == Lower(words[k])
  {
    seq(|words|, k requires 0 <= k < |words| => Lower(words[k]))
  }

  lemma {:induction false} LowerJoined(words: seq<string>)
    requires AllWords(words)
    ensures Lower(Joined(words)) == Joined(LowerAll(words))
  {
    if |words| > 1 {
      LowerJoined(words[1..]);
      assert LowerAll(words)[1..] == LowerAll(words[1..]);
      assert Lower(words[0] + " " + Joined(words[1..])) == Lower(words[0]) + " " + Lower(Joined(words[1..]));
    }
  }

  /** The words of a value, lower-cased when case does not count. */
  function Said(value: string, foldCase: bool): (r: seq<string>)
    ensures AllWords(r)
  {
    if foldCase then LowerAll(Words(value)) else Words(value)
  }

  lemma NormalizeIsJoined(value: string, foldCase: bool)
    ensures NormalizeText(value, foldCase) == Joined(Said(value, foldCase))
  {
    LowerJoined(Words(value));
  }

  /** Two values count as the same exactly when they say the same words in the same order. */
  lemma NormalizeSameIff(a: string, b: string, foldCase: bool)
    ensures NormalizeText(a, foldCase) == NormalizeText(b, foldCase) <==> Said(a, foldCase) == Said(b, foldCase)
  {
    NormalizeIsJoined(a, foldCase);
    NormalizeIsJoined(b, foldCase);
    WordsOfJoined(Said(a, foldCase));
    WordsOfJoined(Said(b, foldCase));
  }

  /** Publishing what txt_value prints, among any other records, makes the check pass. */
  lemma PublishedPasses(value: string, chunks: seq<string>, before: seq<string>, after: seq<string>)
    requires Flat(chunks) == value && Greedy(chunks, MAX_TXT_CHUNK)
    ensures var read := ReadStrings(Encode(Printed(chunks)));
            read.Some? && Decide("TXT", value, before + [Observed(read.value)] + after) == Pass
  {
    PrintedIsObserved(value, chunks);
    var observed := before + [value] + after;
    assert observed[|before|] == value;
  }

  /** The three verdicts, said in words. */
  lemma DecideExact(recordType: string, expected: string, observed: seq<string>)
    ensures var status, fold := Decide(recordType, expected, observed), recordType != "TXT";
            && (status == Missing <==> observed == [])
            && (status == Pass <==> exists k | 0 <= k < |observed| :: Said(observed[k], fold) == Said(expected, fold))
  {
    var fold := recordType != "TXT";
    forall k | 0 <= k < |observed|
      ensures NormalizeText(observed[k], fold) == NormalizeText(expected, fold) <==>
              Said(observed[k], fold) == Said(expected, fold)
    {
      NormalizeSameIff(observed[k], expected, fold);
    }
  }
}
