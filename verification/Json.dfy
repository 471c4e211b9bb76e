/**
 JSON texts (sections 2 to 7 of RFC 8259) as far as the SQLite guest prints them: a
 parser, and printed forms it reads back.
 */
module Json {
  import opened Bytes
  import opened Unicode

  /** Numbers with a fraction or an exponent and escaped surrogate pairs are not read. */
  datatype Json =
    | JNull
    | JBool(b: bool)
    | JInt(n: int)
    | JStr(s: seq<byte>)
    | JArr(items: seq<Json>)
    | JObj(members: seq<Member>)

  datatype Member = Member(key: seq<byte>, value: Json)

  type Parsed<+T> = Option<(T, seq<byte>)>

  // ---------------------------------------------------------------------------
  // Parser
  // ---------------------------------------------------------------------------

  predicate IsSpace(b: byte) {
    b == 0x20 || b == 0x09 || b == 0x0A || b == 0x0D
  }

  function SkipSpace(s: seq<byte>): (t: seq<byte>)
    ensures |t| <= |s|
  {
    if s != [] && IsSpace(s[0]) then SkipSpace(s[1..]) else s
  }

  predicate IsDigit(b: byte) {
    0x30 <= b <= 0x39
  }

  function HexValue(b: byte): Option<nat> {
    if IsDigit(b) then Some(b - 0x30)
    else if 0x61 <= b <= 0x66 then Some(b - 0x61 + 10)
    else if 0x41 <= b <= 0x46 then Some(b - 0x41 + 10)
    else None
  }

  /** The rest of a string after its opening quote. */
  function ParseChars(s: seq<byte>): (r: Parsed<seq<byte>>)
    ensures r.Some? ==> |r.value.1| < |s|
  {
    if s == [] || s[0] < 0x20 then None
    else if s[0] == 0x22 then Some(([], s[1..]))
    else if s[0] != 0x5C then Prefixed([s[0]], ParseChars(s[1..]))
    else if |s| < 2 then None
    else if s[1] == 0x75 then
      if |s| < 6 then None
      else
        match (HexValue(s[2]), HexValue(s[3]), HexValue(s[4]), HexValue(s[5]))
        case (Some(a), Some(b), Some(c), Some(d)) =>
          var cp := ((a * 16 + b) * 16 + c) * 16 + d;
          if IsScalar(cp) then Prefixed(Utf8One(cp), ParseChars(s[6..])) else None
        case _ => None
    else
      match Escaped(s[1]) case None => None case Some(b) => Prefixed([b], ParseChars(s[2..]))
  }

  function Prefixed(head: seq<byte>, tail: Parsed<seq<byte>>): Parsed<seq<byte>> {
    match tail case None => None case Some((bs, rest)) => Some((head + bs, rest))
  }

  /** The character of a two-character escape. */
  function Escaped(b: byte): Option<byte> {
    if b == 0x22 || b == 0x5C || b == 0x2F then Some(b)
    else if b == 0x62 then Some(0x08)
    else if b == 0x66 then Some(0x0C)
    else if b == 0x6E then Some(0x0A)
    else if b == 0x72 then Some(0x0D)
    else if b == 0x74 then Some(0x09)
    else None
  }

  function ReadDigits(s: seq<byte>, acc: nat): (r: (nat, seq<byte>))
    ensures |r.1| <= |s| && (s != [] && IsDigit(s[0]) ==> |r.1| < |s|)
  {
    if s != [] && IsDigit(s[0]) then ReadDigits(s[1..], acc * 10 + (s[0] - 0x30)) else (acc, s)
  }

  function ParseNumber(s: seq<byte>): (r: Parsed<Json>)
    ensures r.Some? ==> |r.value.1| < |s|
  {
    var negative := s != [] && s[0] == 0x2D;
    var t := if negative then s[1..] else s;
    if t == [] || !IsDigit(t[0]) then None
    else
      var (n, rest) := ReadDigits(t, 0);
      if t[0] == 0x30 && |t| - |rest| > 1 then None
      else if rest != [] && (rest[0] == 0x2E || rest[0] == 0x65 || rest[0] == 0x45) then None
      else Some((JInt(if negative then -(n as int) else n), rest))
  }

  function ParseLiteral(word: seq<byte>, j: Json, s: seq<byte>): (r: Parsed<Json>)
    requires word != []
    ensures r.Some? ==> |r.value.1| < |s|
  {
    if word <= s then Some((j, s[|word|..])) else None
  }

  function ParseValue(text: seq<byte>): (r: Parsed<Json>)
    ensures r.Some? ==> |r.value.1| < |text|
    decreases |text|, 0
  {
    var s := SkipSpace(text);
    if s == [] then None
    else if s[0] == 0x22 then
      match ParseChars(s[1..]) case None => None case Some((bs, rest)) => Some((JStr(bs), rest))
    else if s[0] == 0x5B then
      var t := SkipSpace(s[1..]);
      if t != [] && t[0] == 0x5D then Some((JArr([]), t[1..]))
      else match ParseItems(t) case None => None case Some((items, rest)) => Some((JArr(items), rest))
    else if s[0] == 0x7B then
      var t := SkipSpace(s[1..]);
      if t != [] && t[0] == 0x7D then Some((JObj([]), t[1..]))
      else match ParseMembers(t) case None => None case Some((ms, rest)) => Some((JObj(ms), rest))
    else if s[0] == 0x2D || IsDigit(s[0]) then ParseNumber(s)
    else if s[0] == 0x6E then ParseLiteral([0x6E, 0x75, 0x6C, 0x6C], JNull, s)
    else if s[0] == 0x74 then ParseLiteral([0x74, 0x72, 0x75, 0x65], JBool(true), s)
    else ParseLiteral([0x66, 0x61, 0x6C, 0x73, 0x65], JBool(false), s)
  }

  /** Items of a non-empty array up to its closing bracket. */
  function ParseItems(text: seq<byte>): (r: Parsed<seq<Json>>)
    ensures r.Some? ==> |r.value.1| < |text|
    decreases |text|, 1
  {
    match ParseValue(text)
    case None => None
    case Some((j, rest)) =>
      var s := SkipSpace(rest);
      if s == [] then None
      else if s[0] == 0x5D then Some(([j], s[1..]))
      else if s[0] == 0x2C then
        match ParseItems(s[1..]) case None => None case Some((js, more)) => Some(([j] + js, more))
      else None
  }

  /** Members of a non-empty object up to its closing brace. */
  function ParseMembers(text: seq<byte>): (r: Parsed<seq<Member>>)
    ensures r.Some? ==> |r.value.1| < |text|
    decreases |text|, 1
  {
    var s := SkipSpace(text);
    if s == [] || s[0] != 0x22 then None
    else
      match ParseChars(s[1..])
      case None => None
      case Some((key, rest)) =>
        var t := SkipSpace(rest);
        if t == [] || t[0] != 0x3A then None
        else
          match ParseValue(t[1..])
          case None => None
          case Some((j, after)) =>
            var u := SkipSpace(after);
            if u == [] then None
            else if u[0] == 0x7D then Some(([Member(key, j)], u[1..]))
            else if u[0] == 0x2C then
              match ParseMembers(u[1..]) case None => None case Some((ms, more)) => Some(([Member(key, j)] + ms, more))
            else None
  }

  /** A text must be UTF-8, and nothing but white space may follow its value. */
  function ParseText(text: seq<byte>): Option<Json> {
    if Utf8Decode(text).None? then None
    else
      match ParseValue(text)
      case None => None
      case Some((j, rest)) => if SkipSpace(rest) == [] then Some(j) else None
  }

  // ---------------------------------------------------------------------------
  // Texts that are read back
  // ---------------------------------------------------------------------------

  /** What may follow a value inside an array or object. */
  predicate Stops(rest: seq<byte>) {
    rest != [] && (rest[0] == 0x2C || rest[0] == 0x5D || rest[0] == 0x7D)
  }

  predicate Starts(text: seq<byte>) {
    text != [] && !IsSpace(text[0]) && text[0] != 0x5D && text[0] != 0x7D
  }

  ghost predicate Reads(text: seq<byte>, j: Json) {
    && Starts(text)
    && forall rest :: Stops(rest) ==> ParseValue(text + rest) == Some((j, rest))
  }

  function Digit(d: nat): byte
    requires d < 10
  {
    0x30 + d
  }

  function Digits(n: nat): (s: seq<byte>)
    ensures s != []
  {
    if n < 10 then [Digit(n)] else Digits(n / 10) + [Digit(n % 10)]
  }

  function IntText(n: int): seq<byte> {
    if n < 0 then [0x2D] + Digits(-n) else Digits(n)
  }

  function HexDigit(d: nat): byte
    requires d < 16
  {
    if d < 10 then 0x30 + d else 0x61 + d - 10
  }

  function CharText(b: byte): seq<byte> {
    if b == 0x22 then [0x5C, 0x22]
    else if b == 0x5C then [0x5C, 0x5C]
    else if b == 0x0A then [0x5C, 0x6E]
    else if b == 0x0D then [0x5C, 0x72]
    else if b == 0x09 then [0x5C, 0x74]
    else if b < 0x20 then [0x5C, 0x75, 0x30, 0x30, HexDigit(b / 16), HexDigit(b % 16)]
    else [b]
  }

  function CharsText(s: seq<byte>): seq<byte> {
    if s == [] then [] else CharText(s[0]) + CharsText(s[1..])
  }

  function StringText(s: seq<byte>): seq<byte> {
    [0x22] + CharsText(s) + [0x22]
  }

  function Joined(parts: seq<seq<byte>>): seq<byte> {
    if parts == [] then []
    else if |parts| == 1 then parts[0]
    else parts[0] + [0x2C] + Joined(parts[1..])
  }

  function ArrayText(parts: seq<seq<byte>>): seq<byte> {
    [0x5B] + Joined(parts) + [0x5D]
  }

  lemma CharBack(b: byte, rest: seq<byte>)
    ensures ParseChars(CharText(b) + rest) == Prefixed([b], ParseChars(rest))
  {
    var t := CharText(b) + rest;
    assert t[|CharText(b)|..] == rest;
  }

  lemma {:induction false} CharsBack(s: seq<byte>, rest: seq<byte>)
    ensures ParseChars(CharsText(s) + [0x22] + rest) == Some((s, rest))
  {
    hide CharText;
    if s == [] {
      assert ([0x22] + rest)[1..] == rest;
      assert CharsText(s) + [0x22] + rest == [0x22] + rest;
    } else {
      var more := CharsText(s[1..]) + [0x22] + rest;
      CharBack(s[0], more);
      CharsBack(s[1..], rest);
      assert CharsText(s) + [0x22] + rest == CharText(s[0]) + more;
      assert [s[0]] + s[1..] == s;
    }
  }

  lemma QuotedBack(s: seq<byte>, rest: seq<byte>)
    ensures ParseValue(StringText(s) + rest) == Some((JStr(s), rest))
  {
    hide CharsText;
    var t := StringText(s) + rest;
    assert t[1..] == CharsText(s) + [0x22] + rest;
    CharsBack(s, rest);
  }

  /** As long as it is within a text, a printed string is read back byte for byte. */
  lemma QuotedReads(s: seq<byte>)
    ensures Reads(StringText(s), JStr(s))
  {
    hide ParseValue;
    forall rest | Stops(rest) ensures ParseValue(StringText(s) + rest) == Some((JStr(s), rest)) {
      QuotedBack(s, rest);
    }
  }

  lemma CharIsAscii(b: byte)
    requires b < 128
    ensures CharText(b) != [] && forall i :: 0 <= i < |CharText(b)| ==> CharText(b)[i] < 128
  {
  }

  lemma {:induction false} CharsJoin(a: seq<byte>, b: seq<byte>)
    ensures CharsText(a + b) == CharsText(a) + CharsText(b)
  {
    hide CharText;
    if a == [] {
      assert a + b == b;
    } else {
      assert (a + b)[1..] == a[1..] + b;
      CharsJoin(a[1..], b);
    }
  }

  /** The number of leading bytes outside ASCII. */
  function Beyond(s: seq<byte>): (n: nat)
    ensures n <= |s| && (n < |s| ==> s[n] < 128) && forall i :: 0 <= i < n ==> s[i] >= 128
  {
    if s == [] || s[0] < 128 then 0 else 1 + Beyond(s[1..])
  }

  lemma {:induction false} BeyondIsPlain(s: seq<byte>)
    requires forall i :: 0 <= i < |s| ==> s[i] >= 128
    ensures CharsText(s) == s
  {
    if s != [] {
      BeyondIsPlain(s[1..]);
      assert CharText(s[0]) == [s[0]] && [s[0]] + s[1..] == s;
    }
  }

  /** Escaping neither makes nor spoils UTF-8. */
  lemma {:induction false} CharsAreText(s: seq<byte>)
    ensures IsUtf8(CharsText(s)) <==> IsUtf8(s)
    decreases |s|
  {
    hide IsUtf8;
    hide CharText;
    var n := Beyond(s);
    var a := s[..n];
    BeyondIsPlain(a);
    if n == |s| {
      assert a == s;
    } else {
      var c, b := s[n], s[n + 1..];
      assert s == a + [c] + b;
      AsciiSplit(a, c, b);
      CharIsAscii(c);
      CharsJoin(a, [c] + b);
      assert a + [c] + b == a + ([c] + b) && ([c] + b)[1..] == b;
      assert CharsText(s) == a + CharText(c) + CharsText(b);
      AsciiBetween(a, CharText(c), CharsText(b));
      CharsAreText(b);
    }
  }

  lemma StringIsText(s: seq<byte>)
    ensures IsUtf8(StringText(s)) <==> IsUtf8(s)
  {
    hide IsUtf8;
    CharsAreText(s);
    AsciiSplit([], 0x22, CharsText(s) + [0x22]);
    AsciiSplit(CharsText(s), 0x22, []);
    EmptyUtf8();
    assert [] + [0x22] + (CharsText(s) + [0x22]) == StringText(s);
    assert CharsText(s) + [0x22] + [] == CharsText(s) + [0x22];
  }

  /** A printed byte string is a JSON text exactly if it is UTF-8, and then reads back byte for byte. */
  lemma StringReads(s: seq<byte>)
    ensures ParseText(StringText(s)) == if IsUtf8(s) then Some(JStr(s)) else None
  {
    hide IsUtf8;
    hide StringText;
    hide ParseValue;
    StringIsText(s);
    Utf8DecodeIsUtf8(StringText(s));
    QuotedBack(s, []);
    assert StringText(s) + [] == StringText(s);
    assert SkipSpace([]) == [];
  }

  ghost predicate AllTexts(parts: seq<seq<byte>>) {
    forall i :: 0 <= i < |parts| ==> IsUtf8(parts[i])
  }

  lemma {:induction false} JoinedIsText(parts: seq<seq<byte>>)
    ensures IsUtf8(Joined(parts)) <==> AllTexts(parts)
  {
    hide IsUtf8;
    EmptyUtf8();
    if |parts| > 1 {
      AsciiSplit(parts[0], 0x2C, Joined(parts[1..]));
      JoinedIsText(parts[1..]);
      assert forall i :: 0 < i < |parts| ==> parts[i] == parts[1..][i - 1];
    }
  }

  lemma ArrayIsText(parts: seq<seq<byte>>)
    ensures IsUtf8(ArrayText(parts)) <==> AllTexts(parts)
  {
    hide IsUtf8;
    hide AllTexts;
    hide Joined;
    JoinedIsText(parts);
    EmptyUtf8();
    AsciiSplit([], 0x5B, Joined(parts) + [0x5D]);
    AsciiSplit(Joined(parts), 0x5D, []);
    assert [] + [0x5B] + (Joined(parts) + [0x5D]) == ArrayText(parts);
    assert Joined(parts) + [0x5D] + [] == Joined(parts) + [0x5D];
  }

  lemma {:induction false} DigitsBack(n: nat, rest: seq<byte>)
    ensures ReadDigits(Digits(n) + rest, 0) == ReadDigits(rest, n)
    ensures IsDigit(Digits(n)[0]) && (Digits(n)[0] == 0x30 ==> n == 0)
  {
    if n < 10 {
      assert (Digits(n) + rest)[1..] == rest;
    } else {
      var tail := [Digit(n % 10)] + rest;
      DigitsBack(n / 10, tail);
      assert Digits(n) + rest == Digits(n / 10) + tail;
      assert tail[1..] == rest;
    }
  }

  lemma IntReads(n: int)
    ensures Reads(IntText(n), JInt(n))
  {
    forall rest | Stops(rest) ensures ParseValue(IntText(n) + rest) == Some((JInt(n), rest)) {
      var digits := Digits(if n < 0 then -n else n);
      DigitsBack(if n < 0 then -n else n, rest);
      var t := IntText(n) + rest;
      if n < 0 {
        assert t[1..] == digits + rest;
      }
      assert n == 0 ==> digits == [0x30];
    }
    DigitsBack(if n < 0 then -n else n, []);
  }

  lemma NullReads()
    ensures Reads([0x6E, 0x75, 0x6C, 0x6C], JNull)
  {
    forall rest | Stops(rest) ensures ParseValue([0x6E, 0x75, 0x6C, 0x6C] + rest) == Some((JNull, rest)) {
      var t := [0x6E, 0x75, 0x6C, 0x6C] + rest;
      assert t[4..] == rest;
    }
  }

  ghost predicate AllRead(parts: seq<seq<byte>>, js: seq<Json>) {
    |parts| == |js| && forall i :: 0 <= i < |parts| ==> Reads(parts[i], js[i])
  }

  lemma {:induction false} ItemsBack(parts: seq<seq<byte>>, js: seq<Json>, rest: seq<byte>)
    requires AllRead(parts, js) && parts != []
    ensures ParseItems(Joined(parts) + [0x5D] + rest) == Some((js, rest))
    decreases |parts|
  {
    hide ParseValue;
    if |parts| == 1 {
      var close := [0x5D] + rest;
      assert Stops(close) && close[1..] == rest;
      assert Joined(parts) + [0x5D] + rest == parts[0] + close;
      assert ParseValue(parts[0] + close) == Some((js[0], close));
      assert js == [js[0]];
    } else {
      var more := Joined(parts[1..]) + [0x5D] + rest;
      var tail := [0x2C] + more;
      assert Stops(tail) && tail[1..] == more;
      assert Joined(parts) + [0x5D] + rest == parts[0] + tail;
      assert ParseValue(parts[0] + tail) == Some((js[0], tail));
      ItemsBack(parts[1..], js[1..], rest);
      assert js == [js[0]] + js[1..];
    }
  }

  lemma ArrayStep(t: seq<byte>, js: seq<Json>, rest: seq<byte>)
    requires t != [] && t[0] == 0x5B && Starts(t[1..]) && ParseItems(t[1..]) == Some((js, rest))
    ensures ParseValue(t) == Some((JArr(js), rest))
  {
    hide ParseItems;
  }

  lemma ArrayReads(parts: seq<seq<byte>>, js: seq<Json>)
    requires AllRead(parts, js)
    ensures Reads(ArrayText(parts), JArr(js))
  {
    hide ParseItems;
    hide AllRead;
    forall rest | Stops(rest) ensures ParseValue(ArrayText(parts) + rest) == Some((JArr(js), rest)) {
      var t := ArrayText(parts) + rest;
      assert t[1..] == Joined(parts) + [0x5D] + rest;
      if parts == [] {
        NoItems(parts, js);
        assert t[1..] == [0x5D] + rest && t[1..][1..] == rest;
      } else {
        hide ParseValue;
        ItemsBack(parts, js, rest);
        JoinedStarts(parts, js);
        ArrayStep(t, js, rest);
      }
    }
  }

  lemma NoItems(parts: seq<seq<byte>>, js: seq<Json>)
    requires AllRead(parts, js) && parts == []
    ensures js == []
  {
  }

  lemma JoinedStarts(parts: seq<seq<byte>>, js: seq<Json>)
    requires AllRead(parts, js) && parts != []
    ensures Starts(Joined(parts))
  {
    assert Reads(parts[0], js[0]);
  }
}
