/**
 Arrays of strings in TOML 1.0: blanks, newlines, comments and commas between basic
 and literal strings, up to the closing bracket.
 */
module Toml {
  import opened Bytes
  import Unicode

  /** A string as it is written between its quotes; with no backslash in it, that is its value. */
  datatype Str = Str(literal: bool, raw: string)

  /** What was read, and the text after it. */
  type Read<+T> = Option<(T, string)>

  /** Characters no string may hold; the tab is allowed. */
  predicate Control(c: char) {
    (c as int < 0x20 && c != '\t') || c as int == 0x7F
  }

  predicate Blank(c: char) {
    c == ' ' || c == '\t' || c == '\n'
  }

  function AfterComment(s: string): (t: string)
    ensures |t| <= |s|
  {
    if s == "" || s[0] == '\n' then s else AfterComment(s[1..])
  }

  /** Past blanks, newlines and comments. */
  function Skip(s: string): (t: string)
    ensures |t| <= |s|
    decreases |s|
  {
    if s == "" then s
    else if Blank(s[0]) then Skip(s[1..])
    else if s[0] == '\r' && |s| > 1 && s[1] == '\n' then Skip(s[2..])
    else if s[0] == '#' then Skip(AfterComment(s[1..]))
    else s
  }

  function HexValue(c: char): Option<nat> {
    if '0' <= c <= '9' then Some(c as int - '0' as int)
    else if 'a' <= c <= 'f' then Some(c as int - 'a' as int + 10)
    else if 'A' <= c <= 'F' then Some(c as int - 'A' as int + 10)
    else None
  }

  function HexNumber(s: string): Option<nat> {
    if s == "" then Some(0)
    else
      match (HexNumber(s[..|s| - 1]), HexValue(s[|s| - 1]))
      case (Some(n), Some(d)) => Some(16 * n + d)
      case _ => None
  }

  /** The length of the escape a string begins with, or 0 if there is no such escape. */
  function EscapeSize(s: string): (k: nat)
    requires s != ""
    ensures k <= |s| && k != 1
  {
    if |s| < 2 then 0
    else if s[1] in "btnfr\"\\" then 2
    else if s[1] == 'u' then UnicodeSize(s, 6)
    else if s[1] == 'U' then UnicodeSize(s, 10)
    else 0
  }

  function UnicodeSize(s: string, size: nat): (k: nat)
    requires size > 2
    ensures k <= |s| && (k == 0 || (k == size && HexNumber(s[2..size]).Some?))
  {
    if size <= |s| && HexNumber(s[2..size]).Some? && Unicode.IsScalar(HexNumber(s[2..size]).value) then size else 0
  }

  /** How much of a string is one character, escapes taken whole; 0 if nothing can follow. */
  function Unit(s: string): (k: nat)
    requires s != ""
    ensures k <= |s|
  {
    if s[0] == '\\' then EscapeSize(s) else 1
  }

  /** Where the quote that ends a basic string is. */
  function BasicEnd(s: string): (r: Option<nat>)
    ensures r.Some? ==> r.value < |s| && s[r.value] == '"'
  {
    if s == "" || Control(s[0]) then None
    else if s[0] == '"' then Some(0)
    else
      var k := Unit(s);
      if k == 0 then None else match BasicEnd(s[k..]) case None => None case Some(n) => Some(k + n)
  }

  function LiteralEnd(s: string): (r: Option<nat>)
    ensures r.Some? ==> r.value < |s| && s[r.value] == '\''
  {
    if s == "" || Control(s[0]) then None
    else if s[0] == '\'' then Some(0)
    else match LiteralEnd(s[1..]) case None => None case Some(n) => Some(1 + n)
  }

  function ReadString(s: string): (r: Read<Str>)
    requires s != ""
    ensures r.Some? ==> |r.value.1| < |s|
  {
    if s[0] == '"' then
      match BasicEnd(s[1..]) case None => None case Some(n) => Some((Str(false, s[1..n + 1]), s[n + 2..]))
    else if s[0] == '\'' then
      match LiteralEnd(s[1..]) case None => None case Some(n) => Some((Str(true, s[1..n + 1]), s[n + 2..]))
    else None
  }

  /** The strings of an array, from behind its opening bracket; a comma may stand behind the last one. */
  function Strings(s: string): (r: Read<seq<Str>>)
    ensures r.Some? ==> |r.value.1| < |s|
    decreases |s|
  {
    var t := Skip(s);
    if t == "" then None
    else if t[0] == ']' then Some(([], t[1..]))
    else match ReadString(t) case None => None case Some((x, rest)) => Continued(x, rest)
  }

  /** What an array is whose first string is `x`, and whose text goes on with `rest` behind it. */
  function Continued(x: Str, rest: string): (r: Read<seq<Str>>)
    ensures r.Some? ==> |r.value.1| < |rest|
    decreases |rest|
  {
    var u := Skip(rest);
    if u == "" then None
    else if u[0] == ']' then Some(([x], u[1..]))
    else if u[0] == ',' then
      match Strings(u[1..]) case None => None case Some((xs, after)) => Some(([x] + xs, after))
    else None
  }

  function Raws(xs: seq<Str>): (rs: seq<string>)
    ensures |rs| == |xs| && forall i :: 0 <= i < |xs| ==> rs[i] == xs[i].raw
  {
    seq(|xs|, i requires 0 <= i < |xs| => xs[i].raw)
  }

  function Basics(rs: seq<string>): (xs: seq<Str>)
    ensures |xs| == |rs| && forall i :: 0 <= i < |rs| ==> xs[i] == Str(false, rs[i])
  {
    seq(|rs|, i requires 0 <= i < |rs| => Str(false, rs[i]))
  }

  /** The text between the quotes of some basic string. */
  predicate RawOk(x: string) {
    BasicEnd(x + "\"") == Some(|x|)
  }

  // ---------------------------------------------------------------------------
  // Where a basic string ends
  // ---------------------------------------------------------------------------

  lemma EscapeLocal(a: string, b: string)
    requires a != "" && EscapeSize(a) > 0 && EscapeSize(a) <= |b| && a[..EscapeSize(a)] == b[..EscapeSize(a)]
    ensures EscapeSize(b) == EscapeSize(a)
  {
    var k := EscapeSize(a);
    assert a[1] == a[..k][1] && b[1] == b[..k][1];
    assert a[2..k] == a[..k][2..] && b[2..k] == b[..k][2..];
  }

  lemma EndStep(s: string)
    requires s != "" && s[0] != '"'
    ensures BasicEnd(s).Some? ==> !Control(s[0]) && Unit(s) > 0
    ensures !Control(s[0]) && Unit(s) > 0 ==>
              BasicEnd(s) == match BasicEnd(s[Unit(s)..]) case None => None case Some(n) => Some(Unit(s) + n)
  {
    hide EscapeSize;
  }

  lemma EndNow(s: string)
    requires s != "" && s[0] == '"'
    ensures BasicEnd(s) == Some(0)
  {
  }

  lemma UnitLocal(a: string, b: string, n: nat)
    requires a != "" && 0 < Unit(a) <= n && n < |a| && n < |b| && a[..n + 1] == b[..n + 1]
    ensures a[0] == b[0] && Unit(b) == Unit(a)
    ensures a[Unit(a)..][..n - Unit(a) + 1] == b[Unit(a)..][..n - Unit(a) + 1]
  {
    hide EscapeSize;
    var k := Unit(a);
    assert a[0] == a[..n + 1][0] && b[0] == b[..n + 1][0];
    assert a[..k] == a[..n + 1][..k] && b[..k] == b[..n + 1][..k];
    assert a[k..][..n - k + 1] == a[..n + 1][k..] && b[k..][..n - k + 1] == b[..n + 1][k..];
    if a[0] == '\\' {
      EscapeLocal(a, b);
    }
  }

  /** The end of a string is decided by what stands up to it. */
  lemma {:induction false} EndLocal(a: string, b: string, n: nat)
    requires BasicEnd(a) == Some(n) && n < |b| && a[..n + 1] == b[..n + 1]
    ensures BasicEnd(b) == Some(n)
    decreases |a|
  {
    hide BasicEnd;
    hide Unit;
    FirstSame(a, b, n);
    if a[0] == '"' {
      EndNow(a);
      EndNow(b);
    } else {
      EndStep(a);
      EndStep(b);
      UnitLocal(a, b, n);
      EndLocal(a[Unit(a)..], b[Unit(a)..], n - Unit(a));
    }
  }

  lemma FirstSame(a: string, b: string, n: nat)
    requires n < |a| && n < |b| && a[..n + 1] == b[..n + 1]
    ensures a != "" && b != "" && a[0] == b[0]
  {
    assert a[0] == a[..n + 1][0] && b[0] == b[..n + 1][0];
  }

  lemma {:induction false} HexDigits(s: string, i: nat)
    requires HexNumber(s).Some? && i < |s|
    ensures HexValue(s[i]).Some?
  {
    if i < |s| - 1 {
      HexDigits(s[..|s| - 1], i);
    }
  }

  /** An escape that reaches a quote ends with it. */
  lemma EscapeAtQuote(e: string, tail: string)
    requires e != "" && e[0] == '\\' && EscapeSize(e + "\"" + tail) > |e|
    ensures |e| == 1 && EscapeSize(e + "\"" + tail) == 2
  {
    var s := e + "\"" + tail;
    var k := EscapeSize(s);
    assert s[|e|] == '"';
    if |e| > 1 {
      HexDigits(s[2..k], |e| - 2);
    }
  }

  /** A string that does not end at the quote behind `e` or before ends where what follows that quote does. */
  lemma {:induction false} Swallowed(e: string, tail: string)
    requires BasicEnd(e + "\"" + tail).Some? && BasicEnd(e + "\"" + tail).value > |e|
    ensures BasicEnd(tail).Some? && BasicEnd(e + "\"" + tail).value == |e| + 1 + BasicEnd(tail).value
    decreases |e|
  {
    hide EscapeSize;
    hide BasicEnd;
    var s := e + "\"" + tail;
    if s[0] == '"' {
      EndNow(s);
    } else {
      EndStep(s);
      var k := Unit(s);
      if k <= |e| {
        assert s[k..] == e[k..] + "\"" + tail;
        Swallowed(e[k..], tail);
      } else {
        EscapeAtQuote(e, tail);
        assert s[2..] == tail;
      }
    }
  }

  /** Without a backslash, a string ends at the first quote. */
  lemma {:induction false} PlainEnds(e: string, tail: string)
    requires forall i :: 0 <= i < |e| ==> e[i] != '\\'
    ensures BasicEnd(e + "\"" + tail).Some? ==> BasicEnd(e + "\"" + tail).value <= |e|
    decreases |e|
  {
    hide EscapeSize;
    hide BasicEnd;
    var s := e + "\"" + tail;
    if s[0] == '"' {
      EndNow(s);
    } else if BasicEnd(s).Some? {
      EndStep(s);
      assert s[1..] == e[1..] + "\"" + tail;
      PlainEnds(e[1..], tail);
    }
  }

  /** Stripping the quotes a string ends in leaves no string. */
  lemma CutQuote(x: string, more: string)
    requires RawOk(x + "\"" + more)
    ensures !RawOk(x)
  {
    if RawOk(x) {
      var s := x + "\"" + more + "\"";
      assert (x + "\"")[..|x| + 1] == s[..|x| + 1];
      EndLocal(x + "\"", s, |x|);
    }
  }

  // ---------------------------------------------------------------------------
  // One string at the head of an array
  // ---------------------------------------------------------------------------

  ghost predicate Blanks(w: string) {
    forall i :: 0 <= i < |w| ==> Blank(w[i])
  }

  lemma {:induction false} SkipBlanks(w: string, s: string)
    requires Blanks(w)
    ensures Skip(w + s) == Skip(s)
  {
    if w == "" {
      assert w + s == s;
    } else {
      assert (w + s)[1..] == w[1..] + s;
      SkipBlanks(w[1..], s);
    }
  }

  predicate Separator(tail: string) {
    tail != "" && (tail[0] == ',' || tail[0] == ']')
  }

  /** Text without a comma, a closing bracket or a comment, then a quote: no separator comes first. */
  lemma {:induction false} NoSeparator(x: string, tail: string)
    requires forall i :: 0 <= i < |x| ==> x[i] != ',' && x[i] != ']' && x[i] != '#'
    ensures !Separator(Skip(x + "\"" + tail))
    decreases |x|
  {
    var s := x + "\"" + tail;
    if x != "" && Blank(x[0]) {
      assert s[1..] == x[1..] + "\"" + tail;
      NoSeparator(x[1..], tail);
    } else if |x| > 1 && x[0] == '\r' && x[1] == '\n' {
      assert s[2..] == x[2..] + "\"" + tail;
      NoSeparator(x[2..], tail);
    } else if x != "" {
      assert s[0] == x[0];
      assert |x| == 1 ==> s[1] == '"';
      assert |x| > 1 ==> s[1] == x[1];
    }
  }

  lemma ReadBasic(e: string, tail: string)
    requires RawOk(e)
    ensures ReadString("\"" + e + "\"" + tail) == Some((Str(false, e), tail))
  {
    hide BasicEnd;
    var q := "\"" + e + "\"" + tail;
    var s := e + "\"" + tail;
    assert q[1..] == s && (e + "\"")[..|e| + 1] == s[..|e| + 1];
    EndLocal(e + "\"", s, |e|);
    assert q[1..|e| + 1] == e && q[|e| + 2..] == tail;
  }

  /** A basic string before a separator is read as it stands. */
  lemma FirstIs(w: string, e: string, tail: string)
    requires Blanks(w) && RawOk(e)
    ensures Strings(w + "\"" + e + "\"" + tail) == Continued(Str(false, e), tail)
  {
    hide Continued;
    hide Skip;
    hide ReadString;
    hide RawOk;
    var q := "\"" + e + "\"" + tail;
    SkipBlanks(w, q);
    assert w + q == w + "\"" + e + "\"" + tail;
    QuoteStays(q);
    ReadBasic(e, tail);
  }

  lemma QuoteStays(q: string)
    requires q != "" && q[0] == '"'
    ensures Skip(q) == q
  {
  }

  lemma BehindQuote(e: string, tail: string, n: nat)
    requires |e| < n <= |e| + |tail|
    ensures (e + "\"" + tail)[n + 1..] == tail[n - |e|..]
  {
  }

  /**
   Text in quotes before a separator is only read if it is the text of a basic string;
   otherwise the string ends early, or its last quote is escaped.
   */
  lemma FirstOnly(w: string, e: string, tail: string)
    requires Blanks(w) && Separator(tail) && Strings(w + "\"" + e + "\"" + tail).Some?
    requires forall i :: 0 <= i < |e| ==> e[i] != ',' && e[i] != ']' && e[i] != '#'
    requires || (forall i :: 0 <= i < |e| ==> e[i] != '\\')
             || BasicEnd(tail).None?
             || !Separator(Skip(tail[BasicEnd(tail).value + 1..]))
    ensures RawOk(e)
  {
    hide BasicEnd;
    hide Skip;
    var q := "\"" + e + "\"" + tail;
    SkipBlanks(w, q);
    assert w + q == w + "\"" + e + "\"" + tail;
    QuoteStays(q);
    var s := e + "\"" + tail;
    assert q[1..] == s;
    var n := BasicEnd(s).value;
    assert q[n + 2..] == s[n + 1..];
    assert Separator(Skip(s[n + 1..]));
    if n < |e| {
      var x := e[n + 1..];
      assert s[n + 1..] == x + "\"" + tail;
      NoSeparator(x, tail);
    } else if n > |e| {
      BehindQuote(e, tail, n);
      if forall i :: 0 <= i < |e| ==> e[i] != '\\' {
        PlainEnds(e, tail);
      }
      Swallowed(e, tail);
    } else {
      assert s[..n + 1] == (e + "\"")[..n + 1];
      EndLocal(s, e + "\"", n);
    }
  }
}
