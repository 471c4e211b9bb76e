/**
 What the workspace editor does to the array as TOML reads it: exactly which arrays
 keep their strings, in their order, with the new one in its place.
 */
module WorkspaceToml {
  import opened Bytes
  import opened Toml
  import opened Workspace

  // ---------------------------------------------------------------------------
  // The array of a manifest
  // ---------------------------------------------------------------------------

  function SkipSpace(s: string): (t: string)
    ensures |t| <= |s|
  {
    if s != "" && (s[0] == ' ' || s[0] == '\t') then SkipSpace(s[1..]) else s
  }

  /** What stands behind the equals sign of the first line that begins with `members =`. */
  function ArrayValue(src: string): Option<string> {
    match Anchor(src)
    case None => None
    case Some(start) =>
      match Equals(src[start..][..LineSize(src[start..])])
      case None => None
      case Some(e) => if start + e < |src| then Some(SkipSpace(src[start + e + 1..])) else None
  }

  /** The strings of the array, as TOML reads them. */
  function Array(src: string): Option<seq<Str>> {
    match ArrayValue(src)
    case None => None
    case Some(v) =>
      if v == "" || v[0] != '[' then None
      else match Strings(v[1..]) case None => None case Some((xs, _)) => Some(xs)
  }

  /** A string the editor can take apart and put together again. */
  predicate Plain(x: Str) {
    !x.literal && x.raw != "" && Without(x.raw, ',') && Without(x.raw, ']') && x.raw[|x.raw| - 1] != '"'
  }

  predicate AllPlain(xs: seq<Str>) {
    forall i :: 0 <= i < |xs| ==> Plain(xs[i])
  }

  /** A member name as the generator makes it. */
  predicate Sound(member: string) {
    && GoodMember(member) && Without(member, '"') && Without(member, '\\')
    && forall i :: 0 <= i < |member| ==> !Control(member[i])
  }

  /** After the edit TOML reads the old strings, in their order, with the new one in its place. */
  predicate Right(src: string, member: string) {
    && Insert(src, member).Edited? && Array(src).Some?
    && Array(Insert(src, member).text).Some?
    && Raws(Array(Insert(src, member).text).value) == Grown(Raws(Array(src).value), member)
  }

  // ---------------------------------------------------------------------------
  // What the editor makes of strings
  // ---------------------------------------------------------------------------

  function Written(x: Str): string {
    if x.literal then "'" + x.raw + "'" else Quote(x.raw)
  }

  function Pieces(xs: seq<Str>): seq<string> {
    if xs == [] then []
    else
      var e := Entry(Written(xs[0]));
      (if e == "" then [] else [e]) + Pieces(xs[1..])
  }

  /** No comment before the first closing bracket. */
  ghost predicate Uncommented(s: string) {
    Without(s[..IndexOf(s, ']')], '#')
  }

  lemma {:induction false} IndexBehind(a: string, b: string, c: char)
    requires Without(a, c)
    ensures IndexOf(a + b, c) == |a| + IndexOf(b, c)
  {
    if a == "" {
      assert a + b == b;
    } else {
      assert (a + b)[1..] == a[1..] + b;
      IndexBehind(a[1..], b, c);
    }
  }

  lemma UncommentedBehind(a: string, b: string)
    requires Without(a, ']') && Uncommented(a + b)
    ensures Without(a, '#') && Uncommented(b)
  {
    IndexBehind(a, b, ']');
    var n := IndexOf(b, ']');
    assert (a + b)[..|a| + n] == a + b[..n];
    assert forall i :: 0 <= i < |a| ==> (a + b[..n])[i] == a[i];
    assert forall i :: 0 <= i < n ==> (a + b[..n])[|a| + i] == b[i];
  }

  /** Blank characters can be cut off the front. */
  lemma CutBlanks(s: string, k: nat)
    requires k <= |s| && Uncommented(s)
    requires forall i :: 0 <= i < k ==> Blank(s[i]) || s[i] == '\r'
    ensures s[..k] + s[k..] == s && Uncommented(s[k..]) && AllWhite(s[..k])
    ensures Without(s[..k], ',') && Without(s[..k], ']') && Without(s[..k], '#')
  {
    hide Uncommented;
    SplitAt(s, k);
    UncommentedBehind(s[..k], s[k..]);
  }

  lemma NoComment(s: string)
    requires s != "" && Uncommented(s)
    ensures s[0] != '#'
  {
  }

  lemma SkipSteps(s: string)
    requires s != ""
    ensures Blank(s[0]) ==> Skip(s) == Skip(s[1..])
    ensures !Blank(s[0]) && |s| > 1 && s[0] == '\r' && s[1] == '\n' ==> Skip(s) == Skip(s[2..])
    ensures !Blank(s[0]) && !(|s| > 1 && s[0] == '\r' && s[1] == '\n') && s[0] != '#' ==> Skip(s) == s
  {
  }

  lemma WhiteJoin(a: string, b: string)
    requires AllWhite(a) && AllWhite(b)
    ensures AllWhite(a + b)
  {
  }

  /** Without a comment, only white space is skipped. */
  lemma {:induction false} SkipIs(s: string) returns (w: string)
    requires Uncommented(s)
    ensures s == w + Skip(s) && AllWhite(w)
    ensures Without(w, ',') && Without(w, ']') && Without(w, '#')
    decreases |s|
  {
    hide Uncommented;
    hide Without;
    hide AllWhite;
    hide Skip;
    w := "";
    if s == "" {
      NothingSkipped();
      return;
    }
    SkipSteps(s);
    NoComment(s);
    var k := if Blank(s[0]) then 1 else if |s| > 1 && s[0] == '\r' && s[1] == '\n' then 2 else 0;
    if k == 0 {
      NothingSkipped();
      assert "" + s == s;
    } else {
      assert k == 2 ==> Blank(s[1]);
      CutBlanks(s, k);
      var v := SkipIs(s[k..]);
      w := s[..k] + v;
      WhiteJoin(s[..k], v);
      WithoutJoin(s[..k], v, ',');
      WithoutJoin(s[..k], v, ']');
      WithoutJoin(s[..k], v, '#');
      assert s == w + Skip(s);
    }
  }

  lemma NothingSkipped()
    ensures Skip("") == "" && AllWhite("") && Without("", ',') && Without("", ']') && Without("", '#')
  {
  }

  lemma SplitAt(s: string, n: nat)
    requires n <= |s|
    ensures s[..n] + s[n..] == s
  {
  }

  lemma Rejoined(s: string, n: nat)
    requires n + 1 < |s|
    ensures s == [s[0]] + s[1..n + 1] + [s[n + 1]] + s[n + 2..]
    ensures s[1..][..n + 1] == s[1..n + 1] + [s[n + 1]]
  {
  }

  /** What was read is the string as it is written. */
  lemma ReadIs(s: string)
    requires s != "" && ReadString(s).Some?
    ensures var (x, rest) := ReadString(s).value;
            s == Written(x) + rest && (!x.literal ==> RawOk(x.raw))
  {
    hide BasicEnd;
    hide LiteralEnd;
    if s[0] == '"' {
      var n := BasicEnd(s[1..]).value;
      Rejoined(s, n);
      BasicIs(s[1..n + 1], s[1..]);
    } else {
      Rejoined(s, LiteralEnd(s[1..]).value);
    }
  }

  lemma BasicIs(raw: string, t: string)
    requires BasicEnd(t) == Some(|raw|) && |raw| < |t| && t[..|raw| + 1] == raw + "\""
    ensures RawOk(raw)
  {
    hide BasicEnd;
    EndLocal(t, raw + "\"", |raw|);
  }

  lemma EntryBetween(w: string, q: string, v: string)
    requires AllWhite(w) && AllWhite(v) && q != "" && !White(q[0]) && !White(q[|q| - 1])
    ensures Entry(w + q + v) == Entry(q)
  {
    assert w + q + v == w + (q + v);
    LeadWhite(w, q + v);
    assert (w + (q + v))[|w|..] == q + v;
    TrimEndWhite(q, v);
    hide UnquoteStart;
    hide UnquoteEnd;
  }

  lemma WrittenEnds(x: Str, c: char)
    ensures var q := Written(x); q != "" && !White(q[0]) && !White(q[|q| - 1])
    ensures Without(x.raw, c) && c != '"' && c != '\'' ==> Without(Written(x), c)
  {
  }

  predicate Whole(xs: seq<Str>) {
    forall i :: 0 <= i < |xs| ==> Without(xs[i].raw, ',') && Without(xs[i].raw, ']')
  }

  lemma WholeCons(x: Str, xs: seq<Str>)
    requires Whole([x] + xs)
    ensures Without(x.raw, ',') && Without(x.raw, ']') && Whole(xs)
  {
    assert ([x] + xs)[0] == x;
    assert forall i :: 0 <= i < |xs| ==> ([x] + xs)[i + 1] == xs[i];
  }

  lemma PiecesCons(x: Str, xs: seq<Str>)
    ensures Pieces([x] + xs) == (if Entry(Written(x)) == "" then [] else [Entry(Written(x))]) + Pieces(xs)
  {
    hide Entry;
    hide Written;
    assert ([x] + xs)[1..] == xs;
  }

  lemma WithoutJoin(a: string, b: string, c: char)
    requires Without(a, c) && Without(b, c)
    ensures Without(a + b, c)
  {
  }

  lemma StringsStep(s: string)
    requires Strings(s).Some?
    ensures var t := Skip(s);
            && t != ""
            && (t[0] == ']' ==> Strings(s) == Some(([], t[1..])))
            && (t[0] == ']' || ReadString(t).Some?)
            && (t[0] != ']' ==> Strings(s) == Continued(ReadString(t).value.0, ReadString(t).value.1))
  {
    hide Skip;
    hide ReadString;
    hide Continued;
  }

  lemma ContinuedStep(x: Str, rest: string)
    requires Continued(x, rest).Some?
    ensures var u := Skip(rest);
            && u != ""
            && (u[0] == ']' ==> Continued(x, rest) == Some(([x], u[1..])))
            && (u[0] == ']' || (u[0] == ',' && Strings(u[1..]).Some?))
            && (u[0] == ',' ==>
                  Continued(x, rest) == Some(([x] + Strings(u[1..]).value.0, Strings(u[1..]).value.1)))
  {
    hide Skip;
    hide Strings;
  }

  /** Where no string holds a comma or a bracket, the pieces between the commas are the strings. */
  lemma {:induction false} BodyEntries(s: string)
    requires Uncommented(s) && Strings(s).Some? && Whole(Strings(s).value.0)
    ensures IndexOf(s, ']') < |s| && Entries(s[..IndexOf(s, ']')]) == Pieces(Strings(s).value.0)
    decreases |s|
  {
    hide Entries;
    hide Entry;
    hide Strings;
    hide Continued;
    hide Skip;
    hide ReadString;
    hide Written;
    hide Whole;
    hide Uncommented;
    hide Pieces;
    hide Without;
    hide AllWhite;
    StringsStep(s);
    var w := SkipIs(s);
    var t := Skip(s);
    if t[0] == ']' {
      IndexBehind(w, t, ']');
      NoPieces();
      NothingBack(w);
      assert s[..|w|] == w;
    } else {
      var (x, rest) := ReadString(t).value;
      ReadIs(t);
      ContinuedStep(x, rest);
      var more := if Skip(rest)[0] == ']' then [] else Strings(Skip(rest)[1..]).value.0;
      assert [x] + [] == [x];
      WholeCons(x, more);
      WrittenEnds(x, ',');
      WrittenEnds(x, ']');
      var q := Written(x);
      WithoutJoin(w, q, ']');
      assert s == (w + q) + rest;
      UncommentedBehind(w + q, rest);
      var v := SkipIs(rest);
      BodyTail(s, w, x, v, Skip(rest), more);
    }
  }

  lemma NoPieces()
    ensures Pieces([]) == []
  {
  }

  lemma {:induction false} BodyTail(s: string, w: string, x: Str, v: string, u: string, more: seq<Str>)
    requires s == w + Written(x) + (v + u) && Uncommented(v + u) && u != ""
    requires AllWhite(w) && AllWhite(v) && Without(w, ',') && Without(w, ']') && Without(v, ',') && Without(v, ']')
    requires Without(Written(x), ',') && Without(Written(x), ']')
    requires if u[0] == ']' then more == []
             else u[0] == ',' && Strings(u[1..]).Some? && more == Strings(u[1..]).value.0 && Whole(more)
    ensures IndexOf(s, ']') < |s| && Entries(s[..IndexOf(s, ']')]) == Pieces([x] + more)
    decreases |u|
  {
    hide Entries;
    hide Entry;
    hide Strings;
    hide Written;
    hide Whole;
    hide Uncommented;
    hide Pieces;
    hide Without;
    hide AllWhite;
    hide IndexOf;
    var q := Written(x);
    var head := w + q + v;
    WrittenEnds(x, ',');
    EntryBetween(w, q, v);
    WithoutJoin(w, q, ']');
    WithoutJoin(w + q, v, ']');
    WithoutJoin(w, q, ',');
    WithoutJoin(w + q, v, ',');
    PiecesCons(x, more);
    assert s == head + u;
    IndexBehind(head, u, ']');
    UncommentedBehind(v, u);
    if u[0] == ']' {
      FirstThere(u, ']');
      assert s[..|head|] == head;
      EntriesLast(head);
      NoPieces();
    } else {
      SplitAt(u, 1);
      CommaWithout(u[..1]);
      UncommentedBehind(u[..1], u[1..]);
      IndexBehind(u[..1], u[1..], ']');
      BodyEntries(u[1..]);
      var n := IndexOf(u[1..], ']');
      assert s[..|head| + 1 + n] == head + "," + u[1..][..n];
      EntriesMore(head, u[1..][..n]);
    }
  }

  lemma FirstThere(u: string, c: char)
    requires u != "" && u[0] == c
    ensures IndexOf(u, c) == 0
  {
  }

  lemma CommaWithout(s: string)
    requires s == ","
    ensures Without(s, ']')
  {
  }

  // ---------------------------------------------------------------------------
  // What TOML makes of the editor's array
  // ---------------------------------------------------------------------------

  ghost predicate AllRawOk(items: seq<string>) {
    forall i :: 0 <= i < |items| ==> RawOk(items[i])
  }

  lemma ContinuedComma(x: Str, text: string)
    ensures Continued(x, "," + text) ==
            match Strings(text) case None => None case Some((xs, after)) => Some(([x] + xs, after))
  {
    hide Strings;
    var rest := "," + text;
    assert Skip(rest) == rest && rest[1..] == text;
  }

  lemma ContinuedEnd(x: Str, text: string)
    ensures Continued(x, "]" + text) == Some(([x], text))
  {
    var rest := "]" + text;
    assert Skip(rest) == rest && rest[1..] == text;
  }

  lemma NoStrings(w: string, text: string)
    requires Blanks(w)
    ensures Strings(w + "]" + text) == Some(([], text))
  {
    var rest := "]" + text;
    SkipBlanks(w, rest);
    assert w + rest == w + "]" + text;
    assert Skip(rest) == rest && rest[1..] == text;
  }

  lemma BasicsCons(items: seq<string>)
    requires items != []
    ensures Basics(items) == [Str(false, items[0])] + Basics(items[1..])
  {
  }

  lemma Regroup(w: string, x: string, gap: string, y: string, text: string)
    ensures w + (x + ("," + gap) + y) + "]" + text == w + x + ("," + (gap + y + "]" + text))
  {
    assert (x + ("," + gap) + y) + "]" == x + ("," + (gap + y + "]"));
    assert gap + y + "]" + text == gap + y + ("]" + text);
  }

  lemma Quoted(w: string, x: string, tail: string)
    ensures w + Quote(x) + tail == w + "\"" + x + "\"" + tail
  {
    assert w + Quote(x) == w + "\"" + x + "\"";
  }

  lemma OneLineCons(items: seq<string>)
    requires items != []
    ensures |items| == 1 ==> OneLine(items) == Quote(items[0])
    ensures |items| > 1 ==> OneLine(items) == Quote(items[0]) + ("," + " ") + OneLine(items[1..])
  {
    hide Quote;
    assert ", " == "," + " ";
  }

  /** The array as it is read when its first string is read as it stands. */
  lemma OneLineStep(items: seq<string>, w: string, text: string)
    requires items != []
    ensures var tail := if |items| == 1 then "]" + text else "," + (" " + OneLine(items[1..]) + "]" + text);
            w + OneLine(items) + "]" + text == w + "\"" + items[0] + "\"" + tail
  {
    hide Quote;
    hide OneLine;
    OneLineCons(items);
    if |items| > 1 {
      Regroup(w, Quote(items[0]), " ", OneLine(items[1..]), text);
      Quoted(w, items[0], "," + (" " + OneLine(items[1..]) + "]" + text));
    } else {
      Quoted(w, items[0], "]" + text);
      assert w + Quote(items[0]) + "]" + text == w + Quote(items[0]) + ("]" + text);
    }
  }

  lemma {:induction false} OneLineReads(items: seq<string>, w: string, text: string)
    requires AllRawOk(items) && Blanks(w)
    ensures Strings(w + OneLine(items) + "]" + text) == Some((Basics(items), text))
    decreases |items|
  {
    hide Strings;
    hide Continued;
    hide RawOk;
    hide OneLine;
    NothingRendered();
    if items == [] {
      assert w + "" + "]" + text == w + "]" + text;
      NoStrings(w, text);
    } else {
      OneLineStep(items, w, text);
      BasicsCons(items);
      if |items| == 1 {
        assert Basics(items) == [Str(false, items[0])];
        FirstIs(w, items[0], "]" + text);
        ContinuedEnd(Str(false, items[0]), text);
      } else {
        var rest := " " + OneLine(items[1..]) + "]" + text;
        FirstIs(w, items[0], "," + rest);
        ContinuedComma(Str(false, items[0]), rest);
        OneLineReads(items[1..], " ", text);
      }
    }
  }

  lemma NothingRendered()
    ensures OneLine([]) == "" && ManyLines([]) == ""
  {
  }

  lemma ManyLinesIs(items: seq<string>, w: string, text: string)
    requires items != [] && Blanks(w)
    ensures Blanks(w + "    ")
    ensures w + ManyLines(items) + "]" + text ==
            w + "    " + "\"" + items[0] + "\"" + ("," + ("\n" + ManyLines(items[1..]) + "]" + text))
  {
    hide Quote;
    hide ManyLines;
    ManyLinesStep(items, w);
    var rest := "\n" + ManyLines(items[1..]);
    Regroup(w + "    ", Quote(items[0]), "", rest, text);
    assert "," + "" == ",";
    assert "" + rest == rest;
    assert (w + "    " + Quote(items[0])) + "," + rest == w + "    " + (Quote(items[0]) + "," + rest);
    Quoted(w + "    ", items[0], "," + (rest + "]" + text));
  }

  lemma {:induction false} ManyLinesReads(items: seq<string>, w: string, text: string)
    requires AllRawOk(items) && Blanks(w)
    ensures Strings(w + ManyLines(items) + "]" + text) == Some((Basics(items), text))
    decreases |items|
  {
    hide Strings;
    hide Continued;
    hide RawOk;
    hide ManyLines;
    NothingRendered();
    if items == [] {
      assert w + "" + "]" + text == w + "]" + text;
      NoStrings(w, text);
    } else {
      ManyLinesIs(items, w, text);
      BasicsCons(items);
      var rest := "\n" + ManyLines(items[1..]) + "]" + text;
      FirstIs(w + "    ", items[0], "," + rest);
      ContinuedComma(Str(false, items[0]), rest);
      ManyLinesReads(items[1..], "\n", text);
    }
  }

  /** What the editor writes is read as it was meant if every entry can stand between quotes. */
  lemma RenderedReads(items: seq<string>, many: bool, text: string)
    requires AllRawOk(items)
    ensures Strings(Rendered(items, many) + "]" + text) == Some((Basics(items), text))
  {
    hide Strings;
    hide RawOk;
    if many {
      ManyLinesReads(items, "\n", text);
    } else {
      OneLineReads(items, "", text);
      assert "" + OneLine(items) == OneLine(items);
    }
  }

  /** An entry: no comma, no bracket, no comment. */
  predicate Clean(x: string) {
    forall i :: 0 <= i < |x| ==> x[i] != ',' && x[i] != ']' && x[i] != '#'
  }

  predicate AllClean(items: seq<string>) {
    forall i :: 0 <= i < |items| ==> Clean(items[i])
  }

  /** A string that runs over the comma and the space ends where the next one should begin. */
  lemma OverComma(next: string, tail: string)
    requires Clean(next)
    ensures var t := "," + (" " + ("\"" + next + "\"" + tail));
            BasicEnd(t) == Some(2) && !Separator(Skip(t[3..]))
  {
    var t := "," + (" " + ("\"" + next + "\"" + tail));
    assert t[1..][1..] == t[2..] && t[2..][0] == '"' && t[1..][0] == ' ';
    assert BasicEnd(t[2..]) == Some(0);
    assert BasicEnd(t[1..]) == Some(1);
    assert t[3..] == next + "\"" + tail;
    NoSeparator(next, tail);
  }

  lemma OverLine(text: string)
    ensures BasicEnd("," + ("\n" + text)).None?
  {
    var t := "," + ("\n" + text);
    assert t[1..] == "\n" + text;
    assert BasicEnd(t[1..]).None?;
  }

  lemma {:induction false} OneLineOnly(items: seq<string>, w: string, text: string)
    requires AllClean(items) && Blanks(w) && (items != [] ==> Without(items[|items| - 1], '\\'))
    requires Strings(w + OneLine(items) + "]" + text).Some?
    ensures AllRawOk(items)
    decreases |items|
  {
    hide Strings;
    hide Continued;
    hide RawOk;
    hide OneLine;
    hide BasicEnd;
    hide Skip;
    if items != [] {
      OneLineStep(items, w, text);
      if |items| == 1 {
        FirstOnly(w, items[0], "]" + text);
      } else {
        var rest := " " + OneLine(items[1..]) + "]" + text;
        var tail := if |items| == 2 then "]" + text else "," + (" " + OneLine(items[2..]) + "]" + text);
        OneLineStep(items[1..], " ", text);
        assert items[1..][1..] == items[2..];
        assert rest == " " + ("\"" + items[1] + "\"" + tail);
        OverComma(items[1], tail);
        FirstOnly(w, items[0], "," + rest);
        FirstIs(w, items[0], "," + rest);
        ContinuedComma(Str(false, items[0]), rest);
        OneLineOnly(items[1..], " ", text);
        Consed(items);
      }
    }
  }

  lemma Consed(items: seq<string>)
    requires items != [] && RawOk(items[0]) && AllRawOk(items[1..])
    ensures AllRawOk(items)
  {
    hide RawOk;
    forall i | 0 <= i < |items| ensures RawOk(items[i]) {
      assert i > 0 ==> items[1..][i - 1] == items[i];
    }
  }

  lemma {:induction false} ManyLinesOnly(items: seq<string>, w: string, text: string)
    requires AllClean(items) && Blanks(w)
    requires Strings(w + ManyLines(items) + "]" + text).Some?
    ensures AllRawOk(items)
    decreases |items|
  {
    hide Strings;
    hide Continued;
    hide RawOk;
    hide ManyLines;
    hide BasicEnd;
    if items != [] {
      ManyLinesIs(items, w, text);
      var more := ManyLines(items[1..]) + "]" + text;
      var rest := "\n" + ManyLines(items[1..]) + "]" + text;
      assert rest == "\n" + more;
      OverLine(more);
      FirstOnly(w + "    ", items[0], "," + rest);
      FirstIs(w + "    ", items[0], "," + rest);
      ContinuedComma(Str(false, items[0]), rest);
      ManyLinesOnly(items[1..], "\n", text);
      Consed(items);
    }
  }

  /** If it is read at all, it is read as it was meant. */
  lemma RenderedOnly(items: seq<string>, many: bool, text: string)
    requires AllClean(items) && (items != [] ==> Without(items[|items| - 1], '\\'))
    requires Strings(Rendered(items, many) + "]" + text).Some?
    ensures AllRawOk(items) && Strings(Rendered(items, many) + "]" + text) == Some((Basics(items), text))
  {
    hide Strings;
    hide RawOk;
    if many {
      ManyLinesOnly(items, "\n", text);
    } else {
      assert "" + OneLine(items) == OneLine(items);
      OneLineOnly(items, "", text);
    }
    RenderedReads(items, many, text);
  }

  // ---------------------------------------------------------------------------
  // Where the array stands
  // ---------------------------------------------------------------------------

  ghost predicate Spaces(w: string) {
    forall i :: 0 <= i < |w| ==> w[i] == ' ' || w[i] == '\t'
  }

  lemma {:induction false} SpacesOf(s: string)
    ensures Spaces(s[..|s| - |SkipSpace(s)|]) && s[|s| - |SkipSpace(s)|..] == SkipSpace(s)
  {
    if s != "" && (s[0] == ' ' || s[0] == '\t') {
      SpacesOf(s[1..]);
      var n := |s| - |SkipSpace(s)|;
      assert s[1..][..n - 1] == s[..n][1..] && s[1..][n - 1..] == s[n..];
      forall i | 0 <= i < n ensures s[..n][i] == ' ' || s[..n][i] == '\t' {
        assert i > 0 ==> s[..n][1..][i - 1] == s[..n][i];
      }
    }
  }

  lemma {:induction false} SpacesSkipped(w: string, t: string)
    requires Spaces(w) && t != "" && t[0] != ' ' && t[0] != '\t'
    ensures SkipSpace(w + t) == t
  {
    if w == "" {
      assert w + t == t;
    } else {
      assert (w + t)[1..] == w[1..] + t;
      SpacesSkipped(w[1..], t);
    }
  }

  /** The editor's opening bracket is that of the value; `e` is where the equals sign is. */
  lemma ValueOpens(src: string) returns (start: nat, e: nat)
    requires Array(src).Some? && Brackets(src).Some?
    ensures Anchor(src) == Some(start) && EqualsAt(src, start, e) && e < Brackets(src).value.open
    ensures Spaces(src[e + 1..Brackets(src).value.open])
    ensures ArrayValue(src) == Some(src[Brackets(src).value.open..])
    ensures src[Brackets(src).value.open] == '['
  {
    hide Equals;
    hide LineSize;
    hide Anchor;
    hide Strings;
    hide Brackets;
    hide EqualsAt;
    hide SkipSpace;
    hide Find;
    start, e := BracketsHave(src);
    EqualsHere(src, start, e);
    var rest := src[e + 1..];
    SpacesOf(rest);
    var v := SkipSpace(rest);
    var n := |rest| - |v|;
    var p := e + 1 + n;
    assert src[p..] == v;
    assert src[e + 1..p] == rest[..n];
    OpenFound(src, start, e, p);
  }

  lemma EqualsHere(src: string, start: nat, e: nat)
    requires EqualsAt(src, start, e)
    ensures Equals(src[start..][..LineSize(src[start..])]) == Some(e - start)
    ensures forall k :: start <= k <= e ==> src[k] != '['
  {
    hide Equals;
    var line := src[start..][..LineSize(src[start..])];
    EqualsPosition(line, e - start);
    forall k | start <= k <= e ensures src[k] != '[' {
      assert line[k - start] == src[k];
    }
  }

  lemma OpenFound(src: string, start: nat, e: nat, p: nat)
    requires start <= e < p < |src| && src[p] == '[' && Spaces(src[e + 1..p])
    requires forall k :: start <= k <= e ==> src[k] != '['
    ensures Find(src, start, '[') == p
  {
    var t := src[start..];
    forall k | 0 <= k < p - start ensures t[k] != '[' {
      if start + k > e {
        assert src[e + 1..p][start + k - e - 1] == t[k];
      }
    }
    IndexIs(t, '[', p - start);
  }

  /** After an edit the value is what was written. */
  lemma ValueKept(src: string, inner: string)
    requires Array(src).Some? && Brackets(src).Some?
    ensures var span := Brackets(src).value;
            ArrayValue(Replaced(src, span, inner)) == Some("[" + inner + "]" + src[span.close + 1..])
  {
    hide Equals;
    hide LineSize;
    hide Anchor;
    hide Array;
    hide ArrayValue;
    hide Brackets;
    hide EqualsAt;
    hide Replaced;
    hide SameUpTo;
    var span := Brackets(src).value;
    var out := Replaced(src, span, inner);
    var start, e := ValueOpens(src);
    ReplacedFront(src, span, inner);
    SameLess(src, out, e + 1, span.open + 1);
    AnchorKept(src, out, e);
    EqualsKept(src, out, start, e);
    ReplacedTail(src, span, inner, e);
    ValueIs(out, start, e, src[e + 1..span.open], "[" + inner + "]" + src[span.close + 1..]);
  }

  lemma EqualsKept(a: string, b: string, start: nat, e: nat)
    requires EqualsAt(a, start, e) && SameUpTo(a, b, e + 1)
    ensures e < |b| && Equals(b[start..][..LineSize(b[start..])]) == Some(e - start)
  {
    hide Equals;
    hide LineSize;
    EqualsHere(a, start, e);
    assert SameUpTo(a[start..], b[start..], e - start + 1);
    SameFirstLine(a[start..], b[start..], e - start);
  }

  lemma ReplacedTail(src: string, span: Span, inner: string, e: nat)
    requires span.open < span.close < |src| && e < span.open
    ensures e < |Replaced(src, span, inner)|
    ensures Replaced(src, span, inner)[e + 1..] ==
            src[e + 1..span.open] + ("[" + inner + "]" + src[span.close + 1..])
  {
    var tail := "[" + inner + "]" + src[span.close + 1..];
    assert Replaced(src, span, inner) == src[..span.open] + tail;
    assert (src[..span.open] + tail)[e + 1..] == src[e + 1..span.open] + tail;
  }

  lemma ValueIs(out: string, start: nat, e: nat, w: string, tail: string)
    requires Anchor(out) == Some(start) && start <= e < |out|
    requires Equals(out[start..][..LineSize(out[start..])]) == Some(e - start)
    requires out[e + 1..] == w + tail && Spaces(w) && tail != "" && tail[0] == '['
    ensures ArrayValue(out) == Some(tail)
  {
    hide Equals;
    hide LineSize;
    hide Anchor;
    SpacesSkipped(w, tail);
  }

  lemma BodyIs(src: string)
    requires Brackets(src).Some?
    ensures var span := Brackets(src).value;
            var s := src[span.open + 1..];
            Body(src, span) == s[..IndexOf(s, ']')]
  {
    hide Anchor;
    var span := Brackets(src).value;
    var s := src[span.open..];
    assert s[0] == '[' && s[1..] == src[span.open + 1..];
  }

  // ---------------------------------------------------------------------------
  // When the strings are kept
  // ---------------------------------------------------------------------------

  lemma SoundIsRaw(x: string)
    requires Without(x, '"') && Without(x, '\\') && forall i :: 0 <= i < |x| ==> !Control(x[i])
    ensures RawOk(x)
  {
    if x != "" {
      SoundIsRaw(x[1..]);
      assert (x + "\"")[1..] == x[1..] + "\"";
    }
  }

  lemma UnquoteBasic(raw: string)
    requires RawOk(raw)
    ensures UnquoteEnd(UnquoteStart(Quote(raw))) == UnquoteEnd(raw)
    ensures raw != "" ==> raw[0] != '"' && UnquoteEnd(raw) != ""
  {
    if raw == "" {
      assert Quote(raw)[1..] == "\"";
      assert "\""[1..] == "";
    } else {
      RawStarts(raw);
      var t := raw + "\"";
      assert Quote(raw)[1..] == t && t[..|raw|] == raw;
      assert UnquoteStart(t) == t;
      UnquoteKeeps(raw);
    }
  }

  lemma RawStarts(raw: string)
    requires RawOk(raw) && raw != ""
    ensures raw[0] != '"'
  {
    assert (raw + "\"")[0] == raw[0];
  }

  lemma {:induction false} UnquoteKeeps(s: string)
    requires s != "" && s[0] != '"'
    ensures UnquoteEnd(s) != ""
  {
    if s[|s| - 1] == '"' {
      UnquoteKeeps(s[..|s| - 1]);
    }
  }

  lemma EntryIs(x: Str)
    requires !x.literal ==> RawOk(x.raw)
    ensures Entry(Written(x)) == if x.literal then Written(x) else UnquoteEnd(x.raw)
    ensures x.literal ==> |Written(x)| == |x.raw| + 2
    ensures !x.literal && x.raw != "" ==> UnquoteEnd(x.raw) != ""
  {
    var q := Written(x);
    WrittenEnds(x, ',');
    LeadWhite("", q);
    assert "" + q == q;
    assert TrimEnd(TrimStart(q)) == q;
    if x.literal {
      assert q[0] == '\'' && q[|q| - 1] == '\'';
    } else {
      UnquoteBasic(x.raw);
    }
  }

  ghost predicate Texts(xs: seq<Str>) {
    forall i :: 0 <= i < |xs| ==> (!xs[i].literal ==> RawOk(xs[i].raw))
  }

  lemma {:induction false} ReadTexts(s: string)
    requires Strings(s).Some?
    ensures Texts(Strings(s).value.0)
    decreases |s|
  {
    hide Strings;
    hide Continued;
    hide Skip;
    hide ReadString;
    hide RawOk;
    StringsStep(s);
    if Skip(s)[0] != ']' {
      ReadIs(Skip(s));
      var (x, rest) := ReadString(Skip(s)).value;
      ContinuedStep(x, rest);
      if Skip(rest)[0] == ',' {
        ReadTexts(Skip(rest)[1..]);
      }
    }
  }

  function Total(items: seq<string>): nat {
    if items == [] then 0 else |items[0]| + Total(items[1..])
  }

  lemma {:induction false} TotalJoin(a: seq<string>, b: seq<string>)
    ensures Total(a + b) == Total(a) + Total(b)
  {
    if a == [] {
      assert a + b == b;
    } else {
      assert (a + b)[1..] == a[1..] + b;
      TotalJoin(a[1..], b);
    }
  }

  lemma TotalGrown(items: seq<string>, member: string)
    ensures Total(Grown(items, member)) == Total(items) + |member|
  {
    var p := Place(items, member);
    TotalJoin(items[..p] + [member], items[p..]);
    TotalJoin(items[..p], [member]);
    TotalJoin(items[..p], items[p..]);
    assert items[..p] + items[p..] == items;
  }

  /** An entry no quote was cut from. */
  predicate Uncut(x: Str) {
    x.literal || x.raw == "" || x.raw[|x.raw| - 1] != '"'
  }

  lemma {:induction false} PiecesUncut(xs: seq<Str>)
    requires Texts(xs) && forall p :: p in Pieces(xs) ==> RawOk(p)
    ensures forall i :: 0 <= i < |xs| ==> Uncut(xs[i])
  {
    hide Entry;
    hide RawOk;
    hide Written;
    if xs != [] {
      var x := xs[0];
      EntryIs(x);
      PiecesUncut(xs[1..]);
      if !Uncut(x) {
        assert Entry(Written(x)) in Pieces(xs);
        CutAtEnd(x.raw);
      }
    }
  }

  lemma CutAtEnd(raw: string)
    requires RawOk(raw) && raw != "" && raw[|raw| - 1] == '"'
    ensures !RawOk(UnquoteEnd(raw))
  {
    var x := UnquoteEnd(raw);
    assert |x| < |raw|;
    AllQuotes(raw);
    var more := raw[|x| + 1..];
    assert raw == x + "\"" + more;
    CutQuote(x, more);
  }

  lemma {:induction false} AllQuotes(s: string)
    ensures forall i :: |UnquoteEnd(s)| <= i < |s| ==> s[i] == '"'
  {
    if s != "" && s[|s| - 1] == '"' {
      AllQuotes(s[..|s| - 1]);
      forall i | |UnquoteEnd(s)| <= i < |s| ensures s[i] == '"' {
        assert i < |s| - 1 ==> s[..|s| - 1][i] == s[i];
      }
    }
  }

  /** Requoting makes entries longer, and an empty string is lost: if neither shows, neither happened. */
  lemma {:induction false} PiecesTotal(xs: seq<Str>)
    requires Texts(xs) && forall i :: 0 <= i < |xs| ==> Uncut(xs[i])
    ensures Total(Pieces(xs)) >= Total(Raws(xs)) && |Pieces(xs)| <= |xs|
    ensures Total(Pieces(xs)) == Total(Raws(xs)) && |Pieces(xs)| == |xs| ==>
              forall i :: 0 <= i < |xs| ==> !xs[i].literal && xs[i].raw != ""
    ensures (forall i :: 0 <= i < |xs| ==> !xs[i].literal && xs[i].raw != "") ==> Pieces(xs) == Raws(xs)
  {
    hide Entry;
    hide RawOk;
    hide Written;
    if xs != [] {
      var x := xs[0];
      EntryIs(x);
      PiecesTotal(xs[1..]);
      assert Raws(xs)[1..] == Raws(xs[1..]);
      var e := Entry(Written(x));
      TotalJoin(if e == "" then [] else [e], Pieces(xs[1..]));
      assert Total([e]) == |e| + Total([e][1..]);
      if forall i :: 0 <= i < |xs| ==> !xs[i].literal && xs[i].raw != "" {
        assert forall i :: 0 <= i < |xs| - 1 ==> xs[1..][i] == xs[i + 1];
        assert Raws(xs) == [x.raw] + Raws(xs[1..]);
      }
    }
  }

  /** The text between the brackets as the editor cuts it out. */
  function Inner(src: string): string {
    match Brackets(src) case None => "" case Some(span) => Body(src, span)
  }

  lemma ArrayIs(src: string)
    requires Array(src).Some? && Brackets(src).Some?
    ensures var s := src[Brackets(src).value.open + 1..];
            && Strings(s).Some? && Strings(s).value.0 == Array(src).value
            && Inner(src) == s[..IndexOf(s, ']')]
    ensures Texts(Array(src).value)
  {
    hide Strings;
    hide Brackets;
    hide ArrayValue;
    hide Texts;
    var start, e := ValueOpens(src);
    BodyIs(src);
    var open := Brackets(src).value.open;
    assert src[open..][1..] == src[open + 1..];
    ReadTexts(src[open + 1..]);
  }

  /** What TOML reads after an edit. */
  lemma ArrayAfter(src: string, member: string)
    requires Array(src).Some? && Insert(src, member).Edited?
    ensures Brackets(src).Some? && '#' !in Inner(src)
    ensures var entries := Entries(Inner(src));
            var read := Strings(Rendered(Grown(entries, member), '\n' in Inner(src)) + "]" +
                                src[Brackets(src).value.close + 1..]);
            && (Array(Insert(src, member).text).Some? <==> read.Some?)
            && (read.Some? ==> Array(Insert(src, member).text) == Some(read.value.0))
  {
    hide Strings;
    hide Brackets;
    hide Array;
    hide ArrayValue;
    hide Entries;
    hide Grown;
    hide Rendered;
    var span := Brackets(src).value;
    var inner := Rendered(Grown(Entries(Inner(src)), member), '\n' in Inner(src));
    var rest := inner + "]" + src[span.close + 1..];
    ValueKept(src, inner);
    assert Insert(src, member).text == Replaced(src, span, inner);
    assert "[" + inner + "]" + src[span.close + 1..] == "[" + rest;
    OpensWith(Replaced(src, span, inner), rest);
  }

  lemma OpensWith(out: string, rest: string)
    requires ArrayValue(out) == Some("[" + rest)
    ensures Array(out) == match Strings(rest) case None => None case Some((xs, _)) => Some(xs)
  {
    hide ArrayValue;
    hide Strings;
    assert ("[" + rest)[1..] == rest;
  }

  lemma BasicsRaws(items: seq<string>)
    ensures Raws(Basics(items)) == items
  {
  }

  lemma InnerUncommented(src: string)
    requires Array(src).Some? && Brackets(src).Some? && '#' !in Inner(src)
    ensures Uncommented(src[Brackets(src).value.open + 1..])
  {
    ArrayIs(src);
    hide Brackets;
    hide Array;
    hide Strings;
    hide Inner;
    var inner := Inner(src);
    forall i | 0 <= i < |inner| ensures inner[i] != '#' {
      assert inner[i] in inner;
    }
  }

  /** If no string holds a comma or a bracket, the entries are the pieces. */
  lemma EntriesAre(src: string)
    requires Array(src).Some? && Brackets(src).Some? && '#' !in Inner(src) && Whole(Array(src).value)
    ensures Entries(Inner(src)) == Pieces(Array(src).value)
  {
    hide Entries;
    hide Array;
    hide Brackets;
    hide Strings;
    hide Whole;
    hide Uncommented;
    hide Pieces;
    hide Inner;
    ArrayIs(src);
    InnerUncommented(src);
    BodyEntries(src[Brackets(src).value.open + 1..]);
  }

  lemma PlainIs(xs: seq<Str>)
    requires AllPlain(xs) && Texts(xs)
    ensures Whole(xs) && Pieces(xs) == Raws(xs) && AllRawOk(Raws(xs))
  {
    hide RawOk;
    PiecesTotal(xs);
  }

  lemma GrownRaw(items: seq<string>, member: string)
    requires AllRawOk(items) && RawOk(member)
    ensures AllRawOk(Grown(items, member))
  {
    hide RawOk;
  }

  /** Strings that are all plain are kept, wherever the new one goes. */
  lemma PlainKept(src: string, member: string)
    requires Sound(member) && Insert(src, member).Edited? && Array(src).Some? && AllPlain(Array(src).value)
    ensures Right(src, member)
  {
    hide Strings;
    hide Array;
    hide Brackets;
    hide Entries;
    hide Insert;
    hide AllPlain;
    hide Pieces;
    hide Whole;
    hide Texts;
    hide Rendered;
    hide Grown;
    hide Inner;
    hide RawOk;
    ArrayAfter(src, member);
    ArrayIs(src);
    var xs := Array(src).value;
    PlainIs(xs);
    EntriesAre(src);
    SoundIsRaw(member);
    var grown := Grown(Raws(xs), member);
    GrownRaw(Raws(xs), member);
    RenderedReads(grown, '\n' in Inner(src), src[Brackets(src).value.close + 1..]);
    BasicsRaws(grown);
  }

  lemma InGrown(items: seq<string>, member: string, x: string)
    ensures x in items ==> x in Grown(items, member)
    ensures x in Grown(items, member) ==> x == member || x in items
    ensures |Grown(items, member)| == |items| + 1
  {
    var p := Place(items, member);
    if x in items {
      var i :| 0 <= i < |items| && items[i] == x;
      assert Grown(items, member)[if i < p then i else i + 1] == x;
    }
  }

  lemma CleanEntries(body: string, member: string)
    requires Without(body, ']') && '#' !in body && Sound(member)
    ensures AllClean(Grown(Entries(body), member))
  {
    hide Entries;
    var items := Entries(body);
    EntriesGood(body);
    EntriesWithout(body, ']');
    EntriesWithout(body, '#');
    forall x | x in Grown(items, member) ensures Clean(x) {
      InGrown(items, member, x);
    }
  }

  lemma InnerBody(src: string)
    requires Brackets(src).Some?
    ensures Without(Inner(src), ']')
  {
    BodyWithout(src, Brackets(src).value);
  }

  lemma LastIsSimple(body: string, member: string)
    requires Sound(member) && ('\\' !in body || Place(Entries(body), member) == |Entries(body)|)
    ensures var grown := Grown(Entries(body), member); Without(grown[|grown| - 1], '\\')
  {
    hide Entries;
    var items := Entries(body);
    var grown := Grown(items, member);
    if '\\' !in body {
      EntriesWithout(body, '\\');
      GrownGood(items, member, '\\');
    }
  }

  /** What was read after the edit is what the editor meant. */
  lemma ReadAsMeant(src: string, member: string)
    requires Sound(member) && Array(src).Some? && Insert(src, member).Edited?
    requires '\\' !in Inner(src) || Place(Entries(Inner(src)), member) == |Entries(Inner(src))|
    requires Array(Insert(src, member).text).Some?
    ensures var grown := Grown(Entries(Inner(src)), member);
            AllRawOk(grown) && AllClean(grown) && Raws(Array(Insert(src, member).text).value) == grown
  {
    hide Strings;
    hide Array;
    hide Brackets;
    hide Entries;
    hide Insert;
    hide Rendered;
    hide Grown;
    hide RawOk;
    hide Inner;
    hide Sound;
    ArrayAfter(src, member);
    InnerBody(src);
    var grown := Grown(Entries(Inner(src)), member);
    CleanEntries(Inner(src), member);
    LastIsSimple(Inner(src), member);
    RenderedOnly(grown, '\n' in Inner(src), src[Brackets(src).value.close + 1..]);
    BasicsRaws(grown);
  }

  lemma WholeFrom(xs: seq<Str>, grown: seq<string>, member: string)
    requires AllClean(grown) && grown == Grown(Raws(xs), member)
    ensures Whole(xs)
  {
    forall i | 0 <= i < |xs| ensures Without(xs[i].raw, ',') && Without(xs[i].raw, ']') {
      InGrown(Raws(xs), member, Raws(xs)[i]);
    }
  }

  /**
   Only plain strings are kept: if the edit is right, there was nothing but plain strings,
   as long as no backslash stands in the array or the new member goes last.
   */
  lemma OnlyPlainKept(src: string, member: string)
    requires Sound(member) && Right(src, member)
    requires '\\' !in Inner(src) || Place(Entries(Inner(src)), member) == |Entries(Inner(src))|
    ensures AllPlain(Array(src).value)
  {
    hide Array;
    hide Brackets;
    hide Entries;
    hide Insert;
    hide Grown;
    hide RawOk;
    hide Inner;
    hide Sound;
    hide Pieces;
    hide Texts;
    hide AllClean;
    ReadAsMeant(src, member);
    ArrayAfter(src, member);
    ArrayIs(src);
    var xs := Array(src).value;
    var items := Entries(Inner(src));
    var grown := Grown(items, member);
    WholeFrom(xs, grown, member);
    EntriesAre(src);
    forall p | p in Pieces(xs) ensures RawOk(p) {
      InGrown(items, member, p);
    }
    PiecesUncut(xs);
    TotalGrown(items, member);
    TotalGrown(Raws(xs), member);
    InGrown(items, member, member);
    InGrown(Raws(xs), member, member);
    PiecesTotal(xs);
  }

  /** With no backslash in the array, an edit is right exactly if every string is plain. */
  lemma EditIsRight(src: string, member: string)
    requires Sound(member) && Insert(src, member).Edited? && Array(src).Some? && '\\' !in Inner(src)
    ensures Right(src, member) <==> AllPlain(Array(src).value)
  {
    hide Array;
    hide Insert;
    hide Inner;
    hide Sound;
    hide AllPlain;
    if Right(src, member) {
      OnlyPlainKept(src, member);
    }
    if AllPlain(Array(src).value) {
      PlainKept(src, member);
    }
  }

  const LAST_CHAR: char := '\U{10FFFF}'

  /** A name that sorts behind everything shorter. */
  function LastName(n: nat): string {
    seq(n, _ => LAST_CHAR)
  }

  lemma {:induction false} BehindAll(item: string, n: nat)
    requires |item| < n
    ensures !Greater(item, LastName(n))
  {
    if item != "" {
      BehindAll(item[1..], n - 1);
      assert LastName(n)[1..] == LastName(n - 1);
    }
  }

  lemma {:induction false} PlacedLast(items: seq<string>, n: nat)
    requires forall x :: x in items ==> |x| < n
    ensures Place(items, LastName(n)) == |items| && LastName(n) !in items
  {
    if items != [] {
      BehindAll(items[0], n);
      PlacedLast(items[1..], n);
    }
  }

  lemma {:induction false} LongerThanAll(items: seq<string>) returns (n: nat)
    ensures n > 0 && forall x :: x in items ==> |x| < n
  {
    if items == [] {
      n := 1;
    } else {
      var k := LongerThanAll(items[1..]);
      n := if |items[0]| < k then k else |items[0]| + 1;
      forall x | x in items ensures |x| < n {
        assert x == items[0] || x in items[1..];
      }
    }
  }

  /** An array can be edited safely, whatever the new member, if and only if all its strings are plain. */
  lemma SafeToEdit(src: string)
    requires Array(src).Some? && Brackets(src).Some? && '#' !in Inner(src)
    ensures (forall member :: Sound(member) && member !in Entries(Inner(src)) ==> Right(src, member)) <==>
            AllPlain(Array(src).value)
  {
    hide Array;
    hide Brackets;
    hide Inner;
    hide Entries;
    hide AllPlain;
    hide Right;
    var items := Entries(Inner(src));
    if AllPlain(Array(src).value) {
      forall member | Sound(member) && member !in items ensures Right(src, member) {
        EditedIf(src, member);
        PlainKept(src, member);
      }
    }
    if forall member :: Sound(member) && member !in items ==> Right(src, member) {
      var n := LongerThanAll(items);
      PlacedLast(items, n);
      assert Sound(LastName(n)) by {
        assert LastName(n) != "";
      }
      OnlyPlainKept(src, LastName(n));
    }
  }

  lemma EditedIf(src: string, member: string)
    requires Brackets(src).Some? && '#' !in Inner(src) && member !in Entries(Inner(src))
    ensures Insert(src, member).Edited?
  {
    hide Brackets;
    hide Entries;
  }

  // ---------------------------------------------------------------------------
  // Arrays that are damaged
  // ---------------------------------------------------------------------------

  /** A manifest of one line. */
  function OneLiner(inner: string): string {
    "members=[" + inner + "]"
  }

  lemma OneLinerIs(inner: string)
    requires Without(inner, '\n')
    ensures Anchor(OneLiner(inner)) == Some(0)
    ensures ArrayValue(OneLiner(inner)) == Some("[" + inner + "]")
    ensures Find(OneLiner(inner), 0, '[') == 8
  {
    var s := OneLiner(inner);
    assert forall i :: 0 <= i < 8 ==> s[i] == "members="[i];
    assert LineSize(s) == |s| && s[..|s|] == s && s[0..] == s;
    KeyLineIs(s, 0, 0);
    assert Equals(s) == Some(7);
    hide Equals;
    IndexIs(s, '[', 8);
    assert s[8..] == "[" + inner + "]";
    assert SkipSpace(s[8..]) == s[8..];
  }

  /** A string in literal quotes keeps them as part of its text. */
  lemma LiteralIsDamaged()
    ensures Array(OneLiner("'a'")) == Some([Str(true, "a")])
    ensures Insert(OneLiner("'a'"), "b") == Edited("members=[\"'a'\", \"b\"]")
    ensures !Right(OneLiner("'a'"), "b")
  {
    hide *;
    var inner := "'a'";
    assert inner[..3] == inner && (inner + "]")[4..] == "" && inner + "]" == "'a']";
    TextFacts("b");
    LiteralStringsAreRequoted();
    LiteralGrown();
    LiteralRead();
    GlobNotPlain();
    ArrayOfOneLiner(inner, [Str(true, "a")], "");
    BracketsOfOneLiner(inner, 3);
    InsertOneLiner(inner, 3, "b");
    assert "members=" + "[" + "\"'a'\", \"b\"" + "]" + "" == "members=[\"'a'\", \"b\"]";
    NotRight(OneLiner(inner), "b", Str(true, "a"));
  }

  /** The two texts hold none of the characters that matter to where the editor looks. */
  lemma TextFacts(member: string)
    requires member == "b" || member == "c"
    ensures Sound(member)
    ensures Without("'a'", '\n') && Without("'a'", '#') && Without("'a'", ']') && '\\' !in "'a'"
    ensures Without("\"a[b]\"", '\n') && Without("\"a[b", '#') && Without("\"a[b", ']') && '\\' !in "\"a[b"
  {
  }

  lemma NotRight(src: string, member: string, x: Str)
    requires Sound(member) && '\\' !in Inner(src) && Array(src) == Some([x]) && !Plain(x)
    ensures !Right(src, member)
  {
    hide Array;
    hide Inner;
    hide Sound;
    hide Plain;
    assert [x][0] == x;
    if Right(src, member) {
      OnlyPlainKept(src, member);
    }
  }

  lemma LiteralGrown()
    ensures OneLine(Grown(["'a'"], "b")) == "\"'a'\", \"b\""
  {
    assert Place(["'a'"][1..], "b") == 0;
    assert Grown(["'a'"], "b") == ["'a'", "b"];
    assert ["'a'", "b"][1..] == ["b"];
  }

  lemma LiteralRead()
    ensures Strings("'a']") == Some(([Str(true, "a")], ""))
  {
    var s := "'a']";
    assert s[1..] == "a']" && s[1..][1..] == "']";
    assert LiteralEnd("']") == Some(0);
    assert LiteralEnd("a']") == Some(1);
    assert s[1..2] == "a" && s[3..] == "]";
    assert ReadString(s) == Some((Str(true, "a"), "]"));
    ContinuedEnd(Str(true, "a"), "");
    assert "]" + "" == "]";
  }

  lemma CloseOfOneLiner(inner: string, n: nat)
    requires n <= |inner| && Without(inner[..n], ']') && (n < |inner| ==> inner[n] == ']')
    ensures Find(OneLiner(inner), 8, ']') == 9 + n && 9 + n < |OneLiner(inner)|
    ensures OneLiner(inner)[9..9 + n] == inner[..n]
  {
    var s := OneLiner(inner);
    assert forall i :: 0 <= i < |inner| ==> s[9 + i] == inner[i];
    assert s[8] == '[' && s[9 + |inner|] == ']';
    forall i | 0 <= i < 1 + n ensures s[8..][i] != ']' {
      assert i > 0 ==> s[8 + i] == inner[..n][i - 1];
    }
    IndexIs(s[8..], ']', 1 + n);
  }

  lemma BracketsOfOneLiner(inner: string, n: nat)
    requires Without(inner, '\n')
    requires n <= |inner| && Without(inner[..n], ']') && (n < |inner| ==> inner[n] == ']')
    ensures Brackets(OneLiner(inner)) == Some(Span(8, 9 + n)) && Inner(OneLiner(inner)) == inner[..n]
  {
    hide Anchor;
    hide Find;
    hide OneLiner;
    OneLinerIs(inner);
    CloseOfOneLiner(inner, n);
    BracketsAre(OneLiner(inner), 0, Span(8, 9 + n));
  }

  lemma ArrayOfOneLiner(inner: string, xs: seq<Str>, rest: string)
    requires Without(inner, '\n') && Strings(inner + "]") == Some((xs, rest))
    ensures Array(OneLiner(inner)) == Some(xs)
  {
    hide Strings;
    hide OneLiner;
    OneLinerIs(inner);
    assert ("[" + inner + "]")[1..] == inner + "]";
  }

  lemma InsertOneLiner(inner: string, n: nat, member: string)
    requires Without(inner, '\n') && Without(inner[..if n <= |inner| then n else 0], '#')
    requires n <= |inner| && Without(inner[..n], ']') && (n < |inner| ==> inner[n] == ']')
    requires member !in Entries(inner[..n])
    ensures Insert(OneLiner(inner), member) ==
            Edited("members=" + "[" + OneLine(Grown(Entries(inner[..n]), member)) + "]" + (inner + "]")[n + 1..])
  {
    hide Entries;
    hide Grown;
    hide OneLine;
    hide Brackets;
    var s := OneLiner(inner);
    BracketsOfOneLiner(inner, n);
    assert s[..8] == "members=";
    assert s[9..] == inner + "]" && s[9 + n + 1..] == (inner + "]")[n + 1..];
    assert '#' !in inner[..n] && '\n' !in inner[..n];
  }

  /** A closing bracket inside a string, as in a glob, is taken for the end of the array. */
  lemma GlobIsDamaged()
    ensures Array(OneLiner("\"a[b]\"")) == Some([Str(false, "a[b]")])
    ensures Insert(OneLiner("\"a[b]\""), "c") == Edited("members=[\"a[b\", \"c\"]\"]")
    ensures !Right(OneLiner("\"a[b]\""), "c")
  {
    hide *;
    var inner := "\"a[b]\"";
    assert inner[..4] == "\"a[b" && (inner + "]")[5..] == "\"]" && inner[4] == ']';
    TextFacts("c");
    CutEntry();
    GlobRead();
    ArrayOfOneLiner(inner, [Str(false, "a[b]")], "");
    BracketsOfOneLiner(inner, 4);
    InsertOneLiner(inner, 4, "c");
    assert "members=" + "[" + "\"a[b\", \"c\"" + "]" + "\"]" == "members=[\"a[b\", \"c\"]\"]";
    GlobNotPlain();
    NotRight(OneLiner(inner), "c", Str(false, "a[b]"));
  }

  lemma GlobNotPlain()
    ensures !Plain(Str(false, "a[b]")) && !Plain(Str(true, "a"))
  {
    assert "a[b]"[3] == ']';
  }

  lemma CutEntry()
    ensures Entries("\"a[b") == ["a[b"] && OneLine(Grown(["a[b"], "c")) == "\"a[b\", \"c\""
  {
    hide *;
    TextFacts("c");
    CutGrown();
    CutPiece();
    EntriesLast("\"a[b");
  }

  lemma CutPiece()
    ensures Entry("\"a[b") == "a[b" && "a[b" != "" && Without("\"a[b", ',')
  {
    var q := "\"a[b";
    TrimBack("", q);
    hide TrimStart;
    hide TrimEnd;
    assert "" + q == q && q[1..] == "a[b";
    assert UnquoteStart("a[b") == "a[b";
  }

  lemma CutGrown()
    ensures OneLine(Grown(["a[b"], "c")) == "\"a[b\", \"c\""
  {
    assert Place(["a[b"][1..], "c") == 0;
    assert Grown(["a[b"], "c") == ["a[b", "c"];
    assert ["a[b", "c"][1..] == ["c"];
  }

  lemma GlobRead()
    ensures Strings("\"a[b]\"" + "]") == Some(([Str(false, "a[b]")], ""))
  {
    SoundIsRaw("a[b]");
    FirstIs("", "a[b]", "]");
    ContinuedEnd(Str(false, "a[b]"), "");
    assert "]" + "" == "]";
    assert "" + "\"" + "a[b]" + "\"" + "]" == "\"a[b]\"" + "]";
  }

  /** By luck, an escaped quote before a bracket can come out right: the bracket written closes nothing. */
  lemma EscapeByLuck()
    ensures Array(OneLiner("\"x\\\"]y\"")) == Some([Str(false, "x\\\"]y")])
    ensures Right(OneLiner("\"x\\\"]y\""), "m")
  {
    hide *;
    var inner := "\"x\\\"]y\"";
    var after := "\"m\", \"x\\\"]y\"";
    assert inner[..4] == "\"x\\\"" && (inner + "]")[5..] == "y\"]" && inner[4] == ']';
    LuckFacts();
    LuckEntry();
    LuckRead();
    ArrayOfOneLiner(inner, [Str(false, "x\\\"]y")], "");
    InsertOneLiner(inner, 4, "m");
    assert "members=" + "[" + "\"m\", \"x\\\"" + "]" + "y\"]" == "members=[" + after + "]";
    assert Insert(OneLiner(inner), "m") == Edited(OneLiner(after)) by {
      OneLinerText(after);
    }
    ArrayOfOneLiner(after, [Str(false, "m"), Str(false, "x\\\"]y")], "");
    RightIs(OneLiner(inner), "m");
    LuckGrown();
  }

  lemma OneLinerText(inner: string)
    ensures OneLiner(inner) == "members=[" + inner + "]"
  {
  }

  lemma RightIs(src: string, member: string)
    ensures Right(src, member) <==>
            && Insert(src, member).Edited? && Array(src).Some? && Array(Insert(src, member).text).Some?
            && Raws(Array(Insert(src, member).text).value) == Grown(Raws(Array(src).value), member)
  {
    hide Insert;
    hide Array;
    hide Grown;
  }

  lemma LuckFacts()
    ensures var inner := "\"x\\\"]y\"";
            Without(inner, '\n') && Without("\"x\\\"", '#') && Without("\"x\\\"", ']')
    ensures Without("\"m\", \"x\\\"]y\"", '\n') && Without("\"x\\\"", ',')
  {
  }

  lemma LuckGrown()
    ensures Raws([Str(false, "m"), Str(false, "x\\\"]y")]) == Grown(Raws([Str(false, "x\\\"]y")]), "m")
  {
    var listed := Raws([Str(false, "x\\\"]y")]);
    assert listed == ["x\\\"]y"];
    assert Place(listed, "m") == 0;
    assert Grown(listed, "m") == ["m", "x\\\"]y"];
  }

  lemma LuckEntry()
    ensures Entries("\"x\\\"") == ["x\\"] && "m" !in Entries("\"x\\\"")
    ensures OneLine(Grown(Entries("\"x\\\""), "m")) == "\"m\", \"x\\\""
  {
    var q := "\"x\\\"";
    LuckFacts();
    LuckOrder();
    hide Grown;
    hide OneLine;
    hide Entries;
    LeadWhite("", q);
    assert "" + q == q && q[1..] == "x\\\"" && "x\\\""[..2] == "x\\";
    assert UnquoteStart(q[1..]) == q[1..];
    assert UnquoteEnd("x\\") == "x\\";
    assert TrimEnd(TrimStart(q)) == q;
    assert Entry(q) == "x\\";
    EntriesLast(q);
  }

  lemma LuckOrder()
    ensures OneLine(Grown(["x\\"], "m")) == "\"m\", \"x\\\""
  {
    assert Place(["x\\"], "m") == 0;
    assert Grown(["x\\"], "m") == ["m", "x\\"];
    assert ["m", "x\\"][1..] == ["x\\"];
  }

  lemma LuckRaw()
    ensures RawOk("x\\\"]y")
  {
    var s := "x\\\"]y" + "\"";
    assert s[1..][2..] == "]y\"" && s[1..][0] == '\\' && s[1..][1] == '"';
    assert "]y\""[1..][1..] == "\"";
    assert BasicEnd("\"") == Some(0);
    assert BasicEnd("]y\"") == Some(2);
    assert EscapeSize(s[1..]) == 2;
    assert BasicEnd(s[1..]) == Some(4);
  }

  lemma LuckTexts()
    ensures "" + OneLine(["x\\\"]y"]) + "]" + "" == "\"x\\\"]y\"" + "]"
    ensures "" + OneLine(["m", "x\\\"]y"]) + "]" + "" == "\"m\", \"x\\\"]y\"" + "]"
  {
    assert ["m", "x\\\"]y"][1..] == ["x\\\"]y"];
    assert Quote("x\\\"]y") == "\"x\\\"]y\"";
  }

  lemma LuckRead()
    ensures Strings("\"x\\\"]y\"" + "]") == Some(([Str(false, "x\\\"]y")], ""))
    ensures Strings("\"m\", \"x\\\"]y\"" + "]") == Some(([Str(false, "m"), Str(false, "x\\\"]y")], ""))
  {
    SoundIsRaw("m");
    LuckRaw();
    LuckTexts();
    hide RawOk;
    hide Strings;
    hide OneLine;
    var x := "x\\\"]y";
    OneLineReads([x], "", "");
    OneLineReads(["m", x], "", "");
    assert Basics([x]) == [Str(false, x)];
    assert Basics(["m", x]) == [Str(false, "m"), Str(false, x)];
  }

  // ---------------------------------------------------------------------------
  // The array of another table
  // ---------------------------------------------------------------------------

  /** A table with a `members` array, and whatever follows it. */
  function OtherTable(inner: string, rest: string): string {
    "[a]\n" + ("members=[" + inner + "]" + rest)
  }

  lemma OtherTableText(inner: string, rest: string)
    ensures var s := OtherTable(inner, rest);
            && s[4..] == "members=[" + inner + "]" + rest && s[..4] == "[a]\n"
            && |s| > 12 + |inner| + 1 && s[..12] == "[a]\nmembers=" && s[12..] == "[" + inner + "]" + rest
            && s[13..] == inner + "]" + rest && s[13 + |inner| + 1..] == rest
  {
    var s := OtherTable(inner, rest);
    assert s == "[a]\nmembers=" + ("[" + (inner + ("]" + rest)));
  }

  lemma KeyOfLine(line: string)
    requires "members=[" <= line
    ensures Equals(line) == Some(7)
  {
    assert forall i :: 0 <= i < 9 ==> line[i] == "members=["[i];
    KeyLineIs(line, 0, 0);
  }

  lemma HeaderIsNoKey()
    ensures Equals("[a]\n").None? && IndexOf("[a]\n", '\n') == 3
  {
    IndexIs("[a]\n", '\n', 3);
  }

  lemma FirstLineOf(s: string)
    requires |s| > 4 && s[..4] == "[a]\n"
    ensures LineSize(s) == 4
  {
    assert forall i :: 0 <= i < 4 ==> s[i] == s[..4][i];
    IndexIs(s, '\n', 3);
  }

  lemma LongLine(t: string)
    requires "members=[" <= t
    ensures LineSize(t) >= 9 && "members=[" <= t[..LineSize(t)]
  {
    assert forall i :: 0 <= i < 9 ==> t[i] == "members=["[i];
    assert forall i :: 0 <= i < 9 ==> t[i] != '\n';
  }

  lemma OtherAnchor(inner: string, rest: string)
    ensures var s := OtherTable(inner, rest);
            Anchor(s) == Some(4) && ArrayValue(s) == Some("[" + inner + "]" + rest) && Find(s, 4, '[') == 12
  {
    hide Equals;
    hide LineSize;
    hide IndexOf;
    var s := OtherTable(inner, rest);
    OtherTableText(inner, rest);
    hide OtherTable;
    HeaderIsNoKey();
    FirstLineOf(s);
    var t := s[4..];
    assert "members=[" <= t;
    LongLine(t);
    KeyOfLine(t[..LineSize(t)]);
    AnchorOnFirst(t, 7);
    AnchorStep(s);
    assert s[4 + 7 + 1..] == "[" + inner + "]" + rest;
    assert t[8] == '[' && forall i :: 0 <= i < 8 ==> t[i] == "members="[i];
    IndexIs(t, '[', 8);
  }

  lemma OtherBrackets(inner: string, rest: string)
    requires Without(inner, ']')
    ensures var s := OtherTable(inner, rest);
            Brackets(s) == Some(Span(12, 13 + |inner|)) && Inner(s) == inner
  {
    hide Anchor;
    hide ArrayValue;
    var s := OtherTable(inner, rest);
    OtherAnchor(inner, rest);
    OtherTableText(inner, rest);
    hide OtherTable;
    var t := s[12..];
    assert t[1 + |inner|] == ']';
    forall i | 0 <= i < 1 + |inner| ensures t[i] != ']' {
      assert i > 0 ==> t[i] == inner[i - 1];
    }
    IndexIs(t, ']', 1 + |inner|);
    BracketsAre(s, 4, Span(12, 13 + |inner|));
    assert s[13..13 + |inner|] == s[13..][..|inner|] == inner;
  }

  /**
   The first line that begins with `members =` is taken, whatever table it stands in: here
   the member goes to the table `a`, and the workspace does not get it.
   */
  lemma OtherTableIsEdited()
    ensures var rest := "\n[workspace]\nmembers=[]\n";
            && Array(OtherTable("\"x\"", rest)) == Some([Str(false, "x")])
            && Insert(OtherTable("\"x\"", rest), "y") == Edited(OtherTable("\"x\", \"y\"", rest))
            && Right(OtherTable("\"x\"", rest), "y")
  {
    hide *;
    var inner, rest := "\"x\"", "\n[workspace]\nmembers=[]\n";
    var s := OtherTable(inner, rest);
    OtherFacts();
    OtherAnchor(inner, rest);
    OtherRead(rest);
    assert "[" + inner + "]" + rest == "[" + ("\"x\"" + "]" + rest);
    OpensWith(s, "\"x\"" + "]" + rest);
    OtherBrackets(inner, rest);
    InsertOther(inner, rest, "y");
    OneIsPlain();
    PlainKept(s, "y");
  }

  lemma OneIsPlain()
    ensures AllPlain([Str(false, "x")]) && Sound("y")
  {
  }

  lemma OtherFacts()
    ensures Without("\"x\"", ']') && Without("\"x\"", '#') && Without("\"x\"", '\n')
    ensures "y" !in Entries("\"x\"") && OneLine(Grown(Entries("\"x\""), "y")) == "\"x\", \"y\""
  {
    OneEntry();
    assert Place(["x"][1..], "y") == 0;
    assert Grown(["x"], "y") == ["x", "y"];
    assert ["x", "y"][1..] == ["y"];
  }

  lemma OneEntry()
    ensures Entries("\"x\"") == ["x"]
  {
    EntryBack("", "x");
    assert "" + Quote("x") == "\"x\"";
    hide Entry;
    EntriesLast("\"x\"");
  }

  lemma OtherRead(rest: string)
    ensures Strings("\"x\"" + "]" + rest) == Some(([Str(false, "x")], rest))
  {
    SoundIsRaw("x");
    FirstIs("", "x", "]" + rest);
    ContinuedEnd(Str(false, "x"), rest);
    assert "" + "\"" + "x" + "\"" + ("]" + rest) == "\"x\"" + "]" + rest;
  }

  lemma InsertOther(inner: string, rest: string, member: string)
    requires Without(inner, ']') && Without(inner, '#') && Without(inner, '\n') && member !in Entries(inner)
    ensures Insert(OtherTable(inner, rest), member) ==
            Edited(OtherTable(OneLine(Grown(Entries(inner), member)), rest))
  {
    hide Entries;
    hide Grown;
    hide OneLine;
    hide Brackets;
    var s := OtherTable(inner, rest);
    var more := OneLine(Grown(Entries(inner), member));
    OtherBrackets(inner, rest);
    OtherTableText(inner, rest);
    OtherTableText(more, rest);
    assert '#' !in inner && '\n' !in inner;
    assert OtherTable(more, rest) == "[a]\nmembers=" + ("[" + more + "]" + rest);
  }
}
