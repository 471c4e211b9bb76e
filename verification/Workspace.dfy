/**
 The workspace editor: finding the `members` array of a Cargo manifest and inserting
 a member into it. Lines and brackets are found by scanning the text, so the proofs
 are about what such scans find in a text that was cut in two and filled again.
 */
module Workspace {
  import opened Bytes

  // ---------------------------------------------------------------------------
  // Text
  // ---------------------------------------------------------------------------

  /** Unicode white space. */
  predicate White(c: char) {
    var n := c as int;
    || 9 <= n <= 13 || n == 0x20 || n == 0x85 || n == 0xA0 || n == 0x1680 || 0x2000 <= n <= 0x200A
    || n == 0x2028 || n == 0x2029 || n == 0x202F || n == 0x205F || n == 0x3000
  }

  predicate AllWhite(s: string) {
    forall i :: 0 <= i < |s| ==> White(s[i])
  }

  predicate Without(s: string, c: char) {
    forall i :: 0 <= i < |s| ==> s[i] != c
  }

  /** The first position of a character, or the length. */
  function IndexOf(s: string, c: char): (n: nat)
    ensures n <= |s| && (n < |s| ==> s[n] == c) && forall i :: 0 <= i < n ==> s[i] != c
  {
    if s == "" || s[0] == c then 0 else 1 + IndexOf(s[1..], c)
  }

  lemma IndexIs(s: string, c: char, n: nat)
    requires n < |s| && s[n] == c && forall i :: 0 <= i < n ==> s[i] != c
    ensures IndexOf(s, c) == n
  {
  }

  /** The number of leading white characters. */
  function Lead(s: string): (n: nat)
    ensures n <= |s| && (forall i :: 0 <= i < n ==> White(s[i])) && (n < |s| ==> !White(s[n]))
  {
    if s == "" || !White(s[0]) then 0 else 1 + Lead(s[1..])
  }

  function TrimStart(s: string): (t: string)
    ensures |t| <= |s| && (t != "" ==> !White(t[0]))
  {
    s[Lead(s)..]
  }

  function TrimEnd(s: string): (t: string)
    ensures t <= s && (t != "" ==> !White(t[|t| - 1]))
  {
    if s == "" || !White(s[|s| - 1]) then s else TrimEnd(s[..|s| - 1])
  }

  function UnquoteStart(s: string): (t: string)
    ensures |t| <= |s| && (t != "" ==> t[0] != '"')
    ensures forall c :: Without(s, c) ==> Without(t, c)
  {
    if s == "" || s[0] != '"' then s else UnquoteStart(s[1..])
  }

  function UnquoteEnd(s: string): (t: string)
    ensures t <= s && (t != "" ==> t[|t| - 1] != '"')
  {
    if s == "" || s[|s| - 1] != '"' then s else UnquoteEnd(s[..|s| - 1])
  }

  /** `trim().trim_matches('"')` */
  function Entry(piece: string): string {
    UnquoteEnd(UnquoteStart(TrimEnd(TrimStart(piece))))
  }

  /** The entries between the brackets: split at commas, trimmed, the empty ones dropped. */
  function Entries(body: string): seq<string> {
    var n := IndexOf(body, ',');
    var head := Entry(body[..n]);
    var rest := if n < |body| then Entries(body[n + 1..]) else [];
    if head == "" then rest else [head] + rest
  }

  // ---------------------------------------------------------------------------
  // The array
  // ---------------------------------------------------------------------------

  const KEY := "members"

  /** Where the `=` of a line is that begins with `members =`. */
  function Equals(line: string): Option<nat> {
    var i := Lead(line);
    if i + |KEY| <= |line| && line[i..i + |KEY|] == KEY then
      var j := i + |KEY| + Lead(line[i + |KEY|..]);
      if j < |line| && line[j] == '=' then Some(j) else None
    else None
  }

  /** The length of the first line, with its newline. */
  function LineSize(s: string): (n: nat)
    ensures n <= |s| && (s != "" ==> n > 0)
  {
    var n := IndexOf(s, '\n');
    if n < |s| then n + 1 else n
  }

  /** The offset of the first line that begins with `members =`. */
  function Anchor(s: string): (r: Option<nat>)
    ensures r.Some? ==> r.value < |s|
  {
    if s == "" then None
    else
      var n := LineSize(s);
      if Equals(s[..n]).Some? then Some(0)
      else match Anchor(s[n..]) case None => None case Some(off) => Some(n + off)
  }

  /** The brackets of the array. */
  datatype Span = Span(open: nat, close: nat)

  /** The first position of a character from `from` on, or the length. */
  function Find(s: string, from: nat, c: char): (n: nat)
    requires from <= |s|
    ensures from <= n <= |s| && (n < |s| ==> s[n] == c)
  {
    from + IndexOf(s[from..], c)
  }

  function Brackets(src: string): (r: Option<Span>)
    ensures r.Some? ==> r.value.open < r.value.close < |src|
  {
    match Anchor(src)
    case None => None
    case Some(start) =>
      var open := Find(src, start, '[');
      if open >= |src| then None
      else
        var close := Find(src, open, ']');
        if close >= |src| then None else Some(Span(open, close))
  }

  function Body(src: string, span: Span): string
    requires span.open < span.close < |src|
  {
    src[span.open + 1..span.close]
  }

  /** The members a manifest lists. */
  function Members(src: string): Option<seq<string>> {
    match Brackets(src) case None => None case Some(span) => Some(Entries(Body(src, span)))
  }

  // ---------------------------------------------------------------------------
  // Insertion
  // ---------------------------------------------------------------------------

  /** Order of the UTF-8 bytes, which is that of the code points. */
  predicate Greater(a: string, b: string) {
    if b == "" then a != ""
    else if a == "" then false
    else if a[0] == b[0] then Greater(a[1..], b[1..])
    else a[0] > b[0]
  }

  predicate Sorted(items: seq<string>) {
    forall i, j :: 0 <= i < j < |items| ==> !Greater(items[i], items[j])
  }

  function Quote(item: string): string {
    "\"" + item + "\""
  }

  function OneLine(items: seq<string>): string {
    if items == [] then ""
    else if |items| == 1 then Quote(items[0])
    else Quote(items[0]) + ", " + OneLine(items[1..])
  }

  function ManyLines(items: seq<string>): string {
    if items == [] then "" else "    " + Quote(items[0]) + ",\n" + ManyLines(items[1..])
  }

  function Rendered(items: seq<string>, many: bool): string {
    if many then "\n" + ManyLines(items) else OneLine(items)
  }

  datatype Edit = Edited(text: string) | Unchanged | Refused

  /** One string is greater than another at the first place where they differ, or by what it has on top. */
  lemma {:induction false} GreaterExact(a: string, b: string)
    ensures Greater(a, b) <==> exists k: nat :: FirstDifference(a, b, k) && (k == |b| || (k < |a| && a[k] > b[k]))
  {
    if a == b {
      NoGreater(a);
    } else {
      var k := DifferenceOf(a, b);
      GreaterAt(a, b, k);
      forall j: nat | FirstDifference(a, b, j) ensures j == k {
        OneDifference(a, b, j, k);
      }
    }
  }

  /** The strings are alike up to `k`, and there one ends or they differ. */
  predicate FirstDifference(a: string, b: string, k: nat) {
    && k <= |a| && k <= |b| && (forall i :: 0 <= i < k ==> a[i] == b[i])
    && (k < |a| || k < |b|)
    && (k < |a| && k < |b| ==> a[k] != b[k])
  }

  lemma {:induction false} NoGreater(a: string)
    ensures !Greater(a, a)
  {
    if a != "" {
      NoGreater(a[1..]);
    }
  }

  lemma {:induction false} DifferenceOf(a: string, b: string) returns (k: nat)
    requires a != b
    ensures FirstDifference(a, b, k)
  {
    if a == "" || b == "" || a[0] != b[0] {
      k := 0;
    } else {
      assert a == [a[0]] + a[1..] && b == [b[0]] + b[1..];
      var j := DifferenceOf(a[1..], b[1..]);
      k := j + 1;
      forall i | 0 <= i < k ensures a[i] == b[i] {
        assert i > 0 ==> a[1..][i - 1] == b[1..][i - 1];
      }
    }
  }

  lemma OneDifference(a: string, b: string, j: nat, k: nat)
    requires FirstDifference(a, b, j) && FirstDifference(a, b, k)
    ensures j == k
  {
  }

  lemma {:induction false} GreaterAt(a: string, b: string, k: nat)
    requires FirstDifference(a, b, k)
    ensures Greater(a, b) <==> k == |b| || (k < |a| && a[k] > b[k])
  {
    if k > 0 {
      GreaterAt(a[1..], b[1..], k - 1);
    }
  }

  /** The position before the first greater entry. */
  method Position(items: seq<string>, member: string) returns (p: nat)
    ensures p <= |items|
    ensures forall i :: 0 <= i < p ==> !Greater(items[i], member)
    ensures p < |items| ==> Greater(items[p], member)
  {
    p := 0;
    while p < |items| && !Greater(items[p], member)
      invariant 0 <= p <= |items| && forall i :: 0 <= i < p ==> !Greater(items[i], member)
    {
      p := p + 1;
    }
  }

  /** The line loop: `off` is where the current line begins. */
  method FindAnchor(src: string) returns (anchor: Option<nat>)
    ensures anchor == Anchor(src)
  {
    hide Equals;
    hide Anchor;
    hide LineSize;
    var off := 0;
    assert src[0..] == src;
    while off < |src|
      invariant 0 <= off <= |src|
      invariant Anchor(src) == match Anchor(src[off..]) case None => None case Some(n) => Some(off + n)
      decreases |src| - off
    {
      ghost var rest := src[off..];
      AnchorStep(rest);
      var n := LineSize(src[off..]);
      var line := src[off..off + n];
      assert rest[..n] == line && rest[n..] == src[off + n..];
      if Equals(line).Some? {
        return Some(off);
      }
      off := off + n;
    }
    assert src[off..] == "";
    NoAnchor();
    return None;
  }

  lemma AnchorStep(s: string)
    requires s != ""
    ensures var n := LineSize(s);
            Anchor(s) == if Equals(s[..n]).Some? then Some(0)
                         else match Anchor(s[n..]) case None => None case Some(off) => Some(n + off)
  {
  }

  lemma NoAnchor()
    ensures Anchor("").None?
  {
  }

  /** A line begins here. */
  predicate LineStart(s: string, off: nat) {
    off < |s| && (off == 0 || s[off - 1] == '\n')
  }

  /** From here, after white space, stands `members`, and after more of it an equals sign, on one line. */
  predicate KeyAt(s: string, off: nat, i: nat, j: nat) {
    && off <= i && i + 7 <= j < |s|
    && (forall k :: off <= k < i ==> White(s[k]))
    && s[i..i + 7] == "members"
    && (forall k :: i + 7 <= k < j ==> White(s[k]))
    && s[j] == '='
    && forall k :: off <= k < j ==> s[k] != '\n'
  }

  ghost predicate HasKey(s: string, off: nat) {
    exists i: nat, j: nat :: KeyAt(s, off, i, j)
  }

  /** The test of a line: it may end in a newline, and has no other. */
  lemma EqualsExact(line: string)
    requires forall i :: 0 <= i < |line| - 1 ==> line[i] != '\n'
    ensures Equals(line).Some? <==> HasKey(line, 0)
  {
    hide Equals;
    hide White;
    if Equals(line).Some? {
      var i, n := KeyLineHas(line);
      assert line[i..i + 7] == "members";
      assert KeyAt(line, 0, i, i + 7 + n);
    }
    if HasKey(line, 0) {
      var i: nat, j: nat :| KeyAt(line, 0, i, j);
      forall k | i <= k < i + |KEY| ensures line[k] == KEY[k - i] {
        assert line[i..i + 7][k - i] == line[k];
      }
      assert KeyLine(line, i, j - i - 7);
      KeyLineIs(line, i, j - i - 7);
    }
  }

  /** What is on the first line does not depend on the lines after it. */
  lemma KeyOnLine(s: string)
    requires s != ""
    ensures HasKey(s[..LineSize(s)], 0) <==> HasKey(s, 0)
  {
    hide White;
    var n := LineSize(s);
    LineHasOneEnd(s);
    hide LineSize;
    var line := s[..n];
    if HasKey(line, 0) {
      var i: nat, j: nat :| KeyAt(line, 0, i, j);
      assert line[i..i + 7] == s[i..i + 7];
      assert KeyAt(s, 0, i, j);
    }
    if HasKey(s, 0) {
      var i: nat, j: nat :| KeyAt(s, 0, i, j);
      assert j < n by {
        assert n < |s| ==> s[n - 1] == '\n';
      }
      assert line[i..i + 7] == s[i..i + 7];
      assert KeyAt(line, 0, i, j);
    }
  }

  /** Moving the start of the text moves what is in it. */
  lemma KeyMoves(s: string, n: nat, off: nat)
    requires n <= |s|
    ensures HasKey(s[n..], off) <==> HasKey(s, n + off)
  {
    var t := s[n..];
    if HasKey(t, off) {
      var i: nat, j: nat :| KeyAt(t, off, i, j);
      assert t[i..i + 7] == s[n + i..n + i + 7];
      forall k | n + off <= k < n + j ensures s[k] == t[k - n] {
      }
      assert KeyAt(s, n + off, n + i, n + j);
    }
    if HasKey(s, n + off) {
      var i: nat, j: nat :| KeyAt(s, n + off, i, j);
      assert t[i - n..i - n + 7] == s[i..i + 7];
      assert KeyAt(t, off, i - n, j - n);
    }
  }

  lemma LineStartMoves(s: string, n: nat, off: nat)
    requires 0 < n <= |s| && s[n - 1] == '\n'
    ensures LineStart(s[n..], off) <==> LineStart(s, n + off)
  {
  }

  /** A place where a line begins with the key, and no earlier one does. */
  ghost predicate FirstKey(s: string, off: nat) {
    LineStart(s, off) && HasKey(s, off) && forall k: nat :: k < off && LineStart(s, k) ==> !HasKey(s, k)
  }

  /** The anchor is the first line that begins with the key and an equals sign. */
  lemma {:induction false} AnchorExact(s: string)
    ensures match Anchor(s)
            case Some(off) => FirstKey(s, off)
            case None => forall off: nat :: LineStart(s, off) ==> !HasKey(s, off)
    decreases |s|
  {
    hide KeyAt;
    hide HasKey;
    hide Equals;
    hide Anchor;
    if s == "" {
      NoAnchor();
    } else {
      AnchorStep(s);
      var n := LineSize(s);
      LineHasOneEnd(s);
      EqualsExact(s[..n]);
      KeyOnLine(s);
      if Equals(s[..n]).None? {
        AnchorExact(s[n..]);
        forall off: nat | LineStart(s, off) && off > 0 ensures off >= n && LineStart(s[n..], off - n) {
          NotInside(s, off);
          LineStartMoves(s, n, off - n);
        }
        forall off: nat ensures HasKey(s[n..], off) <==> HasKey(s, n + off) {
          KeyMoves(s, n, off);
        }
        var rest := Anchor(s[n..]);
        if rest.Some? {
          LineStartMoves(s, n, rest.value);
          assert FirstKey(s, n + rest.value) by {
            forall k: nat | k < n + rest.value && LineStart(s, k) ensures !HasKey(s, k) {
              if k > 0 {
                assert HasKey(s[n..], k - n) <==> HasKey(s, n + (k - n));
              }
            }
          }
        } else {
          forall off: nat | LineStart(s, off) ensures !HasKey(s, off) {
            if off > 0 {
              assert HasKey(s[n..], off - n) <==> HasKey(s, n + (off - n));
            }
          }
        }
      }
    }
  }

  lemma LineHasOneEnd(s: string)
    requires s != ""
    ensures var n := LineSize(s); 0 < n && forall i :: 0 <= i < n - 1 ==> s[..n][i] != '\n'
    ensures LineSize(s) < |s| ==> s[LineSize(s) - 1] == '\n'
  {
  }

  /** No line begins inside the first one. */
  lemma NotInside(s: string, off: nat)
    requires LineStart(s, off) && off > 0
    ensures LineSize(s) <= off && s[LineSize(s) - 1] == '\n'
  {
  }

  /** The array is the text between the first opening bracket after the key and the first closing one after that. */
  lemma BracketsExact(s: string, open: nat, close: nat)
    ensures Brackets(s) == Some(Span(open, close)) <==>
            exists start: nat ::
              && FirstKey(s, start) && start <= open < close < |s|
              && s[open] == '[' && Without(s[start..open], '[')
              && s[close] == ']' && Without(s[open..close], ']')
  {
    hide HasKey;
    hide Anchor;
    hide Find;
    AnchorExact(s);
    forall a: nat, b: nat | FirstKey(s, a) && FirstKey(s, b) ensures a == b {
      assert a < b ==> HasKey(s, a);
      assert b < a ==> HasKey(s, b);
    }
    if Anchor(s).Some? {
      var start := Anchor(s).value;
      FindExact(s, start, '[', open);
      if start <= open < |s| && s[open] == '[' && Without(s[start..open], '[') {
        FindExact(s, open, ']', close);
      }
    }
  }

  lemma FindExact(s: string, from: nat, c: char, at: nat)
    requires from <= |s|
    ensures Find(s, from, c) == at && at < |s| <==> from <= at < |s| && s[at] == c && Without(s[from..at], c)
  {
    var t := s[from..];
    if from <= at < |s| && s[at] == c && Without(s[from..at], c) {
      forall i | 0 <= i < at - from ensures t[i] != c {
        assert s[from..at][i] == t[i];
      }
      IndexIs(t, c, at - from);
    }
    if Find(s, from, c) == at && at < |s| {
      forall i | 0 <= i < at - from ensures s[from..at][i] != c {
        assert t[i] == s[from..at][i];
      }
    }
  }

  /** The layout of an array that was on more than one line. */
  lemma ManyLinesExample()
    ensures Rendered(["a", "b"], true) == "\n    \"a\",\n    \"b\",\n"
    ensures Rendered(["a", "b"], false) == "\"a\", \"b\""
  {
    assert ["a", "b"][1..] == ["b"] && ["b"][1..] == [];
  }

  /**
   `add_workspace_member`. A present member leaves the file alone; a comment in the array
   or a missing array is refused.
   */
  method AddMember(src: string, member: string) returns (edit: Edit)
    ensures edit == Insert(src, member)
  {
    hide Anchor;
    hide Entries;
    hide Rendered;
    var start := FindAnchor(src);
    if start.None? {
      return Refused;
    }
    var open := Find(src, start.value, '[');
    if open == |src| {
      return Refused;
    }
    var close := Find(src, open, ']');
    if close == |src| {
      return Refused;
    }
    var body := src[open + 1..close];
    if '#' in body {
      return Refused;
    }
    var items := Entries(body);
    if member in items {
      return Unchanged;
    }
    var p := Position(items, member);
    PlaceIs(items, member, p);
    var grown := items[..p] + [member] + items[p..];
    return Edited(src[..open] + "[" + Rendered(grown, '\n' in body) + "]" + src[close + 1..]);
  }

  /** The position before the first greater entry, as a function. */
  function Place(items: seq<string>, member: string): (p: nat)
    ensures p <= |items|
  {
    if items == [] || Greater(items[0], member) then 0 else 1 + Place(items[1..], member)
  }

  lemma {:induction false} PlaceIs(items: seq<string>, member: string, p: nat)
    requires p <= |items|
    ensures p == Place(items, member) <==>
            && (forall i :: 0 <= i < p ==> !Greater(items[i], member))
            && (p < |items| ==> Greater(items[p], member))
  {
    if items != [] && !Greater(items[0], member) {
      if p > 0 {
        PlaceIs(items[1..], member, p - 1);
      }
    }
  }

  /** The entries with the new one in its place. */
  function Grown(items: seq<string>, member: string): seq<string> {
    var p := Place(items, member);
    items[..p] + [member] + items[p..]
  }

  function Insert(src: string, member: string): Edit {
    match Brackets(src)
    case None => Refused
    case Some(span) =>
      var body := Body(src, span);
      if '#' in body then Refused
      else
        var items := Entries(body);
        if member in items then Unchanged
        else
          Edited(src[..span.open] + "[" + Rendered(Grown(items, member), '\n' in body) + "]" + src[span.close + 1..])
  }

  // ---------------------------------------------------------------------------
  // Entries are read back
  // ---------------------------------------------------------------------------

  /** An entry as it is parsed: not empty, no quote at either end, no comma. */
  predicate Good(x: string) {
    x != "" && x[0] != '"' && x[|x| - 1] != '"' && Without(x, ',')
  }

  predicate AllGood(items: seq<string>) {
    forall i :: 0 <= i < |items| ==> Good(items[i])
  }

  predicate AllWithout(items: seq<string>, c: char) {
    forall i :: 0 <= i < |items| ==> Without(items[i], c)
  }

  lemma {:induction false} UnquoteEndFront(s: string)
    ensures s != "" && s[0] != '"' && UnquoteEnd(s) != "" ==> UnquoteEnd(s)[0] == s[0]
  {
  }

  lemma EntryGood(piece: string, c: char)
    requires Without(piece, c)
    ensures Without(Entry(piece), c)
    ensures Entry(piece) != "" ==> Entry(piece)[0] != '"' && Entry(piece)[|Entry(piece)| - 1] != '"'
  {
    var t := TrimEnd(TrimStart(piece));
    assert Without(t, c);
    assert Without(UnquoteStart(t), c);
    UnquoteEndFront(UnquoteStart(t));
  }

  lemma {:induction false} EntriesGood(body: string)
    ensures AllGood(Entries(body))
    decreases |body|
  {
    hide Entry;
    hide Without;
    var n := IndexOf(body, ',');
    PieceWithout(body);
    EntryGood(body[..n], ',');
    if n < |body| {
      EntriesGood(body[n + 1..]);
    }
  }

  lemma PieceWithout(body: string)
    ensures Without(body[..IndexOf(body, ',')], ',')
  {
  }

  lemma {:induction false} EntriesWithout(body: string, c: char)
    requires Without(body, c)
    ensures AllWithout(Entries(body), c)
    decreases |body|
  {
    hide Entry;
    var n := IndexOf(body, ',');
    EntryGood(body[..n], c);
    if n < |body| {
      EntriesWithout(body[n + 1..], c);
    }
  }

  lemma {:induction false} LeadWhite(w: string, s: string)
    requires AllWhite(w) && (s == "" || !White(s[0]))
    ensures Lead(w + s) == |w|
  {
    if w == "" {
      assert w + s == s;
    } else {
      assert (w + s)[1..] == w[1..] + s;
      LeadWhite(w[1..], s);
    }
  }

  lemma {:induction false} TrimEndWhite(s: string, v: string)
    requires AllWhite(v) && (s == "" || !White(s[|s| - 1]))
    ensures TrimEnd(s + v) == s
    decreases |v|
  {
    if v == "" {
      assert s + v == s;
    } else {
      assert (s + v)[..|s + v| - 1] == s + v[..|v| - 1];
      TrimEndWhite(s, v[..|v| - 1]);
    }
  }

  lemma TrimBack(w: string, q: string)
    requires AllWhite(w) && q != "" && !White(q[0]) && !White(q[|q| - 1])
    ensures TrimEnd(TrimStart(w + q)) == q
  {
    LeadWhite(w, q);
    assert (w + q)[|w|..] == q;
  }

  lemma UnquoteBack(x: string)
    requires x != "" && x[0] != '"' && x[|x| - 1] != '"'
    ensures UnquoteEnd(UnquoteStart(Quote(x))) == x
  {
    var t := x + "\"";
    assert Quote(x)[1..] == t && t[..|x|] == x;
    assert UnquoteStart(t) == t;
    assert UnquoteEnd(x) == x;
  }

  lemma EntryBack(w: string, x: string)
    requires AllWhite(w) && Good(x)
    ensures Entry(w + Quote(x)) == x && Without(w + Quote(x), ',')
  {
    TrimBack(w, Quote(x));
    UnquoteBack(x);
    hide TrimEnd;
    hide TrimStart;
    hide UnquoteEnd;
    hide UnquoteStart;
  }

  lemma WhiteIsNoEntry(w: string)
    requires AllWhite(w)
    ensures Entry(w) == ""
  {
    LeadWhite(w, "");
    assert w + "" == w;
  }

  lemma EntriesMore(head: string, rest: string)
    requires Without(head, ',')
    ensures Entries(head + "," + rest) ==
            if Entry(head) == "" then Entries(rest) else [Entry(head)] + Entries(rest)
  {
    hide Entry;
    var body := head + "," + rest;
    IndexIs(body, ',', |head|);
    assert body[..|head|] == head && body[|head| + 1..] == rest;
  }

  lemma EntriesLast(head: string)
    requires Without(head, ',')
    ensures Entries(head) == if Entry(head) == "" then [] else [Entry(head)]
  {
    hide Entry;
    assert IndexOf(head, ',') == |head|;
    assert head[..|head|] == head;
  }

  lemma NothingBack(w: string)
    requires AllWhite(w)
    ensures Entries(w) == []
  {
    WhiteIsNoEntry(w);
    EntriesLast(w);
  }

  lemma {:induction false} OneLineBack(items: seq<string>, w: string)
    requires AllGood(items) && AllWhite(w)
    ensures Entries(w + OneLine(items)) == items
    decreases |items|
  {
    hide Entries;
    hide Entry;
    hide Good;
    hide Quote;
    hide Without;
    if items == [] {
      assert w + "" == w;
      NothingBack(w);
    } else {
      var head := w + Quote(items[0]);
      EntryBack(w, items[0]);
      GoodIsThere(items[0]);
      if |items| == 1 {
        EntriesLast(head);
        assert items == [items[0]];
      } else {
        var rest := " " + OneLine(items[1..]);
        assert w + OneLine(items) == head + "," + rest;
        EntriesMore(head, rest);
        OneLineBack(items[1..], " ");
      }
    }
  }

  lemma GoodIsThere(x: string)
    requires Good(x)
    ensures x != ""
  {
  }

  lemma {:induction false} ManyLinesBack(items: seq<string>, w: string)
    requires AllGood(items) && AllWhite(w)
    ensures Entries(w + ManyLines(items)) == items
    decreases |items|
  {
    hide Entries;
    hide Entry;
    hide Good;
    hide Quote;
    hide Without;
    if items == [] {
      assert w + "" == w;
      NothingBack(w);
    } else {
      var indent := w + "    ";
      var head := indent + Quote(items[0]);
      EntryBack(indent, items[0]);
      GoodIsThere(items[0]);
      var rest := "\n" + ManyLines(items[1..]);
      ManyLinesStep(items, w);
      EntriesMore(head, rest);
      ManyLinesBack(items[1..], "\n");
    }
  }

  lemma ManyLinesStep(items: seq<string>, w: string)
    requires items != []
    ensures w + ManyLines(items) == (w + "    " + Quote(items[0])) + "," + ("\n" + ManyLines(items[1..]))
  {
    hide Quote;
    var line, rest := "    " + Quote(items[0]), ManyLines(items[1..]);
    assert line + ",\n" + rest == line + "," + ("\n" + rest);
    assert w + (line + "," + ("\n" + rest)) == (w + line) + "," + ("\n" + rest);
    assert w + line == w + "    " + Quote(items[0]);
  }

  lemma {:induction false} OneLineWithout(items: seq<string>, c: char)
    requires AllWithout(items, c) && c != '"' && c != ',' && c != ' '
    ensures Without(OneLine(items), c)
    decreases |items|
  {
    if |items| > 1 {
      OneLineWithout(items[1..], c);
    }
  }

  lemma {:induction false} ManyLinesWithout(items: seq<string>, c: char)
    requires AllWithout(items, c) && c != '"' && c != ',' && c != ' ' && c != '\n'
    ensures Without(ManyLines(items), c)
    decreases |items|
  {
    if items != [] {
      ManyLinesWithout(items[1..], c);
    }
  }

  lemma RenderedBack(items: seq<string>, many: bool)
    requires AllGood(items)
    ensures Entries(Rendered(items, many)) == items
  {
    hide Entries;
    if many {
      ManyLinesBack(items, "\n");
    } else {
      OneLineBack(items, "");
      assert "" + OneLine(items) == OneLine(items);
    }
  }

  lemma RenderedWithout(items: seq<string>, many: bool, c: char)
    requires AllWithout(items, c) && (c == ']' || c == '#')
    ensures Without(Rendered(items, many), c)
  {
    OneLineWithout(items, c);
    ManyLinesWithout(items, c);
  }

  // ---------------------------------------------------------------------------
  // The array is found again
  // ---------------------------------------------------------------------------

  ghost predicate SameUpTo(a: string, b: string, n: nat) {
    n <= |a| && n <= |b| && forall k :: 0 <= k < n ==> a[k] == b[k]
  }

  /** A line that begins with white space, the key, white space and `=`, which is at `i + |KEY| + n`. */
  ghost predicate KeyLine(line: string, i: nat, n: nat) {
    && i + |KEY| + n < |line|
    && (forall k :: 0 <= k < i ==> White(line[k]))
    && (forall k :: i <= k < i + |KEY| ==> line[k] == KEY[k - i])
    && (forall k :: i + |KEY| <= k < i + |KEY| + n ==> White(line[k]))
    && line[i + |KEY| + n] == '='
  }

  lemma KeyLineHas(line: string) returns (i: nat, n: nat)
    requires Equals(line).Some?
    ensures KeyLine(line, i, n) && Equals(line).value == i + |KEY| + n
  {
    i := Lead(line);
    var tail := line[i + |KEY|..];
    n := Lead(tail);
    assert forall k :: i <= k < i + |KEY| ==> line[k] == line[i..i + |KEY|][k - i];
    assert forall k :: i + |KEY| <= k < i + |KEY| + n ==> line[k] == tail[k - i - |KEY|];
  }

  lemma KeyLineIs(line: string, i: nat, n: nat)
    requires KeyLine(line, i, n)
    ensures Equals(line) == Some(i + |KEY| + n)
  {
    assert line[i] == KEY[0] == 'm';
    LeadIs(line, i);
    assert line[i..i + |KEY|] == KEY;
    var tail := line[i + |KEY|..];
    LeadIs(tail, n);
  }

  lemma {:induction false} LeadIs(s: string, n: nat)
    requires n < |s| && !White(s[n]) && forall k :: 0 <= k < n ==> White(s[k])
    ensures Lead(s) == n
  {
    if n > 0 {
      LeadIs(s[1..], n - 1);
    }
  }

  /** Whether a line begins the array is decided by what stands up to its equals sign. */
  lemma EqualsPrefix(a: string, b: string, j: nat)
    requires Equals(a) == Some(j) && SameUpTo(a, b, j + 1)
    ensures Equals(b) == Some(j)
  {
    hide Equals;
    var i, n := KeyLineHas(a);
    assert KeyLine(b, i, n);
    KeyLineIs(b, i, n);
  }

  lemma EqualsPosition(line: string, j: nat)
    requires Equals(line) == Some(j)
    ensures j < |line| && line[j] == '='
    ensures forall k :: 0 <= k <= j ==> line[k] != '['
  {
    hide Equals;
    var i, n := KeyLineHas(line);
    assert forall k :: 0 <= k < |KEY| ==> KEY[k] != '[';
  }

  /** The `=` of the anchored line, as a position in the text. */
  ghost predicate EqualsAt(s: string, start: nat, e: nat) {
    start <= e < |s| && Equals(s[start..][..LineSize(s[start..])]) == Some(e - start)
  }

  lemma AnchorOnFirst(s: string, e: nat)
    requires s != "" && Equals(s[..LineSize(s)]) == Some(e)
    ensures Anchor(s) == Some(0)
  {
  }

  lemma AnchorLater(s: string)
    requires Anchor(s).Some? && Equals(s[..LineSize(s)]).None?
    ensures LineSize(s) < |s|
    ensures var rest := s[LineSize(s)..]; Anchor(rest).Some? && Anchor(s).value == LineSize(s) + Anchor(rest).value
  {
  }

  lemma EqualsAtFirst(s: string, e: nat)
    requires Equals(s[..LineSize(s)]) == Some(e)
    ensures EqualsAt(s, 0, e)
  {
    hide Equals;
    EqualsPosition(s[..LineSize(s)], e);
    assert s[0..] == s;
  }

  lemma EqualsAtPush(s: string, n: nat, start: nat, e: nat)
    requires n <= |s| && EqualsAt(s[n..], start, e)
    ensures EqualsAt(s, n + start, n + e)
  {
    hide Equals;
    assert s[n..][start..] == s[n + start..];
  }

  lemma {:induction false} AnchorEquals(s: string) returns (e: nat)
    requires Anchor(s).Some?
    ensures EqualsAt(s, Anchor(s).value, e)
    decreases |s|
  {
    hide Equals;
    hide Anchor;
    hide LineSize;
    hide EqualsAt;
    var n := LineSize(s);
    NoAnchor();
    if Equals(s[..n]).Some? {
      e := Equals(s[..n]).value;
      EqualsAtFirst(s, e);
      AnchorOnFirst(s, e);
    } else {
      AnchorLater(s);
      e := AnchorEquals(s[n..]);
      EqualsAtPush(s, n, Anchor(s[n..]).value, e);
      e := n + e;
    }
  }

  lemma SameFirstLine(a: string, b: string, e: nat)
    requires a != "" && Equals(a[..LineSize(a)]) == Some(e) && SameUpTo(a, b, e + 1)
    ensures Equals(b[..LineSize(b)]) == Some(e)
  {
    hide Equals;
    var line, other := a[..LineSize(a)], b[..LineSize(b)];
    EqualsPosition(line, e);
    assert forall k :: 0 <= k < e ==> a[k] == line[k];
    assert a[e] == line[e];
    assert LineSize(b) > e;
    assert SameUpTo(line, other, e + 1);
    EqualsPrefix(line, other, e);
  }

  lemma SameLine(a: string, b: string)
    requires LineSize(a) < |a| && SameUpTo(a, b, LineSize(a))
    ensures LineSize(b) == LineSize(a) && b[..LineSize(a)] == a[..LineSize(a)]
  {
    IndexIs(b, '\n', IndexOf(a, '\n'));
  }

  lemma EqualsAtLater(s: string, n: nat, start: nat, e: nat)
    requires n <= |s| && EqualsAt(s, n + start, e)
    ensures n <= e && EqualsAt(s[n..], start, e - n)
  {
    hide Equals;
    assert s[n..][start..] == s[n + start..];
  }

  lemma {:induction false} AnchorKept(a: string, b: string, e: nat)
    requires Anchor(a).Some? && EqualsAt(a, Anchor(a).value, e) && SameUpTo(a, b, e + 1)
    ensures Anchor(b) == Anchor(a)
    decreases |a|
  {
    hide Equals;
    hide Anchor;
    hide LineSize;
    var n := LineSize(a);
    if Equals(a[..n]).Some? {
      AnchorOnFirst(a, Equals(a[..n]).value);
      assert a[0..] == a;
      SameFirstLine(a, b, e);
      AnchorOnFirst(b, e);
    } else {
      AnchorLater(a);
      EqualsAtLater(a, n, Anchor(a[n..]).value, e);
      SameLine(a, b);
      AnchorKept(a[n..], b[n..], e - n);
      AnchorStep(b);
    }
  }

  // ---------------------------------------------------------------------------
  // What an edit does
  // ---------------------------------------------------------------------------

  /** The text with other entries between the brackets. */
  function Replaced(src: string, span: Span, inner: string): string
    requires span.open < span.close < |src|
  {
    src[..span.open] + "[" + inner + "]" + src[span.close + 1..]
  }

  lemma BracketsAre(s: string, start: nat, span: Span)
    requires Anchor(s) == Some(start) && start <= span.open < span.close < |s|
    requires Find(s, start, '[') == span.open && Find(s, span.open, ']') == span.close
    ensures Brackets(s) == Some(span)
  {
    hide Anchor;
    hide Find;
  }

  lemma BracketsHave(s: string) returns (start: nat, e: nat)
    requires Brackets(s).Some?
    ensures Anchor(s) == Some(start) && EqualsAt(s, start, e) && start <= e < Brackets(s).value.open
    ensures Find(s, start, '[') == Brackets(s).value.open
  {
    hide Anchor;
    hide Equals;
    hide LineSize;
    hide Find;
    hide EqualsAt;
    start := Anchor(s).value;
    e := AnchorEquals(s);
    NoBracketBefore(s, start, e);
  }

  lemma SameIndex(a: string, b: string, start: nat, open: nat)
    requires start <= open && open < |a| && SameUpTo(a, b, open + 1) && Find(a, start, '[') == open
    ensures Find(b, start, '[') == open
  {
    var n := open - start;
    assert forall k :: 0 <= k <= n ==> a[start..][k] == a[start + k] && b[start..][k] == b[start + k];
    IndexIs(b[start..], '[', n);
  }

  lemma ReplacedFront(src: string, span: Span, inner: string)
    requires span.open < span.close < |src| && src[span.open] == '['
    ensures SameUpTo(src, Replaced(src, span, inner), span.open + 1)
    ensures span.open + 1 + |inner| < |Replaced(src, span, inner)|
  {
  }

  /** After an edit the same array is found, with what was written between its brackets. */
  lemma BracketsKept(src: string, inner: string)
    requires Brackets(src).Some? && Without(inner, ']')
    ensures var span := Brackets(src).value;
            var out := Replaced(src, span, inner);
            Brackets(out) == Some(Span(span.open, span.open + 1 + |inner|)) && Body(out, Brackets(out).value) == inner
  {
    hide Anchor;
    hide Brackets;
    hide Find;
    hide EqualsAt;
    hide Replaced;
    hide SameUpTo;
    var span := Brackets(src).value;
    var out := Replaced(src, span, inner);
    var start, e := BracketsHave(src);
    ReplacedFront(src, span, inner);
    SameLess(src, out, e + 1, span.open + 1);
    AnchorKept(src, out, e);
    SameIndex(src, out, start, span.open);
    ClosingFound(src, span, inner);
    BracketsAre(out, start, Span(span.open, span.open + 1 + |inner|));
  }

  lemma SameLess(a: string, b: string, n: nat, more: nat)
    requires n <= more && SameUpTo(a, b, more)
    ensures SameUpTo(a, b, n)
  {
  }

  lemma NoBracketBefore(src: string, start: nat, e: nat)
    requires EqualsAt(src, start, e)
    ensures start <= e < Find(src, start, '[')
  {
    hide Equals;
    var line := src[start..][..LineSize(src[start..])];
    EqualsPosition(line, e - start);
    assert forall k :: 0 <= k <= e - start ==> line[k] == src[start..][k];
  }

  lemma ClosingFound(src: string, span: Span, inner: string)
    requires span.open < span.close < |src| && Without(inner, ']')
    ensures var out := Replaced(src, span, inner);
            && Find(out, span.open, ']') == span.open + 1 + |inner|
            && out[span.open + 1..span.open + 1 + |inner|] == inner
  {
    var out := Replaced(src, span, inner);
    var tail := out[span.open..];
    assert tail == "[" + inner + "]" + src[span.close + 1..];
    IndexIs(tail, ']', 1 + |inner|);
  }

  lemma {:induction false} GreaterOrder(a: string, b: string, c: string)
    ensures !(Greater(a, b) && Greater(b, a))
    ensures Greater(a, b) && Greater(b, c) ==> Greater(a, c)
    ensures !Greater(a, b) && !Greater(b, a) ==> a == b
    decreases |a|
  {
    if a != "" && b != "" {
      GreaterOrder(a[1..], b[1..], if c == "" then "" else c[1..]);
      if a[0] == b[0] && a[1..] == b[1..] {
        assert a == [a[0]] + a[1..];
      }
    }
  }

  /** A sorted list stays sorted. */
  lemma GrownSorted(items: seq<string>, member: string)
    requires Sorted(items)
    ensures Sorted(Grown(items, member))
  {
    var p := Place(items, member);
    PlaceIs(items, member, p);
    var grown := Grown(items, member);
    forall i, j | 0 <= i < j < |grown| ensures !Greater(grown[i], grown[j]) {
      if i == p {
        var x := items[j - 1];
        if j - 1 > p {
          GreaterOrder(member, x, items[p]);
          GreaterOrder(x, items[p], member);
          assert !Greater(items[p], x);
        } else {
          GreaterOrder(member, x, x);
        }
      }
    }
  }

  /** A member name as the generator makes it. */
  predicate GoodMember(member: string) {
    Good(member) && Without(member, ']') && Without(member, '#') && Without(member, '\n')
  }

  lemma GrownGood(items: seq<string>, member: string, c: char)
    ensures AllGood(items) && Good(member) ==> AllGood(Grown(items, member))
    ensures AllWithout(items, c) && Without(member, c) ==> AllWithout(Grown(items, member), c)
    ensures member in Grown(items, member)
  {
    var p := Place(items, member);
    assert Grown(items, member)[p] == member;
  }

  /**
   An edit keeps everything outside the brackets and the old entries in their order,
   re-parses to them plus the new one, keeps the layout, and is done once.
   */
  lemma EditInserts(src: string, member: string)
    requires GoodMember(member) && Insert(src, member).Edited?
    ensures var span := Brackets(src).value;
            var items := Entries(Body(src, span));
            var out := Insert(src, member).text;
            && Members(src) == Some(items) && member !in items
            && (exists inner :: out == Replaced(src, span, inner))
            && Members(out) == Some(Grown(items, member))
            && Insert(out, member) == Unchanged
            && Brackets(out).Some?
            && ('\n' in Body(out, Brackets(out).value) <==> '\n' in Body(src, span))
  {
    hide Entries;
    hide Brackets;
    hide Rendered;
    hide Grown;
    hide Good;
    var span := Brackets(src).value;
    var body := Body(src, span);
    var items := Entries(body);
    var many := '\n' in body;
    var grown := Grown(items, member);
    BodyWithout(src, span);
    EntriesGood(body);
    EntriesWithout(body, ']');
    EntriesWithout(body, '#');
    GrownGood(items, member, ']');
    GrownGood(items, member, '#');
    RenderedBack(grown, many);
    RenderedWithout(grown, many, ']');
    RenderedWithout(grown, many, '#');
    BracketsKept(src, Rendered(grown, many));
    assert Insert(src, member).text == Replaced(src, span, Rendered(grown, many));
    LayoutKept(body, items, grown, member);
  }

  lemma BodyWithout(src: string, span: Span)
    requires Brackets(src) == Some(span)
    ensures Without(Body(src, span), ']')
  {
    var tail := src[span.open..];
    assert forall k :: 0 <= k < |Body(src, span)| ==> Body(src, span)[k] == tail[k + 1];
  }

  lemma LayoutKept(body: string, items: seq<string>, grown: seq<string>, member: string)
    requires items == Entries(body) && grown == Grown(items, member) && Without(member, '\n')
    ensures '\n' in Rendered(grown, '\n' in body) <==> '\n' in body
  {
    hide Entries;
    hide Grown;
    if '\n' in body {
      assert Rendered(grown, true)[0] == '\n';
    } else {
      EntriesWithout(body, '\n');
      GrownGood(items, member, '\n');
      OneLineWithout(grown, '\n');
    }
  }

  /** An entry in TOML literal quotes is taken for its text with those quotes, and quoted again. */
  lemma LiteralStringsAreRequoted()
    ensures Entries("'a'") == ["'a'"] && OneLine(Entries("'a'")) == "\"'a'\""
  {
    var s := "'a'";
    assert Lead(s) == 0 && TrimStart(s) == s;
    assert TrimEnd(s) == s && UnquoteStart(s) == s && UnquoteEnd(s) == s;
    EntriesLast(s);
  }
}
