/**
 The freshness stamp as text: three lines, written and read back.
 */
module Manifest {
  import opened Bytes

  datatype Manifest = Manifest(version: string, lang: string, hash: string)

  /** `str::lines`: a line ends at a newline, together with a carriage return before it. */
  function Lines(s: string): seq<string> {
    if s == "" then []
    else
      var n := LineLength(s);
      if n == |s| then [s] else [WithoutReturn(s[..n])] + Lines(s[n + 1..])
  }

  function LineLength(s: string): (n: nat)
    ensures n <= |s| && (n < |s| ==> s[n] == '\n')
    ensures forall i :: 0 <= i < n ==> s[i] != '\n'
  {
    if s == "" || s[0] == '\n' then 0 else LineLength(s[1..]) + 1
  }

  function WithoutReturn(line: string): string {
    if line != "" && line[|line| - 1] == '\r' then line[..|line| - 1] else line
  }

  function Render(m: Manifest): string {
    "crabgen " + m.version + "\n" + "lang " + m.lang + "\n" + "wit-sha256 " + m.hash + "\n"
  }

  /** The value of line `i`, which must be `key`, one space, and something. */
  function Field(lines: seq<string>, i: nat, key: string): Option<string> {
    if i >= |lines| then None
    else
      var head := key + " ";
      if head <= lines[i] && |lines[i]| > |head| then Some(lines[i][|head|..]) else None
  }

  function Parse(s: string): Option<Manifest> {
    var lines := Lines(s);
    match (Field(lines, 0, "crabgen"), Field(lines, 1, "lang"), Field(lines, 2, "wit-sha256"))
    case (Some(version), Some(lang), Some(hash)) => if |lines| > 3 then None else Some(Manifest(version, lang, hash))
    case _ => None
  }

  /** A value that survives: it is there, has no newline in it and no carriage return at its end. */
  predicate Clean(value: string) {
    value != "" && value[|value| - 1] != '\r' && forall i :: 0 <= i < |value| ==> value[i] != '\n'
  }

  predicate OneLine(s: string) {
    forall i :: 0 <= i < |s| ==> s[i] != '\n'
  }

  lemma {:induction false} LengthOfLine(a: string, rest: string)
    requires OneLine(a)
    ensures LineLength(a + "\n" + rest) == |a|
  {
    var s := a + "\n" + rest;
    if a != "" {
      assert s[1..] == a[1..] + "\n" + rest;
      LengthOfLine(a[1..], rest);
    }
  }

  lemma LinesCons(a: string, rest: string)
    requires OneLine(a)
    ensures Lines(a + "\n" + rest) == [WithoutReturn(a)] + Lines(rest)
  {
    LengthOfLine(a, rest);
    var s := a + "\n" + rest;
    assert s[..|a|] == a && s[|a| + 1..] == rest;
  }

  lemma {:induction false} LinesAreOneLine(s: string, i: nat)
    requires i < |Lines(s)|
    ensures OneLine(Lines(s)[i])
    decreases |s|
  {
    var n := LineLength(s);
    if n < |s| && i > 0 {
      LinesAreOneLine(s[n + 1..], i - 1);
    }
  }

  lemma NoLines()
    ensures Lines("") == []
  {
  }

  /** What a parsed value can be. */
  lemma ParsedClean(s: string, m: Manifest)
    requires Parse(s) == Some(m)
    ensures OneLine(m.version) && OneLine(m.lang) && OneLine(m.hash)
    ensures m.version != "" && m.lang != "" && m.hash != ""
  {
    LinesAreOneLine(s, 0);
    LinesAreOneLine(s, 1);
    LinesAreOneLine(s, 2);
  }

  lemma RenderLines(m: Manifest)
    requires OneLine(m.version) && OneLine(m.lang) && OneLine(m.hash)
    ensures Lines(Render(m)) ==
            [WithoutReturn("crabgen" + " " + m.version), WithoutReturn("lang" + " " + m.lang),
             WithoutReturn("wit-sha256" + " " + m.hash)]
  {
    hide Lines;
    hide WithoutReturn;
    var a, b, c := "crabgen" + " " + m.version, "lang" + " " + m.lang, "wit-sha256" + " " + m.hash;
    var tail2 := c + "\n" + "";
    var tail1 := b + "\n" + tail2;
    assert Render(m) == a + "\n" + tail1;
    LinesCons(a, tail1);
    LinesCons(b, tail2);
    LinesCons(c, "");
    NoLines();
  }

  lemma OneLineBack(m: Manifest)
    requires OneLine(m.version) && OneLine(m.lang) && OneLine(m.hash)
    ensures Parse(Render(m)) == Some(m) <==> Clean(m.version) && Clean(m.lang) && Clean(m.hash)
  {
    RenderLines(m);
    FieldBack("crabgen", m.version);
    FieldBack("lang", m.lang);
    FieldBack("wit-sha256", m.hash);
    hide Lines;
    hide Render;
    hide WithoutReturn;
    hide Clean;
    hide OneLine;
    var lines := Lines(Render(m));
    assert Field(lines, 0, "crabgen") == Field([lines[0]], 0, "crabgen");
    assert Field(lines, 1, "lang") == Field([lines[1]], 0, "lang");
    assert Field(lines, 2, "wit-sha256") == Field([lines[2]], 0, "wit-sha256");
  }

  /** `parse` inverts `render` exactly on clean fields. */
  lemma ParseInvertsRender(m: Manifest)
    ensures Parse(Render(m)) == Some(m) <==> Clean(m.version) && Clean(m.lang) && Clean(m.hash)
  {
    if OneLine(m.version) && OneLine(m.lang) && OneLine(m.hash) {
      OneLineBack(m);
    } else if Parse(Render(m)).Some? {
      ParsedClean(Render(m), Parse(Render(m)).value);
    }
  }

  lemma FieldBack(key: string, value: string)
    requires OneLine(value)
    ensures Field([WithoutReturn(key + " " + value)], 0, key) == Some(value) <==> Clean(value)
  {
    var line := key + " " + value;
    if value != "" {
      assert line[|line| - 1] == value[|value| - 1];
      assert WithoutReturn(line) == key + " " + WithoutReturn(value);
      assert (key + " " + WithoutReturn(value))[|key| + 1..] == WithoutReturn(value);
      assert |WithoutReturn(value)| < |value| <==> value[|value| - 1] == '\r';
    }
  }
}
