/**
 The SQLite guest in C: its own length decoding with 32-bit arithmetic, and the
 JSON document it prints for the rows of a statement.
 */
module SqliteLane {
  import opened Bytes
  import opened Leb128
  import opened Unicode
  import opened Wire
  import opened Codec
  import opened Json
  import A = Abi
  import M = Mesh

  // ---------------------------------------------------------------------------
  // Parameters
  // ---------------------------------------------------------------------------

  const WORD: nat := 0x1_0000_0000

  /** `uleb_get32`: the value and the cursor after it, or none. */
  method UlebGet32(p: seq<byte>, start: nat) returns (r: Option<(nat, nat)>)
    ensures var step := DecUleb(32, p, start);
            r == if step.Ok? then Some((step.value, step.pos)) else None
  {
    hide DecUlebFrom;
    hide Pow2;
    hide Reading;
    hide ShiftLeft;
    ghost var all := DecUleb(32, p, start);
    ReadingStart(all);
    var pos: nat, result := start, 0;
    for i := 0 to 5
      invariant 0 <= result < Pow2(7 * i)
      invariant Reading(result, i, DecUlebFrom(32, p, pos, i), all)
    {
      UlebByte(32, p, pos, i, result, all);
      if pos >= |p| {
        return None;
      }
      var b := p[pos];
      pos := pos + 1;
      var payload := b % 128;
      if i == 4 && payload / 16 != 0 {
        FifthByte();
        return None;
      }
      FifthByte();
      NoCarry(32, 7 * i, result, payload);
      result := Or(result, ShiftLeft(payload, 7 * i));
      if b < 128 {
        return Some((result, pos));
      }
    }
    UlebByte(32, p, pos, 5, result, all);
    return None;
  }

  lemma FifthByte()
    ensures Pow2(4) == 16
  {
    Pow2Seven();
  }

  /** One complete string and nothing after it; the text itself is not checked. */
  ghost predicate OneString(args: seq<byte>, sql: seq<byte>) {
    exists k :: 0 <= k <= |args| && IsUleb(32, |sql|, args[..k]) && args[k..] == sql
  }

  /**
   The parameter check of `crab_invoke`. The sum of the cursor and the length is taken
   modulo 2^32, and is still compared exactly.
   */
  method SqlParam(args: seq<byte>) returns (sql: Option<seq<byte>>)
    requires |args| < WORD
    ensures sql.Some? ==> OneString(args, sql.value)
    ensures sql.None? ==> forall s :: !OneString(args, s)
  {
    hide Pow2;
    hide IsUleb;
    hide DecUleb;
    hide OneString;
    var r := UlebGet32(args, 0);
    if r.None? {
      NoHeader(args);
      return None;
    }
    var (len, pos) := r.value;
    HeaderIs(args, len, pos);
    WrapIsExact(pos, len, |args|);
    var end := (pos + len) % WORD;
    if end > |args| {
      return None;
    }
    if end != |args| {
      return None;
    }
    sql := Some(args[pos..]);
  }

  /** A cursor inside the buffer leaves no room for a sum that wraps onto its length. */
  lemma WrapIsExact(pos: nat, len: nat, n: nat)
    requires pos <= n < WORD && len < WORD
    ensures (pos + len) % WORD == n <==> pos + len == n
  {
  }

  lemma NoHeader(args: seq<byte>)
    requires DecUleb(32, args, 0).Err?
    ensures forall s :: !OneString(args, s)
  {
    hide DecUleb;
    forall s: seq<byte> ensures !OneString(args, s) {
      forall k | 0 <= k <= |args| ensures !(IsUleb(32, |s|, args[..k]) && args[k..] == s) {
        assert args[0..k] == args[..k];
        UlebExact(32, args, 0, |s|, k);
      }
    }
  }

  /** The header is where it is: a string of the buffer begins after it and has its length. */
  lemma HeaderIs(args: seq<byte>, len: nat, pos: nat)
    requires DecUleb(32, args, 0) == Ok(len, pos)
    ensures pos <= |args| && IsUleb(32, len, args[..pos]) && len < WORD
    ensures forall s :: OneString(args, s) <==> |s| == len && args[pos..] == s
  {
    hide DecUleb;
    Pow2Sizes();
    hide Pow2;
    UlebExact(32, args, 0, len, pos);
    assert args[0..pos] == args[..pos];
    forall s: seq<byte> ensures OneString(args, s) <==> |s| == len && args[pos..] == s {
      if OneString(args, s) {
        var k :| 0 <= k <= |args| && IsUleb(32, |s|, args[..k]) && args[k..] == s;
        assert args[0..k] == args[..k];
        UlebExact(32, args, 0, |s|, k);
      }
    }
  }

  /** The other lanes accept the same buffers, less those whose text is not UTF-8. */
  lemma OthersAlsoCheckUtf8(args: seq<byte>, sql: seq<byte>)
    ensures DecodeWhole(TString, args) == Ok(VString(sql), |args|) <==> OneString(args, sql) && IsUtf8(sql)
  {
    hide DecUleb;
    hide IsUtf8;
    hide OneString;
    hide IsUleb;
    hide Pow2;
    match DecUleb(32, args, 0)
    case Err(_) => NoHeader(args);
    case Ok(len, pos) =>
      HeaderIs(args, len, pos);
      if pos + len == |args| {
        assert args[pos..pos + len] == args[pos..];
      }
  }

  // ---------------------------------------------------------------------------
  // The result document
  // ---------------------------------------------------------------------------

  /** A column value; floats, which the guest prints with `%.17g`, are not modelled. */
  datatype Cell = Integer(n: int) | Text(s: seq<byte>) | Null | Blob(bs: seq<byte>)

  function HexOf(bs: seq<byte>): seq<byte> {
    if bs == [] then [] else [HexDigit(bs[0] / 16), HexDigit(bs[0] % 16)] + HexOf(bs[1..])
  }

  /** Two lowercase digits for every byte, the high one first. */
  lemma {:induction false} HexReads(bs: seq<byte>, i: nat)
    requires i < |bs|
    ensures |HexOf(bs)| == 2 * |bs|
    ensures var high, low := HexOf(bs)[2 * i], HexOf(bs)[2 * i + 1];
            && IsLowerHex(high) && IsLowerHex(low)
            && HexValue(high).Some? && HexValue(low).Some?
            && 16 * HexValue(high).value + HexValue(low).value == bs[i]
  {
    HexLength(bs);
    if i > 0 {
      HexReads(bs[1..], i - 1);
      assert HexOf(bs)[2 * i] == HexOf(bs[1..])[2 * (i - 1)];
      assert HexOf(bs)[2 * i + 1] == HexOf(bs[1..])[2 * (i - 1) + 1];
    }
  }

  lemma {:induction false} HexLength(bs: seq<byte>)
    ensures |HexOf(bs)| == 2 * |bs|
  {
    if bs != [] {
      HexLength(bs[1..]);
    }
  }

  predicate IsLowerHex(b: byte) {
    0x30 <= b <= 0x39 || 0x61 <= b <= 0x66
  }

  function CellJson(c: Cell): Json {
    match c
    case Integer(n) => JInt(n)
    case Text(s) => JStr(s)
    case Null => JNull
    case Blob(bs) => JStr(HexOf(bs))
  }

  function CellText(c: Cell): seq<byte> {
    match c
    case Integer(n) => IntText(n)
    case Text(s) => StringText(s)
    case Null => [0x6E, 0x75, 0x6C, 0x6C]
    case Blob(bs) => [0x22] + HexOf(bs) + [0x22]
  }

  function Names(columns: seq<seq<byte>>): (js: seq<Json>)
    ensures |js| == |columns|
  {
    seq(|columns|, i requires 0 <= i < |columns| => JStr(columns[i]))
  }

  function RowJson(row: seq<Cell>): Json {
    JArr(seq(|row|, i requires 0 <= i < |row| => CellJson(row[i])))
  }

  function RowText(row: seq<Cell>): seq<byte> {
    ArrayText(seq(|row|, i requires 0 <= i < |row| => CellText(row[i])))
  }

  /** What a reader of the document should get. */
  function Document(columns: seq<seq<byte>>, rows: seq<seq<Cell>>, changes: int): Json {
    JObj([
      Member(COLUMNS, JArr(Names(columns))),
      Member(ROWS, JArr(seq(|rows|, i requires 0 <= i < |rows| => RowJson(rows[i])))),
      Member(CHANGES, JInt(changes))])
  }

  function NameTexts(columns: seq<seq<byte>>): seq<seq<byte>> {
    seq(|columns|, i requires 0 <= i < |columns| => StringText(columns[i]))
  }

  function RowTexts(rows: seq<seq<Cell>>): seq<seq<byte>> {
    seq(|rows|, i requires 0 <= i < |rows| => RowText(rows[i]))
  }

  /** columns, rows, changes */
  const COLUMNS: seq<byte> := [0x63, 0x6F, 0x6C, 0x75, 0x6D, 0x6E, 0x73]
  const ROWS: seq<byte> := [0x72, 0x6F, 0x77, 0x73]
  const CHANGES: seq<byte> := [0x63, 0x68, 0x61, 0x6E, 0x67, 0x65, 0x73]

  function Quoted(word: seq<byte>): seq<byte> {
    [0x22] + word + [0x22]
  }

  const OPEN_COLUMNS: seq<byte> := [0x7B] + Quoted(COLUMNS) + [0x3A] + [0x5B]
  const OPEN_ROWS: seq<byte> := [0x5D] + [0x2C] + Quoted(ROWS) + [0x3A] + [0x5B]
  const OPEN_CHANGES: seq<byte> := [0x5D] + [0x2C] + Quoted(CHANGES) + [0x3A]

  function DocumentText(columns: seq<seq<byte>>, rows: seq<seq<Cell>>, changes: int): seq<byte> {
    OPEN_COLUMNS + Joined(NameTexts(columns)) + OPEN_ROWS + Joined(RowTexts(rows)) + OPEN_CHANGES + IntText(changes) +
    [0x7D]
  }

  function Chars(s: string): seq<byte> {
    seq(|s|, i requires 0 <= i < |s| => s[i] as int % 256)
  }

  lemma CharsJoin(a: string, b: string)
    ensures Chars(a + b) == Chars(a) + Chars(b)
  {
  }

  lemma Openings()
    ensures OPEN_COLUMNS == Chars("{\"columns\":[")
    ensures OPEN_ROWS == Chars("],\"rows\":[")
    ensures OPEN_CHANGES == Chars("],\"changes\":")
    ensures Chars("0}") == [0x30, 0x7D]
  {
  }

  lemma EmptyParts()
    ensures DocumentText([], [], 0) == OPEN_COLUMNS + OPEN_ROWS + OPEN_CHANGES + ([0x30] + [0x7D])
  {
    assert NameTexts([]) == [] && RowTexts([]) == [] && IntText(0) == [0x30];
    assert OPEN_COLUMNS + [] == OPEN_COLUMNS && OPEN_COLUMNS + OPEN_ROWS + [] == OPEN_COLUMNS + OPEN_ROWS;
  }

  /** The document of no columns and no rows, letter by letter. */
  lemma EmptyDocument()
    ensures DocumentText([], [], 0) == Chars("{\"columns\":[],\"rows\":[],\"changes\":0}")
  {
    EmptyParts();
    Openings();
    hide Chars;
    var a, b, c, d := "{\"columns\":[", "],\"rows\":[", "],\"changes\":", "0}";
    CharsJoin(a, b);
    CharsJoin(a + b, c);
    CharsJoin(a + b + c, d);
    assert a + b + c + d == "{\"columns\":[],\"rows\":[],\"changes\":0}";
    assert [0x30] + [0x7D] == Chars(d);
  }

  // ---------------------------------------------------------------------------
  // Printing
  // ---------------------------------------------------------------------------

  method PrintString(s: seq<byte>, out: Out)
    modifies out
    ensures out.bytes == old(out.bytes) + StringText(s)
  {
    hide CharText;
    out.Push(0x22);
    for i := 0 to |s|
      invariant out.bytes + CharsText(s[i..]) == old(out.bytes) + [0x22] + CharsText(s)
    {
      var c := s[i];
      assert s[i..][1..] == s[i + 1..];
      PrintChar(c, out);
    }
    assert s[|s|..] == [];
    out.Push(0x22);
    assert old(out.bytes) + StringText(s) == old(out.bytes) + [0x22] + CharsText(s) + [0x22];
  }

  method PrintChar(c: byte, out: Out)
    modifies out
    ensures out.bytes == old(out.bytes) + CharText(c)
  {
    match c {
      case 0x22 => out.Extend([0x5C, 0x22]);
      case 0x5C => out.Extend([0x5C, 0x5C]);
      case 0x0A => out.Extend([0x5C, 0x6E]);
      case 0x0D => out.Extend([0x5C, 0x72]);
      case 0x09 => out.Extend([0x5C, 0x74]);
      case _ =>
        if c < 0x20 {
          out.Extend([0x5C, 0x75, 0x30, 0x30, HexDigit(c / 16), HexDigit(c % 16)]);
        } else {
          out.Push(c);
        }
    }
  }

  method PrintCell(c: Cell, out: Out)
    modifies out
    ensures out.bytes == old(out.bytes) + CellText(c)
  {
    match c
    case Integer(n) => out.Extend(IntText(n));
    case Null => out.Extend([0x6E, 0x75, 0x6C, 0x6C]);
    case Text(s) => PrintString(s, out);
    case Blob(bs) => PrintHex(bs, out);
  }

  method PrintHex(bs: seq<byte>, out: Out)
    modifies out
    ensures out.bytes == old(out.bytes) + ([0x22] + HexOf(bs) + [0x22])
  {
    hide HexDigit;
    out.Push(0x22);
    for i := 0 to |bs|
      invariant out.bytes + HexOf(bs[i..]) == old(out.bytes) + [0x22] + HexOf(bs)
    {
      assert bs[i..][1..] == bs[i + 1..];
      out.Extend([HexDigit(bs[i] / 16), HexDigit(bs[i] % 16)]);
    }
    assert bs[|bs|..] == [];
    out.Push(0x22);
    assert old(out.bytes) + ([0x22] + HexOf(bs) + [0x22]) == old(out.bytes) + [0x22] + HexOf(bs) + [0x22];
  }

  lemma {:induction false} JoinedAppend(parts: seq<seq<byte>>, part: seq<byte>)
    ensures Joined(parts + [part]) == Joined(parts) + (if parts == [] then [] else [0x2C]) + part
  {
    if |parts| > 1 {
      assert (parts + [part])[1..] == parts[1..] + [part];
      JoinedAppend(parts[1..], part);
    } else if |parts| == 1 {
      assert (parts + [part])[1..] == [part];
      assert parts + [part] == [parts[0], part];
    } else {
      assert parts + [part] == [part];
    }
  }

  method PrintRow(row: seq<Cell>, out: Out)
    modifies out
    ensures out.bytes == old(out.bytes) + RowText(row)
  {
    hide CellText;
    hide Joined;
    ghost var parts := seq(|row|, i requires 0 <= i < |row| => CellText(row[i]));
    out.Push(0x5B);
    ghost var start := out.bytes;
    NothingJoined();
    for i := 0 to |row|
      invariant out.bytes == start + Joined(parts[..i])
    {
      JoinedAppend(parts[..i], parts[i]);
      assert parts[..i + 1] == parts[..i] + [parts[i]];
      if i > 0 {
        out.Push(0x2C);
      }
      PrintCell(row[i], out);
    }
    assert parts[..|row|] == parts;
    out.Push(0x5D);
  }

  lemma NothingJoined()
    ensures Joined([]) == []
  {
  }

  /** The row loops of `run_sql`, over the rows the statement yields. */
  method PrintDocument(columns: seq<seq<byte>>, rows: seq<seq<Cell>>, changes: int) returns (out: Out)
    ensures fresh(out) && out.bytes == DocumentText(columns, rows, changes)
  {
    hide Joined;
    hide RowText;
    hide StringText;
    NothingJoined();
    out := new Out();
    out.Extend(OPEN_COLUMNS);
    ghost var names, texts := NameTexts(columns), RowTexts(rows);
    for i := 0 to |columns|
      invariant fresh(out) && out.bytes == OPEN_COLUMNS + Joined(names[..i])
    {
      JoinedAppend(names[..i], names[i]);
      assert names[..i + 1] == names[..i] + [names[i]];
      if i > 0 {
        out.Push(0x2C);
      }
      PrintString(columns[i], out);
    }
    assert names[..|columns|] == names;
    out.Extend(OPEN_ROWS);
    ghost var start := out.bytes;
    for i := 0 to |rows|
      invariant fresh(out) && out.bytes == start + Joined(texts[..i])
    {
      JoinedAppend(texts[..i], texts[i]);
      assert texts[..i + 1] == texts[..i] + [texts[i]];
      if i > 0 {
        out.Push(0x2C);
      }
      PrintRow(rows[i], out);
    }
    assert texts[..|rows|] == texts;
    out.Extend(OPEN_CHANGES);
    out.Extend(IntText(changes));
    out.Push(0x7D);
  }

  // ---------------------------------------------------------------------------
  // Reading the document back
  // ---------------------------------------------------------------------------

  lemma {:induction false} HexIsPlain(bs: seq<byte>)
    ensures CharsText(HexOf(bs)) == HexOf(bs)
  {
    if bs != [] {
      HexIsPlain(bs[1..]);
      var a, b := HexDigit(bs[0] / 16), HexDigit(bs[0] % 16);
      var tail := HexOf(bs[1..]);
      assert ([a, b] + tail)[1..] == [b] + tail && ([b] + tail)[1..] == tail;
      assert CharText(a) == [a] && CharText(b) == [b];
      assert CharsText([b] + tail) == [b] + tail;
    }
  }

  lemma CellReads(c: Cell)
    ensures Reads(CellText(c), CellJson(c))
  {
    hide Reads;
    match c
    case Integer(n) => IntReads(n);
    case Text(s) => QuotedReads(s);
    case Null => NullReads();
    case Blob(bs) =>
      HexIsPlain(bs);
      QuotedReads(HexOf(bs));
  }

  lemma RowReads(row: seq<Cell>)
    ensures Reads(RowText(row), RowJson(row))
  {
    hide Reads;
    var parts := seq(|row|, i requires 0 <= i < |row| => CellText(row[i]));
    var js := seq(|row|, i requires 0 <= i < |row| => CellJson(row[i]));
    forall i | 0 <= i < |row| ensures Reads(parts[i], js[i]) {
      CellReads(row[i]);
    }
    ArrayReads(parts, js);
  }

  lemma ColumnsRead(columns: seq<seq<byte>>)
    ensures Reads(ArrayText(NameTexts(columns)), JArr(Names(columns)))
  {
    hide Reads;
    forall i | 0 <= i < |columns| ensures Reads(NameTexts(columns)[i], Names(columns)[i]) {
      QuotedReads(columns[i]);
    }
    ArrayReads(NameTexts(columns), Names(columns));
  }

  function RowsJson(rows: seq<seq<Cell>>): Json {
    JArr(seq(|rows|, i requires 0 <= i < |rows| => RowJson(rows[i])))
  }

  lemma RowsRead(rows: seq<seq<Cell>>)
    ensures Reads(ArrayText(RowTexts(rows)), RowsJson(rows))
  {
    hide Reads;
    var js := seq(|rows|, i requires 0 <= i < |rows| => RowJson(rows[i]));
    forall i | 0 <= i < |rows| ensures Reads(RowTexts(rows)[i], js[i]) {
      RowReads(rows[i]);
    }
    ArrayReads(RowTexts(rows), js);
  }

  function MemberText(key: seq<byte>, part: seq<byte>): seq<byte> {
    StringText(key) + [0x3A] + part
  }

  lemma MembersStep(s: seq<byte>, key: seq<byte>, colon: seq<byte>, j: Json, rest: seq<byte>)
    requires s != [] && s[0] == 0x22 && ParseChars(s[1..]) == Some((key, colon))
    requires colon != [] && colon[0] == 0x3A && ParseValue(colon[1..]) == Some((j, rest))
    requires rest != [] && (rest[0] == 0x2C || rest[0] == 0x7D)
    ensures ParseMembers(s) ==
            if rest[0] == 0x7D then Some(([Member(key, j)], rest[1..]))
            else
              match ParseMembers(rest[1..])
              case None => None
              case Some((ms, more)) => Some(([Member(key, j)] + ms, more))
  {
    hide ParseValue;
    hide ParseChars;
  }

  /** A member before a comma or the closing brace. */
  lemma MemberBack(key: seq<byte>, part: seq<byte>, j: Json, rest: seq<byte>)
    requires Reads(part, j) && rest != [] && (rest[0] == 0x2C || rest[0] == 0x7D)
    ensures ParseMembers(MemberText(key, part) + rest) ==
            if rest[0] == 0x7D then Some(([Member(key, j)], rest[1..]))
            else
              match ParseMembers(rest[1..])
              case None => None
              case Some((ms, more)) => Some(([Member(key, j)] + ms, more))
  {
    hide ParseValue;
    hide ParseChars;
    hide ParseMembers;
    hide CharsText;
    var t := MemberText(key, part) + rest;
    var after := [0x3A] + part + rest;
    assert t[1..] == CharsText(key) + [0x22] + after;
    CharsBack(key, after);
    assert after[1..] == part + rest;
    assert Stops(rest);
    assert ParseValue(part + rest) == Some((j, rest));
    MembersStep(t, key, after, j, rest);
  }

  lemma Nest(p: seq<byte>, j: seq<byte>, q: seq<byte>, k: seq<byte>, l: seq<byte>, n: seq<byte>, z: seq<byte>)
    ensures p + j + q + k + l + n + z == p + j + (q + k + (l + n + z))
  {
    var tail := l + n + z;
    assert q + k + l + n + z == q + k + tail;
    assert p + j + q + k + l + n + z == p + j + (q + k + l + n + z);
  }

  /** A member with its array, up to the bracket that closes it. */
  lemma ArrayMember(open: seq<byte>, key: seq<byte>, items: seq<byte>, rest: seq<byte>)
    ensures (open + key + [0x3A] + [0x5B]) + items + ([0x5D] + rest) ==
            open + ((key + [0x3A] + ([0x5B] + items + [0x5D])) + rest)
  {
    var part := key + [0x3A] + ([0x5B] + items + [0x5D]);
    assert (open + key + [0x3A] + [0x5B]) + items + [0x5D] == open + part;
    assert (open + key + [0x3A] + [0x5B]) + items + ([0x5D] + rest) ==
           (open + key + [0x3A] + [0x5B]) + items + [0x5D] + rest;
  }

  lemma LastMember(c: seq<byte>, n: seq<byte>)
    ensures ([0x5D] + [0x2C] + c + [0x3A]) + n + [0x7D] == [0x5D] + ([0x2C] + ((c + [0x3A] + n) + [0x7D]))
  {
  }

  lemma Regroup(a: seq<byte>, b: seq<byte>, c: seq<byte>, j: seq<byte>, k: seq<byte>, n: seq<byte>)
    ensures ([0x7B] + a + [0x3A] + [0x5B]) + j + ([0x5D] + [0x2C] + b + [0x3A] + [0x5B]) + k +
            ([0x5D] + [0x2C] + c + [0x3A]) + n + [0x7D] ==
            [0x7B] + ((a + [0x3A] + ([0x5B] + j + [0x5D])) +
                      ([0x2C] + ((b + [0x3A] + ([0x5B] + k + [0x5D])) + ([0x2C] + ((c + [0x3A] + n) + [0x7D])))))
  {
    var p, q, l := [0x7B] + a + [0x3A] + [0x5B], [0x5D] + [0x2C] + b + [0x3A] + [0x5B], [0x5D] + [0x2C] + c + [0x3A];
    var last := [0x2C] + ((c + [0x3A] + n) + [0x7D]);
    var middle := (b + [0x3A] + ([0x5B] + k + [0x5D])) + last;
    Nest(p, j, q, k, l, n, [0x7D]);
    LastMember(c, n);
    ArrayMember([0x5D] + [0x2C], b, k, last);
    Bracketed(middle);
    ArrayMember([0x7B], a, j, [0x2C] + middle);
  }

  lemma Bracketed(s: seq<byte>)
    ensures [0x5D] + [0x2C] + s == [0x5D] + ([0x2C] + s)
  {
  }

  lemma {:induction false} PlainText(s: seq<byte>)
    requires forall i :: 0 <= i < |s| ==> 0x60 < s[i] < 0x80
    ensures CharsText(s) == s && StringText(s) == Quoted(s)
  {
    if s != [] {
      PlainText(s[1..]);
      assert [s[0]] + s[1..] == s;
    }
  }

  /** The value printed is the table: integers, nulls, strings byte for byte, blobs as hex. */
  lemma DocumentValue(columns: seq<seq<byte>>, rows: seq<seq<Cell>>, changes: int)
    ensures ParseValue(DocumentText(columns, rows, changes)) == Some((Document(columns, rows, changes), []))
  {
    hide Reads;
    hide ParseMembers;
    hide Joined;
    hide IntText;
    hide StringText;
    hide CharsText;
    hide Quoted;
    hide NameTexts;
    hide RowTexts;
    var cols, rs, n := ArrayText(NameTexts(columns)), ArrayText(RowTexts(rows)), IntText(changes);
    ColumnsRead(columns);
    RowsRead(rows);
    IntReads(changes);
    PlainText(COLUMNS);
    PlainText(ROWS);
    PlainText(CHANGES);
    Regroup(Quoted(COLUMNS), Quoted(ROWS), Quoted(CHANGES), Joined(NameTexts(columns)),
            Joined(RowTexts(rows)), n);
    var last := MemberText(CHANGES, n) + [0x7D];
    var middle := MemberText(ROWS, rs) + ([0x2C] + last);
    var all := MemberText(COLUMNS, cols) + ([0x2C] + middle);
    MemberBack(CHANGES, n, JInt(changes), [0x7D]);
    assert ([0x2C] + last)[1..] == last && ([0x2C] + middle)[1..] == middle;
    MemberBack(ROWS, rs, RowsJson(rows), [0x2C] + last);
    MemberBack(COLUMNS, cols, JArr(Names(columns)), [0x2C] + middle);
    assert DocumentText(columns, rows, changes) == [0x7B] + all;
    MemberStarts(COLUMNS, cols);
    var a, b, c := Member(COLUMNS, JArr(Names(columns))), Member(ROWS, RowsJson(rows)), Member(CHANGES, JInt(changes));
    assert [a] + ([b] + [c]) == [a, b, c];
    ObjectText(all, [a, b, c]);
  }

  lemma MemberStarts(key: seq<byte>, part: seq<byte>)
    ensures MemberText(key, part) != [] && MemberText(key, part)[0] == 0x22
  {
  }

  lemma ObjectText(all: seq<byte>, ms: seq<Member>)
    requires all != [] && all[0] == 0x22 && ParseMembers(all) == Some((ms, []))
    ensures ParseValue([0x7B] + all) == Some((JObj(ms), []))
  {
    hide ParseMembers;
    hide ParseItems;
    hide ParseChars;
    hide ParseNumber;
    hide ParseLiteral;
    assert ([0x7B] + all)[1..] == all;
    assert SkipSpace([0x7B] + all) == [0x7B] + all && SkipSpace(all) == all;
  }

  // ---------------------------------------------------------------------------
  // When the document is a text
  // ---------------------------------------------------------------------------

  ghost predicate TextCell(c: Cell) {
    c.Text? ==> IsUtf8(c.s)
  }

  ghost predicate TextRow(row: seq<Cell>) {
    forall i :: 0 <= i < |row| ==> TextCell(row[i])
  }

  /** Every column name and every text cell is UTF-8, which SQLite does not enforce. */
  ghost predicate TextTable(columns: seq<seq<byte>>, rows: seq<seq<Cell>>) {
    AllTexts(columns) && forall i :: 0 <= i < |rows| ==> TextRow(rows[i])
  }

  predicate IsAscii(bs: seq<byte>) {
    forall i :: 0 <= i < |bs| ==> bs[i] < 128
  }

  lemma {:induction false} DigitsAscii(n: nat)
    ensures IsAscii(Digits(n))
  {
    if n >= 10 {
      DigitsAscii(n / 10);
    }
  }

  lemma IntAscii(n: int)
    ensures IsAscii(IntText(n)) && IntText(n) != []
  {
    DigitsAscii(if n < 0 then -n else n);
  }

  lemma {:induction false} HexAscii(bs: seq<byte>)
    ensures IsAscii(HexOf(bs))
  {
    if bs != [] {
      HexAscii(bs[1..]);
    }
  }

  lemma CellIsText(c: Cell)
    ensures IsUtf8(CellText(c)) <==> TextCell(c)
  {
    hide IsUtf8;
    match c
    case Text(s) => StringIsText(s);
    case Integer(n) =>
      IntAscii(n);
      PlainIsUtf8(IntText(n));
    case Null => PlainIsUtf8([0x6E, 0x75, 0x6C, 0x6C]);
    case Blob(bs) =>
      HexAscii(bs);
      PlainIsUtf8([0x22] + HexOf(bs) + [0x22]);
  }

  lemma RowIsText(row: seq<Cell>)
    ensures IsUtf8(RowText(row)) <==> TextRow(row)
  {
    hide IsUtf8;
    hide TextCell;
    var parts := seq(|row|, i requires 0 <= i < |row| => CellText(row[i]));
    ArrayIsText(parts);
    forall i | 0 <= i < |row| ensures IsUtf8(parts[i]) <==> TextCell(row[i]) {
      CellIsText(row[i]);
    }
  }

  lemma NamesAreTexts(columns: seq<seq<byte>>)
    ensures IsUtf8(Joined(NameTexts(columns))) <==> AllTexts(columns)
  {
    hide IsUtf8;
    hide StringText;
    JoinedIsText(NameTexts(columns));
    forall i | 0 <= i < |columns| ensures IsUtf8(NameTexts(columns)[i]) <==> IsUtf8(columns[i]) {
      StringIsText(columns[i]);
    }
  }

  lemma RowsAreTexts(rows: seq<seq<Cell>>)
    ensures IsUtf8(Joined(RowTexts(rows))) <==> forall i :: 0 <= i < |rows| ==> TextRow(rows[i])
  {
    hide IsUtf8;
    hide RowText;
    hide TextRow;
    JoinedIsText(RowTexts(rows));
    forall i | 0 <= i < |rows| ensures IsUtf8(RowTexts(rows)[i]) <==> TextRow(rows[i]) {
      RowIsText(rows[i]);
    }
  }

  lemma FramesAscii()
    ensures IsAscii(OPEN_COLUMNS) && IsAscii(OPEN_ROWS) && IsAscii(OPEN_CHANGES)
    ensures OPEN_COLUMNS != [] && OPEN_ROWS != [] && OPEN_CHANGES != []
  {
  }

  lemma DocumentIsText(columns: seq<seq<byte>>, rows: seq<seq<Cell>>, changes: int)
    ensures IsUtf8(DocumentText(columns, rows, changes)) <==> TextTable(columns, rows)
  {
    hide IsUtf8;
    hide Joined;
    hide IntText;
    hide NameTexts;
    hide RowTexts;
    hide AllTexts;
    hide TextRow;
    NamesAreTexts(columns);
    RowsAreTexts(rows);
    IntAscii(changes);
    FramesAscii();
    EmptyUtf8();
    var last := OPEN_CHANGES + IntText(changes) + [0x7D];
    TextFrames(Joined(NameTexts(columns)), Joined(RowTexts(rows)), last);
    Framed(Joined(NameTexts(columns)), Joined(RowTexts(rows)), OPEN_CHANGES, IntText(changes));
  }

  lemma Framed(names: seq<byte>, cells: seq<byte>, a: seq<byte>, n: seq<byte>)
    ensures OPEN_COLUMNS + names + OPEN_ROWS + cells + a + n + [0x7D] ==
            OPEN_COLUMNS + (names + OPEN_ROWS + (cells + (a + n + [0x7D])))
  {
    var tail := a + n + [0x7D];
    assert OPEN_COLUMNS + names + OPEN_ROWS + cells + a + n + [0x7D] ==
           OPEN_COLUMNS + names + OPEN_ROWS + cells + tail;
  }

  lemma TextFrames(names: seq<byte>, cells: seq<byte>, last: seq<byte>)
    requires IsAscii(last) && last != []
    ensures IsUtf8(OPEN_COLUMNS + (names + OPEN_ROWS + (cells + last))) <==> IsUtf8(names) && IsUtf8(cells)
  {
    hide IsUtf8;
    FramesAscii();
    EmptyUtf8();
    AsciiBetween([], OPEN_COLUMNS, names + OPEN_ROWS + (cells + last));
    AsciiBetween(names, OPEN_ROWS, cells + last);
    AsciiBetween(cells, last, []);
    assert [] + OPEN_COLUMNS + (names + OPEN_ROWS + (cells + last)) ==
           OPEN_COLUMNS + (names + OPEN_ROWS + (cells + last));
    assert cells + last + [] == cells + last;
  }

  /** The document is a JSON text, and parses back to the table, exactly if the names and text cells are UTF-8. */
  lemma DocumentReads(columns: seq<seq<byte>>, rows: seq<seq<Cell>>, changes: int)
    ensures ParseText(DocumentText(columns, rows, changes)) ==
            if TextTable(columns, rows) then Some(Document(columns, rows, changes)) else None
  {
    hide IsUtf8;
    hide ParseValue;
    hide DocumentText;
    hide Document;
    hide TextTable;
    DocumentValue(columns, rows, changes);
    DocumentIsText(columns, rows, changes);
    Utf8DecodeIsUtf8(DocumentText(columns, rows, changes));
    assert SkipSpace([]) == [];
  }

  // ---------------------------------------------------------------------------
  // The reply
  // ---------------------------------------------------------------------------

  const RESULT := TResult(Some(TString), Some(TString))

  /** `reply_result`, up to its frame. */
  method ReplyResult(isErr: bool, s: seq<byte>) returns (out: Out)
    ensures fresh(out) && out.bytes == A.OkPayload(Encode(VResult(isErr, Some(VString(s)))))
  {
    hide Uleb;
    out := new Out();
    out.Push(0);
    out.Push(if isErr then 1 else 0);
    UlebEncode(|s|, out);
    out.Extend(s);
    ResultBytes(isErr, s);
    var tag := [if isErr then 1 else 0 as byte];
    assert [0] + tag + Uleb(|s|) + s == [0] + (tag + (Uleb(|s|) + s));
  }

  lemma ResultBytes(isErr: bool, s: seq<byte>)
    ensures Encode(VResult(isErr, Some(VString(s)))) == [if isErr then 1 else 0] + (Uleb(|s|) + s)
  {
    hide Uleb;
    assert EncodeSide(Some(VString(s))) == Encode(VString(s)) == Uleb(|s|) + s;
  }

  /** Every lane decodes the reply exactly if its text is UTF-8. */
  lemma ReplyReads(isErr: bool, s: seq<byte>)
    requires |s| < WORD
    ensures var v := VResult(isErr, Some(VString(s)));
            DecodeWhole(RESULT, Encode(v)) == if IsUtf8(s) then Ok(v, |Encode(v)|) else Err(InvalidUtf8)
  {
    hide IsUtf8;
    hide Uleb;
    hide DecString;
    hide Encode;
    Pow2Sizes();
    hide Pow2;
    ResultBytes(isErr, s);
    var tag := [if isErr then 1 else 0 as byte];
    M.StringBody(tag, s);
    SideReads(tag + (Uleb(|s|) + s), s);
  }

  lemma SideReads(body: seq<byte>, s: seq<byte>)
    requires body != [] && body[0] <= 1
    requires DecString(body, 1) == if IsUtf8(s) then Ok(s, |body|) else Err(InvalidUtf8)
    ensures DecodeWhole(RESULT, body) ==
            if IsUtf8(s) then Ok(VResult(body[0] == 1, Some(VString(s))), |body|) else Err(InvalidUtf8)
  {
    hide IsUtf8;
    hide DecString;
    var side := Decode(TString, body, 1);
    assert side == if IsUtf8(s) then Ok(VString(s), |body|) else Err(InvalidUtf8);
    assert DecodeSide(Some(TString), body, 1) ==
           if side.Ok? then Ok(Some(side.value), side.pos) else Err(side.error);
  }

  /** A caller gets the table printed, as JSON, exactly if its names and text cells are UTF-8. */
  lemma TableArrives(columns: seq<seq<byte>>, rows: seq<seq<Cell>>, changes: int)
    requires |DocumentText(columns, rows, changes)| < WORD
    ensures var doc := DocumentText(columns, rows, changes);
            var v := VResult(false, Some(VString(doc)));
            && (DecodeWhole(RESULT, Encode(v)).Ok? <==> TextTable(columns, rows))
            && (TextTable(columns, rows) ==>
                  DecodeWhole(RESULT, Encode(v)).value == v && ParseText(doc) == Some(Document(columns, rows, changes)))
  {
    hide IsUtf8;
    hide DocumentText;
    hide Document;
    hide TextTable;
    hide ParseText;
    hide DecodeWhole;
    hide Encode;
    ReplyReads(false, DocumentText(columns, rows, changes));
    DocumentIsText(columns, rows, changes);
    DocumentReads(columns, rows, changes);
  }

  lemma CastBlobText()
    ensures |DocumentText([], [[Text([0xFF])]], 0)| < WORD
  {
    var cell := Text([0xFF]);
    var row := [cell];
    assert CharsText([0xFF]) == [0xFF] by {
      assert [0xFF][1..] == [];
      assert CharText(0xFF) == [0xFF];
    }
    assert CellText(cell) == [0x22, 0xFF, 0x22];
    var parts := seq(|row|, k requires 0 <= k < |row| => CellText(row[k]));
    assert parts == [CellText(cell)];
    assert RowText(row) == [0x5B, 0x22, 0xFF, 0x22, 0x5D];
    assert RowTexts([row]) == [RowText(row)];
    assert NameTexts([]) == [] && IntText(0) == [0x30];
    assert |OPEN_COLUMNS| + |OPEN_ROWS| + |OPEN_CHANGES| < 100;
  }

  /** `SELECT CAST(x'FF' AS TEXT)`: what is printed is no JSON text, and no lane decodes the reply. */
  lemma CastBlobIsNoText()
    ensures ParseText(DocumentText([], [[Text([0xFF])]], 0)) == None
    ensures DecodeWhole(RESULT, Encode(VResult(false, Some(VString(DocumentText([], [[Text([0xFF])]], 0)))))) ==
            Err(InvalidUtf8)
  {
    CastBlobText();
    assert Utf8Decode([0xFF]).None?;
    Utf8DecodeIsUtf8([0xFF]);
    hide Utf8Decode;
    hide IsUtf8;
    hide DocumentText;
    hide ParseText;
    hide DecodeWhole;
    hide Encode;
    var rows := [[Text([0xFF])]];
    assert !TextCell(rows[0][0]);
    assert !TextRow(rows[0]);
    DocumentReads([], rows, 0);
    DocumentIsText([], rows, 0);
    ReplyReads(false, DocumentText([], rows, 0));
  }
}
