/**
 The guest half of a call: function signatures, handlers, dispatch by name and
 the framing of replies, in each of the four language lanes.
 */
module Abi {
  import opened Bytes
  import opened Leb128
  import opened Unicode
  import opened Wire
  import opened LooseValues

  datatype Lane = Rust | Go | Cpp | As

  /** Message texts as the bytes of their UTF-8 (or, with lone surrogates, ill-formed) form. */
  type Text = seq<byte>

  function Ascii(s: string): Text {
    seq(|s|, i requires 0 <= i < |s| => s[i] as int % 128)
  }

  /** The texts all lanes share; the suffix the Rust library adds to a UTF-8 error is not modelled. */
  function ErrorText(e: Error): Text {
    match e
    case UnexpectedEnd => Ascii("unexpected end of buffer")
    case UlebOverflow => Ascii("uleb overflow")
    case UlebTooLong => Ascii("uleb too long")
    case SlebOverflow => Ascii("sleb overflow")
    case SlebTooLong => Ascii("sleb too long")
    case InvalidPrefix(what, b) => Ascii("invalid " + what + " byte: " + Decimal(b))
    case InvalidChar(n) => Ascii("invalid char scalar: " + Decimal(n))
    case InvalidUtf8 => Ascii("invalid utf-8 in string")
    case VariantRange(c) => Ascii("variant case out of range: " + Decimal(c))
    case EnumRange(c) => Ascii("enum case out of range: " + Decimal(c))
    case FlagsUnused => Ascii("flags: unused high bits set")
    case Trailing(n, after) => Ascii(Decimal(n) + " trailing byte(s) after " + after)
    case Param(i, inner) => Ascii("param " + Decimal(i) + ": ") + ErrorText(inner)
  }

  // ---------------------------------------------------------------------------
  // Functions
  // ---------------------------------------------------------------------------

  /**
   How a result type is presented: no result; a plain value; a `result` whose err
   side is a message (or empty) and becomes the language's own error; any other
   `result`, returned whole.
   */
  datatype Ret =
    | RetNone
    | RetPlain(t: Type)
    | RetStr(ok: Option<Type>, hasMsg: bool)
    | RetTyped(t: Type)

  /** The type of the bytes in a reply with status 0. */
  function ReplyType(ret: Ret): Type {
    match ret
    case RetNone => TTuple([])
    case RetPlain(t) => t
    case RetStr(ok, hasMsg) => TResult(ok, if hasMsg then Some(TString) else None)
    case RetTyped(t) => t
  }

  /**
   What an implementation returns, and what a caller of the typed wrapper gets back.
   `Unsendable` is a result without a wire form, such as a tag out of range or a stray flag
   bit, together with the error its encoder keeps.
   */
  datatype Outcome = Fail(text: Text) | Done(value: Option<Value>) | Unsendable(text: Text)

  /** Failure texts are any bytes, and so are strings inside values; chars are any number. */
  ghost predicate OutcomeTyped(ret: Ret, o: Outcome) {
    match o
    case Done(v) =>
      (match ret
       case RetNone => v == None
       case RetPlain(t) => v.Some? && Loose(v.value, t)
       case RetTyped(t) => v.Some? && Loose(v.value, t)
       case RetStr(ok, _) => SideLoose(v, ok))
    case _ => true
  }

  /** An exported function: its address, parameter types, result class and implementation. */
  datatype Entry = Entry(addr: Text, params: seq<Type>, ret: Ret, impl: seq<Value> -> Outcome)

  /** What a handler encodes, or none when the call is refused. */
  function Wrapped(ret: Ret, o: Outcome): Option<Value> {
    match o
    case Fail(text) =>
      if ret.RetStr? then Some(VResult(true, if ret.hasMsg then Some(VString(text)) else None)) else None
    case Done(v) =>
      (match ret
       case RetNone => Some(VTuple([]))
       case RetStr(_, _) => Some(VResult(false, v))
       case _ => v)
    case Unsendable(_) => None
  }

  /** The AssemblyScript sink takes no string with a lone surrogate; the Go and C++ encoders take any bytes. */
  predicate Unencodable(lane: Lane, ret: Ret, o: Outcome) {
    lane.As? && Wrapped(ret, o).Some? && !TextsAreUtf8(Wrapped(ret, o).value)
  }

  function ReplyValue(lane: Lane, ret: Ret, o: Outcome): Option<Value> {
    if Unencodable(lane, ret, o) then None else Wrapped(ret, o)
  }

  /** The status-1 text of a refused call: the implementation's, or its encoder's. */
  function RefusalText(lane: Lane, ret: Ret, o: Outcome): Text {
    if Unencodable(lane, ret, o) then ErrorText(InvalidUtf8)
    else match o case Fail(text) => text case Unsendable(text) => text case Done(_) => []
  }

  datatype HandlerResult = Pass(bytes: seq<byte>) | Refuse(text: Text)

  function Answer(lane: Lane, ret: Ret, o: Outcome): HandlerResult {
    match ReplyValue(lane, ret, o)
    case Some(v) => Pass(Encode(v))
    case None => Refuse(RefusalText(lane, ret, o))
  }

  /** Parameters one after the other, then the check that nothing is left. */
  ghost function DecodeArgs(tys: seq<Type>, args: seq<byte>): Step<seq<Value>> {
    match DecodeFields(tys, args, 0)
    case Err(e) => Err(e)
    case Ok(vs, p) => if p != |args| then Err(Trailing(if p < |args| then |args| - p else 0, "params")) else Ok(vs, p)
  }

  /** A generated handler of the Go, C++ and AssemblyScript lanes. */
  ghost function Handle(lane: Lane, e: Entry, args: seq<byte>): HandlerResult {
    match DecodeArgs(e.params, args)
    case Err(err) => Refuse(Ascii("bad params: ") + ErrorText(err))
    case Ok(vs, _) => Answer(lane, e.ret, e.impl(vs))
  }

  // ---------------------------------------------------------------------------
  // Replies
  // ---------------------------------------------------------------------------

  function Le32(n: nat): seq<byte> {
    [n % 256, n / 256 % 256, n / 0x1_0000 % 256, n / 0x100_0000 % 256]
  }

  function Lenbuf(payload: seq<byte>): seq<byte> {
    Le32(|payload|) + payload
  }

  function OkPayload(result: seq<byte>): seq<byte> {
    [0] + result
  }

  function ErrPayload(text: Text): seq<byte> {
    [1] + Uleb(|text|) + text
  }

  /** The AssemblyScript lane cannot encode a text with a lone surrogate. */
  ghost function ErrReply(lane: Lane, text: Text): seq<byte> {
    if lane.As? && !IsUtf8(text) then ErrPayload(Ascii("invalid reply message")) else ErrPayload(text)
  }

  // ---------------------------------------------------------------------------
  // Dispatch
  // ---------------------------------------------------------------------------

  /** `Registry::lookup`: the first registration of a name. */
  function First(table: seq<Entry>, name: Text): Option<Entry> {
    if table == [] then None
    else if table[0].addr == name then Some(table[0])
    else First(table[1..], name)
  }

  /** A handler map: a later registration of a name replaces an earlier one. */
  function Last(table: seq<Entry>, name: Text): Option<Entry> {
    if table == [] then None
    else if table[|table| - 1].addr == name then Some(table[|table| - 1])
    else Last(table[..|table| - 1], name)
  }

  /** The payload of the reply to `crab_invoke(name, args)`. */
  ghost function Invoke(lane: Lane, table: seq<Entry>, name: Text, args: seq<byte>): seq<byte> {
    match lane
    case Rust =>
      if !IsUtf8(name) then ErrPayload(Ascii("function name is not valid utf-8"))
      else
        (match First(table, name)
         case None => ErrPayload(Ascii("unknown function: ") + name)
         case Some(e) =>
           match DecodeParams(e.params, args)
           case Err(err) => ErrPayload(name + Ascii(": bad params: ") + ErrorText(err))
           case Ok(vs, _) =>
             match Answer(Rust, e.ret, e.impl(vs))
             case Pass(bytes) => OkPayload(bytes)
             case Refuse(text) => ErrPayload(text))
    case _ =>
      if lane.As? && !IsUtf8(name) then ErrReply(lane, Ascii("invalid function name"))
      else
        match Last(table, name)
        case None => ErrReply(lane, Ascii("unknown function: ") + name)
        case Some(e) =>
          match Handle(lane, e, args)
          case Pass(bytes) => OkPayload(bytes)
          case Refuse(text) => ErrReply(lane, name + Ascii(": ") + text)
  }

  // ---------------------------------------------------------------------------
  // Agreement of the lanes
  // ---------------------------------------------------------------------------

  ghost predicate DistinctAddresses(table: seq<Entry>) {
    forall i, j :: 0 <= i < j < |table| ==> table[i].addr != table[j].addr
  }

  lemma {:induction false} FirstIs(table: seq<Entry>, i: nat)
    requires DistinctAddresses(table) && i < |table|
    ensures First(table, table[i].addr) == Some(table[i])
  {
    if i > 0 {
      FirstIs(table[1..], i - 1);
    }
  }

  lemma {:induction false} LastIs(table: seq<Entry>, i: nat)
    requires DistinctAddresses(table) && i < |table|
    ensures Last(table, table[i].addr) == Some(table[i])
  {
    if i < |table| - 1 {
      LastIs(table[..|table| - 1], i);
    }
  }

  lemma {:induction false} LookupsMiss(table: seq<Entry>, name: Text)
    ensures First(table, name).None? <==> forall i :: 0 <= i < |table| ==> table[i].addr != name
    ensures Last(table, name).None? <==> forall i :: 0 <= i < |table| ==> table[i].addr != name
  {
    if table != [] {
      LookupsMiss(table[1..], name);
      LookupsMiss(table[..|table| - 1], name);
      var n := |table| - 1;
      if First(table, name).None? {
        forall i | 0 <= i < |table| ensures table[i].addr != name {
          assert i > 0 ==> table[1..][i - 1] == table[i];
        }
      }
      if Last(table, name).None? {
        forall i | 0 <= i < |table| ensures table[i].addr != name {
          assert i < n ==> table[..n][i] == table[i];
        }
      }
    }
  }

  /** Nobody before `i` registered the name, or nobody after it. */
  ghost predicate Winner(table: seq<Entry>, name: Text, i: nat, newest: bool) {
    && i < |table| && table[i].addr == name
    && forall j :: (if newest then i < j < |table| else 0 <= j < i) ==> table[j].addr != name
  }

  /** One lookup finds the first registration of a name, the other the last. */
  lemma {:induction false} LookupsFind(table: seq<Entry>, name: Text, i: nat)
    ensures Winner(table, name, i, false) ==> First(table, name) == Some(table[i])
    ensures Winner(table, name, i, true) ==> Last(table, name) == Some(table[i])
  {
    if Winner(table, name, i, false) && i > 0 {
      LookupsFind(table[1..], name, i - 1);
    }
    if Winner(table, name, i, true) && i < |table| - 1 {
      LookupsFind(table[..|table| - 1], name, i);
    }
  }

  lemma {:induction false} ParamsAgreeFrom(tys: seq<Type>, i: nat, args: seq<byte>, pos: nat)
    requires i <= |tys|
    ensures var a, b := DecodeParamsFrom(tys, i, args, pos), DecodeFields(tys[i..], args, pos);
            && (a.Ok? <==> b.Ok? && b.pos == |args|)
            && (a.Ok? ==> a.value == b.value)
    decreases |tys| - i
  {
    hide Decode;
    if i < |tys| {
      assert tys[i..][0] == tys[i] && tys[i..][1..] == tys[i + 1..];
      var step := Decode(tys[i], args, pos);
      if step.Ok? {
        ParamsAgreeFrom(tys, i + 1, args, step.pos);
      }
    }
  }

  /** All lanes accept the same argument buffers, and read the same values from them. */
  lemma ParamsAgree(tys: seq<Type>, args: seq<byte>)
    ensures DecodeParams(tys, args).Ok? <==> DecodeArgs(tys, args).Ok?
    ensures DecodeParams(tys, args).Ok? ==> DecodeParams(tys, args).value == DecodeArgs(tys, args).value
  {
    assert tys[0..] == tys;
    ParamsAgreeFrom(tys, 0, args, 0);
  }

  // ---------------------------------------------------------------------------
  // Length-prefixed buffers
  // ---------------------------------------------------------------------------

  /** The first four bytes, least significant first. */
  function LenOf(mem: seq<byte>): (n: nat)
    requires |mem| >= 4
  {
    (mem[0] as int) + 256 * (mem[1] as int) + 0x1_0000 * (mem[2] as int) + 0x100_0000 * (mem[3] as int)
  }

  /** What a caller reads at the reply's address, whatever follows the buffer in memory. */
  function ReadLenbuf(mem: seq<byte>): Option<seq<byte>> {
    if |mem| < 4 || |mem| - 4 < LenOf(mem) then None else Some(mem[4..4 + LenOf(mem)])
  }

  lemma Base256(n: nat)
    requires n < 0x1_0000_0000
    ensures n % 256 + 256 * (n / 256 % 256) + 0x1_0000 * (n / 0x1_0000 % 256) + 0x100_0000 * (n / 0x100_0000 % 256) == n
  {
    var a := n / 256;
    var b := a / 256;
    var c := b / 256;
    assert n / 0x1_0000 == b && n / 0x100_0000 == c;
    assert n == 256 * a + n % 256 && a == 256 * b + a % 256 && b == 256 * c + b % 256;
  }

  lemma LenbufRoundTrip(payload: seq<byte>, rest: seq<byte>)
    requires |payload| < 0x1_0000_0000
    ensures ReadLenbuf(Lenbuf(payload) + rest) == Some(payload)
  {
    Base256(|payload|);
    assert LenOf(Lenbuf(payload) + rest) == |payload|;
    assert (Lenbuf(payload) + rest)[4..4 + |payload|] == payload;
  }
}
