/**
 The calling half: parsing of mesh replies, the typed wrappers, and the proof that
 a call returns to the caller what the callee's implementation returned.
 */
module Mesh {
  import opened Bytes
  import opened Leb128
  import opened Unicode
  import opened Wire
  import opened WireLanguage
  import opened WireTheorems
  import opened LooseValues
  import opened Abi

  // ---------------------------------------------------------------------------
  // Reply parsing
  // ---------------------------------------------------------------------------

  ghost function ParseReply(lane: Lane, payload: seq<byte>): HandlerResult {
    if lane.Rust? then
      if payload == [] then Refuse(Ascii("mesh: empty reply payload"))
      else if payload[0] == 0 then Pass(payload[1..])
      else if payload[0] == 1 then
        match DecodeWhole(TString, payload[1..])
        case Ok(v, _) => Refuse(if v.VString? then v.utf8 else [])
        case Err(_) => Refuse(Ascii("mesh: malformed error string in reply"))
      else Refuse(Ascii("mesh: invalid reply status byte: " + Decimal(payload[0])))
    else
      if payload == [] then Refuse(Ascii("mesh call: empty reply"))
      else if payload[0] == 0 then Pass(payload[1..])
      else if payload[0] == 1 then
        match DecString(payload[1..], 0)
        case Err(_) => Refuse(Ascii("mesh call: malformed error reply"))
        case Ok(s, p) =>
          if p != |payload| - 1 then Refuse(Ascii("mesh call: malformed error reply (trailing bytes)")) else Refuse(s)
      else Refuse(Ascii("mesh call: invalid reply status"))
  }

  /** The C++ result type keeps only the text and takes an empty one for success. */
  function Kept(lane: Lane, r: HandlerResult): HandlerResult {
    if lane.Cpp? && r == Refuse([]) then Pass([]) else r
  }

  // ---------------------------------------------------------------------------
  // Typed results
  // ---------------------------------------------------------------------------

  function NoPayload(func: Text): Text {
    func + Ascii(": err result (no payload)")
  }

  ghost function Finish(body: seq<byte>, pos: nat, o: Outcome): Outcome {
    if pos != |body| then
      Fail(Ascii(Decimal(if pos < |body| then |body| - pos else 0) + " trailing byte(s) after reply"))
    else o
  }

  ghost function ReadValue(t: Type, body: seq<byte>, pos: nat): Outcome {
    match Decode(t, body, pos) case Err(e) => Fail(ErrorText(e)) case Ok(v, p) => Finish(body, p, Done(Some(v)))
  }

  /** The Rust wrapper decodes the whole result value first. */
  ghost function ReadRust(ret: Ret, func: Text, body: seq<byte>): Outcome {
    match DecodeWhole(ReplyType(ret), body)
    case Err(e) => Fail(ErrorText(e))
    case Ok(v, _) =>
      if ret.RetNone? then Done(None)
      else if ret.RetStr? && v.VResult? then
        if !v.isErr then Done(v.payload)
        else if !ret.hasMsg then Fail(NoPayload(func))
        else if v.payload.Some? && v.payload.value.VString? then Fail(v.payload.value.utf8)
        else Fail(Ascii("missing err payload"))
      else Done(Some(v))
  }

  /** The other wrappers read the discriminant, then the side it selects. */
  ghost function ReadStepwise(ret: Ret, func: Text, body: seq<byte>): Outcome {
    match ret
    case RetNone => Finish(body, 0, Done(None))
    case RetPlain(t) => ReadValue(t, body, 0)
    case RetTyped(t) => ReadValue(t, body, 0)
    case RetStr(ok, hasMsg) =>
      match DecBit("result", body, 0)
      case Err(e) => Fail(ErrorText(e))
      case Ok(isErr, p) =>
        if isErr then
          if hasMsg then
            match DecString(body, p) case Err(e) => Fail(ErrorText(e)) case Ok(s, q) => Finish(body, q, Fail(s))
          else Finish(body, p, Fail(NoPayload(func)))
        else if ok.Some? then ReadValue(ok.value, body, p)
        else Finish(body, p, Done(None))
  }

  ghost function ReadResult(lane: Lane, ret: Ret, func: Text, body: seq<byte>): Outcome {
    if lane.Rust? then ReadRust(ret, func, body) else ReadStepwise(ret, func, body)
  }

  /** In C++ a failure with an empty text reads as success with the default value `zero`. */
  function Seen(lane: Lane, zero: Option<Value>, o: Outcome): Outcome {
    if lane.Cpp? && o == Fail([]) then Done(zero) else o
  }

  /** What a caller makes of the payload of a reply. */
  ghost function Concluded(caller: Lane, ret: Ret, func: Text, zero: Option<Value>, r: HandlerResult): Outcome {
    match Kept(caller, r)
    case Refuse(text) => Seen(caller, zero, Fail(text))
    case Pass(body) => Seen(caller, zero, ReadResult(caller, ret, func, body))
  }

  /**
   A call of `entry` through its typed wrapper: parameters are encoded, the callee
   dispatches, its reply is framed, carried, parsed and decoded. `rest` is whatever
   follows the reply in memory.
   */
  ghost function Call(caller: Lane, callee: Lane, table: seq<Entry>, addr: Text, func: Text, ret: Ret,
                      args: seq<Value>, zero: Option<Value>, rest: seq<byte>): Outcome
  {
    var reply := Lenbuf(Invoke(callee, table, addr, EncodeAll(args))) + rest;
    match ReadLenbuf(reply)
    case None => Fail(Ascii("out of bounds"))
    case Some(payload) => Concluded(caller, ret, func, zero, ParseReply(caller, payload))
  }

  // ---------------------------------------------------------------------------
  // What the caller is promised
  // ---------------------------------------------------------------------------

  /** The text of a failed call as the callee's runtime frames it. */
  ghost function Framed(callee: Lane, addr: Text, text: Text): Text {
    if callee.Rust? then text
    else
      var whole := addr + Ascii(": ") + text;
      if callee.As? && !IsUtf8(whole) then Ascii("invalid reply message") else whole
  }

  ghost function Expected(callee: Lane, addr: Text, func: Text, ret: Ret, o: Outcome): Outcome {
    match o
    case Done(v) => Done(v)
    case Fail(text) =>
      if !ret.RetStr? then Fail(Framed(callee, addr, text))
      else if ret.hasMsg then Fail(text)
      else Fail(NoPayload(func))
    case Unsendable(text) => Fail(Framed(callee, addr, text))
  }

  /** A C++ implementation cannot fail with an empty text. */
  predicate Produced(callee: Lane, o: Outcome) {
    callee.Cpp? ==> o != Fail([])
  }

  /** The failure is told by a text of its own; the `result` class without a message has a constant one. */
  predicate TextTravels(ret: Ret, o: Outcome) {
    o.Unsendable? || (o.Fail? && !(ret.RetStr? && !ret.hasMsg))
  }

  /**
   The outcomes a reply and its caller can represent: every text that travels is UTF-8,
   the failure's as well as those inside a value, whose chars must be scalar values too;
   and a C++ caller is not given an empty failure text.
   */
  ghost predicate Deliverable(caller: Lane, ret: Ret, o: Outcome, want: Outcome) {
    && (TextTravels(ret, o) && want.Fail? ==> IsUtf8(want.text))
    && (o.Done? && Wrapped(ret, o).Some? ==> HasType(Wrapped(ret, o).value, ReplyType(ret)))
    && !(caller.Cpp? && want == Fail([]))
  }

  // ---------------------------------------------------------------------------
  // Texts
  // ---------------------------------------------------------------------------

  lemma AsciiIsUtf8(s: string)
    ensures IsUtf8(Ascii(s)) && |Ascii(s)| == |s|
  {
    PlainIsUtf8(Ascii(s));
  }

  /** A text in an error reply comes back exactly if it is UTF-8. */
  ghost function TextRead(caller: Lane, text: Text): Text {
    if IsUtf8(text) then text
    else if caller.Rust? then Ascii("mesh: malformed error string in reply")
    else Ascii("mesh call: malformed error reply")
  }

  lemma TextComesBack(caller: Lane, text: Text)
    requires |text| < Pow2(32)
    ensures ParseReply(caller, ErrPayload(text)) == Refuse(TextRead(caller, text))
  {
    hide Pow2;
    hide DecString;
    hide Uleb;
    hide IsUtf8;
    hide Ascii;
    hide Decode;
    var payload := ErrPayload(text);
    assert payload[1..] == Uleb(|text|) + text;
    StringBody([], text);
    assert [] + payload[1..] == payload[1..];
    if caller.Rust? {
      WholeString(payload[1..]);
    }
  }

  lemma WholeString(body: seq<byte>)
    ensures var step := DecString(body, 0);
            DecodeWhole(TString, body) ==
            if step.Err? then Err(step.error)
            else if step.pos != |body| then Err(Trailing(if step.pos < |body| then |body| - step.pos else 0, "value"))
            else Ok(VString(step.value), step.pos)
  {
    hide DecString;
  }

  lemma StringBody(head: seq<byte>, text: Text)
    requires |text| < Pow2(32)
    ensures var body := head + (Uleb(|text|) + text);
            DecString(body, |head|) == if IsUtf8(text) then Ok(text, |body|) else Err(InvalidUtf8)
  {
    hide Pow2;
    hide Uleb;
    hide IsUtf8;
    hide DecUleb;
    StringHeader(head, text);
    var h := |head| + |Uleb(|text|)|;
    assert (head + (Uleb(|text|) + text))[h..h + |text|] == text;
  }

  lemma StringHeader(head: seq<byte>, text: Text)
    requires |text| < Pow2(32)
    ensures DecUleb(32, head + (Uleb(|text|) + text), |head|) == Ok(|text|, |head| + |Uleb(|text|)|)
  {
    hide Pow2;
    hide DecUleb;
    hide IsUleb;
    hide Uleb;
    var size := Uleb(|text|);
    var body := head + (size + text);
    UlebIsUleb(32, |text|);
    assert body[|head|..|head| + |size|] == size;
    UlebExact(32, body, |head|, |text|, |head| + |size|);
  }

  // ---------------------------------------------------------------------------
  // What the callee replies
  // ---------------------------------------------------------------------------

  ghost function StatusOne(callee: Lane, e: Entry, args: seq<Value>): Text {
    Framed(callee, e.addr, RefusalText(callee, e.ret, e.impl(args)))
  }

  /** The callee decodes exactly the arguments sent, runs the implementation and frames its outcome. */
  lemma Replies(callee: Lane, table: seq<Entry>, i: nat, args: seq<Value>)
    requires DistinctAddresses(table) && i < |table| && HaveTypes(args, table[i].params)
    requires callee.Rust? || callee.As? ==> IsUtf8(table[i].addr)
    ensures var e := table[i];
            Invoke(callee, table, e.addr, EncodeAll(args)) ==
            match ReplyValue(callee, e.ret, e.impl(args))
            case Some(v) => OkPayload(Encode(v))
            case None => ErrPayload(StatusOne(callee, e, args))
  {
    hide Encode;
    hide EncodeAll;
    hide Decode;
    hide IsUtf8;
    hide HasType;
    hide Uleb;
    FirstIs(table, i);
    LastIs(table, i);
    var e := table[i];
    ParamsRoundTrip(e.params, args);
    ParamsAgree(e.params, EncodeAll(args));
  }

  // ---------------------------------------------------------------------------
  // What the caller reads
  // ---------------------------------------------------------------------------

  /** What the reply carries has the type it is decoded at. */
  ghost predicate Readable(ret: Ret, o: Outcome)
    requires Wrapped(ret, o).Some?
  {
    HasType(Wrapped(ret, o).value, ReplyType(ret))
  }

  lemma ReplyLoose(ret: Ret, o: Outcome)
    requires OutcomeTyped(ret, o) && Wrapped(ret, o).Some?
    requires |Encode(Wrapped(ret, o).value)| < 0x1_0000_0000
    ensures Loose(Wrapped(ret, o).value, ReplyType(ret))
  {
    Pow2Sizes();
    hide Pow2;
    hide Uleb;
    if ret.RetStr? && o.Fail? && ret.hasMsg {
      assert Encode(VString(o.text)) == Uleb(|o.text|) + o.text;
      assert Loose(VString(o.text), TString);
    }
  }

  /** The error of the decoder at a reply it cannot read. */
  ghost function Fault(ret: Ret, o: Outcome): Error
    requires Wrapped(ret, o).Some?
  {
    match Decode(ReplyType(ret), Encode(Wrapped(ret, o).value), 0) case Err(e) => e case Ok(_, _) => InvalidUtf8
  }

  /** The outcome as the caller's wrapper reports it, once the reply is decoded. */
  ghost function Reported(ret: Ret, func: Text, o: Outcome): Outcome
    requires Wrapped(ret, o).Some?
  {
    if !Readable(ret, o) then Fail(ErrorText(Fault(ret, o)))
    else if o.Fail? && ret.RetStr? && !ret.hasMsg then Fail(NoPayload(func))
    else o
  }

  /** Where only strings can be at fault, the decoder's error names UTF-8. */
  lemma FaultIs(ret: Ret, o: Outcome)
    requires OutcomeTyped(ret, o) && Wrapped(ret, o).Some? && !Readable(ret, o)
    requires |Encode(Wrapped(ret, o).value)| < 0x1_0000_0000
    ensures Decode(ReplyType(ret), Encode(Wrapped(ret, o).value), 0) == Err(Fault(ret, o))
    ensures CharsAreScalars(Wrapped(ret, o).value) ==> Fault(ret, o) == InvalidUtf8
    ensures o.Fail? ==> Fault(ret, o) == InvalidUtf8
  {
    ReplyLoose(ret, o);
    var v := Wrapped(ret, o).value;
    assert o.Fail? ==> CharsAreScalars(v);
    hide Loose;
    hide HasType;
    hide Encode;
    hide Wrapped;
    hide CharsAreScalars;
    LooseRefused(ReplyType(ret), v, Encode(v), 0);
  }

  lemma ReadsBack(caller: Lane, ret: Ret, func: Text, o: Outcome)
    requires OutcomeTyped(ret, o) && Wrapped(ret, o).Some?
    requires |Encode(Wrapped(ret, o).value)| < 0x1_0000_0000
    ensures ReadResult(caller, ret, func, Encode(Wrapped(ret, o).value)) == Reported(ret, func, o)
  {
    hide Encode;
    hide HasType;
    hide IsUtf8;
    hide ReadResult;
    hide Ascii;
    hide Decode;
    if !Readable(ret, o) {
      FaultIs(ret, o);
      BadReplyRead(caller, ret, func, Encode(Wrapped(ret, o).value));
    } else {
      var v := Wrapped(ret, o).value;
      var body := Encode(v);
      RoundTrip(ReplyType(ret), v, [], []);
      assert [] + body + [] == body;
      GoodReplyRead(caller, ret, func, o);
    }
  }

  lemma GoodReplyRead(caller: Lane, ret: Ret, func: Text, o: Outcome)
    requires OutcomeTyped(ret, o) && Wrapped(ret, o).Some? && Readable(ret, o)
    requires var v := Wrapped(ret, o).value; Decode(ReplyType(ret), Encode(v), 0) == Ok(v, |Encode(v)|)
    ensures ReadResult(caller, ret, func, Encode(Wrapped(ret, o).value)) == Reported(ret, func, o)
  {
    hide Encode;
    hide HasType;
    hide IsUtf8;
    hide DecUleb;
    hide Loose;
    if ret.RetStr? && !caller.Rust? {
      ReadsSide(ret, func, o, Encode(Wrapped(ret, o).value));
    }
  }

  /** A reply that cannot be decoded fails with the decoder's error, read whole or stepwise. */
  lemma BadReplyRead(caller: Lane, ret: Ret, func: Text, body: seq<byte>)
    requires Decode(ReplyType(ret), body, 0).Err?
    ensures ReadResult(caller, ret, func, body) == Fail(ErrorText(Decode(ReplyType(ret), body, 0).error))
  {
    hide ErrorText;
    hide DecString;
    hide DecBit;
    if ret.RetStr? && !caller.Rust? && DecBit("result", body, 0).Ok? {
      BadSide(ret, body);
    }
  }

  lemma BadSide(ret: Ret, body: seq<byte>)
    requires ret.RetStr? && Decode(ReplyType(ret), body, 0).Err? && DecBit("result", body, 0).Ok?
    ensures var bit := DecBit("result", body, 0);
            var e := Decode(ReplyType(ret), body, 0).error;
            && (bit.value ==> ret.hasMsg && DecString(body, bit.pos) == Err(e))
            && (!bit.value ==> ret.ok.Some? && Decode(ret.ok.value, body, bit.pos) == Err(e))
  {
    hide DecString;
    hide DecBit;
    var bit := DecBit("result", body, 0);
    var t := ReplyType(ret);
    assert DecodeSide(if bit.value then t.err else t.ok, body, bit.pos).Err?;
    if bit.value && ret.hasMsg {
      assert Decode(TString, body, bit.pos).Err?;
    }
  }

  lemma ReadsSide(ret: Ret, func: Text, o: Outcome, body: seq<byte>)
    requires ret.RetStr? && Wrapped(ret, o).Some? && Readable(ret, o)
    requires Decode(ReplyType(ret), body, 0) == Ok(Wrapped(ret, o).value, |body|)
    ensures ReadStepwise(ret, func, body) == Reported(ret, func, o)
  {
    hide DecBit;
    hide Ascii;
    var t := ReplyType(ret);
    ResultSteps(t, body);
    var p := DecBit("result", body, 0).pos;
    if o.Fail? {
      SideSteps(t.err, body, p);
    } else {
      SideSteps(t.ok, body, p);
    }
  }

  lemma ResultSteps(t: Type, body: seq<byte>)
    requires t.TResult? && Decode(t, body, 0).Ok?
    ensures var v := Decode(t, body, 0).value;
            var bit := DecBit("result", body, 0);
            && v.VResult? && bit.Ok? && bit.value == v.isErr
            && DecodeSide(if v.isErr then t.err else t.ok, body, bit.pos) == Ok(v.payload, Decode(t, body, 0).pos)
  {
    hide DecBit;
  }

  lemma SideSteps(side: Option<Type>, body: seq<byte>, p: nat)
    requires DecodeSide(side, body, p).Ok?
    ensures var step := DecodeSide(side, body, p);
            && (side.None? ==> step == Ok(None, p))
            && (side.Some? ==> step.value.Some? && Decode(side.value, body, p) == Ok(step.value.value, step.pos))
            && (side == Some(TString) ==>
                  step.value.value.VString? && DecString(body, p) == Ok(step.value.value.utf8, step.pos))
  {
    hide DecString;
  }

  // ---------------------------------------------------------------------------
  // Transparency
  // ---------------------------------------------------------------------------

  /** What a caller gets: the reply decoded, or the text of the refusal. */
  ghost function Gets(caller: Lane, callee: Lane, e: Entry, func: Text, o: Outcome, zero: Option<Value>): Outcome {
    if ReplyValue(callee, e.ret, o).Some? then Seen(caller, zero, Reported(e.ret, func, o))
    else
      var text := Framed(callee, e.addr, RefusalText(callee, e.ret, o));
      Concluded(caller, e.ret, func, zero, Refuse(TextRead(caller, text)))
  }

  lemma CallGives(caller: Lane, callee: Lane, table: seq<Entry>, i: nat, func: Text, args: seq<Value>,
                  zero: Option<Value>, rest: seq<byte>)
    requires DistinctAddresses(table) && i < |table|
    requires callee.Rust? || callee.As? ==> IsUtf8(table[i].addr)
    requires HaveTypes(args, table[i].params)
    requires OutcomeTyped(table[i].ret, table[i].impl(args))
    requires |Invoke(callee, table, table[i].addr, EncodeAll(args))| < 0x1_0000_0000
    ensures var e := table[i];
            Call(caller, callee, table, e.addr, func, e.ret, args, zero, rest) ==
            Gets(caller, callee, e, func, e.impl(args), zero)
    ensures var e := table[i];
            ReplyValue(callee, e.ret, e.impl(args)).Some? ==>
              |Encode(Wrapped(e.ret, e.impl(args)).value)| < 0x1_0000_0000
  {
    hide HasType;
    hide Encode;
    hide EncodeAll;
    hide IsUtf8;
    hide Invoke;
    hide Pow2;
    hide Concluded;
    hide ReadLenbuf;
    hide Lenbuf;
    hide ParseReply;
    hide ReadResult;
    hide Ascii;
    hide Loose;
    hide Reported;
    hide Wrapped;
    hide OutcomeTyped;
    var e := table[i];
    var o := e.impl(args);
    var payload := Invoke(callee, table, e.addr, EncodeAll(args));
    LenbufRoundTrip(payload, rest);
    Replies(callee, table, i, args);
    if ReplyValue(callee, e.ret, o).Some? {
      ReadsBack(caller, e.ret, func, o);
      OkComesBack(caller, Encode(Wrapped(e.ret, o).value));
      OkRead(caller, e.ret, func, o, zero);
    } else {
      Pow2Sizes();
      TextComesBack(caller, StatusOne(callee, e, args));
    }
  }

  /**
   For any two lanes and any of the four result classes the caller gets what the
   implementation returned, exactly when the outcome can be represented on the way.
   */
  lemma CallTransparent(caller: Lane, callee: Lane, table: seq<Entry>, i: nat, func: Text, args: seq<Value>,
                        zero: Option<Value>, rest: seq<byte>)
    requires DistinctAddresses(table) && i < |table|
    requires callee.Rust? || callee.As? ==> IsUtf8(table[i].addr)
    requires HaveTypes(args, table[i].params)
    requires OutcomeTyped(table[i].ret, table[i].impl(args)) && Produced(callee, table[i].impl(args))
    requires |Invoke(callee, table, table[i].addr, EncodeAll(args))| < 0x1_0000_0000
    ensures var e := table[i];
            var want := Expected(callee, e.addr, func, e.ret, e.impl(args));
            Call(caller, callee, table, e.addr, func, e.ret, args, zero, rest) == want <==>
            Deliverable(caller, e.ret, e.impl(args), want)
  {
    hide HasType;
    hide Encode;
    hide EncodeAll;
    hide IsUtf8;
    hide Invoke;
    hide Call;
    hide Concluded;
    hide Ascii;
    hide Loose;
    hide OutcomeTyped;
    var e := table[i];
    var o := e.impl(args);
    CallGives(caller, callee, table, i, func, args, zero, rest);
    if ReplyValue(callee, e.ret, o).Some? {
      SentIsWanted(caller, callee, e, func, o, zero);
    } else {
      RefusedIsWanted(caller, callee, e, func, o, zero);
    }
  }

  lemma SentIsWanted(caller: Lane, callee: Lane, e: Entry, func: Text, o: Outcome, zero: Option<Value>)
    requires OutcomeTyped(e.ret, o) && ReplyValue(callee, e.ret, o).Some?
    requires |Encode(Wrapped(e.ret, o).value)| < 0x1_0000_0000
    ensures var want := Expected(callee, e.addr, func, e.ret, o);
            Seen(caller, zero, Reported(e.ret, func, o)) == want <==> Deliverable(caller, e.ret, o, want)
  {
    hide Encode;
    hide IsUtf8;
    hide Ascii;
    hide Loose;
    hide OutcomeTyped;
    hide ErrorText;
    MessageTyped(e.ret, o);
    if !Readable(e.ret, o) {
      FaultIs(e.ret, o);
      ErrorTextIsText(Fault(e.ret, o));
    }
    hide HasType;
  }

  /** A message has its type exactly if it is UTF-8. */
  lemma MessageTyped(ret: Ret, o: Outcome)
    requires OutcomeTyped(ret, o) && Wrapped(ret, o).Some? && |Encode(Wrapped(ret, o).value)| < 0x1_0000_0000
    ensures o.Fail? ==> (Readable(ret, o) <==> (ret.hasMsg ==> IsUtf8(o.text)))
  {
    hide IsUtf8;
    hide Encode;
    ReplyLoose(ret, o);
    if o.Fail? {
      var side := ReplyType(ret).err;
      var p := Wrapped(ret, o).value.payload;
      assert SideLoose(p, side);
      assert Readable(ret, o) == SideHasType(p, side);
      assert ret.hasMsg ==> Loose(VString(o.text), TString);
      assert ret.hasMsg ==> SideHasType(p, side) == HasType(VString(o.text), TString);
    }
  }

  lemma {:induction false} ErrorTextIsText(e: Error)
    ensures ErrorText(e) != []
    ensures e == InvalidUtf8 ==> IsUtf8(ErrorText(e))
  {
    AsciiIsUtf8("invalid utf-8 in string");
  }

  lemma RefusedIsWanted(caller: Lane, callee: Lane, e: Entry, func: Text, o: Outcome, zero: Option<Value>)
    requires OutcomeTyped(e.ret, o) && Produced(callee, o) && ReplyValue(callee, e.ret, o).None?
    requires callee.As? ==> IsUtf8(e.addr)
    ensures var want := Expected(callee, e.addr, func, e.ret, o);
            Gets(caller, callee, e, func, o, zero) == want <==> Deliverable(caller, e.ret, o, want)
  {
    hide IsUtf8;
    hide Ascii;
    hide Concluded;
    hide ErrorText;
    hide Loose;
    var text := Framed(callee, e.addr, RefusalText(callee, e.ret, o));
    RefusalRead(caller, e.ret, func, text, zero);
    if Unencodable(callee, e.ret, o) {
      UnencodableIsNot(caller, callee, e, func, o);
      FramedText(callee, e.addr, ErrorText(InvalidUtf8));
    } else {
      assert o.Fail? || o.Unsendable? by {
        NothingElseRefused(e.ret, o);
      }
    }
  }

  lemma NothingElseRefused(ret: Ret, o: Outcome)
    requires OutcomeTyped(ret, o) && Wrapped(ret, o).None?
    ensures !o.Done?
  {
    hide Loose;
  }

  /** What the AssemblyScript sink refuses could not have been delivered. */
  lemma UnencodableIsNot(caller: Lane, callee: Lane, e: Entry, func: Text, o: Outcome)
    requires Unencodable(callee, e.ret, o) && OutcomeTyped(e.ret, o)
    ensures !Deliverable(caller, e.ret, o, Expected(callee, e.addr, func, e.ret, o))
    ensures o.Fail? ==> Expected(callee, e.addr, func, e.ret, o) == Fail(o.text) && !IsUtf8(o.text)
  {
    var v := Wrapped(e.ret, o).value;
    hide IsUtf8;
    hide Utf8Decode;
    if o.Fail? {
      Utf8DecodeIsUtf8(o.text);
    } else {
      OutcomeLoose(e.ret, o);
      LooseTyped(v, ReplyType(e.ret));
    }
  }

  lemma OutcomeLoose(ret: Ret, o: Outcome)
    requires OutcomeTyped(ret, o) && o.Done? && Wrapped(ret, o).Some?
    ensures Loose(Wrapped(ret, o).value, ReplyType(ret))
  {
  }

  lemma RefusalRead(caller: Lane, ret: Ret, func: Text, text: Text, zero: Option<Value>)
    ensures Concluded(caller, ret, func, zero, Refuse(TextRead(caller, text))) == Fail(text) <==>
            IsUtf8(text) && !(caller.Cpp? && text == [])
    ensures text != [] ==> Concluded(caller, ret, func, zero, Refuse(TextRead(caller, text))).Fail?
    ensures text != [] ==> forall other :: !IsUtf8(other) ==>
              Concluded(caller, ret, func, zero, Refuse(TextRead(caller, text))) != Fail(other)
  {
    hide IsUtf8;
    hide Ascii;
    hide ReadResult;
    AsciiIsUtf8("mesh: malformed error string in reply");
    AsciiIsUtf8("mesh call: malformed error reply");
  }

  lemma FramedText(callee: Lane, addr: Text, text: Text)
    ensures !callee.Rust? ==> Framed(callee, addr, text) != []
  {
  }

  lemma OkRead(caller: Lane, ret: Ret, func: Text, o: Outcome, zero: Option<Value>)
    requires Wrapped(ret, o).Some?
    requires ReadResult(caller, ret, func, Encode(Wrapped(ret, o).value)) == Reported(ret, func, o)
    ensures Concluded(caller, ret, func, zero, Pass(Encode(Wrapped(ret, o).value))) ==
            Seen(caller, zero, Reported(ret, func, o))
  {
    hide ReadResult;
    hide Encode;
  }

  lemma OkComesBack(caller: Lane, body: seq<byte>)
    ensures ParseReply(caller, OkPayload(body)) == Pass(body)
  {
    assert OkPayload(body)[1..] == body;
  }

  // ---------------------------------------------------------------------------
  // Consequences
  // ---------------------------------------------------------------------------

  /** A C++ caller takes a failure with an empty text, which a Rust callee can send, for success. */
  lemma EmptyTextReadsAsSuccess(table: seq<Entry>, func: Text, rest: seq<byte>)
    requires |table| == 1 && table[0].params == [] && table[0].ret == RetNone && IsUtf8(table[0].addr)
    requires table[0].impl([]) == Fail([])
    ensures Call(Rust, Rust, table, table[0].addr, func, RetNone, [], None, rest) == Fail([])
    ensures Call(Cpp, Rust, table, table[0].addr, func, RetNone, [], None, rest) == Done(None)
  {
    hide Concluded;
    hide Invoke;
    hide ReadLenbuf;
    hide Lenbuf;
    hide ParseReply;
    Replies(Rust, table, 0, []);
    assert Uleb(0) == [0];
    Pow2Sizes();
    LenbufRoundTrip(ErrPayload([]), rest);
    TextComesBack(Rust, []);
    TextComesBack(Cpp, []);
    EmptyUtf8();
    EmptyRefusal(func);
  }

  /**
   What cannot be represented is refused: the caller of a Go or C++ callee fails with its
   own decoder's error, which names UTF-8 unless a char is at fault too; an AssemblyScript
   callee refuses strings itself, with a text of the same meaning.
   */
  lemma BadTextIsRefused(caller: Lane, callee: Lane, table: seq<Entry>, i: nat, func: Text, args: seq<Value>,
                         zero: Option<Value>, rest: seq<byte>)
    requires DistinctAddresses(table) && i < |table|
    requires callee.Rust? || callee.As? ==> IsUtf8(table[i].addr)
    requires HaveTypes(args, table[i].params)
    requires OutcomeTyped(table[i].ret, table[i].impl(args))
    requires Wrapped(table[i].ret, table[i].impl(args)).Some? && !Readable(table[i].ret, table[i].impl(args))
    requires |Invoke(callee, table, table[i].addr, EncodeAll(args))| < 0x1_0000_0000
    ensures var e := table[i];
            var o := e.impl(args);
            var v := Wrapped(e.ret, o).value;
            var got := Call(caller, callee, table, e.addr, func, e.ret, args, zero, rest);
            && (Unencodable(callee, e.ret, o) ==> got == Fail(Framed(callee, e.addr, ErrorText(InvalidUtf8))))
            && (!Unencodable(callee, e.ret, o) ==> got == Fail(ErrorText(Fault(e.ret, o))))
            && (CharsAreScalars(v) || o.Fail? ==> Fault(e.ret, o) == InvalidUtf8 || Unencodable(callee, e.ret, o))
  {
    hide HasType;
    hide Encode;
    hide EncodeAll;
    hide IsUtf8;
    hide Invoke;
    hide Call;
    hide Concluded;
    hide Ascii;
    hide Loose;
    hide OutcomeTyped;
    hide ErrorText;
    hide TextsAreUtf8;
    hide CharsAreScalars;
    var e := table[i];
    var o := e.impl(args);
    CallGives(caller, callee, table, i, func, args, zero, rest);
    if Unencodable(callee, e.ret, o) {
      var text := Framed(callee, e.addr, ErrorText(InvalidUtf8));
      RefusalRead(caller, e.ret, func, text, zero);
      FramedText(callee, e.addr, ErrorText(InvalidUtf8));
      RefusalFramed(callee, e.addr);
    } else {
      FaultIs(e.ret, o);
      ErrorTextIsText(Fault(e.ret, o));
    }
  }

  lemma RefusalFramed(callee: Lane, addr: Text)
    requires IsUtf8(addr)
    ensures IsUtf8(Framed(callee, addr, ErrorText(InvalidUtf8)))
  {
    hide IsUtf8;
    AsciiIsUtf8(": ");
    AsciiIsUtf8("invalid utf-8 in string");
    TextsJoin(addr, Ascii(": "));
    TextsJoin(addr + Ascii(": "), ErrorText(InvalidUtf8));
    AsciiIsUtf8("invalid reply message");
  }

  /** A Go or C++ implementation fails with the message 0xFF: it is sent, and every caller refuses it. */
  lemma BadMessageIsRefused(caller: Lane, callee: Lane, table: seq<Entry>, func: Text, zero: Option<Value>,
                            rest: seq<byte>)
    requires callee.Go? || callee.Cpp?
    requires |table| == 1 && table[0].params == [] && table[0].ret == RetStr(None, true)
    requires table[0].impl([]) == Fail([0xFF])
    ensures Invoke(callee, table, table[0].addr, EncodeAll([])) == [0, 1, 1, 0xFF]
    ensures Call(caller, callee, table, table[0].addr, func, table[0].ret, [], zero, rest) ==
            Fail(Ascii("invalid utf-8 in string"))
  {
    assert Utf8Decode([0xFF]).None?;
    Utf8DecodeIsUtf8([0xFF]);
    hide IsUtf8;
    hide Utf8Decode;
    hide Call;
    hide Invoke;
    hide Decode;
    var e := table[0];
    var o := e.impl([]);
    assert Uleb(1) == [1];
    assert Encode(VString([0xFF])) == [1, 0xFF];
    assert EncodeSide(Some(VString([0xFF]))) == [1, 0xFF];
    assert Encode(Wrapped(e.ret, o).value) == [1, 1, 0xFF];
    Replies(callee, table, 0, []);
    MessageTyped(e.ret, o);
    BadTextIsRefused(caller, callee, table, 0, func, [], zero, rest);
  }

  lemma EmptyRefusal(func: Text)
    ensures Concluded(Rust, RetNone, func, None, Refuse([])) == Fail([])
    ensures Concluded(Cpp, RetNone, func, None, Refuse([])) == Done(None)
  {
  }

  /** A call of an address nobody registered fails with the same text in every lane. */
  lemma UnknownFunction(caller: Lane, callee: Lane, table: seq<Entry>, addr: Text, func: Text, ret: Ret,
                        args: seq<Value>, zero: Option<Value>, rest: seq<byte>)
    requires IsUtf8(addr) && |addr| < 0x1000_0000 && forall i :: 0 <= i < |table| ==> table[i].addr != addr
    ensures Call(caller, callee, table, addr, func, ret, args, zero, rest) == Fail(Ascii("unknown function: ") + addr)
  {
    hide Concluded;
    hide ReadLenbuf;
    hide Lenbuf;
    hide ParseReply;
    hide IsUtf8;
    hide Pow2;
    hide Uleb;
    hide EncodeAll;
    LookupsMiss(table, addr);
    var text := Ascii("unknown function: ") + addr;
    AsciiIsUtf8("unknown function: ");
    TextsJoin(Ascii("unknown function: "), addr);
    assert Invoke(callee, table, addr, EncodeAll(args)) == ErrPayload(text);
    Pow2Sizes();
    UlebIsUleb(32, |text|);
    LenbufRoundTrip(ErrPayload(text), rest);
    TextComesBack(caller, text);
    RefusalRead(caller, ret, func, text, zero);
  }
}
