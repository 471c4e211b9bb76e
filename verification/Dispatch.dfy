/**
 What `crab_invoke` answers to any name and any bytes, and what callers make of any reply:
 also of those that no runtime here would send.
 */
module Dispatch {
  import opened Bytes
  import opened Leb128
  import opened Unicode
  import opened Wire
  import opened WireLanguage
  import opened WireFaults
  import opened LooseValues
  import opened Abi
  import opened Mesh

  // ---------------------------------------------------------------------------
  // Arguments that are no parameters
  // ---------------------------------------------------------------------------

  /** All parameters before the `i`-th can be read, up to `p`, and that one cannot. */
  ghost predicate StopsAt(tys: seq<Type>, args: seq<byte>, i: nat, p: nat, e: Error) {
    && i < |tys| && p <= |args|
    && (exists vs :: DenotesFields(tys[..i], vs, args[..p]))
    && HasFault(tys[i], args[p..], e)
  }

  /** All parameters can be read, up to `p`, and there are bytes left. */
  ghost predicate LeftOver(tys: seq<Type>, args: seq<byte>, p: nat) {
    p < |args| && exists vs :: DenotesFields(tys, vs, args[..p])
  }

  /** What is wrong with the arguments; the Rust decoder also says which parameter it is. */
  ghost predicate Blames(named: bool, tys: seq<Type>, args: seq<byte>, e: Error) {
    || (exists p :: LeftOver(tys, args, p) && e == Trailing(|args| - p, "params"))
    || (exists i, p, inner :: StopsAt(tys, args, i, p, inner) && e == if named then Param(i, inner) else inner)
  }

  lemma {:induction false} FieldsSnoc(tys: seq<Type>, vs: seq<Value>, bs: seq<byte>, ty: Type, v: Value,
                                      more: seq<byte>)
    requires DenotesFields(tys, vs, bs) && Denotes(ty, v, more)
    ensures DenotesFields(tys + [ty], vs + [v], bs + more)
  {
    hide Denotes;
    if tys == [] {
      assert more[..|more|] == more && more[|more|..] == [] && [] + more == more;
      assert DenotesFields([], [], more[|more|..]);
      assert ([] + [ty])[1..] == [] && ([] + [v])[1..] == [];
    } else {
      var k :| 0 <= k <= |bs| && Denotes(tys[0], vs[0], bs[..k]) && DenotesFields(tys[1..], vs[1..], bs[k..]);
      FieldsSnoc(tys[1..], vs[1..], bs[k..], ty, v, more);
      assert (tys + [ty])[1..] == tys[1..] + [ty] && (vs + [v])[1..] == vs[1..] + [v];
      assert (bs + more)[..k] == bs[..k] && (bs + more)[k..] == bs[k..] + more;
    }
  }

  /** Both decoders find the same fault, from any parameter on. */
  lemma {:induction false} FaultFrom(tys: seq<Type>, i: nat, args: seq<byte>, pos: nat, seen: seq<Value>)
    requires i <= |tys| && pos <= |args| && DenotesFields(tys[..i], seen, args[..pos])
    requires DecodeParamsFrom(tys, i, args, pos).Err?
    ensures Blames(true, tys, args, DecodeParamsFrom(tys, i, args, pos).error)
    ensures match DecodeFields(tys[i..], args, pos)
            case Err(e) => Blames(false, tys, args, e)
            case Ok(_, p) => LeftOver(tys, args, p)
    decreases |tys| - i
  {
    hide Denotes;
    hide DenotesFields;
    hide Decode;
    hide HasFault;
    if i == |tys| {
      assert tys[..i] == tys;
      assert LeftOver(tys, args, pos);
    } else {
      assert tys[i..][0] == tys[i] && tys[i..][1..] == tys[i + 1..];
      match Decode(tys[i], args, pos)
      case Err(e) =>
        FaultExact(tys[i], args, pos, e);
        assert StopsAt(tys, args, i, pos, e);
      case Ok(v, p) =>
        DecodeExact(tys[i], v, args, pos, p);
        FieldsSnoc(tys[..i], seen, args[..pos], tys[i], v, args[pos..p]);
        assert tys[..i] + [tys[i]] == tys[..i + 1] && args[..pos] + args[pos..p] == args[..p];
        FaultFrom(tys, i + 1, args, p, seen + [v]);
    }
  }

  /** Arguments are read exactly if they denote parameters, and then as those. */
  lemma ArgsExact(tys: seq<Type>, args: seq<byte>, vs: seq<Value>)
    ensures DecodeArgs(tys, args) == Ok(vs, |args|) <==> DenotesFields(tys, vs, args)
    ensures DecodeArgs(tys, args).Ok? ==> DecodeArgs(tys, args).pos == |args|
  {
    hide DenotesFields;
    assert args[0..|args|] == args;
    DecodeFieldsSound(tys, args, 0);
    if DenotesFields(tys, vs, args) {
      DecodeFieldsComplete(tys, vs, args, 0, |args|);
    }
  }

  ghost predicate NoParams(tys: seq<Type>, args: seq<byte>) {
    forall vs :: !DenotesFields(tys, vs, args)
  }

  /** Arguments that denote no parameters are refused by both decoders, for the same reason. */
  lemma FaultIsBlamed(tys: seq<Type>, args: seq<byte>)
    requires NoParams(tys, args)
    ensures DecodeArgs(tys, args).Err? && Blames(false, tys, args, DecodeArgs(tys, args).error)
    ensures DecodeParams(tys, args).Err? && Blames(true, tys, args, DecodeParams(tys, args).error)
  {
    hide Denotes;
    hide Decode;
    assert tys[..0] == [] && args[..0] == [] && tys[0..] == tys;
    assert DenotesFields(tys[..0], [], args[..0]);
    ParamsAgree(tys, args);
    if DecodeArgs(tys, args).Ok? {
      ArgsExact(tys, args, DecodeArgs(tys, args).value);
      assert false;
    }
    FaultFrom(tys, 0, args, 0, []);
  }

  // ---------------------------------------------------------------------------
  // Which function
  // ---------------------------------------------------------------------------

  /** The Rust and AssemblyScript runtimes ask for a name that is a text. */
  ghost predicate NameAllowed(lane: Lane, name: Text) {
    lane.Rust? || lane.As? ==> IsUtf8(name)
  }

  /** The entry a call of a registered name runs on arguments that denote `vs`. */
  lemma Answered(lane: Lane, table: seq<Entry>, i: nat, args: seq<byte>, vs: seq<Value>)
    requires DistinctAddresses(table) && i < |table| && NameAllowed(lane, table[i].addr)
    requires DenotesFields(table[i].params, vs, args)
    ensures var e := table[i];
            Invoke(lane, table, e.addr, args) ==
            match ReplyValue(lane, e.ret, e.impl(vs))
            case Some(v) => OkPayload(Encode(v))
            case None => ErrPayload(StatusOne(lane, e, vs))
  {
    hide Encode;
    hide Decode;
    hide IsUtf8;
    hide DenotesFields;
    hide Uleb;
    FirstIs(table, i);
    LastIs(table, i);
    ArgsExact(table[i].params, args, vs);
    ParamsAgree(table[i].params, args);
  }

  /** The text of a call whose arguments are no parameters. */
  function BadParams(addr: Text, e: Error): Text {
    addr + Ascii(": bad params: ") + ErrorText(e)
  }

  lemma {:induction false} ErrorTextPlain(e: Error)
    ensures forall i :: 0 <= i < |ErrorText(e)| ==> ErrorText(e)[i] < 128
  {
    if e.Param? {
      ErrorTextPlain(e.inner);
    }
  }

  lemma BadParamsIsText(addr: Text, e: Error)
    requires IsUtf8(addr)
    ensures IsUtf8(BadParams(addr, e))
  {
    hide IsUtf8;
    AsciiIsUtf8(": bad params: ");
    ErrorTextPlain(e);
    PlainIsUtf8(ErrorText(e));
    TextsJoin(addr, Ascii(": bad params: "));
    TextsJoin(addr + Ascii(": bad params: "), ErrorText(e));
  }

  lemma AsciiJoins(a: string, b: string)
    ensures Ascii(a) + Ascii(b) == Ascii(a + b)
  {
  }

  lemma HandlerText(addr: Text, e: Error)
    ensures addr + Ascii(": ") + (Ascii("bad params: ") + ErrorText(e)) == BadParams(addr, e)
  {
    AsciiJoins(": ", "bad params: ");
    assert ": " + "bad params: " == ": bad params: ";
    var a, b, c := Ascii(": "), Ascii("bad params: "), ErrorText(e);
    assert addr + a + (b + c) == addr + (a + b) + c;
  }

  /**
   Arguments that denote no parameters of the function are answered in every lane by the
   status-1 frame of a text that names the function and the first fault of the bytes.
   */
  lemma BadArguments(lane: Lane, table: seq<Entry>, i: nat, args: seq<byte>) returns (e: Error)
    requires DistinctAddresses(table) && i < |table| && NameAllowed(lane, table[i].addr)
    requires NoParams(table[i].params, args)
    ensures Blames(lane.Rust?, table[i].params, args, e)
    ensures Invoke(lane, table, table[i].addr, args) == ErrPayload(BadParams(table[i].addr, e))
    ensures Invoke(lane, table, table[i].addr, args)[0] == 1
  {
    hide IsUtf8;
    hide DecodeParams;
    hide DecodeArgs;
    hide Uleb;
    hide Ascii;
    hide ErrorText;
    hide NoParams;
    hide Blames;
    FirstIs(table, i);
    LastIs(table, i);
    var entry := table[i];
    FaultIsBlamed(entry.params, args);
    if lane.Rust? {
      e := DecodeParams(entry.params, args).error;
    } else {
      e := DecodeArgs(entry.params, args).error;
      HandlerText(entry.addr, e);
      if lane.As? {
        BadParamsIsText(entry.addr, e);
      }
    }
  }

  /** No caller takes such an answer for a result, and all read the same text. */
  lemma BadArgumentsRefused(caller: Lane, lane: Lane, table: seq<Entry>, i: nat, args: seq<byte>) returns (e: Error)
    requires DistinctAddresses(table) && i < |table| && IsUtf8(table[i].addr)
    requires NoParams(table[i].params, args)
    requires |Invoke(lane, table, table[i].addr, args)| < 0x1_0000_0000
    ensures Blames(lane.Rust?, table[i].params, args, e)
    ensures Kept(caller, ParseReply(caller, Invoke(lane, table, table[i].addr, args))) ==
            Refuse(BadParams(table[i].addr, e))
  {
    hide IsUtf8;
    hide Invoke;
    hide Blames;
    hide ParseReply;
    hide ErrorText;
    hide NoParams;
    e := BadArguments(lane, table, i, args);
    BadParamsIsText(table[i].addr, e);
    Pow2Sizes();
    TextComesBack(caller, BadParams(table[i].addr, e));
  }

  // ---------------------------------------------------------------------------
  // Success
  // ---------------------------------------------------------------------------

  /** The implementation registered under the name ran on what the arguments denote, and its outcome has bytes. */
  ghost predicate Ran(lane: Lane, table: seq<Entry>, name: Text, args: seq<byte>, i: nat, vs: seq<Value>) {
    && i < |table| && table[i].addr == name
    && DenotesFields(table[i].params, vs, args)
    && ReplyValue(lane, table[i].ret, table[i].impl(vs)).Some?
  }

  /**
   A reply has status 0 exactly if the implementation of that name ran on the values that
   the argument bytes denote and returned something with a wire form, which is then all the
   reply holds; every other reply has status 1.
   */
  lemma StatusZero(lane: Lane, table: seq<Entry>, name: Text, args: seq<byte>)
    requires DistinctAddresses(table)
    ensures var reply := Invoke(lane, table, name, args);
            && reply != [] && reply[0] <= 1
            && (reply[0] == 0 <==> NameAllowed(lane, name) && exists i: nat, vs :: Ran(lane, table, name, args, i, vs))
    ensures forall i: nat, vs :: NameAllowed(lane, name) && Ran(lane, table, name, args, i, vs) ==>
              Invoke(lane, table, name, args) ==
              [0] + Encode(ReplyValue(lane, table[i].ret, table[i].impl(vs)).value)
  {
    hide IsUtf8;
    hide Encode;
    hide DenotesFields;
    hide ReplyValue;
    hide Invoke;
    var reply := Invoke(lane, table, name, args);
    forall i: nat, vs | NameAllowed(lane, name) && Ran(lane, table, name, args, i, vs)
      ensures reply == [0] + Encode(ReplyValue(lane, table[i].ret, table[i].impl(vs)).value)
    {
      Answered(lane, table, i, args, vs);
    }
    if NameAllowed(lane, name) && exists i :: 0 <= i < |table| && table[i].addr == name {
      var i :| 0 <= i < |table| && table[i].addr == name;
      RegisteredReply(lane, table, i, args);
    } else {
      NotRegistered(lane, table, name, args);
    }
  }

  lemma NotRegistered(lane: Lane, table: seq<Entry>, name: Text, args: seq<byte>)
    requires NameAllowed(lane, name) ==> forall i :: 0 <= i < |table| ==> table[i].addr != name
    ensures var reply := Invoke(lane, table, name, args); reply != [] && reply[0] == 1
  {
    hide IsUtf8;
    hide Ascii;
    hide Uleb;
    LookupsMiss(table, name);
  }

  lemma RegisteredReply(lane: Lane, table: seq<Entry>, i: nat, args: seq<byte>)
    requires DistinctAddresses(table) && i < |table| && NameAllowed(lane, table[i].addr)
    ensures var reply := Invoke(lane, table, table[i].addr, args);
            && reply != [] && reply[0] <= 1
            && (reply[0] == 0 ==> exists vs :: Ran(lane, table, table[i].addr, args, i, vs))
  {
    hide IsUtf8;
    hide Encode;
    hide DenotesFields;
    hide Invoke;
    hide ReplyValue;
    if NoParams(table[i].params, args) {
      var e := BadArguments(lane, table, i, args);
    } else {
      var vs :| DenotesFields(table[i].params, vs, args);
      Answered(lane, table, i, args, vs);
      if ReplyValue(lane, table[i].ret, table[i].impl(vs)).Some? {
        assert Ran(lane, table, table[i].addr, args, i, vs);
      }
    }
  }

  /** A name that is no text is refused with a text of its own, whatever is registered. */
  lemma BadName(lane: Lane, table: seq<Entry>, name: Text, args: seq<byte>)
    requires !NameAllowed(lane, name)
    ensures Invoke(lane, table, name, args) ==
            ErrPayload(Ascii(if lane.Rust? then "function name is not valid utf-8" else "invalid function name"))
  {
    hide IsUtf8;
    AsciiIsUtf8("invalid function name");
  }

  // ---------------------------------------------------------------------------
  // Any reply
  // ---------------------------------------------------------------------------

  /** The payload behind the status byte is one text and nothing else. */
  ghost predicate HoldsText(payload: seq<byte>, text: Text) {
    payload != [] && payload[0] == 1 && Denotes(TString, VString(text), payload[1..])
  }

  /**
   A reply passes exactly if its status byte is 0, with all that follows; a text is read
   from status 1 exactly if one text follows and nothing else; all other replies are
   refused as malformed.
   */
  lemma ParseExact(caller: Lane, payload: seq<byte>)
    ensures forall body :: ParseReply(caller, payload) == Pass(body) <==> payload == [0] + body
    ensures forall text :: HoldsText(payload, text) ==> ParseReply(caller, payload) == Refuse(text)
    ensures payload != [] && payload[0] == 1 && (forall text :: !HoldsText(payload, text)) ==>
              exists why: string :: ParseReply(caller, payload) == Refuse(Ascii(why)) && why in MALFORMED
  {
    hide Ascii;
    hide DecString;
    hide Denotes;
    hide Decode;
    if payload != [] {
      var rest := payload[1..];
      assert payload == [payload[0]] + rest;
      if payload[0] == 1 {
        forall text ensures HoldsText(payload, text) <==> DecString(rest, 0) == Ok(text, |rest|) {
          StringExact(rest, text);
        }
        WholeString(rest);
        MalformedTexts();
      }
    }
  }

  const MALFORMED: seq<string> := [
    "mesh: malformed error string in reply",
    "mesh call: malformed error reply",
    "mesh call: malformed error reply (trailing bytes)"
  ]

  lemma MalformedTexts()
    ensures "mesh: malformed error string in reply" in MALFORMED
    ensures "mesh call: malformed error reply" in MALFORMED
    ensures "mesh call: malformed error reply (trailing bytes)" in MALFORMED
  {
    assert MALFORMED[0] == "mesh: malformed error string in reply";
    assert MALFORMED[1] == "mesh call: malformed error reply";
    assert MALFORMED[2] == "mesh call: malformed error reply (trailing bytes)";
  }

  lemma StringExact(bs: seq<byte>, text: Text)
    ensures Denotes(TString, VString(text), bs) <==> DecString(bs, 0) == Ok(text, |bs|)
  {
    hide DecString;
    hide Denotes;
    assert bs[0..|bs|] == bs;
    DecodeExact(TString, VString(text), bs, 0, |bs|);
    DecodesString(bs);
  }

  lemma DecodesString(bs: seq<byte>)
    ensures match DecString(bs, 0)
            case Ok(s, p) => Decode(TString, bs, 0) == Ok(VString(s), p)
            case Err(e) => Decode(TString, bs, 0) == Err(e)
  {
    hide DecString;
  }

  // ---------------------------------------------------------------------------
  // Any body
  // ---------------------------------------------------------------------------

  /** What a typed wrapper returns for a reply that holds `v`. */
  function Meaning(ret: Ret, func: Text, v: Value): Outcome {
    match ret
    case RetNone => Done(None)
    case RetPlain(_) => Done(Some(v))
    case RetTyped(_) => Done(Some(v))
    case RetStr(_, hasMsg) =>
      if !v.VResult? then Fail([])
      else if !v.isErr then Done(v.payload)
      else if !hasMsg then Fail(NoPayload(func))
      else Fail(if v.payload.Some? && v.payload.value.VString? then v.payload.value.utf8 else [])
  }

  /** A failure no lane takes for success. */
  predicate FailsWithText(o: Outcome) {
    o.Fail? && o.text != []
  }

  /**
   The wrappers of all lanes, whether they read the result whole or step by step, return
   what the body denotes at the reply type, and fail if it denotes nothing there: with the
   text of its fault, or because of the bytes that are left.
   */
  lemma ReadExact(caller: Lane, ret: Ret, func: Text, body: seq<byte>)
    ensures forall v :: Denotes(ReplyType(ret), v, body) ==>
              ReadResult(caller, ret, func, body) == Meaning(ret, func, v)
    ensures forall e :: HasFault(ReplyType(ret), body, e) ==> ReadResult(caller, ret, func, body) == Fail(ErrorText(e))
    ensures (forall v :: !Denotes(ReplyType(ret), v, body)) ==> FailsWithText(ReadResult(caller, ret, func, body))
  {
    hide Denotes;
    hide Decode;
    hide ReadResult;
    hide Meaning;
    hide HasFault;
    var t := ReplyType(ret);
    assert body[0..|body|] == body;
    forall v ensures Denotes(t, v, body) <==> Decode(t, body, 0) == Ok(v, |body|) {
      DecodeExact(t, v, body, 0, |body|);
    }
    forall e ensures Decode(t, body, 0) == Err(e) <==> HasFault(t, body, e) {
      assert body[0..] == body;
      FaultExact(t, body, 0, e);
    }
    DecodeSound(t, body, 0);
    ReadWholeOrFail(caller, ret, func, body);
  }

  lemma ReadWholeOrFail(caller: Lane, ret: Ret, func: Text, body: seq<byte>)
    ensures match Decode(ReplyType(ret), body, 0)
            case Err(e) => ReadResult(caller, ret, func, body) == Fail(ErrorText(e))
            case Ok(v, p) =>
              if p == |body| then ReadResult(caller, ret, func, body) == Meaning(ret, func, v)
              else FailsWithText(ReadResult(caller, ret, func, body))
  {
    hide Decode;
    hide ReplyType;
    hide ReadRust;
    hide ReadStepwise;
    hide Meaning;
    if Decode(ReplyType(ret), body, 0).Err? {
      BadReplyRead(caller, ret, func, body);
      ErrorTextIsText(Decode(ReplyType(ret), body, 0).error);
    } else {
      ReadsRust(ret, func, body);
      ReadsStepwise(ret, func, body);
    }
  }

  lemma ReadsRust(ret: Ret, func: Text, body: seq<byte>)
    requires Decode(ReplyType(ret), body, 0).Ok?
    ensures var step := Decode(ReplyType(ret), body, 0);
            if step.pos == |body| then ReadRust(ret, func, body) == Meaning(ret, func, step.value)
            else FailsWithText(ReadRust(ret, func, body))
  {
    hide Decode;
    hide ErrorText;
    hide DecBit;
    hide DecodeSide;
    hide DecString;
    hide NoPayload;
    ErrorTextIsText(Trailing(|body| - Min(Decode(ReplyType(ret), body, 0).pos, |body|), "value"));
    if ret.RetStr? {
      var t := ReplyType(ret);
      ResultSteps(t, body);
      var v, p := Decode(t, body, 0).value, DecBit("result", body, 0).pos;
      SideSteps(if v.isErr then t.err else t.ok, body, p);
    }
  }

  lemma FinishFails(body: seq<byte>, pos: nat, o: Outcome)
    requires pos != |body|
    ensures FailsWithText(Finish(body, pos, o))
  {
  }

  lemma ReadsStepwise(ret: Ret, func: Text, body: seq<byte>)
    requires Decode(ReplyType(ret), body, 0).Ok?
    ensures var step := Decode(ReplyType(ret), body, 0);
            if step.pos == |body| then ReadStepwise(ret, func, body) == Meaning(ret, func, step.value)
            else FailsWithText(ReadStepwise(ret, func, body))
  {
    hide Finish;
    forall p: nat, o | p != |body| ensures FailsWithText(Finish(body, p, o)) {
      FinishFails(body, p, o);
    }
    forall o ensures Finish(body, |body|, o) == o {
      FinishDone(body, o);
    }
    match ret
    case RetNone => assert Decode(TTuple([]), body, 0) == Ok(VTuple([]), 0);
    case RetPlain(_) => hide Decode;
    case RetTyped(_) => hide Decode;
    case RetStr(_, _) => ReadsSides(ret, func, body);
  }

  lemma FinishDone(body: seq<byte>, o: Outcome)
    ensures Finish(body, |body|, o) == o
  {
  }

  lemma ReadsSides(ret: Ret, func: Text, body: seq<byte>)
    requires ret.RetStr? && Decode(ReplyType(ret), body, 0).Ok?
    ensures var step := Decode(ReplyType(ret), body, 0);
            if step.pos == |body| then ReadStepwise(ret, func, body) == Meaning(ret, func, step.value)
            else FailsWithText(ReadStepwise(ret, func, body))
  {
    hide Decode;
    hide DecBit;
    hide DecodeSide;
    hide DecString;
    hide NoPayload;
    hide Finish;
    hide ErrorText;
    forall p: nat, o | p != |body| ensures FailsWithText(Finish(body, p, o)) {
      FinishFails(body, p, o);
    }
    forall o ensures Finish(body, |body|, o) == o {
      FinishDone(body, o);
    }
    var t := ReplyType(ret);
    ResultSteps(t, body);
    var v, p := Decode(t, body, 0).value, DecBit("result", body, 0).pos;
    SideSteps(if v.isErr then t.err else t.ok, body, p);
  }
}
