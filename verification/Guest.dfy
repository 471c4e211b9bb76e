/**
 The guest runtimes: registration, the reply buffer, and `crab_invoke` from the
 bytes of the name and the arguments to the length-prefixed reply.
 */
module Guest {
  import opened Bytes
  import opened Leb128
  import opened Unicode
  import opened Wire
  import opened Codec
  import opened Abi

  method OkReply(result: seq<byte>) returns (payload: seq<byte>)
    ensures payload == OkPayload(result)
  {
    var out := new Out();
    out.Push(0);
    out.Extend(result);
    return out.bytes;
  }

  method ErrorReply(text: Text) returns (payload: seq<byte>)
    ensures payload == ErrPayload(text)
  {
    var out := new Out();
    out.Push(1);
    UlebEncode(|text|, out);
    out.Extend(text);
    assert [1] + Uleb(|text|) + text == [1] + (Uleb(|text|) + text);
    return out.bytes;
  }

  /** The Rust runtime: a vector of registrations, searched from the front. */
  class Registry {
    var funcs: seq<Entry>
    var reply: seq<byte>

    constructor ()
      ensures funcs == [] && reply == []
    {
      funcs := [];
      reply := [];
    }

    method Register(e: Entry)
      modifies this
      ensures funcs == old(funcs) + [e] && reply == old(reply)
    {
      funcs := funcs + [e];
    }

    method Lookup(name: Text) returns (e: Option<Entry>)
      ensures e == First(funcs, name)
    {
      var i := 0;
      assert funcs[0..] == funcs;
      while i < |funcs|
        invariant 0 <= i <= |funcs|
        invariant First(funcs, name) == First(funcs[i..], name)
      {
        if funcs[i].addr == name {
          return Some(funcs[i]);
        }
        assert funcs[i..][1..] == funcs[i + 1..];
        i := i + 1;
      }
      return None;
    }

    /** The reply buffer is cleared and refilled: length, then payload. */
    method Frame(payload: seq<byte>)
      modifies this
      ensures reply == Lenbuf(payload) && funcs == old(funcs)
    {
      reply := [];
      reply := reply + Le32(|payload|);
      reply := reply + payload;
    }

    method Refusal(text: Text)
      modifies this
      ensures reply == Lenbuf(ErrPayload(text)) && funcs == old(funcs)
    {
      var payload := ErrorReply(text);
      Frame(payload);
    }

    method CrabInvoke(name: Text, args: seq<byte>)
      modifies this
      ensures reply == Lenbuf(Invoke(Rust, funcs, name, args)) && funcs == old(funcs)
    {
      hide IsUtf8;
      hide DecodeParams;
      hide Encode;
      hide Lenbuf;
      var valid := Utf8Valid(name);
      if !valid {
        Refusal(Ascii("function name is not valid utf-8"));
        return;
      }
      var found := Lookup(name);
      if found.None? {
        Refusal(Ascii("unknown function: ") + name);
        return;
      }
      var e := found.value;
      var params := DecodeParamsBuffer(e.params, args);
      if params.Failure? {
        Refusal(name + Ascii(": bad params: ") + ErrorText(params.error));
        return;
      }
      var o := e.impl(params.value);
      var result := Wrapped(e.ret, o);
      if result.None? {
        Refusal(RefusalText(Rust, e.ret, o));
        return;
      }
      var out := new Out();
      EncodeValue(result.value, out);
      assert Answer(Rust, e.ret, o) == Pass(out.bytes);
      assert params.Success? && DecodeParams(e.params, args) == Ok(params.value, |args|);
      var payload := OkReply(out.bytes);
      assert payload == Invoke(Rust, funcs, name, args);
      Frame(payload);
    }
  }

  /** The Go, C++ and AssemblyScript runtimes: a map from names to handlers. */
  class HandlerMap {
    const lane: Lane
    var handlers: map<Text, Entry>
    var reply: seq<byte>
    ghost var table: seq<Entry>

    ghost predicate Valid()
      reads this
    {
      && !lane.Rust?
      && forall name :: Last(table, name) == if name in handlers then Some(handlers[name]) else None
    }

    constructor (lane: Lane)
      requires !lane.Rust?
      ensures Valid() && this.lane == lane && table == []
    {
      this.lane := lane;
      handlers := map[];
      reply := [];
      table := [];
    }

    method Register(e: Entry)
      requires Valid()
      modifies this
      ensures Valid() && table == old(table) + [e]
    {
      handlers := handlers[e.addr := e];
      ghost var before := table;
      table := table + [e];
      forall name ensures Last(table, name) == if e.addr == name then Some(e) else Last(before, name) {
        assert table[..|table| - 1] == before;
      }
    }

    method Frame(payload: seq<byte>)
      modifies this`reply
      ensures reply == Lenbuf(payload)
    {
      reply := Le32(|payload|) + payload;
    }

    /** A text the AssemblyScript lane cannot encode is replaced by a constant one. */
    method Refusal(text: Text)
      modifies this`reply
      ensures reply == Lenbuf(ErrReply(lane, text))
    {
      hide IsUtf8;
      var sent := text;
      if lane.As? {
        var valid := Utf8Valid(text);
        if !valid {
          sent := Ascii("invalid reply message");
        }
      }
      var payload := ErrorReply(sent);
      Frame(payload);
    }

    /** A generated handler: decode the parameters, check nothing is left, run, encode. */
    method RunHandler(e: Entry, args: seq<byte>) returns (r: HandlerResult)
      ensures r == Handle(lane, e, args)
    {
      hide IsUtf8;
      hide DecodeFields;
      hide Encode;
      var d := new Decoder(args);
      var fields := d.Fields(e.params);
      if fields.Failure? {
        return Refuse(Ascii("bad params: ") + ErrorText(fields.error));
      }
      if d.pos != |args| {
        return Refuse(Ascii("bad params: ") + ErrorText(Trailing(|args| - d.pos, "params")));
      }
      var o := e.impl(fields.value);
      var result := ReplyValue(lane, e.ret, o);
      if result.None? {
        return Refuse(RefusalText(lane, e.ret, o));
      }
      var out := new Out();
      EncodeValue(result.value, out);
      return Pass(out.bytes);
    }

    method CrabInvoke(name: Text, args: seq<byte>)
      requires Valid()
      modifies this`reply
      ensures Valid() && reply == Lenbuf(Invoke(lane, table, name, args))
    {
      hide IsUtf8;
      hide Handle;
      hide Lenbuf;
      if lane.As? {
        var valid := Utf8Valid(name);
        if !valid {
          Refusal(Ascii("invalid function name"));
          return;
        }
      }
      if name !in handlers {
        Refusal(Ascii("unknown function: ") + name);
        return;
      }
      var r := RunHandler(handlers[name], args);
      match r
      case Refuse(text) => Refusal(name + Ascii(": ") + text);
      case Pass(bytes) =>
        var payload := OkReply(bytes);
        Frame(payload);
    }
  }
}
