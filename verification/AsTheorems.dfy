/**
 What the emitted AssemblyScript code does as a whole: parameters are encoded and
 decoded one after the other, and what one side writes the other side reads back.
 */
module AsTheorems {
  import opened Bytes
  import opened Leb128
  import opened Unicode
  import opened Wire
  import opened WireTheorems
  import opened LooseValues
  import opened Ir
  import opened AsNative
  import opened AsNativeTheorems
  import opened AsCode
  import E = AsEncode
  import EC = AsEncodeCorrect
  import D = AsDecode
  import DC = AsDecodeCorrect

  // ---------------------------------------------------------------------------
  // Parameters
  // ---------------------------------------------------------------------------

  datatype Param = Param(name: string, ty: Ty)

  function Types(ps: seq<Param>): (ts: seq<Ty>)
    ensures |ts| == |ps|
  {
    if ps == [] then [] else [ps[0].ty] + Types(ps[1..])
  }

  ghost predicate DistinctNames(ps: seq<Param>) {
    forall i, j :: 0 <= i < j < |ps| ==> ps[i].name != ps[j].name
  }

  /** The encode statements of a mesh wrapper: every parameter in turn, over one counter. */
  function EncodeParams(m: Module, ps: seq<Param>, tmp: nat): Option<seq<E.Stmt>> {
    if ps == [] then Some([])
    else
      match E.Emit(m, ps[0].ty, tmp, V(Arg(ps[0].name)))
      case None => None
      case Some((code, mid)) =>
        match EncodeParams(m, ps[1..], mid) case None => None case Some(rest) => Some(code + rest)
  }

  /** The decode statements of a handler: a default-initialised local for every parameter, then its decoding. */
  function DecodeParams(m: Module, ps: seq<Param>, tmp: nat): Option<seq<D.Stmt>> {
    if ps == [] then Some([])
    else
      var x := Arg(ps[0].name);
      match D.Emit(m, ps[0].ty, tmp, V(x))
      case None => None
      case Some((code, mid)) =>
        match DecodeParams(m, ps[1..], mid)
        case None => None
        case Some(rest) => Some([D.LetDefault(x, ps[0].ty)] + (code + rest))
  }

  /** The locals hold the objects, in order. */
  ghost predicate Holds(env: Env, ps: seq<Param>, nvs: seq<Native>)
    requires |ps| == |nvs|
  {
    forall i :: 0 <= i < |ps| ==> Arg(ps[i].name) in env && env[Arg(ps[i].name)] == nvs[i]
  }

  /** Encoding all parameters appends the concatenation of their reference encodings, or sets the error. */
  lemma {:induction false} ParamsEncode(m: Module, ps: seq<Param>, r: nat, depth: nat, tmp: nat, s: E.State,
                                        nvs: seq<Native>)
    requires Valid(m) && AllPlaced(m, Types(ps), r) && r <= depth && |nvs| == |ps|
    requires FieldsShaped(m, Types(ps), r, nvs) && Holds(s.env, ps, nvs)
    ensures EncodeParams(m, ps, tmp).Some?
    ensures EC.Wrote(s, E.Run(m, depth, EncodeParams(m, ps, tmp).value, s), tmp, EC.FieldsBytes(m, Types(ps), r, nvs))
    decreases |ps|
  {
    hide Pow2;
    hide E.Run;
    hide E.Exec;
    if ps == [] {
      EC.RunNothing(m, depth, s);
    } else {
      var t, x := ps[0].ty, V(Arg(ps[0].name));
      assert Types(ps)[1..] == Types(ps[1..]);
      EC.EmitTotal(m, t, r, tmp, x);
      var (code, mid) := E.Emit(m, t, tmp, x).value;
      EC.EmitCorrect(m, t, r, depth, tmp, x, s, nvs[0]);
      var s1 := E.Run(m, depth, code, s).s;
      forall i | 0 <= i < |ps| - 1
        ensures Arg(ps[1..][i].name) in s1.env && s1.env[Arg(ps[1..][i].name)] == nvs[1..][i]
      {
        assert VarBelow(Arg(ps[i + 1].name), tmp);
      }
      ParamsEncode(m, ps[1..], r, depth, mid, s1, nvs[1..]);
      var rest := EncodeParams(m, ps[1..], mid).value;
      EC.WroteThen(m, depth, code, rest, s, tmp, mid, EC.ValueBytes(m, t, r, nvs[0]),
                   EC.FieldsBytes(m, Types(ps[1..]), r, nvs[1..]));
      EC.FieldsBytesStep(m, Types(ps), r, nvs);
    }
  }

  /** Locals outside the parameters are left alone. */
  ghost predicate OthersKept(a: Env, b: Env, ps: seq<Param>) {
    forall x: Var :: x.Arg? && (forall i :: 0 <= i < |ps| ==> ps[i].name != x.name) ==>
      (x in a <==> x in b) && (x in a ==> a[x] == b[x])
  }

  /**
   A handler's parameter code ran: the locals hold the values the reference decoder
   yields (behind `done`, the parameters before these), or its error was returned.
   */
  ghost predicate Decoded(m: Module, ps: seq<Param>, r: nat, done: seq<Native>, buf: seq<byte>, s: D.State, f: D.Flow)
    requires Valid(m) && AllPlaced(m, Types(ps), r) && s.pos <= |buf|
  {
    match DC.FieldsOutcome(m, Types(ps), r, done, buf, s.pos)
    case Failed(e) => f.Return? && f.s.err == Some(e)
    case Got(nv, p) =>
      && f.Next? && f.s.err.None? && f.s.pos == p
      && nv.NObj? && |nv.fields| == |done| + |ps| && done <= nv.fields
      && Holds(f.s.env, ps, nv.fields[|done|..])
      && OthersKept(s.env, f.s.env, ps)
  }

  lemma {:induction false} ParamsDecode(m: Module, ps: seq<Param>, r: nat, done: seq<Native>, buf: seq<byte>,
                                        depth: nat,
                                        tmp: nat, s: D.State)
    requires Valid(m) && AllPlaced(m, Types(ps), r) && r <= depth && DistinctNames(ps)
    requires s.err.None? && s.pos <= |buf|
    ensures DecodeParams(m, ps, tmp).Some?
    ensures Decoded(m, ps, r, done, buf, s, D.Run(m, buf, depth, DecodeParams(m, ps, tmp).value, s))
    decreases |ps|
  {
    hide D.Run;
    hide D.Exec;
    hide FromValue;
    hide Default;
    hide Pow2;
    if ps == [] {
      DC.RunNothing(m, buf, depth, s);
    } else {
      var t, x := ps[0].ty, Arg(ps[0].name);
      var dest := V(x);
      DC.EmitTotal(m, t, r, tmp, dest);
      var (code, mid) := D.Emit(m, t, tmp, dest).value;
      var s0 := s.(env := s.env[x := Default(m, t, r)]);
      DC.EmitFills(m, t, r, buf, depth, tmp, dest, s0);
      var f := D.Run(m, buf, depth, code, s0);
      assert Types(ps)[1..] == Types(ps[1..]);
      ParamsTotal(m, ps[1..], r, mid);
      var rest := DecodeParams(m, ps[1..], mid).value;
      DC.DefaultThen(m, buf, depth, x, t, r, code + rest, s);
      D.RunAppend(m, buf, depth, code, rest, s0);
      var o := DC.ValueOutcome(m, t, r, buf, s.pos);
      if o.Got? {
        DC.PosInside(m, t, r, buf, s.pos);
        ParamsDecode(m, ps[1..], r, done + [o.nv], buf, depth, mid, f.s);
        DC.FieldsOutcomeStep(m, Types(ps), r, done, buf, s.pos);
        FirstParam(m, ps, r, done, buf, s, s0, f, D.Run(m, buf, depth, rest, f.s), tmp);
      }
    }
  }

  lemma {:induction false} ParamsTotal(m: Module, ps: seq<Param>, r: nat, tmp: nat)
    requires AllPlaced(m, Types(ps), r)
    ensures DecodeParams(m, ps, tmp).Some?
    decreases |ps|
  {
    if ps != [] {
      assert Types(ps)[1..] == Types(ps[1..]);
      DC.EmitTotal(m, ps[0].ty, r, tmp, V(Arg(ps[0].name)));
      ParamsTotal(m, ps[1..], r, D.Emit(m, ps[0].ty, tmp, V(Arg(ps[0].name))).value.1);
    }
  }

  lemma FirstParam(m: Module, ps: seq<Param>, r: nat, done: seq<Native>, buf: seq<byte>, s: D.State, s0: D.State,
                   f: D.Flow, g: D.Flow, tmp: nat)
    requires Valid(m) && AllPlaced(m, Types(ps), r) && ps != [] && DistinctNames(ps) && s.pos <= |buf|
    requires AllPlaced(m, Types(ps[1..]), r)
    requires s0.env == s.env[Arg(ps[0].name) := Default(m, ps[0].ty, r)] && s0.pos == s.pos
    requires DC.ValueOutcome(m, ps[0].ty, r, buf, s.pos).Got? && f.Next? && f.s.pos <= |buf|
    requires DC.Filled(s0, f, tmp, V(Arg(ps[0].name)), DC.ValueOutcome(m, ps[0].ty, r, buf, s.pos))
    requires var nv := DC.ValueOutcome(m, ps[0].ty, r, buf, s.pos).nv;
             && Decoded(m, ps[1..], r, done + [nv], buf, f.s, g)
             && DC.FieldsOutcome(m, Types(ps), r, done, buf, s.pos) ==
                DC.FieldsOutcome(m, Types(ps[1..]), r, done + [nv], buf, f.s.pos)
    ensures Decoded(m, ps, r, done, buf, s, g)
  {
    hide DC.ValueOutcome;
    hide DC.FieldsOutcome;
    hide Default;
    hide OthersKept;
    var nv := DC.ValueOutcome(m, ps[0].ty, r, buf, s.pos).nv;
    FirstKept(ps, s.env, s0.env, f.s.env, g.s.env, tmp, s0.env[Arg(ps[0].name)], nv);
    match DC.FieldsOutcome(m, Types(ps), r, done, buf, s.pos)
    case Failed(_) =>
    case Got(all, _) =>
      assert done <= done + [nv] <= all.fields;
      assert all.fields[|done|..][1..] == all.fields[|done| + 1..];
      if OthersKept(f.s.env, g.s.env, ps[1..]) {
        FirstHeld(ps, f.s.env, g.s.env, all.fields[|done|..]);
      }
  }

  lemma FirstKept(ps: seq<Param>, a: Env, b: Env, c: Env, d: Env, tmp: nat, start: Native, nv: Native)
    requires ps != [] && b == a[Arg(ps[0].name) := start] && Agree(b[Arg(ps[0].name) := nv], c, tmp)
    ensures Arg(ps[0].name) in c && c[Arg(ps[0].name)] == nv
    ensures OthersKept(c, d, ps[1..]) ==> OthersKept(a, d, ps)
  {
    assert VarBelow(Arg(ps[0].name), tmp);
    assert forall k :: 0 <= k < |ps| - 1 ==> ps[1..][k] == ps[k + 1];
    forall y: Var | y.Arg? && forall i :: 0 <= i < |ps| ==> ps[i].name != y.name
      ensures (y in a <==> y in c) && (y in a ==> a[y] == c[y])
    {
      assert VarBelow(y, tmp);
    }
  }

  lemma FirstHeld(ps: seq<Param>, c: Env, d: Env, nvs: seq<Native>)
    requires ps != [] && DistinctNames(ps) && |nvs| == |ps|
    requires Arg(ps[0].name) in c && c[Arg(ps[0].name)] == nvs[0]
    requires OthersKept(c, d, ps[1..]) && Holds(d, ps[1..], nvs[1..])
    ensures Holds(d, ps, nvs)
  {
    forall i | 0 <= i < |ps| ensures Arg(ps[i].name) in d && d[Arg(ps[i].name)] == nvs[i] {
      if i > 0 {
        assert ps[1..][i - 1] == ps[i] && nvs[1..][i - 1] == nvs[i];
      } else {
        assert forall k :: 0 <= k < |ps| - 1 ==> ps[1..][k] == ps[k + 1];
      }
    }
  }

  // ---------------------------------------------------------------------------
  // One guest writes, another reads
  // ---------------------------------------------------------------------------

  /** Encoding one object into a fresh sink: exactly the reference bytes, or the error. */
  lemma Written(m: Module, ty: Ty, r: nat, depth: nat, nv: Native)
    requires Valid(m) && Placed(m, ty, r) && r <= depth && Shaped(m, ty, r, nv)
    ensures E.Emit(m, ty, 0, V(ARG)).Some?
    ensures var f := E.Run(m, depth, E.Emit(m, ty, 0, V(ARG)).value.0, E.State(map[ARG := nv], [], false));
            && f.Next?
            && (f.s.err <==> ToValue(m, ty, r, nv).None?)
            && (!f.s.err ==> f.s.out == Encode(ToValue(m, ty, r, nv).value))
  {
    hide E.Run;
    hide ToValue;
    hide Encode;
    EC.EmitCorrect(m, ty, r, depth, 0, V(ARG), E.State(map[ARG := nv], [], false), nv);
  }

  /** The bytes written for a legal object decode back to its value exactly when its chars are scalar values. */
  lemma WrittenIsReadable(m: Module, ty: Ty, r: nat, nv: Native)
    requires Valid(m) && Placed(m, ty, r) && Shaped(m, ty, r, nv) && ToValue(m, ty, r, nv).Some?
    ensures var v := ToValue(m, ty, r, nv).value;
            DecodeWhole(TypeOf(m, ty, r), Encode(v)) == Ok(v, |Encode(v)|) <==> CharsAreScalars(v)
  {
    hide Decode;
    hide Encode;
    hide HasType;
    hide ToValue;
    var v := ToValue(m, ty, r, nv).value;
    var t := TypeOf(m, ty, r);
    ToValueTyped(m, ty, r, nv, v);
    if HasType(v, t) {
      RoundTrip(t, v, [], []);
      assert [] + Encode(v) + [] == Encode(v);
    }
    if Decode(t, Encode(v), 0).Ok? {
      DecodeYields(t, Encode(v), 0);
    }
  }

  /** Reading the bytes of a value gives an object that stands for that value. */
  lemma ReadBack(m: Module, ty: Ty, r: nat, depth: nat, v: Value)
    requires Valid(m) && Placed(m, ty, r) && r <= depth && HasType(v, TypeOf(m, ty, r)) && Holdable(v)
    ensures D.Emit(m, ty, 0, V(ARG)).Some?
    ensures var buf := Encode(v);
            var s := D.State(map[ARG := Default(m, ty, r)], 0, None);
            var f := D.Run(m, buf, depth, D.Emit(m, ty, 0, V(ARG)).value.0, s);
            && f.Next? && f.s.err.None? && f.s.pos == |buf| && ARG in f.s.env
            && Shaped(m, ty, r, f.s.env[ARG])
            && ToValue(m, ty, r, f.s.env[ARG]) == Some(v)
  {
    hide Decode;
    hide Encode;
    hide FromValue;
    hide ToValue;
    hide Shaped;
    hide Default;
    hide D.Run;
    var buf := Encode(v);
    var s := D.State(map[ARG := Default(m, ty, r)], 0, None);
    RoundTrip(TypeOf(m, ty, r), v, [], []);
    assert [] + buf + [] == buf;
    DC.EmitFills(m, ty, r, buf, depth, 0, V(ARG), s);
    NativeFaithful(m, ty, r, v);
    assert VarBelow(ARG, 0);
  }

  /**
   A reader that runs the emitted decode code and then `finish` accepts a buffer exactly if
   it is one value and nothing else, and then holds an object that stands for that value.
   */
  lemma ReadWhole(m: Module, ty: Ty, r: nat, depth: nat, buf: seq<byte>)
    requires Valid(m) && Placed(m, ty, r) && r <= depth
    requires Decode(TypeOf(m, ty, r), buf, 0).Ok? ==> Holdable(Decode(TypeOf(m, ty, r), buf, 0).value)
    ensures D.Emit(m, ty, 0, V(ARG)).Some?
    ensures var s := D.State(map[ARG := Default(m, ty, r)], 0, None);
            var f := D.Run(m, buf, depth, D.Emit(m, ty, 0, V(ARG)).value.0, s);
            var whole := DecodeWhole(TypeOf(m, ty, r), buf);
            && (whole.Ok? <==> f.Next? && f.s.pos == |buf|)
            && (f.Return? ==> f.s.err.Some? && whole == Err(f.s.err.value))
            && (f.Next? && f.s.pos != |buf| ==> f.s.pos < |buf| && whole == Err(Trailing(|buf| - f.s.pos, "value")))
            && (whole.Ok? ==> ARG in f.s.env && Shaped(m, ty, r, f.s.env[ARG]) &&
                              ToValue(m, ty, r, f.s.env[ARG]) == Some(whole.value))
  {
    hide Decode;
    hide FromValue;
    hide ToValue;
    hide Shaped;
    hide Default;
    hide HasType;
    hide D.Run;
    var s := D.State(map[ARG := Default(m, ty, r)], 0, None);
    DC.EmitFills(m, ty, r, buf, depth, 0, V(ARG), s);
    assert VarBelow(ARG, 0);
    var step := Decode(TypeOf(m, ty, r), buf, 0);
    if step.Ok? {
      DecodeYields(TypeOf(m, ty, r), buf, 0);
      NativeFaithful(m, ty, r, step.value);
    }
  }

  lemma SurrogateWritten(m: Module)
    ensures E.Emit(m, Prim(TChar), 0, V(ARG)).Some?
    ensures var s := E.State(map[ARG := NNum(0xD800)], [], false);
            E.Run(m, 0, E.Emit(m, Prim(TChar), 0, V(ARG)).value.0, s) ==
            E.Next(s.(out := Encode(VChar(0xD800))))
  {
    hide E.Run;
    hide Uleb;
    var s := E.State(map[ARG := NNum(0xD800)], [], false);
    EC.RunOne(m, 0, E.PutPrim(TChar, V(ARG)), s);
    assert [] + Uleb(0xD800) == Uleb(0xD800);
  }

  /** A lone surrogate is a legal char of the language, is written, and is refused by every decoder. */
  lemma SurrogateIsSent(m: Module)
    requires Valid(m)
    ensures Shaped(m, Prim(TChar), 0, NNum(0xD800))
    ensures ToValue(m, Prim(TChar), 0, NNum(0xD800)) == Some(VChar(0xD800))
    ensures E.Emit(m, Prim(TChar), 0, V(ARG)).Some?
    ensures var s := E.State(map[ARG := NNum(0xD800)], [], false);
            E.Run(m, 0, E.Emit(m, Prim(TChar), 0, V(ARG)).value.0, s) ==
            E.Next(s.(out := Encode(VChar(0xD800))))
    ensures DecodeWhole(TChar, Encode(VChar(0xD800))) == Err(InvalidChar(0xD800))
  {
    SurrogateWritten(m);
    hide E.Run;
    Pow2Sizes();
    hide Pow2;
    var bs := Uleb(0xD800);
    UlebIsUleb(21, 0xD800);
    assert bs[0..|bs|] == bs;
    UlebExact(21, bs, 0, 0xD800, |bs|);
  }
}
