/**
 A whole call on native objects, for callers and callees in the AssemblyScript and Rust
 lanes: the caller's objects go through its conversions or emitted statements onto the
 wire, the callee's implementation runs on the objects its lane makes of them, and the
 caller ends with an object that stands for what the implementation returned.
 */
module NativeCall {
  import opened Bytes
  import opened Unicode
  import opened Wire
  import opened WireTheorems
  import opened LooseValues
  import opened Ir
  import opened AsCode
  import opened Abi
  import opened Signatures
  import N = AsNative
  import NT = AsNativeTheorems
  import R = RustNative
  import E = AsEncode
  import EC = AsEncodeCorrect
  import D = AsDecode
  import DC = AsDecodeCorrect
  import T = AsTheorems
  import M = Mesh

  // ---------------------------------------------------------------------------
  // Objects of a lane
  // ---------------------------------------------------------------------------

  datatype Obj = AsObj(nv: N.Native) | RustObj(x: R.Rust)

  datatype Objs = AsObjs(nvs: seq<N.Native>) | RustObjs(xs: seq<R.Rust>)

  predicate Modelled(lane: Lane) {
    lane.As? || lane.Rust?
  }

  predicate OfLane(lane: Lane, o: Obj) {
    o.AsObj? <==> lane.As?
  }

  /** A legal object that stands for a wire value. */
  ghost predicate Stands(m: Module, ty: Ty, r: nat, o: Obj, v: Value)
    requires Valid(m) && Declared(m, ty, r)
  {
    match o
    case AsObj(nv) => N.Shaped(m, ty, r, nv) && N.ToValue(m, ty, r, nv) == Some(v)
    case RustObj(x) => R.Shaped(m, ty, r, x) && R.Lower(m, ty, r, x) == Some(v)
  }

  ghost predicate AllStand(m: Module, ts: seq<Ty>, r: nat, os: Objs, vs: seq<Value>)
    requires Valid(m) && AllPlaced(m, ts, r)
  {
    match os
    case AsObjs(nvs) => N.FieldsShaped(m, ts, r, nvs) && N.FieldsToValues(m, ts, r, nvs) == Some(vs)
    case RustObjs(xs) => R.MembersShaped(m, ts, r, xs) && R.LowerMembers(m, ts, r, xs) == Some(vs)
  }

  /** The object a lane makes of a decoded value. */
  ghost function Made(lane: Lane, m: Module, ty: Ty, r: nat, v: Value): Obj
    requires Valid(m) && Declared(m, ty, r) && HasType(v, TypeOf(m, ty, r))
  {
    if lane.As? then AsObj(N.FromValue(m, ty, r, v))
    else
      R.LiftTyped(m, ty, r, v);
      RustObj(R.Lift(m, ty, r, v).value)
  }

  ghost function AllMade(lane: Lane, m: Module, ts: seq<Ty>, r: nat, vs: seq<Value>): Objs
    requires Valid(m) && AllPlaced(m, ts, r) && HaveTypes(vs, TypesOf(m, ts, r))
  {
    if lane.As? then AsObjs(N.FieldsFromValues(m, ts, r, vs))
    else
      R.MembersTyped(m, ts, r, vs);
      RustObjs(R.LiftMembers(m, ts, r, vs).value)
  }

  /** What a lane makes of a value stands for it, and an object is remade from its value alone. */
  lemma MadeStands(lane: Lane, m: Module, ty: Ty, r: nat, v: Value)
    requires Valid(m) && Declared(m, ty, r) && HasType(v, TypeOf(m, ty, r)) && (lane.As? ==> NT.Holdable(v))
    ensures Stands(m, ty, r, Made(lane, m, ty, r, v), v)
  {
    hide HasType;
    hide N.FromValue;
    hide N.ToValue;
    hide N.Shaped;
    hide R.Lift;
    hide R.Lower;
    hide R.Shaped;
    hide NT.Holdable;
    if lane.As? {
      NT.NativeFaithful(m, ty, r, v);
    } else {
      R.LiftTyped(m, ty, r, v);
    }
  }

  lemma AllMadeStand(lane: Lane, m: Module, ts: seq<Ty>, r: nat, vs: seq<Value>)
    requires Valid(m) && AllPlaced(m, ts, r) && HaveTypes(vs, TypesOf(m, ts, r)) && (lane.As? ==> NT.AllHoldable(vs))
    ensures AllStand(m, ts, r, AllMade(lane, m, ts, r, vs), vs)
  {
    if lane.As? {
      NT.FieldsFaithful(m, ts, r, vs);
    } else {
      R.MembersTyped(m, ts, r, vs);
    }
  }

  // ---------------------------------------------------------------------------
  // What the code of each end does
  // ---------------------------------------------------------------------------

  /** The caller's locals hold the arguments; the bytes it sends. */
  ghost predicate Sends(m: Module, ps: seq<T.Param>, r: nat, os: Objs, env: Env, bytes: seq<byte>)
    requires Valid(m) && AllPlaced(m, T.Types(ps), r)
  {
    match os
    case AsObjs(nvs) =>
      && |nvs| == |ps| && T.Holds(env, ps, nvs)
      && T.EncodeParams(m, ps, 0).Some?
      && var f := E.Run(m, r, T.EncodeParams(m, ps, 0).value, E.State(env, [], false));
         f.Next? && !f.s.err && f.s.out == bytes
    case RustObjs(xs) =>
      && R.MembersShaped(m, T.Types(ps), r, xs) && R.LowerMembers(m, T.Types(ps), r, xs).Some?
      && bytes == EncodeAll(R.LowerMembers(m, T.Types(ps), r, xs).value)
  }

  lemma CallerSends(m: Module, ps: seq<T.Param>, r: nat, os: Objs, vs: seq<Value>, env: Env)
    requires Valid(m) && AllPlaced(m, T.Types(ps), r) && AllStand(m, T.Types(ps), r, os, vs)
    requires os.AsObjs? ==> |os.nvs| == |ps| && T.Holds(env, ps, os.nvs)
    ensures Sends(m, ps, r, os, env, EncodeAll(vs))
  {
    hide E.Run;
    hide EncodeAll;
    hide T.EncodeParams;
    if os.AsObjs? {
      T.ParamsEncode(m, ps, r, r, 0, E.State(env, [], false), os.nvs);
      assert [] + EncodeAll(vs) == EncodeAll(vs);
    }
  }

  /** The callee holds the objects: an AssemblyScript handler in its locals, a Rust one in its arguments. */
  ghost predicate Receives(m: Module, ps: seq<T.Param>, r: nat, bytes: seq<byte>, os: Objs)
    requires Valid(m) && AllPlaced(m, T.Types(ps), r)
  {
    match os
    case AsObjs(nvs) =>
      && |nvs| == |ps| && T.DecodeParams(m, ps, 0).Some?
      && var f := D.Run(m, bytes, r, T.DecodeParams(m, ps, 0).value, D.State(map[], 0, None));
         f.Next? && f.s.err.None? && f.s.pos == |bytes| && T.Holds(f.s.env, ps, nvs)
    case RustObjs(xs) =>
      var step := DecodeParams(TypesOf(m, T.Types(ps), r), bytes);
      step.Ok? && |step.value| == |ps| && R.LiftMembers(m, T.Types(ps), r, step.value) == Some(xs)
  }

  lemma CalleeReceives(lane: Lane, m: Module, ps: seq<T.Param>, r: nat, vs: seq<Value>)
    requires Valid(m) && AllPlaced(m, T.Types(ps), r) && T.DistinctNames(ps)
    requires HaveTypes(vs, TypesOf(m, T.Types(ps), r))
    ensures Receives(m, ps, r, EncodeAll(vs), AllMade(lane, m, T.Types(ps), r, vs))
  {
    assert |vs| == |ps|;
    hide D.Run;
    hide EncodeAll;
    hide HaveTypes;
    hide T.DecodeParams;
    hide DecodeFields;
    var tys := TypesOf(m, T.Types(ps), r);
    var bytes := EncodeAll(vs);
    ParamsRoundTrip(tys, vs);
    if lane.As? {
      var nvs := N.FieldsFromValues(m, T.Types(ps), r, vs);
      assert tys[0..] == tys;
      ParamsAgreeFrom(tys, 0, bytes, 0);
      T.ParamsDecode(m, ps, r, [], bytes, r, 0, D.State(map[], 0, None));
      assert [] + nvs == nvs && nvs[0..] == nvs;
    } else {
      R.MembersTyped(m, T.Types(ps), r, vs);
    }
  }

  /** Reading a value that stands anywhere in the reply. */
  ghost predicate ReadsObj(m: Module, ty: Ty, r: nat, head: seq<byte>, v: Value, o: Obj)
    requires Valid(m) && Placed(m, ty, r)
  {
    var bytes := head + Encode(v);
    match o
    case AsObj(nv) =>
      && D.Emit(m, ty, 0, V(ARG)).Some?
      && var f := D.Run(m, bytes, r, D.Emit(m, ty, 0, V(ARG)).value.0,
                        D.State(map[ARG := N.Default(m, ty, r)], |head|, None));
         f.Next? && f.s.err.None? && f.s.pos == |bytes| && ARG in f.s.env && f.s.env[ARG] == nv
    case RustObj(x) =>
      var step := Decode(TypeOf(m, ty, r), bytes, |head|);
      step.Ok? && step.pos == |bytes| && R.Lift(m, ty, r, step.value) == Some(x)
  }

  lemma CallerReads(lane: Lane, m: Module, ty: Ty, r: nat, head: seq<byte>, v: Value)
    requires Valid(m) && Placed(m, ty, r) && HasType(v, TypeOf(m, ty, r))
    ensures ReadsObj(m, ty, r, head, v, Made(lane, m, ty, r, v))
  {
    hide D.Run;
    hide Decode;
    hide Encode;
    hide N.FromValue;
    hide N.Default;
    hide HasType;
    var bytes := head + Encode(v);
    RoundTrip(TypeOf(m, ty, r), v, head, []);
    assert bytes + [] == bytes;
    if lane.As? {
      DC.EmitFills(m, ty, r, bytes, r, 0, V(ARG), D.State(map[ARG := N.Default(m, ty, r)], |head|, None));
      assert VarBelow(ARG, 0);
    } else {
      R.LiftTyped(m, ty, r, v);
    }
  }

  // ---------------------------------------------------------------------------
  // What the callee sends back
  // ---------------------------------------------------------------------------

  ghost predicate ShapedObj(m: Module, ty: Ty, r: nat, o: Obj)
    requires Valid(m) && Declared(m, ty, r)
  {
    match o case AsObj(nv) => N.Shaped(m, ty, r, nv) case RustObj(x) => R.Shaped(m, ty, r, x)
  }

  /** The wire value of an object of the right class, if it has one. */
  ghost function WireOf(m: Module, ty: Ty, r: nat, o: Obj): Option<Value>
    requires Valid(m) && Declared(m, ty, r) && ShapedObj(m, ty, r, o)
  {
    match o case AsObj(nv) => N.ToValue(m, ty, r, nv) case RustObj(x) => R.Lower(m, ty, r, x)
  }

  /**
   The callee's own code for a result, behind the bytes already written: the emitted
   statements append the encoding of its value, or leave an error if it has none; the Rust
   conversion gives the value, or fails because of a stray flag bit.
   */
  ghost predicate Answers(m: Module, ty: Ty, r: nat, head: seq<byte>, o: Obj)
    requires Valid(m) && Placed(m, ty, r) && ShapedObj(m, ty, r, o)
  {
    var v := WireOf(m, ty, r, o);
    match o
    case AsObj(nv) =>
      && E.Emit(m, ty, 0, V(ARG)).Some?
      && var f := E.Run(m, r, E.Emit(m, ty, 0, V(ARG)).value.0, E.State(map[ARG := nv], head, false));
         f.Next? && f.s.err == v.None? && (v.Some? ==> f.s.out == head + Encode(v.value))
    case RustObj(x) => v.None? <==> !R.NoneStray(R.FlagWords(m, ty, r, x))
  }

  lemma CalleeAnswers(m: Module, ty: Ty, r: nat, head: seq<byte>, o: Obj)
    requires Valid(m) && Placed(m, ty, r) && ShapedObj(m, ty, r, o)
    ensures Answers(m, ty, r, head, o)
  {
    hide E.Run;
    hide Encode;
    hide N.ToValue;
    hide N.Shaped;
    hide R.Lower;
    hide R.Shaped;
    hide R.FlagWords;
    match o
    case AsObj(nv) => EC.EmitCorrect(m, ty, r, r, 0, V(ARG), E.State(map[ARG := nv], head, false), nv);
    case RustObj(x) => R.LowerFails(m, ty, r, x);
  }

  /** A value an object stands for has the type of the wire up to its chars. */
  lemma WireLoose(m: Module, ty: Ty, r: nat, o: Obj)
    requires Valid(m) && Declared(m, ty, r) && ShapedObj(m, ty, r, o) && WireOf(m, ty, r, o).Some?
    ensures Loose(WireOf(m, ty, r, o).value, TypeOf(m, ty, r))
  {
    hide Loose;
    hide HasType;
    match o
    case AsObj(nv) => NT.ToValueLoose(m, ty, r, nv, WireOf(m, ty, r, o).value);
    case RustObj(x) =>
      R.LowerTyped(m, ty, r, x);
      TypedIsLoose(WireOf(m, ty, r, o).value, TypeOf(m, ty, r));
  }

  // ---------------------------------------------------------------------------
  // The call
  // ---------------------------------------------------------------------------

  /** What an implementation returns, as objects of its lane. */
  datatype Answer = Failed(text: Text) | Returned(obj: Option<Obj>)

  /** The type of the value a wrapper returns, and the rank it stands at. */
  ghost function ValueTy(m: Module, result: Option<Ty>, r: nat): Option<(Ty, nat)>
    requires Valid(m) && SidePlaced(m, result, r)
  {
    match result
    case None => None
    case Some(t) =>
      match Classify(m, result)
      case Message(_, _) =>
        var (u, at) := Under(m, t, r);
        if !u.Res? then Some((t, r)) else if u.ok.None? then None else Some((u.ok.value, at))
      case _ => Some((t, r))
  }

  lemma ValueTyPlaced(m: Module, result: Option<Ty>, r: nat)
    requires Valid(m) && SidePlaced(m, result, r)
    ensures ValueTy(m, result, r).Some? ==>
              Placed(m, ValueTy(m, result, r).value.0, ValueTy(m, result, r).value.1)
  {
    if result.Some? && Classify(m, result).Message? {
      var (u, at) := Under(m, result.value, r);
      if u.Res? {
        ResIsPlaced(m, u, at);
      }
    }
  }

  /** The implementation returns an object of the declared class, or nothing where nothing is declared. */
  ghost predicate Legal(callee: Lane, m: Module, result: Option<Ty>, r: nat, a: Answer)
    requires Valid(m) && SidePlaced(m, result, r)
  {
    ValueTyPlaced(m, result, r);
    a.Returned? ==>
      match ValueTy(m, result, r)
      case None => a.obj.None?
      case Some((t, at)) => a.obj.Some? && OfLane(callee, a.obj.value) && ShapedObj(m, t, at, a.obj.value)
  }

  /** The wire value of what was returned, if it has one. */
  ghost function ValueOf(callee: Lane, m: Module, result: Option<Ty>, r: nat, a: Answer): Option<Value>
    requires Valid(m) && SidePlaced(m, result, r) && Legal(callee, m, result, r, a)
  {
    ValueTyPlaced(m, result, r);
    if a.Failed? then None
    else match ValueTy(m, result, r) case None => None case Some((t, at)) => WireOf(m, t, at, a.obj.value)
  }

  /** The outcome on the wire; `fault` is the error an encoder keeps for an object without a wire value. */
  ghost function WireOutcome(callee: Lane, m: Module, result: Option<Ty>, r: nat, a: Answer, fault: Text): Outcome
    requires Valid(m) && SidePlaced(m, result, r) && Legal(callee, m, result, r, a)
  {
    match a
    case Failed(text) => Fail(text)
    case Returned(obj) =>
      var v := ValueOf(callee, m, result, r, a);
      if obj.Some? && v.None? then Unsendable(fault) else Done(v)
  }

  lemma WireTyped(callee: Lane, m: Module, result: Option<Ty>, r: nat, a: Answer, fault: Text)
    requires Valid(m) && SidePlaced(m, result, r) && Legal(callee, m, result, r, a)
    ensures OutcomeTyped(RetOf(m, result, r), WireOutcome(callee, m, result, r, a, fault))
  {
    hide Loose;
    hide ShapedObj;
    hide WireOf;
    hide TypeOf;
    ValueTyPlaced(m, result, r);
    if a.Returned? && ValueTy(m, result, r).Some? {
      var (t, at) := ValueTy(m, result, r).value;
      if WireOf(m, t, at, a.obj.value).Some? {
        WireLoose(m, t, at, a.obj.value);
      }
    }
    if a.Returned? && result.Some? && Classify(m, result).Message? {
      var (u, at) := Under(m, result.value, r);
      if u.Res? {
        ResIsPlaced(m, u, at);
        var o := WireOutcome(callee, m, result, r, a, fault);
        if o.Done? {
          SideIsLoose(m, u.ok, at, o.value);
        }
      }
    }
  }

  lemma SideIsLoose(m: Module, side: Option<Ty>, r: nat, v: Option<Value>)
    requires Valid(m) && SidePlaced(m, side, r)
    requires if side.None? then v.None? else v.Some? && Loose(v.value, TypeOf(m, side.value, r))
    ensures SideLoose(v, SideType(m, side, r))
  {
    hide Loose;
  }

  /** The value of a successful reply stands at the end of its bytes. */
  lemma ReplyEnds(ret: Ret, v: Value)
    requires !ret.RetNone?
    ensures Wrapped(ret, Done(Some(v))).Some?
    ensures Head(ret) + Encode(v) == Encode(Wrapped(ret, Done(Some(v))).value)
  {
    if ret.RetStr? {
      assert EncodeSide(Some(v)) == Encode(v);
    }
  }

  /** What stands before the value: the discriminant of the message classes. */
  function Head(ret: Ret): seq<byte> {
    if ret.RetStr? then [0] else []
  }

  /** The callee's code writes the reply, and the caller reads the value out of it, as an object that stands for it. */
  ghost predicate ComesBack(caller: Lane, callee: Lane, m: Module, result: Option<Ty>, r: nat, a: Answer)
    requires Valid(m) && SidePlaced(m, result, r) && Legal(callee, m, result, r, a)
  {
    ValueTyPlaced(m, result, r);
    a.Returned? && a.obj.Some? ==>
      var (t, at) := ValueTy(m, result, r).value;
      var ret := RetOf(m, result, r);
      var v := ValueOf(callee, m, result, r, a);
      && Answers(m, t, at, Head(ret), a.obj.value)
      && (v.Some? && HasType(v.value, TypeOf(m, t, at)) ==>
            var back := Made(caller, m, t, at, v.value);
            && Head(ret) + Encode(v.value) == Encode(Wrapped(ret, Done(v)).value)
            && Stands(m, t, at, back, v.value) && ReadsObj(m, t, at, Head(ret), v.value, back))
  }

  lemma ValueComesBack(caller: Lane, callee: Lane, m: Module, result: Option<Ty>, r: nat, a: Answer)
    requires Valid(m) && SidePlaced(m, result, r) && Legal(callee, m, result, r, a)
    requires var v := ValueOf(callee, m, result, r, a); caller.As? && v.Some? ==> NT.Holdable(v.value)
    ensures ComesBack(caller, callee, m, result, r, a)
  {
    hide Stands;
    hide ReadsObj;
    hide Made;
    hide HasType;
    hide Encode;
    hide Wrapped;
    hide WireOf;
    hide ShapedObj;
    hide Answers;
    ValueTyPlaced(m, result, r);
    if a.Returned? && a.obj.Some? {
      var (t, at) := ValueTy(m, result, r).value;
      var ret := RetOf(m, result, r);
      var v := ValueOf(callee, m, result, r, a);
      CalleeAnswers(m, t, at, Head(ret), a.obj.value);
      if v.Some? && HasType(v.value, TypeOf(m, t, at)) {
        MadeStands(caller, m, t, at, v.value);
        ReplyEnds(ret, v.value);
        assert v == Some(v.value);
        CallerReads(caller, m, t, at, Head(ret), v.value);
      }
    }
  }

  /**
   For callers and callees in the AssemblyScript and Rust lanes: the implementation runs on
   objects that stand for the same values as the caller's arguments; the callee's own code
   turns what it returns into the reply, and the caller's into an object that stands for the
   same value. The caller gets what was returned, or the text of the failure or of the
   encoder's error, exactly if that can be represented on the way.
   */
  lemma NativeCallTransparent(caller: Lane, callee: Lane, m: Module, ps: seq<T.Param>, result: Option<Ty>, r: nat,
                              table: seq<Entry>, i: nat, func: Text, os: Objs, vs: seq<Value>, env: Env,
                              impl: Objs -> Answer, fault: Text, rest: seq<byte>)
    requires Modelled(caller) && Modelled(callee)
    requires Valid(m) && AllPlaced(m, T.Types(ps), r) && T.DistinctNames(ps) && SidePlaced(m, result, r)
    requires (os.AsObjs? <==> caller.As?) && AllStand(m, T.Types(ps), r, os, vs)
    requires HaveTypes(vs, TypesOf(m, T.Types(ps), r))
    requires caller.As? ==> |os.nvs| == |ps| && T.Holds(env, ps, os.nvs)
    requires callee.As? ==> NT.AllHoldable(vs)
    requires DistinctAddresses(table) && i < |table| && IsUtf8(table[i].addr)
    requires table[i].params == TypesOf(m, T.Types(ps), r) && table[i].ret == RetOf(m, result, r)
    requires var a := impl(AllMade(callee, m, T.Types(ps), r, vs));
             && Legal(callee, m, result, r, a)
             && table[i].impl(vs) == WireOutcome(callee, m, result, r, a, fault)
             && var v := ValueOf(callee, m, result, r, a);
                caller.As? && v.Some? ==> NT.Holdable(v.value)
    requires |Invoke(callee, table, table[i].addr, EncodeAll(vs))| < 0x1_0000_0000
    ensures Sends(m, ps, r, os, env, EncodeAll(vs))
    ensures var taken := AllMade(callee, m, T.Types(ps), r, vs);
            Receives(m, ps, r, EncodeAll(vs), taken) && AllStand(m, T.Types(ps), r, taken, vs)
    ensures var a := impl(AllMade(callee, m, T.Types(ps), r, vs));
            var e := table[i];
            var o := e.impl(vs);
            var got := M.Call(caller, callee, table, e.addr, func, e.ret, vs, None, rest);
            var want := M.Expected(callee, e.addr, func, e.ret, o);
            && ComesBack(caller, callee, m, result, r, a)
            && (got == want <==> M.Deliverable(caller, e.ret, o, want))
  {
    hide Sends;
    hide Receives;
    hide ComesBack;
    hide AllStand;
    hide AllMade;
    hide Legal;
    hide HaveTypes;
    hide TypesOf;
    hide RetOf;
    hide OutcomeTyped;
    hide WireOutcome;
    hide ValueOf;
    hide Invoke;
    hide M.Call;
    hide M.Expected;
    hide M.Deliverable;
    hide IsUtf8;
    hide EncodeAll;
    hide NT.AllHoldable;
    hide NT.Holdable;
    var ts := T.Types(ps);
    var a := impl(AllMade(callee, m, ts, r, vs));
    CallerSends(m, ps, r, os, vs, env);
    CalleeReceives(callee, m, ps, r, vs);
    AllMadeStand(callee, m, ts, r, vs);
    WireTyped(callee, m, result, r, a, fault);
    ProducedHere(callee, table[i].impl(vs));
    M.CallTransparent(caller, callee, table, i, func, vs, None, rest);
    ValueComesBack(caller, callee, m, result, r, a);
  }

  lemma ProducedHere(callee: Lane, o: Outcome)
    requires Modelled(callee)
    ensures M.Produced(callee, o)
  {
  }

  /** What the caller gets for a returned object without a wire value, and for one with a char that is none. */
  lemma BadObjectIsRefused(caller: Lane, callee: Lane, m: Module, result: Option<Ty>, r: nat, table: seq<Entry>,
                           i: nat, func: Text, vs: seq<Value>, a: Answer, fault: Text, rest: seq<byte>)
    requires Modelled(caller) && Modelled(callee) && Valid(m) && SidePlaced(m, result, r)
    requires DistinctAddresses(table) && i < |table| && IsUtf8(table[i].addr) && HaveTypes(vs, table[i].params)
    requires table[i].ret == RetOf(m, result, r) && Legal(callee, m, result, r, a) && a.Returned? && a.obj.Some?
    requires table[i].impl(vs) == WireOutcome(callee, m, result, r, a, fault)
    requires |Invoke(callee, table, table[i].addr, EncodeAll(vs))| < 0x1_0000_0000
    ensures var e := table[i];
            var o := e.impl(vs);
            var v := ValueOf(callee, m, result, r, a);
            var got := M.Call(caller, callee, table, e.addr, func, e.ret, vs, None, rest);
            && (v.None? ==> (got == Fail(M.Framed(callee, e.addr, fault)) <==>
                             IsUtf8(M.Framed(callee, e.addr, fault))))
            && (v.Some? && Wrapped(e.ret, o).Some? && !M.Readable(e.ret, o) ==> got.Fail?)
  {
    hide Legal;
    hide HaveTypes;
    hide RetOf;
    hide OutcomeTyped;
    hide ValueOf;
    hide Invoke;
    hide M.Call;
    hide IsUtf8;
    hide EncodeAll;
    hide M.Readable;
    hide Wrapped;
    var e := table[i];
    WireTyped(callee, m, result, r, a, fault);
    ProducedHere(callee, e.impl(vs));
    if ValueOf(callee, m, result, r, a).None? {
      M.CallTransparent(caller, callee, table, i, func, vs, None, rest);
    } else if Wrapped(e.ret, e.impl(vs)).Some? && !M.Readable(e.ret, e.impl(vs)) {
      M.BadTextIsRefused(caller, callee, table, i, func, vs, None, rest);
    }
  }
}
