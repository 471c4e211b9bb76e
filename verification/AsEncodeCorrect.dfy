/**
 Compiler correctness, encode half: on every legal object, the emitted statements
 append exactly the reference encoding.
 */
module AsEncodeCorrect {
  import opened Bytes
  import opened Leb128
  import opened Unicode
  import opened Wire
  import opened WireTheorems
  import opened Ir
  import opened AsNative
  import opened AsNativeTheorems
  import opened AsCode
  import opened AsEncode

  // ---------------------------------------------------------------------------
  // Emission succeeds on accepted modules
  // ---------------------------------------------------------------------------

  lemma {:induction false} EmitTotal(m: Module, ty: Ty, r: nat, tmp: nat, e: Expr)
    requires Placed(m, ty, r)
    ensures Emit(m, ty, tmp, e).Some? && Emit(m, ty, tmp, e).value.1 >= tmp
    decreases ty, 0
  {
    match ty
    case List(t) => EmitTotal(m, t, r, tmp + 1, At(e, Tmp('i', tmp)));
    case Opt(t) =>
      PlacedResolves(m, t, r);
      EmitTotal(m, t, r, tmp + 1, V(Tmp('x', tmp)));
    case Tuple(ts) => EmitFieldsTotal(m, ts, r, 0, tmp, e);
    case Res(o, f) =>
      EmitSideTotal(m, f, r, tmp, Dot(e, ErrSide));
      EmitSideTotal(m, o, r, EmitSide(m, f, tmp, Dot(e, ErrSide)).value.1, Dot(e, OkSide));
    case _ =>
  }

  lemma {:induction false} EmitSideTotal(m: Module, side: Option<Ty>, r: nat, tmp: nat, e: Expr)
    requires SidePlaced(m, side, r)
    ensures EmitSide(m, side, tmp, e).Some? && EmitSide(m, side, tmp, e).value.1 >= tmp
    decreases side, 0
  {
    if side.Some? {
      EmitTotal(m, side.value, r, tmp, e);
    }
  }

  lemma {:induction false} EmitFieldsTotal(m: Module, ts: seq<Ty>, r: nat, i: nat, tmp: nat, e: Expr)
    requires AllPlaced(m, ts, r)
    ensures EmitFields(m, ts, i, tmp, e).Some? && EmitFields(m, ts, i, tmp, e).value.1 >= tmp
    decreases ts, 0
  {
    if ts != [] {
      EmitTotal(m, ts[0], r, tmp, Dot(e, Item(i)));
      EmitFieldsTotal(m, ts[1..], r, i + 1, Emit(m, ts[0], tmp, Dot(e, Item(i))).value.1, e);
    }
  }

  lemma EmitCaseTotal(m: Module, side: Option<Ty>, r: nat, i: nat, tmp: nat, e: Expr)
    requires SidePlaced(m, side, r)
    ensures EmitCase(m, side, i, tmp, e).Some?
  {
    if side.Some? {
      PlacedResolves(m, side.value, r);
      EmitTotal(m, side.value, r, tmp, Dot(e, CaseField(i)));
      EmitTotal(m, side.value, r, tmp + 1, V(Tmp('x', tmp)));
    }
  }

  /** Body `c` of the emitted switch is the code for case `c`, at some value of the counter. */
  lemma {:induction false} EmitCasesAt(m: Module, cs: seq<Option<Ty>>, r: nat, i: nat, tmp: nat, e: Expr, c: nat)
    returns (at: nat)
    requires AllSidesPlaced(m, cs, r)
    ensures EmitCases(m, cs, i, tmp, e).Some? && |EmitCases(m, cs, i, tmp, e).value.0| == |cs|
    ensures c < |cs| ==>
              && EmitCase(m, cs[c], i + c, at, e).Some?
              && EmitCases(m, cs, i, tmp, e).value.0[c].code == EmitCase(m, cs[c], i + c, at, e).value.0
  {
    if cs == [] {
      at := 0;
    } else {
      EmitCaseTotal(m, cs[0], r, i, tmp, e);
      var mid := EmitCase(m, cs[0], i, tmp, e).value.1;
      at := EmitCasesAt(m, cs[1..], r, i + 1, mid, e, if c > 0 then c - 1 else 0);
      if c == 0 {
        at := tmp;
      }
    }
  }

  // ---------------------------------------------------------------------------
  // What a run must have done
  // ---------------------------------------------------------------------------

  ghost function Join(a: Option<seq<byte>>, b: Option<seq<byte>>): Option<seq<byte>> {
    if a.Some? && b.Some? then Some(a.value + b.value) else None
  }

  /** Sink errors are sticky; without one, `bs` was appended, or it is set because there are no such bytes. */
  ghost predicate Sunk(s: State, t: State, bs: Option<seq<byte>>) {
    if s.err then t.err
    else if bs.Some? then !t.err && t.out == s.out + bs.value
    else t.err
  }

  /** The run fell through, kept every variable made before it, and wrote `bs`. */
  ghost predicate Wrote(s: State, f: Flow, tmp: nat, bs: Option<seq<byte>>) {
    f.Next? && Agree(s.env, f.s.env, tmp) && Sunk(s, f.s, bs)
  }

  ghost function ValueBytes(m: Module, ty: Ty, r: nat, nv: Native): Option<seq<byte>>
    requires Valid(m) && Declared(m, ty, r) && Shaped(m, ty, r, nv)
  {
    match ToValue(m, ty, r, nv) case None => None case Some(v) => Some(Encode(v))
  }

  ghost function FieldsBytes(m: Module, ts: seq<Ty>, r: nat, nvs: seq<Native>): Option<seq<byte>>
    requires Valid(m) && AllPlaced(m, ts, r) && FieldsShaped(m, ts, r, nvs)
  {
    match FieldsToValues(m, ts, r, nvs) case None => None case Some(vs) => Some(EncodeAll(vs))
  }

  ghost function ItemsBytes(m: Module, ty: Ty, r: nat, nvs: seq<Native>): Option<seq<byte>>
    requires Valid(m) && Declared(m, ty, r) && ItemsShaped(m, ty, r, nvs)
  {
    match ItemsToValues(m, ty, r, nvs) case None => None case Some(vs) => Some(EncodeAll(vs))
  }

  lemma WroteThen(m: Module, depth: nat, a: seq<Stmt>, b: seq<Stmt>, s: State, tmp: nat, mid: nat,
                  x: Option<seq<byte>>, y: Option<seq<byte>>)
    requires tmp <= mid
    requires Wrote(s, Run(m, depth, a, s), tmp, x)
    requires Wrote(Run(m, depth, a, s).s, Run(m, depth, b, Run(m, depth, a, s).s), mid, y)
    ensures Wrote(s, Run(m, depth, a + b, s), tmp, Join(x, y))
  {
    hide Run;
    RunAppend(m, depth, a, b, s);
    var s1 := Run(m, depth, a, s).s;
    var s2 := Run(m, depth, b, s1).s;
    AgreeLess(s1.env, s2.env, tmp, mid);
    AgreeTrans(s.env, s1.env, s2.env, tmp);
    if x.Some? && y.Some? {
      assert s.out + x.value + y.value == s.out + (x.value + y.value);
    }
  }

  /** One statement that only writes. */
  lemma WroteOne(m: Module, depth: nat, st: Stmt, s: State, bs: seq<byte>, tmp: nat)
    requires Exec(m, depth, st, s) == Next(Append(s, bs))
    ensures Wrote(s, Run(m, depth, [st], s), tmp, Some(bs))
  {
    hide Exec;
    assert Run(m, depth, [st][1..], Append(s, bs)) == Next(Append(s, bs));
  }

  lemma RunOne(m: Module, depth: nat, st: Stmt, s: State)
    ensures Run(m, depth, [st], s) == Exec(m, depth, st, s)
  {
    hide Exec;
    match Exec(m, depth, st, s)
    case Next(s') => assert Run(m, depth, [st][1..], s') == Next(s');
    case _ =>
  }

  lemma RunIfPresent(m: Module, depth: nat, e: Expr, body: seq<Stmt>, s: State, nv: Native)
    requires Eval(s.env, e) == Some(nv)
    ensures Run(m, depth, [IfPresent(e, body)], s) == if nv.NNull? then Next(s) else Run(m, depth, body, s)
  {
    hide Run;
    RunOne(m, depth, IfPresent(e, body), s);
  }

  lemma RunLet(m: Module, depth: nat, x: Var, e: Expr, unbox: bool, rest: seq<Stmt>, s: State, nv: Native)
    requires Eval(s.env, e) == Some(nv) && (unbox ==> nv.NBox?)
    ensures Run(m, depth, [Let(x, e, unbox)] + rest, s) ==
            Run(m, depth, rest, s.(env := s.env[x := if unbox then nv.value else nv]))
  {
    hide Run;
    RunAppend(m, depth, [Let(x, e, unbox)], rest, s);
    RunOne(m, depth, Let(x, e, unbox), s);
  }

  lemma RunIfIsErr(m: Module, depth: nat, e: Expr, thn: seq<Stmt>, els: seq<Stmt>, s: State, nv: Native)
    requires Eval(s.env, e) == Some(nv) && nv.NRes?
    ensures Run(m, depth, [IfIsErr(e, thn, els)], s) == Run(m, depth, if nv.isErr then thn else els, s)
  {
    hide Run;
    RunOne(m, depth, IfIsErr(e, thn, els), s);
  }

  lemma RunHeader(m: Module, depth: nat, st: Stmt, s: State, nv: Native, header: seq<byte>, tmp: nat)
    requires st.PutLen? || st.PutPresent? || st.PutIsErr?
    requires Eval(s.env, st.e) == Some(nv)
    requires st.PutLen? ==> nv.NArr? && header == Uleb(|nv.items|)
    requires st.PutPresent? ==> header == [if nv.NNull? then 0 else 1]
    requires st.PutIsErr? ==> nv.NRes? && header == [if nv.isErr then 1 else 0]
    ensures Run(m, depth, [st], s) == Next(Append(s, header))
    ensures Wrote(s, Run(m, depth, [st], s), tmp, Some(header))
  {
    hide Run;
    RunOne(m, depth, st, s);
    WroteOne(m, depth, st, s, header, tmp);
  }

  // ---------------------------------------------------------------------------
  // Correctness
  // ---------------------------------------------------------------------------

  ghost predicate Encodes(m: Module, ty: Ty, r: nat, depth: nat, tmp: nat, e: Expr, s: State, nv: Native)
    requires Valid(m) && Declared(m, ty, r) && Shaped(m, ty, r, nv)
  {
    && Emit(m, ty, tmp, e).Some?
    && Wrote(s, Run(m, depth, Emit(m, ty, tmp, e).value.0, s), tmp, ValueBytes(m, ty, r, nv))
  }

  lemma PrimCorrect(m: Module, p: Type, depth: nat, tmp: nat, e: Expr, s: State, nv: Native)
    requires IsPrim(p) && PrimShaped(p, nv) && Eval(s.env, e) == Some(nv)
    ensures Wrote(s, Run(m, depth, [PutPrim(p, e)], s), tmp,
                  match PrimToValue(p, nv) case None => None case Some(v) => Some(Encode(v)))
  {
    RunOne(m, depth, PutPrim(p, e), s);
  }

  /**
   The emitted encode statements of a type, run on any legal object: freshness of
   the temporaries is what keeps outer loops and options intact.
   */
  lemma {:induction false} EmitCorrect(m: Module, ty: Ty, r: nat, depth: nat, tmp: nat, e: Expr, s: State, nv: Native)
    requires Valid(m) && Placed(m, ty, r) && r <= depth
    requires Below(e, tmp) && Eval(s.env, e) == Some(nv) && Shaped(m, ty, r, nv)
    ensures Encodes(m, ty, r, depth, tmp, e, s, nv)
    decreases r, ty, 0
  {
    hide Pow2;
    hide Run;
    hide Exec;
    EmitTotal(m, ty, r, tmp, e);
    match ty
    case Prim(p) => PrimCorrect(m, p, depth, tmp, e, s, nv);
    case List(t) => ListCorrect(m, ty, r, depth, tmp, e, s, nv);
    case Opt(t) => OptCorrect(m, ty, r, depth, tmp, e, s, nv);
    case Tuple(ts) =>
      EmitFieldsCorrect(m, ts, r, depth, 0, tmp, e, s, nv.fields);
      assert nv.fields[0..] == nv.fields;
    case Res(_, _) => ResCorrect(m, ty, r, depth, tmp, e, s, nv);
    case Named(x) => CallCorrect(m, ty, r, depth, tmp, e, s, nv);
  }

  lemma {:induction false} ListCorrect(m: Module, ty: Ty, r: nat, depth: nat, tmp: nat, e: Expr, s: State, nv: Native)
    requires ty.List? && Valid(m) && Placed(m, ty, r) && r <= depth
    requires Below(e, tmp) && Eval(s.env, e) == Some(nv) && Shaped(m, ty, r, nv)
    ensures Encodes(m, ty, r, depth, tmp, e, s, nv)
    decreases r, ty, -1
  {
    hide Pow2;
    EmitTotal(m, ty, r, tmp, e);
    var t, i := ty.t, Tmp('i', tmp);
    var body := Emit(m, t, tmp + 1, At(e, i)).value.0;
    var header := Uleb(|nv.items|);
    RunHeader(m, depth, PutLen(e), s, nv, header, tmp);
    var s1 := Append(s, header);
    RunOne(m, depth, ForEach(i, e, body), s1);
    LoopCorrect(m, t, r, depth, tmp, e, s1, nv.items, 0);
    assert nv.items[0..] == nv.items;
    WroteThen(m, depth, [PutLen(e)], [ForEach(i, e, body)], s, tmp, tmp, Some(header), ItemsBytes(m, t, r, nv.items));
    assert [PutLen(e)] + [ForEach(i, e, body)] == Emit(m, ty, tmp, e).value.0;
    var vs := ItemsToValues(m, t, r, nv.items);
    if vs.Some? {
      ItemsLength(m, t, r, nv.items);
    }
  }

  lemma {:induction false} ItemsLength(m: Module, ty: Ty, r: nat, nvs: seq<Native>)
    requires Valid(m) && Declared(m, ty, r) && ItemsShaped(m, ty, r, nvs)
    ensures ItemsToValues(m, ty, r, nvs).Some? ==> |ItemsToValues(m, ty, r, nvs).value| == |nvs|
  {
    if nvs != [] {
      ItemsLength(m, ty, r, nvs[1..]);
    }
  }

  lemma {:induction false} LoopCorrect(m: Module, t: Ty, r: nat, depth: nat, tmp: nat, e: Expr, s: State,
                                       items: seq<Native>, k: nat)
    requires Valid(m) && Placed(m, t, r) && r <= depth
    requires Below(e, tmp) && Eval(s.env, e) == Some(NArr(items)) && k <= |items|
    requires ItemsShaped(m, t, r, items[k..])
    ensures var i := Tmp('i', tmp);
            && Emit(m, t, tmp + 1, At(e, i)).Some?
            && Wrote(s, Loop(m, depth, i, k, |items|, Emit(m, t, tmp + 1, At(e, i)).value.0, s), tmp,
                     ItemsBytes(m, t, r, items[k..]))
    decreases r, t, 1 + |items| - k
  {
    hide ItemsBytes;
    hide ValueBytes;
    hide ToValue;
    hide Pow2;
    hide Run;
    hide Exec;
    var i := Tmp('i', tmp);
    EmitTotal(m, t, r, tmp + 1, At(e, i));
    if k == |items| {
      assert items[k..] == [];
      NoItemsBytes(m, t, r);
    }
    if k < |items| {
      var s1 := s.(env := s.env[i := NNum(k)]);
      assert Agree(s.env, s1.env, tmp);
      EvalAgree(s.env, s1.env, e, tmp);
      BelowMore(e, tmp, tmp + 1);
      assert items[k..][0] == items[k] && items[k..][1..] == items[k + 1..];
      EmitCorrect(m, t, r, depth, tmp + 1, At(e, i), s1, items[k]);
      var s2 := Run(m, depth, Emit(m, t, tmp + 1, At(e, i)).value.0, s1).s;
      AgreeLess(s1.env, s2.env, tmp, tmp + 1);
      AgreeTrans(s.env, s1.env, s2.env, tmp);
      EvalAgree(s.env, s2.env, e, tmp);
      LoopCorrect(m, t, r, depth, tmp, e, s2, items, k + 1);
      var f := Loop(m, depth, i, k + 1, |items|, Emit(m, t, tmp + 1, At(e, i)).value.0, s2);
      AgreeTrans(s.env, s2.env, f.s.env, tmp);
      ItemsBytesStep(m, t, r, items[k..], s.out);
    }
  }

  lemma NoItemsBytes(m: Module, t: Ty, r: nat)
    requires Valid(m) && Declared(m, t, r)
    ensures ItemsBytes(m, t, r, []) == Some([])
  {
  }

  lemma ItemsBytesStep(m: Module, t: Ty, r: nat, nvs: seq<Native>, out: seq<byte>)
    requires Valid(m) && Declared(m, t, r) && nvs != [] && ItemsShaped(m, t, r, nvs)
    ensures ItemsBytes(m, t, r, nvs) == Join(ValueBytes(m, t, r, nvs[0]), ItemsBytes(m, t, r, nvs[1..]))
    ensures ItemsBytes(m, t, r, nvs).Some? ==>
              out + ValueBytes(m, t, r, nvs[0]).value + ItemsBytes(m, t, r, nvs[1..]).value ==
              out + ItemsBytes(m, t, r, nvs).value
  {
    if ToValue(m, t, r, nvs[0]).Some? && ItemsToValues(m, t, r, nvs[1..]).Some? {
      var v, vs := ToValue(m, t, r, nvs[0]).value, ItemsToValues(m, t, r, nvs[1..]).value;
      assert ([v] + vs)[1..] == vs;
    }
  }

  lemma {:induction false} OptCorrect(m: Module, ty: Ty, r: nat, depth: nat, tmp: nat, e: Expr, s: State, nv: Native)
    requires ty.Opt? && Valid(m) && Placed(m, ty, r) && r <= depth
    requires Below(e, tmp) && Eval(s.env, e) == Some(nv) && Shaped(m, ty, r, nv)
    ensures Encodes(m, ty, r, depth, tmp, e, s, nv)
    decreases r, ty, -1
  {
    hide Run;
    hide Exec;
    hide Pow2;
    hide Encode;
    hide Uleb;
    EmitTotal(m, ty, r, tmp, e);
    var t, x := ty.t, Tmp('x', tmp);
    PlacedResolves(m, t, r);
    var box := Boxed(m, t);
    assert NeedsBox(m, t) == Some(box);
    var body := Emit(m, t, tmp + 1, V(x)).value.0;
    var header := [if nv.NNull? then 0 else 1];
    RunHeader(m, depth, PutPresent(e), s, nv, header, tmp);
    var s1 := Append(s, header);
    RunIfPresent(m, depth, e, [Let(x, e, box)] + body, s1, nv);
    var rest: Option<seq<byte>> := Some([]);
    if !nv.NNull? {
      var inner := if box then nv.value else nv;
      var s2 := s1.(env := s1.env[x := inner]);
      assert Agree(s1.env, s2.env, tmp);
      RunLet(m, depth, x, e, box, body, s1, nv);
      EmitCorrect(m, t, r, depth, tmp + 1, V(x), s2, inner);
      rest := ValueBytes(m, t, r, inner);
      var f := Run(m, depth, body, s2);
      AgreeLess(s2.env, f.s.env, tmp, tmp + 1);
      AgreeTrans(s1.env, s2.env, f.s.env, tmp);
    }
    OptBytes(m, ty, r, nv);
    WroteThen(m, depth, [PutPresent(e)], [IfPresent(e, [Let(x, e, box)] + body)], s, tmp, tmp, Some(header), rest);
    assert [PutPresent(e)] + [IfPresent(e, [Let(x, e, box)] + body)] == Emit(m, ty, tmp, e).value.0;
  }

  lemma OptionBytes(p: Option<Value>)
    ensures Encode(VOption(p)) == if p.None? then [0] else [1] + Encode(p.value)
  {
    assert EncodeSide(p) == if p.None? then [] else Encode(p.value);
  }

  /** The bytes of an option: the presence byte, then the payload's. */
  lemma OptBytes(m: Module, ty: Ty, r: nat, nv: Native)
    requires ty.Opt? && Valid(m) && Declared(m, ty, r) && Shaped(m, ty, r, nv)
    ensures var box := Boxed(m, ty.t);
            ValueBytes(m, ty, r, nv) ==
            if nv.NNull? then Some([0])
            else Join(Some([1]), ValueBytes(m, ty.t, r, if box then nv.value else nv))
  {
    hide Encode;
    hide Pow2;
    if nv.NNull? {
      OptionBytes(None);
    } else {
      var inner := ToValue(m, ty.t, r, if Boxed(m, ty.t) then nv.value else nv);
      OptionBytes(inner);
    }
  }

  lemma {:induction false} SideCorrect(m: Module, side: Option<Ty>, r: nat, depth: nat, tmp: nat, e: Expr, s: State,
                                       nv: Option<Native>)
    requires Valid(m) && SidePlaced(m, side, r) && r <= depth
    requires Below(e, tmp) && SideShaped(m, side, r, nv)
    requires side.Some? ==> Eval(s.env, e) == nv
    ensures EmitSide(m, side, tmp, e).Some?
    ensures Wrote(s, Run(m, depth, EmitSide(m, side, tmp, e).value.0, s), tmp,
                  match SideToValue(m, side, r, nv) case None => None case Some(p) => Some(EncodeSide(p)))
    decreases r, side, 0
  {
    EmitSideTotal(m, side, r, tmp, e);
    if side.Some? {
      EmitCorrect(m, side.value, r, depth, tmp, e, s, nv.value);
    }
  }

  lemma {:induction false} ResCorrect(m: Module, ty: Ty, r: nat, depth: nat, tmp: nat, e: Expr, s: State, nv: Native)
    requires ty.Res? && Valid(m) && Placed(m, ty, r) && r <= depth
    requires Below(e, tmp) && Eval(s.env, e) == Some(nv) && Shaped(m, ty, r, nv)
    ensures Encodes(m, ty, r, depth, tmp, e, s, nv)
    decreases r, ty, -1
  {
    hide Run;
    hide Exec;
    hide Pow2;
    EmitTotal(m, ty, r, tmp, e);
    EmitSideTotal(m, ty.err, r, tmp, Dot(e, ErrSide));
    var (errCode, mid) := EmitSide(m, ty.err, tmp, Dot(e, ErrSide)).value;
    EmitSideTotal(m, ty.ok, r, mid, Dot(e, OkSide));
    var (okCode, next) := EmitSide(m, ty.ok, mid, Dot(e, OkSide)).value;
    var header := [if nv.isErr then 1 else 0];
    RunHeader(m, depth, PutIsErr(e), s, nv, header, tmp);
    var s1 := Append(s, header);
    RunIfIsErr(m, depth, e, errCode, okCode, s1, nv);
    BelowMore(e, tmp, mid);
    var rest: Option<seq<byte>>;
    if nv.isErr {
      SideCorrect(m, ty.err, r, depth, tmp, Dot(e, ErrSide), s1, nv.errSide);
      rest := match SideToValue(m, ty.err, r, nv.errSide) case None => None case Some(p) => Some(EncodeSide(p));
    } else {
      SideCorrect(m, ty.ok, r, depth, mid, Dot(e, OkSide), s1, nv.okSide);
      var f := Run(m, depth, okCode, s1);
      AgreeLess(s1.env, f.s.env, tmp, mid);
      rest := match SideToValue(m, ty.ok, r, nv.okSide) case None => None case Some(p) => Some(EncodeSide(p));
    }
    if ty.ok.None? && ty.err.None? {
      assert rest == Some([]);
    } else {
      WroteThen(m, depth, [PutIsErr(e)], [IfIsErr(e, errCode, okCode)], s, tmp, tmp, Some(header), rest);
      assert [PutIsErr(e)] + [IfIsErr(e, errCode, okCode)] == Emit(m, ty, tmp, e).value.0;
    }
  }

  lemma {:induction false} EmitFieldsCorrect(m: Module, ts: seq<Ty>, r: nat, depth: nat, i: nat, tmp: nat, e: Expr,
                                             s: State, fields: seq<Native>)
    requires Valid(m) && AllPlaced(m, ts, r) && r <= depth
    requires Below(e, tmp) && Eval(s.env, e) == Some(NObj(fields)) && i <= |fields|
    requires FieldsShaped(m, ts, r, fields[i..])
    ensures EmitFields(m, ts, i, tmp, e).Some?
    ensures Wrote(s, Run(m, depth, EmitFields(m, ts, i, tmp, e).value.0, s), tmp, FieldsBytes(m, ts, r, fields[i..]))
    decreases r, ts, 0
  {
    hide Pow2;
    EmitFieldsTotal(m, ts, r, i, tmp, e);
    if ts != [] {
      hide Run;
      hide Exec;
      var field := Dot(e, Item(i));
      EmitTotal(m, ts[0], r, tmp, field);
      var (code, mid) := Emit(m, ts[0], tmp, field).value;
      assert fields[i..][0] == fields[i] && fields[i..][1..] == fields[i + 1..];
      EmitCorrect(m, ts[0], r, depth, tmp, field, s, fields[i]);
      var s1 := Run(m, depth, code, s).s;
      EvalAgree(s.env, s1.env, e, tmp);
      BelowMore(e, tmp, mid);
      EmitFieldsTotal(m, ts[1..], r, i + 1, mid, e);
      EmitFieldsCorrect(m, ts[1..], r, depth, i + 1, mid, e, s1, fields);
      var rest := EmitFields(m, ts[1..], i + 1, mid, e).value.0;
      WroteThen(m, depth, code, rest, s, tmp, mid, ValueBytes(m, ts[0], r, fields[i]),
                FieldsBytes(m, ts[1..], r, fields[i + 1..]));
      FieldsBytesStep(m, ts, r, fields[i..]);
    }
  }

  lemma FieldsBytesStep(m: Module, ts: seq<Ty>, r: nat, nvs: seq<Native>)
    requires Valid(m) && AllPlaced(m, ts, r) && ts != [] && FieldsShaped(m, ts, r, nvs)
    ensures FieldsBytes(m, ts, r, nvs) == Join(ValueBytes(m, ts[0], r, nvs[0]), FieldsBytes(m, ts[1..], r, nvs[1..]))
  {
    if ToValue(m, ts[0], r, nvs[0]).Some? && FieldsToValues(m, ts[1..], r, nvs[1..]).Some? {
      var v, vs := ToValue(m, ts[0], r, nvs[0]).value, FieldsToValues(m, ts[1..], r, nvs[1..]).value;
      assert ([v] + vs)[1..] == vs;
    }
  }

  lemma {:induction false} CallCorrect(m: Module, ty: Ty, r: nat, depth: nat, tmp: nat, e: Expr, s: State, nv: Native)
    requires ty.Named? && Valid(m) && Placed(m, ty, r) && r <= depth
    requires Below(e, tmp) && Eval(s.env, e) == Some(nv) && Shaped(m, ty, r, nv)
    ensures Encodes(m, ty, r, depth, tmp, e, s, nv)
    decreases r, ty, -1
  {
    hide Pow2;
    var x := ty.name;
    HelperCorrect(m, m.types[x], m.rank[x], depth - 1, nv, s.out, s.err);
    RunOne(m, depth, Call(x, e), s);
  }

  /** A helper may also leave by `return`, but then with the error set. */
  ghost predicate HelperWrote(s: State, f: Flow, bs: Option<seq<byte>>) {
    (f.Next? || f.Return?) && Sunk(s, f.s, bs)
  }

  /** Every generated `encodeName` helper is correct on every legal object of its type. */
  lemma {:induction false} HelperCorrect(m: Module, ty: Ty, r: nat, depth: nat, nv: Native, out: seq<byte>, err: bool)
    requires Valid(m) && Declared(m, ty, r) && r <= depth && Shaped(m, ty, r, nv)
    ensures Helper(m, ty).Some?
    ensures var s := State(map[ARG := nv], out, err);
            HelperWrote(s, Run(m, depth, Helper(m, ty).value, s), ValueBytes(m, ty, r, nv))
    decreases r, ty, 1
  {
    hide Pow2;
    hide Run;
    hide Exec;
    hide Encode;
    var s := State(map[ARG := nv], out, err);
    var v := V(ARG);
    match ty
    case Record(ts) =>
      EmitFieldsCorrect(m, ts, r, depth, 0, 0, v, s, nv.fields);
      assert nv.fields[0..] == nv.fields;
      RecordBytes(m, ty, r, nv);
    case Enum(_) => GuardCorrect(m, ty, r, depth, s, nv);
    case Flags(_) => GuardCorrect(m, ty, r, depth, s, nv);
    case Variant(_) => VariantCorrect(m, ty, r, depth, nv, s);
    case _ => EmitCorrect(m, ty, r, depth, 0, v, s, nv);
  }

  lemma RecordBytes(m: Module, ty: Ty, r: nat, nv: Native)
    requires ty.Record? && Valid(m) && Declared(m, ty, r) && Shaped(m, ty, r, nv)
    ensures ValueBytes(m, ty, r, nv) == FieldsBytes(m, ty.ts, r, nv.fields)
  {
  }

  /** The helpers of enums and flags: a guard, then one call. */
  lemma GuardCorrect(m: Module, ty: Ty, r: nat, depth: nat, s: State, nv: Native)
    requires ty.Enum? || ty.Flags?
    requires Valid(m) && Declared(m, ty, r) && Shaped(m, ty, r, nv) && s.env == map[ARG := nv]
    ensures Helper(m, ty).Some? && HelperWrote(s, Run(m, depth, Helper(m, ty).value, s), ValueBytes(m, ty, r, nv))
  {
    hide Pow2;
    hide Run;
    match ty
    case Enum(n) => RunOne(m, depth, PutEnum(n, V(ARG)), s);
    case Flags(n) => RunOne(m, depth, PutFlags(n, V(ARG)), s);
  }

  lemma RunNothing(m: Module, depth: nat, s: State)
    ensures Run(m, depth, [], s) == Next(s)
  {
  }

  /** The tag guard, then the switch if any case carries a payload. */
  lemma VariantHead(m: Module, cs: seq<Option<Ty>>, depth: nat, bodies: seq<Body>, nv: Native, s: State)
    requires nv.NVar? && s.env == map[ARG := nv] && |bodies| == |cs|
    ensures var v := V(ARG);
            var code := [PutTag(|cs|, v)] + if AnyPayload(cs) then [Switch(v, bodies)] else [];
            Run(m, depth, code, s) ==
            if nv.tag < 0 || nv.tag >= |cs| then Return(s.(err := true))
            else if AnyPayload(cs) then Run(m, depth, bodies[nv.tag].code, Append(s, Uleb(nv.tag)))
            else Next(Append(s, Uleb(nv.tag)))
  {
    hide Run;
    hide Uleb;
    var v := V(ARG);
    var switch := if AnyPayload(cs) then [Switch(v, bodies)] else [];
    RunAppend(m, depth, [PutTag(|cs|, v)], switch, s);
    RunOne(m, depth, PutTag(|cs|, v), s);
    if 0 <= nv.tag < |cs| {
      RunOne(m, depth, Switch(v, bodies), Append(s, Uleb(nv.tag)));
      RunNothing(m, depth, Append(s, Uleb(nv.tag)));
    }
  }

  lemma {:induction false} VariantCorrect(m: Module, ty: Ty, r: nat, depth: nat, nv: Native, s: State)
    requires ty.Variant? && Valid(m) && Declared(m, ty, r) && r <= depth && Shaped(m, ty, r, nv)
    requires s.env == map[ARG := nv]
    ensures Helper(m, ty).Some?
    ensures HelperWrote(s, Run(m, depth, Helper(m, ty).value, s), ValueBytes(m, ty, r, nv))
    decreases r, ty, 0
  {
    hide Run;
    hide Exec;
    hide EmitCases;
    hide Pow2;
    var cs, v := ty.cs, V(ARG);
    var legal := 0 <= nv.tag < |cs|;
    var c := if legal then nv.tag else 0;
    var at := EmitCasesAt(m, cs, r, 0, 0, v, c);
    var bodies := EmitCases(m, cs, 0, 0, v).value.0;
    VariantHead(m, cs, depth, bodies, nv, s);
    if legal {
      var s1 := Append(s, Uleb(c));
      if !AnyPayload(cs) {
        assert cs[c] == None;
        assert bodies[c].code == [];
        RunNothing(m, depth, s1);
      }
      CasesShapedAt(m, cs, r, nv.cases, c);
      CaseCorrect(m, cs[c], r, depth, c, at, s1, nv);
    }
  }

  lemma {:induction false} CaseCorrect(m: Module, side: Option<Ty>, r: nat, depth: nat, i: nat, tmp: nat, s: State,
                                       nv: Native)
    requires Valid(m) && SidePlaced(m, side, r) && r <= depth
    requires s.env == map[ARG := nv] && nv.NVar? && i < |nv.cases| && CaseShaped(m, side, r, nv.cases[i])
    ensures EmitCase(m, side, i, tmp, V(ARG)).Some?
    ensures HelperWrote(s, Run(m, depth, EmitCase(m, side, i, tmp, V(ARG)).value.0, s),
                        match CaseToValue(m, side, r, nv.cases[i])
                        case None => None
                        case Some(p) => Some(EncodeSide(p)))
    decreases r, side, 1
  {
    hide Pow2;
    hide Run;
    hide Exec;
    EmitCaseTotal(m, side, r, i, tmp, V(ARG));
    if side.None? {
      RunNothing(m, depth, s);
    } else {
      var t, field := side.value, Dot(V(ARG), CaseField(i));
      var payload := nv.cases[i].value;
      PlacedResolves(m, t, r);
      assert Eval(s.env, field) == Some(payload);
      if Boxed(m, t) {
        assert NeedsBox(m, t) == Some(true);
        EmitCorrect(m, t, r, depth, tmp, field, s, payload);
      } else {
        assert NeedsBox(m, t) == Some(false);
        PayloadCorrect(m, t, r, depth, tmp, field, s, payload);
      }
    }
  }

  lemma RunRequire(m: Module, depth: nat, e: Expr, rest: seq<Stmt>, s: State, nv: Native)
    requires Eval(s.env, e) == Some(nv)
    ensures Run(m, depth, [RequirePresent(e)] + rest, s) ==
            if nv.NNull? then Return(s.(err := true)) else Run(m, depth, rest, s)
  {
    hide Run;
    RunAppend(m, depth, [RequirePresent(e)], rest, s);
    RunOne(m, depth, RequirePresent(e), s);
  }

  /** A payload of reference type must not be null; it is encoded from a constant. */
  lemma {:induction false} PayloadCorrect(m: Module, t: Ty, r: nat, depth: nat, tmp: nat, field: Expr, s: State,
                                          nv: Native)
    requires Valid(m) && Placed(m, t, r) && r <= depth
    requires Below(field, tmp) && Eval(s.env, field) == Some(nv) && (nv.NNull? || Shaped(m, t, r, nv))
    ensures var x := Tmp('x', tmp);
            && Emit(m, t, tmp + 1, V(x)).Some?
            && var code := [RequirePresent(field), Let(x, field, false)] + Emit(m, t, tmp + 1, V(x)).value.0;
               HelperWrote(s, Run(m, depth, code, s), if nv.NNull? then None else ValueBytes(m, t, r, nv))
    decreases r, t, 1
  {
    hide Pow2;
    hide Run;
    hide Exec;
    hide Shaped;
    hide ToValue;
    var x := Tmp('x', tmp);
    EmitTotal(m, t, r, tmp + 1, V(x));
    var code := Emit(m, t, tmp + 1, V(x)).value.0;
    assert [RequirePresent(field), Let(x, field, false)] + code ==
           [RequirePresent(field)] + ([Let(x, field, false)] + code);
    RunRequire(m, depth, field, [Let(x, field, false)] + code, s, nv);
    if !nv.NNull? {
      RunLet(m, depth, x, field, false, code, s, nv);
      EmitCorrect(m, t, r, depth, tmp + 1, V(x), s.(env := s.env[x := nv]), nv);
    }
  }
}
