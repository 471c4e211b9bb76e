/**
 The AssemblyScript emitters as they run, over a writer and one counter.
 */
module AsEmitter {
  import opened Bytes
  import opened Wire
  import opened Ir
  import opened AsNative
  import opened AsCode
  import E = AsEncode
  import D = AsDecode

  // ---------------------------------------------------------------------------
  // Names of temporaries
  // ---------------------------------------------------------------------------

  const TEMP_PREFIXES: set<char> := {'r', 'x', 'i'}

  /** `is_temp_shaped`: a prefix and then only digits, at least one. */
  predicate TempShaped(s: string) {
    |s| > 1 && s[0] in TEMP_PREFIXES && forall i :: 1 <= i < |s| ==> IsDigitChar(s[i])
  }

  /** A parameter's name is mangled away from keywords, generated locals and temporaries. */
  function ParamName(camel: string, avoid: set<string>): string {
    if camel in avoid || TempShaped(camel) then camel + "_" else camel
  }

  function TempName(prefix: char, n: nat): string {
    [prefix] + Decimal(n)
  }

  /** The names of two temporaries differ unless they are the same, and none is a parameter's. */
  lemma TempNamesApart(p: char, m: nat, q: char, n: nat, camel: string, avoid: set<string>)
    requires p in TEMP_PREFIXES
    ensures TempName(p, m) == TempName(q, n) ==> p == q && m == n
    ensures ParamName(camel, avoid) != TempName(p, m)
  {
    var s := TempName(p, m);
    DecimalDigits(m);
    assert s[1..] == Decimal(m);
    if s == TempName(q, n) {
      assert TempName(q, n)[1..] == Decimal(n);
      DecimalInjective(m, n);
    }
    assert TempShaped(s);
    assert s[|s| - 1] == s[1..][|s| - 2] != '_';
    assert (camel + "_")[|camel|] == '_';
  }

  // ---------------------------------------------------------------------------
  // Writer and counter
  // ---------------------------------------------------------------------------

  class Cx {
    var tmp: nat

    constructor ()
      ensures tmp == 0
    {
      tmp := 0;
    }

    method Fresh(prefix: char) returns (x: Var)
      modifies this
      ensures x == Tmp(prefix, old(tmp)) && tmp == old(tmp) + 1
    {
      x := Tmp(prefix, tmp);
      tmp := tmp + 1;
    }
  }

  /** The statements of the innermost open block, and of the blocks around it. */
  class Writer<S> {
    var buf: seq<S>
    var around: seq<seq<S>>

    constructor ()
      ensures buf == [] && around == []
    {
      buf := [];
      around := [];
    }

    method Line(st: S)
      modifies this
      ensures buf == old(buf) + [st] && around == old(around)
    {
      buf := buf + [st];
    }

    method Open()
      modifies this
      ensures buf == [] && around == old(around) + [old(buf)]
    {
      around := around + [buf];
      buf := [];
    }

    method Close() returns (body: seq<S>)
      requires around != []
      modifies this
      ensures body == old(buf) && buf == old(around)[|old(around)| - 1]
      ensures around == old(around)[..|old(around)| - 1]
    {
      body := buf;
      buf := around[|around| - 1];
      around := around[..|around| - 1];
    }
  }

  /** What was appended to the open block is the code, and the counter moved as far as the code uses temporaries. */
  ghost predicate Emitted<S>(ok: bool, before: seq<S>, around: seq<seq<S>>, now: seq<S>, aroundNow: seq<seq<S>>,
                             tmp: nat, code: Option<(seq<S>, nat)>)
  {
    && (ok <==> code.Some?)
    && (ok ==> now == before + code.value.0 && aroundNow == around && tmp == code.value.1)
  }

  // ---------------------------------------------------------------------------
  // emit_encode
  // ---------------------------------------------------------------------------

  method EmitEncode(m: Module, w: Writer<E.Stmt>, cx: Cx, ty: Ty, e: Expr) returns (ok: bool)
    modifies w, cx
    ensures Emitted(ok, old(w.buf), old(w.around), w.buf, w.around, cx.tmp, E.Emit(m, ty, old(cx.tmp), e))
    decreases ty, 1
  {
    match ty
    case Prim(p) =>
      if !IsPrim(p) {
        return false;
      }
      w.Line(E.PutPrim(p, e));
      return true;
    case List(_) => ok := EncodeList(m, w, cx, ty, e);
    case Opt(_) => ok := EncodeOption(m, w, cx, ty, e);
    case Tuple(ts) => ok := EncodeFields(m, w, cx, ts, 0, e);
    case Res(_, _) => ok := EncodeResult(m, w, cx, ty, e);
    case Named(name) =>
      w.Line(E.Call(name, e));
      return true;
    case _ => return false;
  }

  method EncodeList(m: Module, w: Writer<E.Stmt>, cx: Cx, ty: Ty, e: Expr) returns (ok: bool)
    requires ty.List?
    modifies w, cx
    ensures Emitted(ok, old(w.buf), old(w.around), w.buf, w.around, cx.tmp, E.Emit(m, ty, old(cx.tmp), e))
    decreases ty, 0
  {
    w.Line(E.PutLen(e));
    var i := cx.Fresh('i');
    w.Open();
    ok := EmitEncode(m, w, cx, ty.t, At(e, i));
    if ok {
      var body := w.Close();
      assert body == E.Emit(m, ty.t, old(cx.tmp) + 1, At(e, i)).value.0;
      w.Line(E.ForEach(i, e, body));
      assert w.buf == old(w.buf) + [E.PutLen(e), E.ForEach(i, e, body)];
    }
  }

  method EncodeOption(m: Module, w: Writer<E.Stmt>, cx: Cx, ty: Ty, e: Expr) returns (ok: bool)
    requires ty.Opt?
    modifies w, cx
    ensures Emitted(ok, old(w.buf), old(w.around), w.buf, w.around, cx.tmp, E.Emit(m, ty, old(cx.tmp), e))
    decreases ty, 0
  {
    w.Line(E.PutPresent(e));
    w.Open();
    var x := cx.Fresh('x');
    var box := NeedsBox(m, ty.t);
    if box.None? {
      return false;
    }
    w.Line(E.Let(x, e, box.value));
    ok := EmitEncode(m, w, cx, ty.t, V(x));
    if ok {
      var body := w.Close();
      assert body == [E.Let(x, e, box.value)] + E.Emit(m, ty.t, old(cx.tmp) + 1, V(x)).value.0;
      w.Line(E.IfPresent(e, body));
      assert w.buf == old(w.buf) + [E.PutPresent(e), E.IfPresent(e, body)];
    }
  }

  method EncodeResult(m: Module, w: Writer<E.Stmt>, cx: Cx, ty: Ty, e: Expr) returns (ok: bool)
    requires ty.Res?
    modifies w, cx
    ensures Emitted(ok, old(w.buf), old(w.around), w.buf, w.around, cx.tmp, E.Emit(m, ty, old(cx.tmp), e))
    decreases ty, 0
  {
    w.Line(E.PutIsErr(e));
    if ty.ok.None? && ty.err.None? {
      return true;
    }
    w.Open();
    ok := EncodeSide(m, w, cx, ty.err, Dot(e, ErrSide));
    if !ok {
      return;
    }
    ghost var mid := cx.tmp;
    var errCode := w.Close();
    assert errCode == E.EmitSide(m, ty.err, old(cx.tmp), Dot(e, ErrSide)).value.0;
    w.Open();
    ok := EncodeSide(m, w, cx, ty.ok, Dot(e, OkSide));
    if !ok {
      return;
    }
    var okCode := w.Close();
    assert okCode == E.EmitSide(m, ty.ok, mid, Dot(e, OkSide)).value.0;
    w.Line(E.IfIsErr(e, errCode, okCode));
    assert w.buf == old(w.buf) + [E.PutIsErr(e), E.IfIsErr(e, errCode, okCode)];
  }

  method EncodeSide(m: Module, w: Writer<E.Stmt>, cx: Cx, side: Option<Ty>, e: Expr) returns (ok: bool)
    modifies w, cx
    ensures Emitted(ok, old(w.buf), old(w.around), w.buf, w.around, cx.tmp,
                    E.EmitSide(m, side, old(cx.tmp), e))
    decreases side, 0
  {
    if side.None? {
      assert w.buf == w.buf + [];
      return true;
    }
    ok := EmitEncode(m, w, cx, side.value, e);
  }

  method EncodeFields(m: Module, w: Writer<E.Stmt>, cx: Cx, ts: seq<Ty>, i: nat, e: Expr) returns (ok: bool)
    modifies w, cx
    ensures Emitted(ok, old(w.buf), old(w.around), w.buf, w.around, cx.tmp,
                    E.EmitFields(m, ts, i, old(cx.tmp), e))
    decreases ts, 0
  {
    if ts == [] {
      assert w.buf == w.buf + [];
      return true;
    }
    ok := EmitEncode(m, w, cx, ts[0], Dot(e, Item(i)));
    if ok {
      ok := EncodeFields(m, w, cx, ts[1..], i + 1, e);
    }
  }

  // ---------------------------------------------------------------------------
  // emit_decode
  // ---------------------------------------------------------------------------

  method EmitDecode(m: Module, w: Writer<D.Stmt>, cx: Cx, ty: Ty, dest: Expr) returns (ok: bool)
    modifies w, cx
    ensures Emitted(ok, old(w.buf), old(w.around), w.buf, w.around, cx.tmp, D.Emit(m, ty, old(cx.tmp), dest))
    decreases ty, 1
  {
    match ty
    case Prim(p) =>
      if !IsPrim(p) {
        return false;
      }
      w.Line(D.GetPrim(p, dest));
      w.Line(D.FailIfErr);
      assert w.buf == old(w.buf) + [D.GetPrim(p, dest), D.FailIfErr];
      return true;
    case List(_) => ok := DecodeList(m, w, cx, ty, dest);
    case Opt(_) => ok := DecodeOption(m, w, cx, ty, dest);
    case Tuple(ts) => ok := DecodeFields(m, w, cx, ts, 0, dest);
    case Res(_, _) => ok := DecodeResult(m, w, cx, ty, dest);
    case Named(name) =>
      w.Line(D.Call(name, dest));
      w.Line(D.FailIfErr);
      assert w.buf == old(w.buf) + [D.Call(name, dest), D.FailIfErr];
      return true;
    case _ => return false;
  }

  method DecodeList(m: Module, w: Writer<D.Stmt>, cx: Cx, ty: Ty, dest: Expr) returns (ok: bool)
    requires ty.List?
    modifies w, cx
    ensures Emitted(ok, old(w.buf), old(w.around), w.buf, w.around, cx.tmp, D.Emit(m, ty, old(cx.tmp), dest))
    decreases ty, 0
  {
    var r := cx.Fresh('r');
    w.Line(D.GetLen(r));
    w.Line(D.FailIfErr);
    var i := cx.Fresh('i');
    w.Open();
    var x := cx.Fresh('x');
    w.Line(D.LetDefault(x, ty.t));
    ok := EmitDecode(m, w, cx, ty.t, V(x));
    if ok {
      w.Line(D.Push(dest, x));
      var body := w.Close();
      assert body == [D.LetDefault(x, ty.t)] + D.Emit(m, ty.t, old(cx.tmp) + 3, V(x)).value.0 + [D.Push(dest, x)];
      w.Line(D.ForCount(i, r, body));
      assert w.buf == old(w.buf) + [D.GetLen(r), D.FailIfErr, D.ForCount(i, r, body)];
    }
  }

  method DecodeOption(m: Module, w: Writer<D.Stmt>, cx: Cx, ty: Ty, dest: Expr) returns (ok: bool)
    requires ty.Opt?
    modifies w, cx
    ensures Emitted(ok, old(w.buf), old(w.around), w.buf, w.around, cx.tmp, D.Emit(m, ty, old(cx.tmp), dest))
    decreases ty, 0
  {
    var r := cx.Fresh('r');
    w.Line(D.GetPresent(r));
    w.Line(D.FailIfErr);
    w.Open();
    var x := cx.Fresh('x');
    w.Line(D.LetDefault(x, ty.t));
    ok := EmitDecode(m, w, cx, ty.t, V(x));
    if !ok {
      return;
    }
    var box := NeedsBox(m, ty.t);
    if box.None? {
      return false;
    }
    w.Line(D.Put(dest, x, box.value));
    var body := w.Close();
    assert body == [D.LetDefault(x, ty.t)] + D.Emit(m, ty.t, old(cx.tmp) + 2, V(x)).value.0 +
                   [D.Put(dest, x, box.value)];
    w.Line(D.IfTrue(r, body, []));
    assert w.buf == old(w.buf) + [D.GetPresent(r), D.FailIfErr, D.IfTrue(r, body, [])];
  }

  method DecodeResult(m: Module, w: Writer<D.Stmt>, cx: Cx, ty: Ty, dest: Expr) returns (ok: bool)
    requires ty.Res?
    modifies w, cx
    ensures Emitted(ok, old(w.buf), old(w.around), w.buf, w.around, cx.tmp, D.Emit(m, ty, old(cx.tmp), dest))
    decreases ty, 0
  {
    var r := cx.Fresh('r');
    w.Line(D.GetIsErr(r));
    w.Line(D.FailIfErr);
    w.Line(D.SetIsErr(dest, r));
    ghost var head := [D.GetIsErr(r), D.FailIfErr, D.SetIsErr(dest, r)];
    assert w.buf == old(w.buf) + head;
    if ty.ok.None? && ty.err.None? {
      return true;
    }
    w.Open();
    ok := DecodeSide(m, w, cx, ty.err, Dot(dest, ErrSide));
    if !ok {
      return;
    }
    ghost var mid := cx.tmp;
    var errCode := w.Close();
    assert errCode == D.EmitSide(m, ty.err, old(cx.tmp) + 1, Dot(dest, ErrSide)).value.0;
    w.Open();
    ok := DecodeSide(m, w, cx, ty.ok, Dot(dest, OkSide));
    if !ok {
      return;
    }
    var okCode := w.Close();
    assert okCode == D.EmitSide(m, ty.ok, mid, Dot(dest, OkSide)).value.0;
    w.Line(D.IfTrue(r, errCode, okCode));
    assert w.buf == old(w.buf) + (head + [D.IfTrue(r, errCode, okCode)]);
  }

  method DecodeSide(m: Module, w: Writer<D.Stmt>, cx: Cx, side: Option<Ty>, dest: Expr) returns (ok: bool)
    modifies w, cx
    ensures Emitted(ok, old(w.buf), old(w.around), w.buf, w.around, cx.tmp,
                    D.EmitSide(m, side, old(cx.tmp), dest))
    decreases side, 0
  {
    if side.None? {
      assert w.buf == w.buf + [];
      return true;
    }
    ok := EmitDecode(m, w, cx, side.value, dest);
  }

  method DecodeFields(m: Module, w: Writer<D.Stmt>, cx: Cx, ts: seq<Ty>, i: nat, dest: Expr) returns (ok: bool)
    modifies w, cx
    ensures Emitted(ok, old(w.buf), old(w.around), w.buf, w.around, cx.tmp,
                    D.EmitFields(m, ts, i, old(cx.tmp), dest))
    decreases ts, 0
  {
    if ts == [] {
      assert w.buf == w.buf + [];
      return true;
    }
    ok := EmitDecode(m, w, cx, ts[0], Dot(dest, Item(i)));
    if ok {
      ok := DecodeFields(m, w, cx, ts[1..], i + 1, dest);
    }
  }
}
