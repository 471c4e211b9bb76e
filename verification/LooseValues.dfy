/**
 Values of the lanes that do not check texts: strings of any bytes and chars of any
 number. They are sent like any other value, and every decoder refuses them.
 */
module LooseValues {
  import opened Bytes
  import opened Leb128
  import opened Unicode
  import opened Wire
  import opened WireLanguage
  import opened WireTheorems

  // ---------------------------------------------------------------------------
  // Typing up to texts
  // ---------------------------------------------------------------------------

  /** The value has the shape and sizes of the type; strings need not be UTF-8, chars need not be scalar values. */
  ghost predicate Loose(v: Value, ty: Type)
    decreases ty, 0
  {
    match ty
    case TChar => v.VChar? && v.scalar < Pow2(32)
    case TString => v.VString? && |v.utf8| < Pow2(32)
    case TList(t) => v.VList? && |v.items| < Pow2(32) && AllLoose(v.items, t)
    case TRecord(ts) => v.VRecord? && EachLoose(v.vals, ts)
    case TTuple(ts) => v.VTuple? && EachLoose(v.vals, ts)
    case TVariant(cs) => v.VVariant? && v.tag < |cs| && v.tag < Pow2(32) && SideLoose(v.payload, cs[v.tag])
    case TOption(t) => v.VOption? && (v.payload.Some? ==> Loose(v.payload.value, t))
    case TResult(o, e) => v.VResult? && SideLoose(v.payload, if v.isErr then e else o)
    case _ => HasType(v, ty)
  }

  ghost predicate SideLoose(p: Option<Value>, ty: Option<Type>)
    decreases ty, 0
  {
    match ty
    case None => p == None
    case Some(t) => p.Some? && Loose(p.value, t)
  }

  ghost predicate EachLoose(vs: seq<Value>, tys: seq<Type>)
    decreases tys, 0
  {
    && |vs| == |tys|
    && (tys != [] ==> Loose(vs[0], tys[0]) && EachLoose(vs[1..], tys[1..]))
  }

  ghost predicate AllLoose(vs: seq<Value>, ty: Type)
    decreases ty, |vs| + 1
  {
    vs != [] ==> Loose(vs[0], ty) && AllLoose(vs[1..], ty)
  }

  predicate CharsAreScalars(v: Value)
    decreases v, 0
  {
    match v
    case VChar(c) => IsScalar(c)
    case VList(vs) => AllCharsAreScalars(vs)
    case VRecord(vs) => AllCharsAreScalars(vs)
    case VTuple(vs) => AllCharsAreScalars(vs)
    case VVariant(_, p) => p.Some? ==> CharsAreScalars(p.value)
    case VOption(p) => p.Some? ==> CharsAreScalars(p.value)
    case VResult(_, p) => p.Some? ==> CharsAreScalars(p.value)
    case _ => true
  }

  predicate AllCharsAreScalars(vs: seq<Value>)
    decreases vs, 0
  {
    vs != [] ==> CharsAreScalars(vs[0]) && AllCharsAreScalars(vs[1..])
  }

  /** Every string in the value is UTF-8. */
  predicate TextsAreUtf8(v: Value)
    decreases v, 0
  {
    match v
    case VString(s) => Utf8Decode(s).Some?
    case VList(vs) => AllTextsAreUtf8(vs)
    case VRecord(vs) => AllTextsAreUtf8(vs)
    case VTuple(vs) => AllTextsAreUtf8(vs)
    case VVariant(_, p) => p.Some? ==> TextsAreUtf8(p.value)
    case VOption(p) => p.Some? ==> TextsAreUtf8(p.value)
    case VResult(_, p) => p.Some? ==> TextsAreUtf8(p.value)
    case _ => true
  }

  predicate AllTextsAreUtf8(vs: seq<Value>)
    decreases vs, 0
  {
    vs != [] ==> TextsAreUtf8(vs[0]) && AllTextsAreUtf8(vs[1..])
  }

  /** Texts are all that can be wrong with such a value. */
  lemma {:induction false} LooseTyped(v: Value, ty: Type)
    requires Loose(v, ty)
    ensures HasType(v, ty) <==> TextsAreUtf8(v) && CharsAreScalars(v)
    decreases ty, 0
  {
    hide Pow2;
    hide IsUtf8;
    hide Utf8Decode;
    match ty
    case TString => Utf8DecodeIsUtf8(v.utf8);
    case TList(t) => AllLooseTyped(v.items, t);
    case TRecord(ts) => EachLooseTyped(v.vals, ts);
    case TTuple(ts) => EachLooseTyped(v.vals, ts);
    case TVariant(cs) => SideLooseTyped(v.payload, cs[v.tag]);
    case TOption(t) => if v.payload.Some? { LooseTyped(v.payload.value, t); }
    case TResult(o, e) => SideLooseTyped(v.payload, if v.isErr then e else o);
    case _ =>
  }

  lemma {:induction false} SideLooseTyped(p: Option<Value>, ty: Option<Type>)
    requires SideLoose(p, ty)
    ensures SideHasType(p, ty) <==> (p.Some? ==> TextsAreUtf8(p.value) && CharsAreScalars(p.value))
    decreases ty, 0
  {
    if ty.Some? {
      LooseTyped(p.value, ty.value);
    }
  }

  lemma {:induction false} EachLooseTyped(vs: seq<Value>, tys: seq<Type>)
    requires EachLoose(vs, tys)
    ensures HaveTypes(vs, tys) <==> AllTextsAreUtf8(vs) && AllCharsAreScalars(vs)
    decreases tys, 0
  {
    if tys != [] {
      LooseTyped(vs[0], tys[0]);
      EachLooseTyped(vs[1..], tys[1..]);
    }
  }

  lemma {:induction false} AllLooseTyped(vs: seq<Value>, ty: Type)
    requires AllLoose(vs, ty)
    ensures AllHaveType(vs, ty) <==> AllTextsAreUtf8(vs) && AllCharsAreScalars(vs)
    decreases ty, |vs| + 1
  {
    if vs != [] {
      LooseTyped(vs[0], ty);
      AllLooseTyped(vs[1..], ty);
    }
  }

  lemma {:induction false} TypedIsLoose(v: Value, ty: Type)
    requires HasType(v, ty)
    ensures Loose(v, ty)
    decreases ty, 0
  {
    match ty
    case TChar => ScalarFits(v.scalar);
    case TList(t) => AllTypedLoose(v.items, t);
    case TRecord(ts) => EachTypedLoose(v.vals, ts);
    case TTuple(ts) => EachTypedLoose(v.vals, ts);
    case TVariant(cs) => SideTypedLoose(v.payload, cs[v.tag]);
    case TOption(t) => if v.payload.Some? { TypedIsLoose(v.payload.value, t); }
    case TResult(o, e) => SideTypedLoose(v.payload, if v.isErr then e else o);
    case _ =>
  }

  lemma ScalarFits(n: nat)
    requires IsScalar(n)
    ensures n < Pow2(32)
  {
    Pow2Sizes();
  }

  lemma {:induction false} SideTypedLoose(p: Option<Value>, ty: Option<Type>)
    requires SideHasType(p, ty)
    ensures SideLoose(p, ty)
    decreases ty, 0
  {
    if ty.Some? {
      TypedIsLoose(p.value, ty.value);
    }
  }

  lemma {:induction false} EachTypedLoose(vs: seq<Value>, tys: seq<Type>)
    requires HaveTypes(vs, tys)
    ensures EachLoose(vs, tys)
    decreases tys, 0
  {
    if tys != [] {
      TypedIsLoose(vs[0], tys[0]);
      EachTypedLoose(vs[1..], tys[1..]);
    }
  }

  lemma {:induction false} AllTypedLoose(vs: seq<Value>, ty: Type)
    requires AllHaveType(vs, ty)
    ensures AllLoose(vs, ty)
    decreases ty, |vs| + 1
  {
    if vs != [] {
      TypedIsLoose(vs[0], ty);
      AllTypedLoose(vs[1..], ty);
    }
  }

  // ---------------------------------------------------------------------------
  // What decoders make of them
  // ---------------------------------------------------------------------------

  /** `bs` stands in the buffer at `pos`. */
  predicate StandsAt(buf: seq<byte>, pos: nat, bs: seq<byte>) {
    pos + |bs| <= |buf| && buf[pos..pos + |bs|] == bs
  }

  lemma StandsJoin(buf: seq<byte>, pos: nat, a: seq<byte>, b: seq<byte>)
    requires StandsAt(buf, pos, a + b)
    ensures StandsAt(buf, pos, a) && StandsAt(buf, pos + |a|, b)
  {
    assert buf[pos..pos + |a|] == (a + b)[..|a|];
    assert buf[pos + |a|..pos + |a| + |b|] == (a + b)[|a|..];
  }

  lemma TypedRead(ty: Type, v: Value, buf: seq<byte>, pos: nat)
    requires HasType(v, ty) && StandsAt(buf, pos, Encode(v))
    ensures Decode(ty, buf, pos) == Ok(v, pos + |Encode(v)|)
  {
    hide Decode;
    hide Encode;
    hide Denotes;
    hide HasType;
    EncodeDenotes(ty, v);
    DecodeExact(ty, v, buf, pos, pos + |Encode(v)|);
  }

  lemma HeaderRead(n: nat, buf: seq<byte>, pos: nat)
    requires n < Pow2(32) && StandsAt(buf, pos, Uleb(n))
    ensures DecUleb(32, buf, pos) == Ok(n, pos + |Uleb(n)|)
  {
    hide Pow2;
    hide Uleb;
    hide IsUleb;
    hide DecUleb;
    UlebIsUleb(32, n);
    UlebExact(32, buf, pos, n, pos + |Uleb(n)|);
  }

  lemma BitRead(what: string, b: bool, buf: seq<byte>, pos: nat)
    requires StandsAt(buf, pos, [if b then 1 else 0])
    ensures DecBit(what, buf, pos) == Ok(b, pos + 1)
  {
    assert buf[pos] == buf[pos..pos + 1][0];
  }

  /** A refusal; where only strings can be at fault, it names UTF-8. */
  ghost predicate Refuses<T(!new)>(step: Step<T>, scalars: bool) {
    step.Err? && (scalars ==> step.error == InvalidUtf8)
  }

  lemma StringRefused(s: seq<byte>, buf: seq<byte>, pos: nat)
    requires |s| < Pow2(32) && !IsUtf8(s) && StandsAt(buf, pos, Uleb(|s|) + s)
    ensures DecString(buf, pos) == Err(InvalidUtf8)
  {
    hide Pow2;
    hide Uleb;
    hide IsUtf8;
    hide DecUleb;
    StandsJoin(buf, pos, Uleb(|s|), s);
    HeaderRead(|s|, buf, pos);
  }

  lemma NoLonger(a: seq<byte>, b: seq<byte>)
    requires Terminated(a) && Terminated(b) && a <= b
    ensures a == b
  {
    assert b[|a| - 1] == a[|a| - 1];
  }

  /** Two terminated byte strings at one place are the same. */
  lemma TerminatedOnce(buf: seq<byte>, pos: nat, p: nat, q: nat)
    requires pos <= p <= |buf| && pos <= q <= |buf| && Terminated(buf[pos..p]) && Terminated(buf[pos..q])
    ensures p == q
  {
    hide Terminated;
    var a, b := buf[pos..p], buf[pos..q];
    if p <= q {
      assert a <= b;
      NoLonger(a, b);
    } else {
      assert b <= a;
      NoLonger(b, a);
    }
  }

  lemma CharRefused(n: nat, buf: seq<byte>, pos: nat)
    requires n < Pow2(32) && !IsScalar(n) && StandsAt(buf, pos, Uleb(n))
    ensures DecChar(buf, pos).Err?
  {
    hide Pow2;
    hide Uleb;
    hide DecUleb;
    hide Terminated;
    var step := DecUleb(21, buf, pos);
    if step.Ok? {
      var end := pos + |Uleb(n)|;
      UlebIsUleb(32, n);
      UlebExact(21, buf, pos, step.value, step.pos);
      TerminatedOnce(buf, pos, step.pos, end);
      assert step.value == UVal(buf[pos..end]) == n;
    }
  }

  /**
   A value with a text that is none is refused, wherever it stands; if its chars are all
   right, the error is that of a string that is not UTF-8.
   */
  lemma {:induction false} LooseRefused(ty: Type, v: Value, buf: seq<byte>, pos: nat)
    requires Loose(v, ty) && !HasType(v, ty) && StandsAt(buf, pos, Encode(v))
    ensures Refuses(Decode(ty, buf, pos), CharsAreScalars(v))
    decreases ty, 1
  {
    hide Pow2;
    hide Uleb;
    hide IsUtf8;
    hide DecUleb;
    hide StandsAt;
    match ty
    case TChar => CharRefused(v.scalar, buf, pos);
    case TString => StringRefused(v.utf8, buf, pos);
    case TList(t) =>
      StandsJoin(buf, pos, Uleb(|v.items|), EncodeAll(v.items));
      HeaderRead(|v.items|, buf, pos);
      ItemsRefused(t, v.items, buf, pos + |Uleb(|v.items|)|);
    case TRecord(ts) => FieldsRefused(ts, v.vals, buf, pos);
    case TTuple(ts) => FieldsRefused(ts, v.vals, buf, pos);
    case TVariant(_) => SumRefused(ty, v, buf, pos);
    case TOption(_) => SumRefused(ty, v, buf, pos);
    case TResult(_, _) => SumRefused(ty, v, buf, pos);
    case _ =>
  }

  lemma {:induction false} SumRefused(ty: Type, v: Value, buf: seq<byte>, pos: nat)
    requires ty.TVariant? || ty.TOption? || ty.TResult?
    requires Loose(v, ty) && !HasType(v, ty) && StandsAt(buf, pos, Encode(v))
    ensures Refuses(Decode(ty, buf, pos), CharsAreScalars(v))
    decreases ty, 0
  {
    hide Pow2;
    hide Uleb;
    hide IsUtf8;
    hide DecUleb;
    hide StandsAt;
    match ty
    case TVariant(cs) =>
      StandsJoin(buf, pos, Uleb(v.tag), EncodeSide(v.payload));
      HeaderRead(v.tag, buf, pos);
      SideRefused(cs[v.tag], v.payload, buf, pos + |Uleb(v.tag)|);
    case TOption(t) =>
      StandsJoin(buf, pos, [1], EncodeSide(v.payload));
      BitRead("option", true, buf, pos);
      LooseRefused(t, v.payload.value, buf, pos + 1);
    case TResult(o, e) =>
      StandsJoin(buf, pos, [if v.isErr then 1 else 0], EncodeSide(v.payload));
      BitRead("result", v.isErr, buf, pos);
      SideRefused(if v.isErr then e else o, v.payload, buf, pos + 1);
  }

  lemma {:induction false} SideRefused(ty: Option<Type>, p: Option<Value>, buf: seq<byte>, pos: nat)
    requires SideLoose(p, ty) && !SideHasType(p, ty) && StandsAt(buf, pos, EncodeSide(p))
    ensures p.Some? && Refuses(DecodeSide(ty, buf, pos), CharsAreScalars(p.value))
    decreases ty, 0
  {
    hide StandsAt;
    LooseRefused(ty.value, p.value, buf, pos);
  }

  lemma {:induction false} FieldsRefused(tys: seq<Type>, vs: seq<Value>, buf: seq<byte>, pos: nat)
    requires EachLoose(vs, tys) && !HaveTypes(vs, tys) && StandsAt(buf, pos, EncodeAll(vs))
    ensures Refuses(DecodeFields(tys, buf, pos), AllCharsAreScalars(vs))
    decreases tys, 0
  {
    hide StandsAt;
    hide Decode;
    hide Encode;
    hide HasType;
    hide Loose;
    StandsJoin(buf, pos, Encode(vs[0]), EncodeAll(vs[1..]));
    if HasType(vs[0], tys[0]) {
      TypedRead(tys[0], vs[0], buf, pos);
      FieldsRefused(tys[1..], vs[1..], buf, pos + |Encode(vs[0])|);
    } else {
      LooseRefused(tys[0], vs[0], buf, pos);
    }
  }

  lemma {:induction false} ItemsRefused(ty: Type, vs: seq<Value>, buf: seq<byte>, pos: nat)
    requires AllLoose(vs, ty) && !AllHaveType(vs, ty) && StandsAt(buf, pos, EncodeAll(vs))
    ensures Refuses(DecodeItems(ty, |vs|, buf, pos), AllCharsAreScalars(vs))
    decreases ty, |vs| + 1
  {
    hide StandsAt;
    hide Decode;
    hide Encode;
    hide HasType;
    hide Loose;
    StandsJoin(buf, pos, Encode(vs[0]), EncodeAll(vs[1..]));
    if HasType(vs[0], ty) {
      TypedRead(ty, vs[0], buf, pos);
      ItemsRefused(ty, vs[1..], buf, pos + |Encode(vs[0])|);
    } else {
      LooseRefused(ty, vs[0], buf, pos);
    }
  }
}
