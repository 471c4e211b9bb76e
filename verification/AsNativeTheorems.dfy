/**
 The AssemblyScript representation is faithful: every wire value has its own
 object, null always means none, and nested options stay distinguishable.
 */
module AsNativeTheorems {
  import opened Bytes
  import opened Leb128
  import opened Unicode
  import opened Wire
  import opened LooseValues
  import opened Ir
  import opened AsNative

  // ---------------------------------------------------------------------------
  // Values the target language can hold, and values it should have held
  // ---------------------------------------------------------------------------

  /** Every list and string fits the 32-bit signed lengths of the target language. */
  ghost predicate Holdable(v: Value)
    decreases v, 0
  {
    match v
    case VString(s) => |s| < MAX_UNITS
    case VList(vs) => |vs| < MAX_I32 && AllHoldable(vs)
    case VRecord(vs) => AllHoldable(vs)
    case VTuple(vs) => AllHoldable(vs)
    case VVariant(_, p) => p.Some? ==> Holdable(p.value)
    case VOption(p) => p.Some? ==> Holdable(p.value)
    case VResult(_, p) => p.Some? ==> Holdable(p.value)
    case _ => true
  }

  ghost predicate AllHoldable(vs: seq<Value>)
    decreases vs, 0
  {
    vs != [] ==> Holdable(vs[0]) && AllHoldable(vs[1..])
  }

  // ---------------------------------------------------------------------------
  // Null means none
  // ---------------------------------------------------------------------------

  lemma {:induction false} UnboxedFrom(m: Module, ty: Ty, r: nat, nv: Native, n: nat)
    requires Valid(m) && Declared(m, ty, r) && Shaped(m, ty, r, nv)
    requires ResolveFrom(m, ty, n).Some?
    requires var u := ResolveFrom(m, ty, n).value; !u.Opt?
    ensures !nv.NNull?
    decreases n
  {
    if ty.Named? {
      UnboxedFrom(m, m.types[ty.name], m.rank[ty.name], nv, n - 1);
    }
  }

  /** An option payload that is not boxed is never null itself, so null always means none. */
  lemma UnboxedIsNotNull(m: Module, ty: Ty, r: nat, nv: Native)
    requires Valid(m) && Placed(m, ty, r) && Shaped(m, ty, r, nv) && !Boxed(m, ty)
    ensures !nv.NNull?
  {
    UnboxedFrom(m, ty, r, nv, ALIAS_LIMIT);
  }

  /** Booleans, numbers and enums are no references: they cannot be made nullable. */
  predicate NoReference(nv: Native) {
    nv.NBool? || nv.NNum? || nv.NRaw?
  }

  lemma {:induction false} KindFrom(m: Module, ty: Ty, r: nat, nv: Native, n: nat)
    requires Valid(m) && Declared(m, ty, r) && Shaped(m, ty, r, nv) && ResolveFrom(m, ty, n).Some?
    ensures NoReference(nv) ==> IsValueKind(ResolveFrom(m, ty, n).value) || ResolveFrom(m, ty, n).value.Opt?
    decreases n
  {
    if ty.Named? {
      KindFrom(m, m.types[ty.name], m.rank[ty.name], nv, n - 1);
    }
  }

  lemma {:induction false} DefaultFrom(m: Module, ty: Ty, r: nat, n: nat)
    requires Valid(m) && Declared(m, ty, r) && ResolveFrom(m, ty, n).Some?
    ensures IsValueKind(ResolveFrom(m, ty, n).value) ==> NoReference(Default(m, ty, r))
    ensures ResolveFrom(m, ty, n).value.Opt? ==> Default(m, ty, r).NNull?
    decreases n
  {
    if ty.Named? {
      DefaultFrom(m, m.types[ty.name], m.rank[ty.name], n - 1);
    }
  }

  /** An option is boxed exactly if its payload may be null already, or be no reference. */
  lemma BoxExact(m: Module, ty: Ty, r: nat)
    requires Valid(m) && Placed(m, ty, r)
    ensures Boxed(m, ty) <==> exists nv :: Shaped(m, ty, r, nv) && (nv.NNull? || NoReference(nv))
  {
    hide ResolveFrom;
    hide Shaped;
    hide Default;
    hide IsValueKind;
    PlacedResolves(m, ty, r);
    if Boxed(m, ty) {
      DefaultShaped(m, ty, r);
      DefaultFrom(m, ty, r, ALIAS_LIMIT);
      assert Shaped(m, ty, r, Default(m, ty, r));
    } else {
      forall nv | Shaped(m, ty, r, nv) ensures !nv.NNull? && !NoReference(nv) {
        UnboxedIsNotNull(m, ty, r, nv);
        KindFrom(m, ty, r, nv, ALIAS_LIMIT);
      }
    }
  }

  // ---------------------------------------------------------------------------
  // Leaves
  // ---------------------------------------------------------------------------

  lemma {:induction false} TextLengths(cps: seq<int>)
    requires Scalars(cps)
    ensures |Utf16Encode(cps)| <= |Utf8Encode(cps)| <= 3 * |Utf16Encode(cps)|
  {
    if cps != [] {
      TextLengths(cps[1..]);
    }
  }

  lemma StringLengths(s: seq<unit16>, bs: seq<byte>)
    requires Utf16ToUtf8(s) == Some(bs)
    ensures |s| <= |bs| <= 3 * |s| && IsUtf8(bs)
  {
    var cps := Utf16Decode(s).value;
    Utf16DecodeExact(s, cps);
    TextLengths(cps);
  }

  lemma StringFaithful(bs: seq<byte>)
    requires IsUtf8(bs)
    ensures Utf8ToUtf16(bs).Some? && |Utf8ToUtf16(bs).value| <= |bs|
    ensures Utf16ToUtf8(Utf8ToUtf16(bs).value) == Some(bs)
  {
    Utf8DecodeIsUtf8(bs);
    var s := Utf8ToUtf16(bs).value;
    ConversionInverse(s, bs);
    StringLengths(s, bs);
  }

  lemma {:induction false} BitsToIntBound(bits: seq<bool>)
    ensures BitsToInt(bits) < Pow2(|bits|)
  {
    if bits != [] {
      BitsToIntBound(bits[1..]);
    }
  }

  lemma {:induction false} BitsOfBitsToInt(bits: seq<bool>)
    ensures BitsOf(BitsToInt(bits), |bits|) == bits
  {
    if bits != [] {
      BitsOfBitsToInt(bits[1..]);
    }
  }

  lemma FlagsFaithful(bits: seq<bool>)
    requires |bits| <= 64
    ensures BitsToInt(bits) < Pow2(64)
    ensures |bits| < 64 ==> BitsToInt(bits) / Pow2(|bits|) == 0
    ensures BitsOf(BitsToInt(bits), |bits|) == bits
  {
    BitsToIntBound(bits);
    BitsOfBitsToInt(bits);
    Pow2Monotone(|bits|, 64);
    SmallQuotient(BitsToInt(bits), Pow2(|bits|));
  }

  lemma PrimFaithful(p: Type, v: Value)
    requires IsPrim(p) && HasType(v, p) && Holdable(v)
    ensures PrimShaped(p, PrimFromValue(p, v)) && PrimToValue(p, PrimFromValue(p, v)) == Some(v)
  {
    Pow2Sizes();
    if p.TString? {
      StringFaithful(v.utf8);
    }
  }

  // ---------------------------------------------------------------------------
  // Defaults are legal objects
  // ---------------------------------------------------------------------------

  lemma PrimDefaultShaped(p: Type)
    requires IsPrim(p)
    ensures PrimShaped(p, PrimDefault(p))
  {
    if p.TSInt? {
      Pow2Sizes();
    }
  }

  lemma {:induction false} DefaultShaped(m: Module, ty: Ty, r: nat)
    requires Valid(m) && Declared(m, ty, r)
    ensures Shaped(m, ty, r, Default(m, ty, r))
    decreases r, ty, 0
  {
    match ty
    case Prim(p) => PrimDefaultShaped(p);
    case Tuple(ts) => DefaultsShaped(m, ts, r);
    case Record(ts) => DefaultsShaped(m, ts, r);
    case Res(o, e) =>
      SideDefaultShaped(m, o, r);
      SideDefaultShaped(m, e, r);
    case Named(x) => DefaultShaped(m, m.types[x], m.rank[x]);
    case Variant(cs) => CaseDefaultsShaped(m, cs, r);
    case _ =>
  }

  lemma {:induction false} SideDefaultShaped(m: Module, side: Option<Ty>, r: nat)
    requires Valid(m) && SidePlaced(m, side, r)
    ensures SideShaped(m, side, r, SideDefault(m, side, r))
    ensures CaseShaped(m, side, r, CaseDefault(m, side, r))
    decreases r, side, 0
  {
    if side.Some? {
      DefaultShaped(m, side.value, r);
    }
  }

  lemma {:induction false} DefaultsShaped(m: Module, ts: seq<Ty>, r: nat)
    requires Valid(m) && AllPlaced(m, ts, r)
    ensures FieldsShaped(m, ts, r, Defaults(m, ts, r))
    decreases r, ts, 0
  {
    if ts != [] {
      DefaultShaped(m, ts[0], r);
      DefaultsShaped(m, ts[1..], r);
      assert Defaults(m, ts, r)[1..] == Defaults(m, ts[1..], r);
    }
  }

  lemma {:induction false} CaseDefaultsShaped(m: Module, cs: seq<Option<Ty>>, r: nat)
    requires Valid(m) && AllSidesPlaced(m, cs, r)
    ensures CasesShaped(m, cs, r, CaseDefaults(m, cs, r))
    decreases r, cs, 0
  {
    if cs != [] {
      SideDefaultShaped(m, cs[0], r);
      CaseDefaultsShaped(m, cs[1..], r);
      assert CaseDefaults(m, cs, r)[1..] == CaseDefaults(m, cs[1..], r);
    }
  }

  /** Nothing is set, nothing is in it, and the first case is selected. */
  ghost predicate IsZero(nv: Native)
    decreases nv
  {
    match nv
    case NBool(b) => !b
    case NNum(n) => n == 0
    case NRaw(raw) => forall i :: 0 <= i < |raw| ==> raw[i] == 0
    case NStr(units) => units == []
    case NNull => true
    case NBox(_) => false
    case NArr(items) => items == []
    case NObj(fields) => forall i :: 0 <= i < |fields| ==> IsZero(fields[i])
    case NRes(isErr, o, e) => !isErr && (o.Some? ==> IsZero(o.value)) && (e.Some? ==> IsZero(e.value))
    case NVar(tag, cases) => tag == 0 && forall i :: 0 <= i < |cases| && cases[i].Some? ==> IsZero(cases[i].value)
    case NBits(bits) => bits == 0
  }

  /** Every default is a zero all the way down. */
  lemma {:induction false} DefaultIsZero(m: Module, ty: Ty, r: nat)
    requires Valid(m) && Declared(m, ty, r)
    ensures IsZero(Default(m, ty, r))
    decreases r, ty, 0
  {
    match ty
    case Tuple(ts) => DefaultsAreZero(m, ts, r);
    case Record(ts) => DefaultsAreZero(m, ts, r);
    case Res(o, e) =>
      SideDefaultIsZero(m, o, r);
      SideDefaultIsZero(m, e, r);
    case Named(x) => DefaultIsZero(m, m.types[x], m.rank[x]);
    case Variant(cs) => CaseDefaultsAreZero(m, cs, r);
    case _ =>
  }

  lemma ZeroCase(c: Option<Native>, rest: seq<Option<Native>>)
    requires (c.Some? ==> IsZero(c.value)) && IsZero(NVar(0, rest))
    ensures IsZero(NVar(0, [c] + rest))
  {
    var cases := [c] + rest;
    forall i | 0 <= i < |cases| && cases[i].Some? ensures IsZero(cases[i].value) {
      assert i > 0 ==> cases[i] == rest[i - 1];
    }
  }

  lemma {:induction false} SideDefaultIsZero(m: Module, side: Option<Ty>, r: nat)
    requires Valid(m) && SidePlaced(m, side, r)
    ensures side.Some? ==> Declared(m, side.value, r) && IsZero(Default(m, side.value, r))
    decreases r, side, 0
  {
    if side.Some? {
      DefaultIsZero(m, side.value, r);
    }
  }

  lemma {:induction false} DefaultsAreZero(m: Module, ts: seq<Ty>, r: nat)
    requires Valid(m) && AllPlaced(m, ts, r)
    ensures forall i :: 0 <= i < |ts| ==> IsZero(Defaults(m, ts, r)[i])
    decreases r, ts, 0
  {
    hide IsZero;
    if ts != [] {
      DefaultIsZero(m, ts[0], r);
      DefaultsAreZero(m, ts[1..], r);
    }
  }

  lemma NullIsZero()
    ensures IsZero(NNull)
  {
  }

  lemma {:induction false} CaseDefaultsAreZero(m: Module, cs: seq<Option<Ty>>, r: nat)
    requires Valid(m) && AllSidesPlaced(m, cs, r)
    ensures IsZero(NVar(0, CaseDefaults(m, cs, r)))
    decreases r, cs, 0
  {
    if cs != [] {
      hide IsZero;
      SideDefaultIsZero(m, cs[0], r);
      CaseDefaultsAreZero(m, cs[1..], r);
      NullIsZero();
      ZeroCase(CaseDefault(m, cs[0], r), CaseDefaults(m, cs[1..], r));
    }
  }

  // ---------------------------------------------------------------------------
  // Faithfulness
  // ---------------------------------------------------------------------------

  ghost predicate Faithful(m: Module, ty: Ty, r: nat, v: Value)
    requires Valid(m) && Declared(m, ty, r) && HasType(v, TypeOf(m, ty, r))
  {
    var nv := FromValue(m, ty, r, v);
    Shaped(m, ty, r, nv) && ToValue(m, ty, r, nv) == Some(v)
  }

  /** The object built for a value is legal and stands for exactly that value. */
  lemma {:induction false} NativeFaithful(m: Module, ty: Ty, r: nat, v: Value)
    requires Valid(m) && Declared(m, ty, r) && HasType(v, TypeOf(m, ty, r)) && Holdable(v)
    ensures Faithful(m, ty, r, v)
    decreases r, ty, 0
  {
    hide Pow2;
    match ty
    case Prim(p) => PrimFaithful(p, v);
    case List(t) => ItemsFaithful(m, t, r, v.items);
    case Opt(_) => OptionFaithful(m, ty, r, v);
    case Tuple(ts) => FieldsFaithful(m, ts, r, v.vals);
    case Record(ts) => FieldsFaithful(m, ts, r, v.vals);
    case Res(_, _) => ResultFaithful(m, ty, r, v);
    case Named(x) => NativeFaithful(m, m.types[x], m.rank[x], v);
    case Variant(cs) => VariantFaithful(m, cs, r, v);
    case Enum(_) =>
    case Flags(_) => FlagsFaithful(v.bits);
  }

  lemma {:induction false} OptionFaithful(m: Module, ty: Ty, r: nat, v: Value)
    requires ty.Opt? && Valid(m) && Declared(m, ty, r) && HasType(v, TypeOf(m, ty, r)) && Holdable(v)
    ensures Faithful(m, ty, r, v)
    decreases r, ty, -1
  {
    if v.payload.Some? {
      NativeFaithful(m, ty.t, r, v.payload.value);
      if !Boxed(m, ty.t) {
        UnboxedIsNotNull(m, ty.t, r, FromValue(m, ty.t, r, v.payload.value));
      }
    }
  }

  lemma {:induction false} ResultFaithful(m: Module, ty: Ty, r: nat, v: Value)
    requires ty.Res? && Valid(m) && Declared(m, ty, r) && HasType(v, TypeOf(m, ty, r)) && Holdable(v)
    ensures Faithful(m, ty, r, v)
    decreases r, ty, -1
  {
    if v.isErr {
      SideFaithful(m, ty.err, r, v.payload);
      SideDefaultShaped(m, ty.ok, r);
    } else {
      SideFaithful(m, ty.ok, r, v.payload);
      SideDefaultShaped(m, ty.err, r);
    }
  }

  lemma {:induction false} SideFaithful(m: Module, side: Option<Ty>, r: nat, p: Option<Value>)
    requires Valid(m) && SidePlaced(m, side, r) && SideHasType(p, SideType(m, side, r))
    requires p.Some? ==> Holdable(p.value)
    ensures var nv := SideFromValue(m, side, r, p);
            SideShaped(m, side, r, nv) && SideToValue(m, side, r, nv) == Some(p)
    decreases r, side, 0
  {
    if side.Some? {
      NativeFaithful(m, side.value, r, p.value);
    }
  }

  lemma {:induction false} FieldsFaithful(m: Module, ts: seq<Ty>, r: nat, vs: seq<Value>)
    requires Valid(m) && AllPlaced(m, ts, r) && HaveTypes(vs, TypesOf(m, ts, r)) && AllHoldable(vs)
    ensures var nvs := FieldsFromValues(m, ts, r, vs);
            FieldsShaped(m, ts, r, nvs) && FieldsToValues(m, ts, r, nvs) == Some(vs)
    decreases r, ts, 0
  {
    if ts != [] {
      assert TypesOf(m, ts, r)[1..] == TypesOf(m, ts[1..], r);
      NativeFaithful(m, ts[0], r, vs[0]);
      FieldsFaithful(m, ts[1..], r, vs[1..]);
      assert FieldsFromValues(m, ts, r, vs)[1..] == FieldsFromValues(m, ts[1..], r, vs[1..]);
      assert [vs[0]] + vs[1..] == vs;
    }
  }

  lemma {:induction false} ItemsFaithful(m: Module, ty: Ty, r: nat, vs: seq<Value>)
    requires Valid(m) && Declared(m, ty, r) && AllHaveType(vs, TypeOf(m, ty, r)) && AllHoldable(vs)
    ensures var nvs := ItemsFromValues(m, ty, r, vs);
            ItemsShaped(m, ty, r, nvs) && ItemsToValues(m, ty, r, nvs) == Some(vs)
    decreases r, ty, |vs| + 1
  {
    if vs != [] {
      NativeFaithful(m, ty, r, vs[0]);
      ItemsFaithful(m, ty, r, vs[1..]);
      assert ItemsFromValues(m, ty, r, vs)[1..] == ItemsFromValues(m, ty, r, vs[1..]);
      assert [vs[0]] + vs[1..] == vs;
    }
  }

  lemma {:induction false} CasesShapedUpdate(m: Module, cs: seq<Option<Ty>>, r: nat, nvs: seq<Option<Native>>, i: nat,
                                             nv: Option<Native>)
    requires Valid(m) && AllSidesPlaced(m, cs, r) && CasesShaped(m, cs, r, nvs) && i < |cs|
    requires SidePlaced(m, cs[i], r) && CaseShaped(m, cs[i], r, nv)
    ensures CasesShaped(m, cs, r, nvs[i := nv])
    decreases cs
  {
    if i > 0 {
      CasesShapedUpdate(m, cs[1..], r, nvs[1..], i - 1, nv);
      assert nvs[i := nv][1..] == nvs[1..][i - 1 := nv];
    } else {
      assert nvs[0 := nv][1..] == nvs[1..];
    }
  }

  lemma {:induction false} VariantFaithful(m: Module, cs: seq<Option<Ty>>, r: nat, v: Value)
    requires Valid(m) && Declared(m, Variant(cs), r) && HasType(v, TypeOf(m, Variant(cs), r)) && Holdable(v)
    ensures Faithful(m, Variant(cs), r, v)
    decreases r, Variant(cs), -1
  {
    var c := v.tag;
    SideTypesAt(m, cs, r, c);
    SideFaithful(m, cs[c], r, v.payload);
    if cs[c].Some? && !Boxed(m, cs[c].value) {
      UnboxedIsNotNull(m, cs[c].value, r, FromValue(m, cs[c].value, r, v.payload.value));
    }
    CaseDefaultsShaped(m, cs, r);
    CasesShapedUpdate(m, cs, r, CaseDefaults(m, cs, r), c, SideFromValue(m, cs[c], r, v.payload));
  }

  /** No two wire values share an object. */
  lemma NativeInjective(m: Module, ty: Ty, r: nat, v: Value, w: Value)
    requires Valid(m) && Declared(m, ty, r)
    requires HasType(v, TypeOf(m, ty, r)) && HasType(w, TypeOf(m, ty, r)) && Holdable(v) && Holdable(w)
    requires FromValue(m, ty, r, v) == FromValue(m, ty, r, w)
    ensures v == w
  {
    hide FromValue;
    hide Shaped;
    hide ToValue;
    hide Holdable;
    hide HasType;
    hide TypeOf;
    NativeFaithful(m, ty, r, v);
    NativeFaithful(m, ty, r, w);
  }

  // ---------------------------------------------------------------------------
  // Objects a program may build
  // ---------------------------------------------------------------------------

  lemma PrimLoose(p: Type, nv: Native, v: Value)
    requires IsPrim(p) && PrimShaped(p, nv) && PrimToValue(p, nv) == Some(v)
    ensures Loose(v, p) && TextsAreUtf8(v)
  {
    Pow2Sizes();
    if p.TString? {
      StringLengths(nv.units, v.utf8);
      Utf8DecodeIsUtf8(v.utf8);
    }
  }

  /**
   The value of a legal object has the wire type up to its chars: a char is a plain u32 of
   the target language and is not checked on the way out.
   */
  lemma {:induction false} ToValueLoose(m: Module, ty: Ty, r: nat, nv: Native, v: Value)
    requires Valid(m) && Declared(m, ty, r) && Shaped(m, ty, r, nv) && ToValue(m, ty, r, nv) == Some(v)
    ensures Loose(v, TypeOf(m, ty, r)) && TextsAreUtf8(v)
    decreases r, ty, 0
  {
    hide Pow2;
    match ty
    case Prim(p) => PrimLoose(p, nv, v);
    case Named(x) => ToValueLoose(m, m.types[x], m.rank[x], nv, v);
    case Tuple(ts) => FieldsLoose(m, ts, r, nv.fields, v.vals);
    case Record(ts) => FieldsLoose(m, ts, r, nv.fields, v.vals);
    case List(_) => NestedLoose(m, ty, r, nv, v);
    case Opt(_) => NestedLoose(m, ty, r, nv, v);
    case Res(_, _) => SumLoose(m, ty, r, nv, v);
    case Variant(_) => SumLoose(m, ty, r, nv, v);
    case Enum(_) => Pow2Sizes();
    case Flags(_) =>
  }

  lemma {:induction false} NestedLoose(m: Module, ty: Ty, r: nat, nv: Native, v: Value)
    requires ty.List? || ty.Opt?
    requires Valid(m) && Declared(m, ty, r) && Shaped(m, ty, r, nv) && ToValue(m, ty, r, nv) == Some(v)
    ensures Loose(v, TypeOf(m, ty, r)) && TextsAreUtf8(v)
    decreases r, ty, -1
  {
    hide Pow2;
    if ty.List? {
      Pow2Sizes();
      ItemsLoose(m, ty.t, r, nv.items, v.items);
    } else if !nv.NNull? {
      ToValueLoose(m, ty.t, r, if Boxed(m, ty.t) then nv.value else nv, v.payload.value);
    }
  }

  lemma {:induction false} SumLoose(m: Module, ty: Ty, r: nat, nv: Native, v: Value)
    requires ty.Res? || ty.Variant?
    requires Valid(m) && Declared(m, ty, r) && Shaped(m, ty, r, nv) && ToValue(m, ty, r, nv) == Some(v)
    ensures Loose(v, TypeOf(m, ty, r)) && TextsAreUtf8(v)
    decreases r, ty, -1
  {
    hide Pow2;
    if ty.Res? {
      if nv.isErr {
        SideOfLoose(m, ty.err, r, nv.errSide, v.payload);
      } else {
        SideOfLoose(m, ty.ok, r, nv.okSide, v.payload);
      }
    } else {
      Pow2Sizes();
      CasesShapedAt(m, ty.cs, r, nv.cases, nv.tag);
      SideTypesAt(m, ty.cs, r, nv.tag);
      CaseLoose(m, ty.cs[nv.tag], r, nv.cases[nv.tag], v.payload);
    }
  }

  ghost predicate PayloadText(p: Option<Value>) {
    p.Some? ==> TextsAreUtf8(p.value)
  }

  lemma {:induction false} SideOfLoose(m: Module, side: Option<Ty>, r: nat, nv: Option<Native>, p: Option<Value>)
    requires Valid(m) && SidePlaced(m, side, r) && SideShaped(m, side, r, nv)
    requires SideToValue(m, side, r, nv) == Some(p)
    ensures SideLoose(p, SideType(m, side, r)) && PayloadText(p)
    decreases r, side, 0
  {
    if side.Some? {
      ToValueLoose(m, side.value, r, nv.value, p.value);
    }
  }

  lemma {:induction false} CaseLoose(m: Module, side: Option<Ty>, r: nat, nv: Option<Native>, p: Option<Value>)
    requires Valid(m) && SidePlaced(m, side, r) && CaseShaped(m, side, r, nv)
    requires CaseToValue(m, side, r, nv) == Some(p)
    ensures SideLoose(p, SideType(m, side, r)) && PayloadText(p)
    decreases r, side, 0
  {
    if side.Some? {
      ToValueLoose(m, side.value, r, nv.value, p.value);
    }
  }

  lemma {:induction false} FieldsLoose(m: Module, ts: seq<Ty>, r: nat, nvs: seq<Native>, vs: seq<Value>)
    requires Valid(m) && AllPlaced(m, ts, r) && FieldsShaped(m, ts, r, nvs)
    requires FieldsToValues(m, ts, r, nvs) == Some(vs)
    ensures EachLoose(vs, TypesOf(m, ts, r)) && AllTextsAreUtf8(vs)
    decreases r, ts, 0
  {
    if ts != [] {
      ToValueLoose(m, ts[0], r, nvs[0], vs[0]);
      FieldsLoose(m, ts[1..], r, nvs[1..], vs[1..]);
      assert TypesOf(m, ts, r)[1..] == TypesOf(m, ts[1..], r);
    }
  }

  lemma {:induction false} ItemsLoose(m: Module, ty: Ty, r: nat, nvs: seq<Native>, vs: seq<Value>)
    requires Valid(m) && Declared(m, ty, r) && ItemsShaped(m, ty, r, nvs)
    requires ItemsToValues(m, ty, r, nvs) == Some(vs)
    ensures |vs| == |nvs|
    ensures AllLoose(vs, TypeOf(m, ty, r)) && AllTextsAreUtf8(vs)
    decreases r, ty, |nvs| + 1
  {
    if nvs != [] {
      ToValueLoose(m, ty, r, nvs[0], vs[0]);
      ItemsLoose(m, ty, r, nvs[1..], vs[1..]);
    }
  }

  /** The value of a legal object has the wire type exactly when its chars are scalar values. */
  lemma ToValueTyped(m: Module, ty: Ty, r: nat, nv: Native, v: Value)
    requires Valid(m) && Declared(m, ty, r) && Shaped(m, ty, r, nv) && ToValue(m, ty, r, nv) == Some(v)
    ensures HasType(v, TypeOf(m, ty, r)) <==> CharsAreScalars(v)
  {
    hide ToValue;
    hide Shaped;
    ToValueLoose(m, ty, r, nv, v);
    LooseTyped(v, TypeOf(m, ty, r));
  }
}
