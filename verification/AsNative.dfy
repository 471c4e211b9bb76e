/**
 The AssemblyScript representation of WIT values, as trees: what the generated
 classes can hold, which wire value an object stands for, and back.
 */
module AsNative {
  import opened Bytes
  import opened Leb128
  import opened Unicode
  import opened Wire
  import opened Ir

  /**
   Numbers, chars and enum members are `NNum`; strings are UTF-16; `NBox` is a
   shared option box; `NVar` is a variant object, which has a field for every case
   that carries a payload.
   */
  datatype Native =
    | NBool(b: bool)
    | NNum(n: int)
    | NRaw(raw: seq<byte>)
    | NStr(units: seq<unit16>)
    | NNull
    | NBox(value: Native)
    | NArr(items: seq<Native>)
    | NObj(fields: seq<Native>)
    | NRes(isErr: bool, okSide: Option<Native>, errSide: Option<Native>)
    | NVar(tag: int, cases: seq<Option<Native>>)
    | NBits(bits: int)

  const MAX_I32: int := 0x8000_0000
  const MAX_UNITS: int := 0x2000_0000

  // ---------------------------------------------------------------------------
  // Static types of the target language
  // ---------------------------------------------------------------------------

  ghost predicate Shaped(m: Module, ty: Ty, r: nat, nv: Native)
    requires Valid(m) && Declared(m, ty, r)
    decreases r, ty, 0
  {
    match ty
    case Prim(p) => PrimShaped(p, nv)
    case List(t) => nv.NArr? && |nv.items| < MAX_I32 && ItemsShaped(m, t, r, nv.items)
    case Opt(t) =>
      nv.NNull? || (if Boxed(m, t) then nv.NBox? && Shaped(m, t, r, nv.value) else Shaped(m, t, r, nv))
    case Tuple(ts) => nv.NObj? && FieldsShaped(m, ts, r, nv.fields)
    case Res(o, e) =>
      nv.NRes? && SideShaped(m, o, r, nv.okSide) && SideShaped(m, e, r, nv.errSide)
    case Named(x) => Shaped(m, m.types[x], m.rank[x], nv)
    case Record(ts) => nv.NObj? && FieldsShaped(m, ts, r, nv.fields)
    case Variant(cs) => nv.NVar? && -MAX_I32 <= nv.tag < MAX_I32 && CasesShaped(m, cs, r, nv.cases)
    case Enum(_) => nv.NNum? && -MAX_I32 <= nv.n < MAX_I32
    case Flags(_) => nv.NBits? && 0 <= nv.bits < Pow2(64)
  }

  ghost predicate PrimShaped(p: Type, nv: Native) {
    match p
    case TBool => nv.NBool?
    case TUInt(w) => nv.NNum? && 0 <= nv.n < Pow2(Bits(w))
    case TSInt(w) => nv.NNum? && FitsSigned(Bits(w), nv.n)
    case TFloat(d) => nv.NRaw? && |nv.raw| == FloatSize(d)
    case TChar => nv.NNum? && 0 <= nv.n < Pow2(32)
    case TString => nv.NStr? && |nv.units| < MAX_UNITS
    case _ => false
  }

  ghost predicate SideShaped(m: Module, side: Option<Ty>, r: nat, nv: Option<Native>)
    requires Valid(m) && SidePlaced(m, side, r)
    decreases r, side, 0
  {
    match side
    case None => nv.None?
    case Some(t) => nv.Some? && Shaped(m, t, r, nv.value)
  }

  ghost predicate FieldsShaped(m: Module, ts: seq<Ty>, r: nat, nvs: seq<Native>)
    requires Valid(m) && AllPlaced(m, ts, r)
    decreases r, ts, 0
  {
    && |nvs| == |ts|
    && (ts != [] ==> Shaped(m, ts[0], r, nvs[0]) && FieldsShaped(m, ts[1..], r, nvs[1..]))
  }

  ghost predicate ItemsShaped(m: Module, ty: Ty, r: nat, nvs: seq<Native>)
    requires Valid(m) && Declared(m, ty, r)
    decreases r, ty, |nvs| + 1
  {
    nvs != [] ==> Shaped(m, ty, r, nvs[0]) && ItemsShaped(m, ty, r, nvs[1..])
  }

  /** A payload of reference type is stored nullable, so that unselected cases need no object. */
  ghost predicate CaseShaped(m: Module, side: Option<Ty>, r: nat, nv: Option<Native>)
    requires Valid(m) && SidePlaced(m, side, r)
    decreases r, side, 0
  {
    match side
    case None => nv.None?
    case Some(t) => nv.Some? && ((nv.value.NNull? && !Boxed(m, t)) || Shaped(m, t, r, nv.value))
  }

  ghost predicate CasesShaped(m: Module, cs: seq<Option<Ty>>, r: nat, nvs: seq<Option<Native>>)
    requires Valid(m) && AllSidesPlaced(m, cs, r)
    decreases r, cs, 0
  {
    && |nvs| == |cs|
    && (cs != [] ==> CaseShaped(m, cs[0], r, nvs[0]) && CasesShaped(m, cs[1..], r, nvs[1..]))
  }

  // ---------------------------------------------------------------------------
  // The wire value an object stands for, if any
  // ---------------------------------------------------------------------------

  ghost function ToValue(m: Module, ty: Ty, r: nat, nv: Native): Option<Value>
    requires Valid(m) && Declared(m, ty, r) && Shaped(m, ty, r, nv)
    decreases r, ty, 0
  {
    match ty
    case Prim(p) => PrimToValue(p, nv)
    case List(t) => (match ItemsToValues(m, t, r, nv.items) case None => None case Some(vs) => Some(VList(vs)))
    case Opt(t) =>
      if nv.NNull? then Some(VOption(None))
      else (match ToValue(m, t, r, if Boxed(m, t) then nv.value else nv)
            case None => None
            case Some(v) => Some(VOption(Some(v))))
    case Tuple(ts) => (match FieldsToValues(m, ts, r, nv.fields) case None => None case Some(vs) => Some(VTuple(vs)))
    case Res(o, e) =>
      (match SideToValue(m, if nv.isErr then e else o, r, if nv.isErr then nv.errSide else nv.okSide)
       case None => None
       case Some(p) => Some(VResult(nv.isErr, p)))
    case Named(x) => ToValue(m, m.types[x], m.rank[x], nv)
    case Record(ts) => (match FieldsToValues(m, ts, r, nv.fields) case None => None case Some(vs) => Some(VRecord(vs)))
    case Variant(cs) =>
      if nv.tag < 0 || nv.tag >= |cs| then None
      else
        CasesShapedAt(m, cs, r, nv.cases, nv.tag);
        (match CaseToValue(m, cs[nv.tag], r, nv.cases[nv.tag])
         case None => None
         case Some(p) => Some(VVariant(nv.tag, p)))
    case Enum(n) => if nv.n % 0x1_0000_0000 >= n then None else Some(VEnum(nv.n % 0x1_0000_0000))
    case Flags(n) => if n < 64 && nv.bits / Pow2(n) != 0 then None else Some(VFlags(BitsOf(nv.bits, n)))
  }

  ghost function PrimToValue(p: Type, nv: Native): Option<Value>
    requires PrimShaped(p, nv)
  {
    match p
    case TBool => Some(VBool(nv.b))
    case TUInt(w) => Some(VUInt(w, nv.n))
    case TSInt(w) => Some(VSInt(w, nv.n))
    case TFloat(d) => Some(VFloat(d, nv.raw))
    case TChar => Some(VChar(nv.n))
    case TString => (match Utf16ToUtf8(nv.units) case None => None case Some(bs) => Some(VString(bs)))
  }

  ghost function SideToValue(m: Module, side: Option<Ty>, r: nat, nv: Option<Native>): Option<Option<Value>>
    requires Valid(m) && SidePlaced(m, side, r) && SideShaped(m, side, r, nv)
    decreases r, side, 0
  {
    match side
    case None => Some(None)
    case Some(t) => match ToValue(m, t, r, nv.value) case None => None case Some(v) => Some(Some(v))
  }

  ghost function CaseToValue(m: Module, side: Option<Ty>, r: nat, nv: Option<Native>): Option<Option<Value>>
    requires Valid(m) && SidePlaced(m, side, r) && CaseShaped(m, side, r, nv)
    decreases r, side, 0
  {
    match side
    case None => Some(None)
    case Some(t) =>
      if nv.value.NNull? && !Boxed(m, t) then None
      else match ToValue(m, t, r, nv.value) case None => None case Some(v) => Some(Some(v))
  }

  ghost function FieldsToValues(m: Module, ts: seq<Ty>, r: nat, nvs: seq<Native>): Option<seq<Value>>
    requires Valid(m) && AllPlaced(m, ts, r) && FieldsShaped(m, ts, r, nvs)
    decreases r, ts, 0
  {
    if ts == [] then Some([])
    else
      match (ToValue(m, ts[0], r, nvs[0]), FieldsToValues(m, ts[1..], r, nvs[1..]))
      case (Some(v), Some(vs)) => Some([v] + vs)
      case _ => None
  }

  ghost function ItemsToValues(m: Module, ty: Ty, r: nat, nvs: seq<Native>): Option<seq<Value>>
    requires Valid(m) && Declared(m, ty, r) && ItemsShaped(m, ty, r, nvs)
    decreases r, ty, |nvs| + 1
  {
    if nvs == [] then Some([])
    else
      match (ToValue(m, ty, r, nvs[0]), ItemsToValues(m, ty, r, nvs[1..]))
      case (Some(v), Some(vs)) => Some([v] + vs)
      case _ => None
  }

  lemma {:induction false} CasesShapedAt(m: Module, cs: seq<Option<Ty>>, r: nat, nvs: seq<Option<Native>>, i: nat)
    requires Valid(m) && AllSidesPlaced(m, cs, r) && CasesShaped(m, cs, r, nvs) && i < |cs|
    ensures SidePlaced(m, cs[i], r) && CaseShaped(m, cs[i], r, nvs[i])
  {
    if i > 0 {
      CasesShapedAt(m, cs[1..], r, nvs[1..], i - 1);
    }
  }

  // ---------------------------------------------------------------------------
  // Default objects (`new C()`, `0`, `null`, ...)
  // ---------------------------------------------------------------------------

  ghost function Default(m: Module, ty: Ty, r: nat): Native
    requires Valid(m) && Declared(m, ty, r)
    decreases r, ty, 0
  {
    match ty
    case Prim(p) => PrimDefault(p)
    case List(_) => NArr([])
    case Opt(_) => NNull
    case Tuple(ts) => NObj(Defaults(m, ts, r))
    case Res(o, e) => NRes(false, SideDefault(m, o, r), SideDefault(m, e, r))
    case Named(x) => Default(m, m.types[x], m.rank[x])
    case Record(ts) => NObj(Defaults(m, ts, r))
    case Variant(cs) => NVar(0, CaseDefaults(m, cs, r))
    case Enum(_) => NNum(0)
    case Flags(_) => NBits(0)
  }

  function PrimDefault(p: Type): Native {
    match p
    case TBool => NBool(false)
    case TFloat(d) => NRaw(if d then [0, 0, 0, 0, 0, 0, 0, 0] else [0, 0, 0, 0])
    case TString => NStr([])
    case _ => NNum(0)
  }

  ghost function SideDefault(m: Module, side: Option<Ty>, r: nat): Option<Native>
    requires Valid(m) && SidePlaced(m, side, r)
    decreases r, side, 0
  {
    match side case None => None case Some(t) => Some(Default(m, t, r))
  }

  ghost function Defaults(m: Module, ts: seq<Ty>, r: nat): (nvs: seq<Native>)
    requires Valid(m) && AllPlaced(m, ts, r)
    ensures |nvs| == |ts|
    decreases r, ts, 0
  {
    if ts == [] then [] else [Default(m, ts[0], r)] + Defaults(m, ts[1..], r)
  }

  ghost function CaseDefault(m: Module, side: Option<Ty>, r: nat): Option<Native>
    requires Valid(m) && SidePlaced(m, side, r)
    decreases r, side, 0
  {
    match side
    case None => None
    case Some(t) => Some(if Boxed(m, t) then Default(m, t, r) else NNull)
  }

  ghost function CaseDefaults(m: Module, cs: seq<Option<Ty>>, r: nat): (nvs: seq<Option<Native>>)
    requires Valid(m) && AllSidesPlaced(m, cs, r)
    ensures |nvs| == |cs|
    decreases r, cs, 0
  {
    if cs == [] then [] else [CaseDefault(m, cs[0], r)] + CaseDefaults(m, cs[1..], r)
  }

  // ---------------------------------------------------------------------------
  // The object the generated decoders build for a wire value
  // ---------------------------------------------------------------------------

  ghost function FromValue(m: Module, ty: Ty, r: nat, v: Value): Native
    requires Valid(m) && Declared(m, ty, r) && HasType(v, TypeOf(m, ty, r))
    decreases r, ty, 0
  {
    match ty
    case Prim(p) => PrimFromValue(p, v)
    case List(t) => NArr(ItemsFromValues(m, t, r, v.items))
    case Opt(t) =>
      if v.payload.None? then NNull
      else
        var x := FromValue(m, t, r, v.payload.value);
        if Boxed(m, t) then NBox(x) else x
    case Tuple(ts) => NObj(FieldsFromValues(m, ts, r, v.vals))
    case Res(o, e) =>
      if v.isErr then NRes(true, SideDefault(m, o, r), SideFromValue(m, e, r, v.payload))
      else NRes(false, SideFromValue(m, o, r, v.payload), SideDefault(m, e, r))
    case Named(x) => FromValue(m, m.types[x], m.rank[x], v)
    case Record(ts) => NObj(FieldsFromValues(m, ts, r, v.vals))
    case Variant(cs) =>
      SideTypesAt(m, cs, r, v.tag);
      NVar(v.tag, CaseDefaults(m, cs, r)[v.tag := SideFromValue(m, cs[v.tag], r, v.payload)])
    case Enum(_) => NNum(v.tag)
    case Flags(_) => NBits(BitsToInt(v.bits))
  }

  function BitsToInt(bits: seq<bool>): nat {
    if bits == [] then 0 else (if bits[0] then 1 else 0) + 2 * BitsToInt(bits[1..])
  }

  ghost function PrimFromValue(p: Type, v: Value): Native
    requires IsPrim(p) && HasType(v, p)
  {
    match p
    case TBool => NBool(v.b)
    case TUInt(_) => NNum(v.u)
    case TSInt(_) => NNum(v.n)
    case TFloat(_) => NRaw(v.raw)
    case TChar => NNum(v.scalar)
    case TString => match Utf8ToUtf16(v.utf8) case Some(s) => NStr(s) case None => NStr([])
  }

  ghost function SideFromValue(m: Module, side: Option<Ty>, r: nat, p: Option<Value>): Option<Native>
    requires Valid(m) && SidePlaced(m, side, r) && SideHasType(p, SideType(m, side, r))
    decreases r, side, 0
  {
    match side case None => None case Some(t) => Some(FromValue(m, t, r, p.value))
  }

  ghost function FieldsFromValues(m: Module, ts: seq<Ty>, r: nat, vs: seq<Value>): (nvs: seq<Native>)
    requires Valid(m) && AllPlaced(m, ts, r) && HaveTypes(vs, TypesOf(m, ts, r))
    ensures |nvs| == |ts|
    decreases r, ts, 0
  {
    if ts == [] then []
    else
      assert TypesOf(m, ts, r)[1..] == TypesOf(m, ts[1..], r);
      [FromValue(m, ts[0], r, vs[0])] + FieldsFromValues(m, ts[1..], r, vs[1..])
  }

  ghost function ItemsFromValues(m: Module, ty: Ty, r: nat, vs: seq<Value>): (nvs: seq<Native>)
    requires Valid(m) && Declared(m, ty, r) && AllHaveType(vs, TypeOf(m, ty, r))
    ensures |nvs| == |vs|
    decreases r, ty, |vs| + 1
  {
    if vs == [] then [] else [FromValue(m, ty, r, vs[0])] + ItemsFromValues(m, ty, r, vs[1..])
  }
}
