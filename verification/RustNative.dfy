/**
 The Rust backend: native values of the generated types, and the conversions
 `lift` and `lower` between them and wire values. Both recurse through named types,
 whose ranks bound the recursion; lowering can fail, and only for flags with bits
 that were not declared.
 */
module RustNative {
  import opened Bytes
  import opened Leb128
  import opened Unicode
  import opened Wire
  import opened Ir
  import opened AsNative
  import opened AsNativeTheorems

  /** A side of a result or a case without a payload is the unit value, written `None`. */
  datatype Rust =
    | RBool(b: bool)
    | RInt(n: int)
    | RFloat(raw: seq<byte>)
    | RChar(scalar: nat)
    | RText(utf8: seq<byte>)
    | RVec(items: seq<Rust>)
    | ROption(payload: Option<Rust>)
    | RTuple(members: seq<Rust>)
    | RResult(isErr: bool, payload: Option<Rust>)
    | RStruct(members: seq<Rust>)
    | RCase(tag: nat, payload: Option<Rust>)
    | RUnitCase(tag: nat)
    | RBits(bits: nat)

  // ---------------------------------------------------------------------------
  // Values of the generated types
  // ---------------------------------------------------------------------------

  ghost predicate Shaped(m: Module, ty: Ty, r: nat, x: Rust)
    requires Valid(m) && Declared(m, ty, r)
    decreases r, ty, 0
  {
    match ty
    case Prim(p) => PrimShaped(p, x)
    case List(t) => x.RVec? && |x.items| < Pow2(32) && ItemsShaped(m, t, r, x.items)
    case Opt(t) => x.ROption? && (x.payload.Some? ==> Shaped(m, t, r, x.payload.value))
    case Tuple(ts) => x.RTuple? && MembersShaped(m, ts, r, x.members)
    case Res(o, e) => x.RResult? && SideShaped(m, if x.isErr then e else o, r, x.payload)
    case Named(n) => Shaped(m, m.types[n], m.rank[n], x)
    case Record(ts) => x.RStruct? && MembersShaped(m, ts, r, x.members)
    case Variant(cs) => x.RCase? && x.tag < |cs| && CaseShaped(m, cs, r, x.tag, x.payload)
    case Enum(n) => x.RUnitCase? && x.tag < n
    case Flags(_) => x.RBits? && x.bits < Pow2(64)
  }

  ghost predicate PrimShaped(p: Type, x: Rust) {
    match p
    case TBool => x.RBool?
    case TUInt(w) => x.RInt? && 0 <= x.n < Pow2(Bits(w))
    case TSInt(w) => x.RInt? && FitsSigned(Bits(w), x.n)
    case TFloat(d) => x.RFloat? && |x.raw| == FloatSize(d)
    case TChar => x.RChar? && IsScalar(x.scalar)
    case TString => x.RText? && IsUtf8(x.utf8) && |x.utf8| < Pow2(32)
    case _ => false
  }

  ghost predicate SideShaped(m: Module, side: Option<Ty>, r: nat, x: Option<Rust>)
    requires Valid(m) && SidePlaced(m, side, r)
    decreases r, side, 0
  {
    match side case None => x.None? case Some(t) => x.Some? && Shaped(m, t, r, x.value)
  }

  ghost predicate CaseShaped(m: Module, cs: seq<Option<Ty>>, r: nat, tag: nat, x: Option<Rust>)
    requires Valid(m) && AllSidesPlaced(m, cs, r) && tag < |cs|
    decreases r, cs, 0
  {
    if tag == 0 then SideShaped(m, cs[0], r, x) else CaseShaped(m, cs[1..], r, tag - 1, x)
  }

  ghost predicate MembersShaped(m: Module, ts: seq<Ty>, r: nat, xs: seq<Rust>)
    requires Valid(m) && AllPlaced(m, ts, r)
    decreases r, ts, 0
  {
    && |xs| == |ts|
    && (ts != [] ==> Shaped(m, ts[0], r, xs[0]) && MembersShaped(m, ts[1..], r, xs[1..]))
  }

  ghost predicate ItemsShaped(m: Module, ty: Ty, r: nat, xs: seq<Rust>)
    requires Valid(m) && Declared(m, ty, r)
    decreases r, ty, |xs| + 1
  {
    xs != [] ==> Shaped(m, ty, r, xs[0]) && ItemsShaped(m, ty, r, xs[1..])
  }

  // ---------------------------------------------------------------------------
  // Lift: a wire value to a native one. None stands for any `Err`.
  // ---------------------------------------------------------------------------

  ghost function Lift(m: Module, ty: Ty, r: nat, v: Value): Option<Rust>
    requires Valid(m) && Declared(m, ty, r)
    decreases r, ty, 0
  {
    match ty
    case Prim(p) => LiftPrim(p, v)
    case List(t) =>
      if !v.VList? then None
      else (match LiftItems(m, t, r, v.items) case None => None case Some(xs) => Some(RVec(xs)))
    case Opt(t) =>
      if !v.VOption? then None
      else if v.payload.None? then Some(ROption(None))
      else (match Lift(m, t, r, v.payload.value) case None => None case Some(x) => Some(ROption(Some(x))))
    case Tuple(ts) =>
      if !v.VTuple? || |v.vals| != |ts| then None
      else (match LiftMembers(m, ts, r, v.vals) case None => None case Some(xs) => Some(RTuple(xs)))
    case Res(o, e) =>
      if !v.VResult? then None
      else
        (match LiftSide(m, if v.isErr then e else o, r, v.payload)
         case None => None
         case Some(x) => Some(RResult(v.isErr, x)))
    case Named(n) => Lift(m, m.types[n], m.rank[n], v)
    case Record(ts) =>
      if !v.VRecord? || |v.vals| != |ts| then None
      else (match LiftMembers(m, ts, r, v.vals) case None => None case Some(xs) => Some(RStruct(xs)))
    case Variant(cs) =>
      if !v.VVariant? || v.tag >= |cs| then None
      else (match LiftCase(m, cs, r, v.tag, v.payload) case None => None case Some(x) => Some(RCase(v.tag, x)))
    case Enum(n) => if v.VEnum? && v.tag < n then Some(RUnitCase(v.tag)) else None
    case Flags(n) => if v.VFlags? && |v.bits| == n then Some(RBits(BitsToInt(v.bits))) else None
  }

  ghost function LiftPrim(p: Type, v: Value): Option<Rust> {
    match p
    case TBool => if v.VBool? then Some(RBool(v.b)) else None
    case TUInt(w) => if v.VUInt? && v.width == w then Some(RInt(v.u)) else None
    case TSInt(w) => if v.VSInt? && v.width == w then Some(RInt(v.n)) else None
    case TFloat(d) => if v.VFloat? && v.double == d then Some(RFloat(v.raw)) else None
    case TChar => if v.VChar? then Some(RChar(v.scalar)) else None
    case TString => if v.VString? then Some(RText(v.utf8)) else None
    case _ => None
  }

  ghost function LiftSide(m: Module, side: Option<Ty>, r: nat, p: Option<Value>): Option<Option<Rust>>
    requires Valid(m) && SidePlaced(m, side, r)
    decreases r, side, 0
  {
    match (side, p)
    case (None, None) => Some(None)
    case (Some(t), Some(v)) => (match Lift(m, t, r, v) case None => None case Some(x) => Some(Some(x)))
    case _ => None
  }

  ghost function LiftCase(m: Module, cs: seq<Option<Ty>>, r: nat, tag: nat, p: Option<Value>): Option<Option<Rust>>
    requires Valid(m) && AllSidesPlaced(m, cs, r) && tag < |cs|
    decreases r, cs, 0
  {
    if tag == 0 then LiftSide(m, cs[0], r, p) else LiftCase(m, cs[1..], r, tag - 1, p)
  }

  ghost function LiftMembers(m: Module, ts: seq<Ty>, r: nat, vs: seq<Value>): Option<seq<Rust>>
    requires Valid(m) && AllPlaced(m, ts, r) && |vs| == |ts|
    decreases r, ts, 0
  {
    if ts == [] then Some([])
    else
      match (Lift(m, ts[0], r, vs[0]), LiftMembers(m, ts[1..], r, vs[1..]))
      case (Some(x), Some(xs)) => Some([x] + xs)
      case _ => None
  }

  ghost function LiftItems(m: Module, ty: Ty, r: nat, vs: seq<Value>): Option<seq<Rust>>
    requires Valid(m) && Declared(m, ty, r)
    decreases r, ty, |vs| + 1
  {
    if vs == [] then Some([])
    else
      match (Lift(m, ty, r, vs[0]), LiftItems(m, ty, r, vs[1..]))
      case (Some(x), Some(xs)) => Some([x] + xs)
      case _ => None
  }

  // ---------------------------------------------------------------------------
  // Lower: a native value to a wire value. Only flags can fail.
  // ---------------------------------------------------------------------------

  ghost function Lower(m: Module, ty: Ty, r: nat, x: Rust): Option<Value>
    requires Valid(m) && Declared(m, ty, r) && Shaped(m, ty, r, x)
    decreases r, ty, 0
  {
    match ty
    case Prim(p) => Some(LowerPrim(p, x))
    case List(t) => (match LowerItems(m, t, r, x.items) case None => None case Some(vs) => Some(VList(vs)))
    case Opt(t) =>
      if x.payload.None? then Some(VOption(None))
      else (match Lower(m, t, r, x.payload.value) case None => None case Some(v) => Some(VOption(Some(v))))
    case Tuple(ts) => (match LowerMembers(m, ts, r, x.members) case None => None case Some(vs) => Some(VTuple(vs)))
    case Res(o, e) =>
      (match LowerSide(m, if x.isErr then e else o, r, x.payload)
       case None => None
       case Some(p) => Some(VResult(x.isErr, p)))
    case Named(n) => Lower(m, m.types[n], m.rank[n], x)
    case Record(ts) => (match LowerMembers(m, ts, r, x.members) case None => None case Some(vs) => Some(VRecord(vs)))
    case Variant(cs) =>
      (match LowerCase(m, cs, r, x.tag, x.payload) case None => None case Some(p) => Some(VVariant(x.tag, p)))
    case Enum(_) => Some(VEnum(x.tag))
    case Flags(n) => if n < 64 && x.bits / Pow2(n) != 0 then None else Some(VFlags(BitsOf(x.bits, n)))
  }

  ghost function LowerPrim(p: Type, x: Rust): Value
    requires PrimShaped(p, x)
  {
    match p
    case TBool => VBool(x.b)
    case TUInt(w) => VUInt(w, x.n)
    case TSInt(w) => VSInt(w, x.n)
    case TFloat(d) => VFloat(d, x.raw)
    case TChar => VChar(x.scalar)
    case TString => VString(x.utf8)
  }

  ghost function LowerSide(m: Module, side: Option<Ty>, r: nat, x: Option<Rust>): Option<Option<Value>>
    requires Valid(m) && SidePlaced(m, side, r) && SideShaped(m, side, r, x)
    decreases r, side, 0
  {
    match side
    case None => Some(None)
    case Some(t) => match Lower(m, t, r, x.value) case None => None case Some(v) => Some(Some(v))
  }

  ghost function LowerCase(m: Module, cs: seq<Option<Ty>>, r: nat, tag: nat, x: Option<Rust>): Option<Option<Value>>
    requires Valid(m) && AllSidesPlaced(m, cs, r) && tag < |cs| && CaseShaped(m, cs, r, tag, x)
    decreases r, cs, 0
  {
    if tag == 0 then LowerSide(m, cs[0], r, x) else LowerCase(m, cs[1..], r, tag - 1, x)
  }

  ghost function LowerMembers(m: Module, ts: seq<Ty>, r: nat, xs: seq<Rust>): Option<seq<Value>>
    requires Valid(m) && AllPlaced(m, ts, r) && MembersShaped(m, ts, r, xs)
    decreases r, ts, 0
  {
    if ts == [] then Some([])
    else
      match (Lower(m, ts[0], r, xs[0]), LowerMembers(m, ts[1..], r, xs[1..]))
      case (Some(v), Some(vs)) => Some([v] + vs)
      case _ => None
  }

  ghost function LowerItems(m: Module, ty: Ty, r: nat, xs: seq<Rust>): Option<seq<Value>>
    requires Valid(m) && Declared(m, ty, r) && ItemsShaped(m, ty, r, xs)
    decreases r, ty, |xs| + 1
  {
    if xs == [] then Some([])
    else
      match (Lower(m, ty, r, xs[0]), LowerItems(m, ty, r, xs[1..]))
      case (Some(v), Some(vs)) => Some([v] + vs)
      case _ => None
  }

  // ---------------------------------------------------------------------------
  // Stray flag bits
  // ---------------------------------------------------------------------------

  /** A flags value of `n` declared flags. */
  datatype FlagWord = FlagWord(n: nat, bits: nat)

  predicate Stray(w: FlagWord) {
    w.n < 64 && w.bits / Pow2(w.n) != 0
  }

  /** Every flags value inside a native value. */
  ghost function FlagWords(m: Module, ty: Ty, r: nat, x: Rust): set<FlagWord>
    requires Valid(m) && Declared(m, ty, r) && Shaped(m, ty, r, x)
    decreases r, ty, 0
  {
    match ty
    case List(t) => ItemWords(m, t, r, x.items)
    case Opt(t) => if x.payload.None? then {} else FlagWords(m, t, r, x.payload.value)
    case Tuple(ts) => MemberWords(m, ts, r, x.members)
    case Res(o, e) => SideWords(m, if x.isErr then e else o, r, x.payload)
    case Named(n) => FlagWords(m, m.types[n], m.rank[n], x)
    case Record(ts) => MemberWords(m, ts, r, x.members)
    case Variant(cs) => CaseWords(m, cs, r, x.tag, x.payload)
    case Flags(n) => {FlagWord(n, x.bits)}
    case _ => {}
  }

  ghost function SideWords(m: Module, side: Option<Ty>, r: nat, x: Option<Rust>): set<FlagWord>
    requires Valid(m) && SidePlaced(m, side, r) && SideShaped(m, side, r, x)
    decreases r, side, 0
  {
    match side case None => {} case Some(t) => FlagWords(m, t, r, x.value)
  }

  ghost function CaseWords(m: Module, cs: seq<Option<Ty>>, r: nat, tag: nat, x: Option<Rust>): set<FlagWord>
    requires Valid(m) && AllSidesPlaced(m, cs, r) && tag < |cs| && CaseShaped(m, cs, r, tag, x)
    decreases r, cs, 0
  {
    if tag == 0 then SideWords(m, cs[0], r, x) else CaseWords(m, cs[1..], r, tag - 1, x)
  }

  ghost function MemberWords(m: Module, ts: seq<Ty>, r: nat, xs: seq<Rust>): set<FlagWord>
    requires Valid(m) && AllPlaced(m, ts, r) && MembersShaped(m, ts, r, xs)
    decreases r, ts, 0
  {
    if ts == [] then {} else FlagWords(m, ts[0], r, xs[0]) + MemberWords(m, ts[1..], r, xs[1..])
  }

  ghost function ItemWords(m: Module, ty: Ty, r: nat, xs: seq<Rust>): set<FlagWord>
    requires Valid(m) && Declared(m, ty, r) && ItemsShaped(m, ty, r, xs)
    decreases r, ty, |xs| + 1
  {
    if xs == [] then {} else FlagWords(m, ty, r, xs[0]) + ItemWords(m, ty, r, xs[1..])
  }

  ghost predicate NoneStray(ws: set<FlagWord>) {
    forall w :: w in ws ==> !Stray(w)
  }

  // ---------------------------------------------------------------------------
  // `lower` fails exactly on stray bits
  // ---------------------------------------------------------------------------

  lemma {:induction false} LowerFails(m: Module, ty: Ty, r: nat, x: Rust)
    requires Valid(m) && Declared(m, ty, r) && Shaped(m, ty, r, x)
    ensures Lower(m, ty, r, x).Some? <==> NoneStray(FlagWords(m, ty, r, x))
    decreases r, ty, 0
  {
    hide Pow2;
    match ty
    case List(t) => ItemsFail(m, t, r, x.items);
    case Opt(t) => if x.payload.Some? { LowerFails(m, t, r, x.payload.value); }
    case Tuple(ts) => MembersFail(m, ts, r, x.members);
    case Res(o, e) => SideFails(m, if x.isErr then e else o, r, x.payload);
    case Named(n) => LowerFails(m, m.types[n], m.rank[n], x);
    case Record(ts) => MembersFail(m, ts, r, x.members);
    case Variant(cs) => CaseFails(m, cs, r, x.tag, x.payload);
    case Flags(n) => assert Stray(FlagWord(n, x.bits)) <==> Lower(m, ty, r, x).None?;
    case _ =>
  }

  lemma {:induction false} SideFails(m: Module, side: Option<Ty>, r: nat, x: Option<Rust>)
    requires Valid(m) && SidePlaced(m, side, r) && SideShaped(m, side, r, x)
    ensures LowerSide(m, side, r, x).Some? <==> NoneStray(SideWords(m, side, r, x))
    decreases r, side, 0
  {
    if side.Some? {
      LowerFails(m, side.value, r, x.value);
    }
  }

  lemma {:induction false} CaseFails(m: Module, cs: seq<Option<Ty>>, r: nat, tag: nat, x: Option<Rust>)
    requires Valid(m) && AllSidesPlaced(m, cs, r) && tag < |cs| && CaseShaped(m, cs, r, tag, x)
    ensures LowerCase(m, cs, r, tag, x).Some? <==> NoneStray(CaseWords(m, cs, r, tag, x))
    decreases r, cs, 0
  {
    if tag == 0 {
      SideFails(m, cs[0], r, x);
    } else {
      CaseFails(m, cs[1..], r, tag - 1, x);
    }
  }

  lemma {:induction false} MembersFail(m: Module, ts: seq<Ty>, r: nat, xs: seq<Rust>)
    requires Valid(m) && AllPlaced(m, ts, r) && MembersShaped(m, ts, r, xs)
    ensures LowerMembers(m, ts, r, xs).Some? <==> NoneStray(MemberWords(m, ts, r, xs))
    decreases r, ts, 0
  {
    if ts != [] {
      LowerFails(m, ts[0], r, xs[0]);
      MembersFail(m, ts[1..], r, xs[1..]);
    }
  }

  lemma {:induction false} ItemsFail(m: Module, ty: Ty, r: nat, xs: seq<Rust>)
    requires Valid(m) && Declared(m, ty, r) && ItemsShaped(m, ty, r, xs)
    ensures LowerItems(m, ty, r, xs).Some? <==> NoneStray(ItemWords(m, ty, r, xs))
    decreases r, ty, |xs| + 1
  {
    if xs != [] {
      LowerFails(m, ty, r, xs[0]);
      ItemsFail(m, ty, r, xs[1..]);
    }
  }

  // ---------------------------------------------------------------------------
  // `lift` never fails on a decoded value, and `lower` undoes it
  // ---------------------------------------------------------------------------

  lemma LeafTyped(m: Module, ty: Ty, r: nat, v: Value)
    requires ty.Prim? || ty.Enum? || ty.Flags?
    requires Valid(m) && Declared(m, ty, r) && HasType(v, TypeOf(m, ty, r))
    ensures Lift(m, ty, r, v).Some?
    ensures var x := Lift(m, ty, r, v).value; Shaped(m, ty, r, x) && Lower(m, ty, r, x) == Some(v)
  {
    hide Pow2;
    if ty.Flags? {
      FlagsFaithful(v.bits);
    }
  }

  lemma {:induction false} LiftTyped(m: Module, ty: Ty, r: nat, v: Value)
    requires Valid(m) && Declared(m, ty, r) && HasType(v, TypeOf(m, ty, r))
    ensures Lift(m, ty, r, v).Some?
    ensures var x := Lift(m, ty, r, v).value; Shaped(m, ty, r, x) && Lower(m, ty, r, x) == Some(v)
    decreases r, ty, 0
  {
    hide Pow2;
    if ty.Prim? || ty.Enum? || ty.Flags? {
      LeafTyped(m, ty, r, v);
      return;
    }
    match ty
    case List(t) => ItemsTyped(m, t, r, v.items);
    case Opt(t) => if v.payload.Some? { LiftTyped(m, t, r, v.payload.value); }
    case Tuple(ts) => MembersTyped(m, ts, r, v.vals);
    case Res(o, e) => SideTyped(m, if v.isErr then e else o, r, v.payload);
    case Named(n) => LiftTyped(m, m.types[n], m.rank[n], v);
    case Record(ts) => MembersTyped(m, ts, r, v.vals);
    case Variant(cs) => CaseTyped(m, cs, r, v.tag, v.payload);
  }

  lemma {:induction false} SideTyped(m: Module, side: Option<Ty>, r: nat, p: Option<Value>)
    requires Valid(m) && SidePlaced(m, side, r) && SideHasType(p, SideType(m, side, r))
    ensures LiftSide(m, side, r, p).Some?
    ensures var x := LiftSide(m, side, r, p).value; SideShaped(m, side, r, x) && LowerSide(m, side, r, x) == Some(p)
    decreases r, side, 0
  {
    if side.Some? {
      LiftTyped(m, side.value, r, p.value);
    }
  }

  lemma {:induction false} CaseTyped(m: Module, cs: seq<Option<Ty>>, r: nat, tag: nat, p: Option<Value>)
    requires Valid(m) && AllSidesPlaced(m, cs, r) && tag < |cs| && SideHasType(p, SideTypes(m, cs, r)[tag])
    ensures LiftCase(m, cs, r, tag, p).Some?
    ensures var x := LiftCase(m, cs, r, tag, p).value;
            CaseShaped(m, cs, r, tag, x) && LowerCase(m, cs, r, tag, x) == Some(p)
    decreases r, cs, 0
  {
    if tag == 0 {
      SideTyped(m, cs[0], r, p);
    } else {
      CaseTyped(m, cs[1..], r, tag - 1, p);
    }
  }

  lemma {:induction false} MembersTyped(m: Module, ts: seq<Ty>, r: nat, vs: seq<Value>)
    requires Valid(m) && AllPlaced(m, ts, r) && HaveTypes(vs, TypesOf(m, ts, r))
    ensures LiftMembers(m, ts, r, vs).Some?
    ensures var xs := LiftMembers(m, ts, r, vs).value;
            MembersShaped(m, ts, r, xs) && LowerMembers(m, ts, r, xs) == Some(vs)
    decreases r, ts, 0
  {
    if ts != [] {
      assert TypesOf(m, ts, r)[1..] == TypesOf(m, ts[1..], r);
      LiftTyped(m, ts[0], r, vs[0]);
      MembersTyped(m, ts[1..], r, vs[1..]);
      var xs := LiftMembers(m, ts, r, vs).value;
      assert xs[1..] == LiftMembers(m, ts[1..], r, vs[1..]).value;
      assert [vs[0]] + vs[1..] == vs;
    }
  }

  lemma {:induction false} ItemsTyped(m: Module, ty: Ty, r: nat, vs: seq<Value>)
    requires Valid(m) && Declared(m, ty, r) && AllHaveType(vs, TypeOf(m, ty, r))
    ensures LiftItems(m, ty, r, vs).Some?
    ensures var xs := LiftItems(m, ty, r, vs).value;
            |xs| == |vs| && ItemsShaped(m, ty, r, xs) && LowerItems(m, ty, r, xs) == Some(vs)
    decreases r, ty, |vs| + 1
  {
    if vs != [] {
      LiftTyped(m, ty, r, vs[0]);
      ItemsTyped(m, ty, r, vs[1..]);
      var xs := LiftItems(m, ty, r, vs).value;
      assert xs[1..] == LiftItems(m, ty, r, vs[1..]).value;
      assert [vs[0]] + vs[1..] == vs;
    }
  }

  // ---------------------------------------------------------------------------
  // `lift` undoes `lower`
  // ---------------------------------------------------------------------------

  lemma {:induction false} IntOfBits(bits: nat, n: nat)
    requires bits < Pow2(n)
    ensures BitsToInt(BitsOf(bits, n)) == bits
  {
    if n > 0 {
      IntOfBits(bits / 2, n - 1);
      assert BitsOf(bits, n)[1..] == BitsOf(bits / 2, n - 1);
    }
  }

  lemma FlagsLower(n: nat, bits: nat)
    requires 0 < n <= 64 && bits < Pow2(64) && !Stray(FlagWord(n, bits))
    ensures BitsToInt(BitsOf(bits, n)) == bits
  {
    hide Pow2;
    if n < 64 {
      QuotientZero(bits, Pow2(n));
    }
    IntOfBits(bits, n);
  }

  lemma PrimLower(p: Type, x: Rust)
    requires IsPrim(p) && PrimShaped(p, x)
    ensures HasType(LowerPrim(p, x), p) && LiftPrim(p, LowerPrim(p, x)) == Some(x)
  {
    hide Pow2;
    hide IsUtf8;
  }

  lemma TagsFit()
    ensures TAG_LIMIT <= Pow2(32)
  {
    Pow2Sizes();
  }

  lemma LeafLower(m: Module, ty: Ty, r: nat, x: Rust)
    requires ty.Prim? || ty.Enum? || ty.Flags?
    requires Valid(m) && Declared(m, ty, r) && Shaped(m, ty, r, x) && Lower(m, ty, r, x).Some?
    ensures var v := Lower(m, ty, r, x).value; HasType(v, TypeOf(m, ty, r)) && Lift(m, ty, r, v) == Some(x)
  {
    hide Pow2;
    hide BitsOf;
    hide BitsToInt;
    match ty
    case Prim(p) => PrimLower(p, x);
    case Enum(_) => TagsFit();
    case Flags(n) => FlagsLower(n, x.bits);
  }

  lemma {:induction false} LowerTyped(m: Module, ty: Ty, r: nat, x: Rust)
    requires Valid(m) && Declared(m, ty, r) && Shaped(m, ty, r, x) && Lower(m, ty, r, x).Some?
    ensures var v := Lower(m, ty, r, x).value; HasType(v, TypeOf(m, ty, r)) && Lift(m, ty, r, v) == Some(x)
    decreases r, ty, 0
  {
    if ty.Prim? || ty.Enum? || ty.Flags? {
      hide *;
      LeafLower(m, ty, r, x);
    } else if ty.Res? || ty.Variant? {
      hide *;
      SumLower(m, ty, r, x);
    } else if ty.Named? {
      LowerTyped(m, m.types[ty.name], m.rank[ty.name], x);
    } else {
      hide *;
      NestedLower(m, ty, r, x);
    }
  }

  lemma {:induction false} NestedLower(m: Module, ty: Ty, r: nat, x: Rust)
    requires ty.List? || ty.Opt? || ty.Tuple? || ty.Record?
    requires Valid(m) && Declared(m, ty, r) && Shaped(m, ty, r, x) && Lower(m, ty, r, x).Some?
    ensures var v := Lower(m, ty, r, x).value; HasType(v, TypeOf(m, ty, r)) && Lift(m, ty, r, v) == Some(x)
    decreases r, ty, -1
  {
    hide LowerPrim;
    hide LiftPrim;
    hide IsUtf8;
    hide Pow2;
    hide BitsOf;
    hide BitsToInt;
    match ty
    case List(t) => ItemsLower(m, t, r, x.items);
    case Opt(t) => if x.payload.Some? { LowerTyped(m, t, r, x.payload.value); }
    case Tuple(ts) => MembersLower(m, ts, r, x.members);
    case Record(ts) => MembersLower(m, ts, r, x.members);
  }

  lemma {:induction false} SumLower(m: Module, ty: Ty, r: nat, x: Rust)
    requires ty.Res? || ty.Variant?
    requires Valid(m) && Declared(m, ty, r) && Shaped(m, ty, r, x) && Lower(m, ty, r, x).Some?
    ensures var v := Lower(m, ty, r, x).value; HasType(v, TypeOf(m, ty, r)) && Lift(m, ty, r, v) == Some(x)
    decreases r, ty, -1
  {
    hide LowerPrim;
    hide LiftPrim;
    hide IsUtf8;
    hide Pow2;
    hide BitsOf;
    hide BitsToInt;
    match ty
    case Res(o, e) => SideLower(m, if x.isErr then e else o, r, x.payload);
    case Variant(cs) =>
      TagsFit();
      CaseLower(m, cs, r, x.tag, x.payload);
  }

  lemma {:induction false} SideLower(m: Module, side: Option<Ty>, r: nat, x: Option<Rust>)
    requires Valid(m) && SidePlaced(m, side, r) && SideShaped(m, side, r, x) && LowerSide(m, side, r, x).Some?
    ensures var p := LowerSide(m, side, r, x).value;
            SideHasType(p, SideType(m, side, r)) && LiftSide(m, side, r, p) == Some(x)
    decreases r, side, 0
  {
    if side.Some? {
      LowerTyped(m, side.value, r, x.value);
    }
  }

  lemma {:induction false} CaseLower(m: Module, cs: seq<Option<Ty>>, r: nat, tag: nat, x: Option<Rust>)
    requires Valid(m) && AllSidesPlaced(m, cs, r) && tag < |cs| && CaseShaped(m, cs, r, tag, x)
    requires LowerCase(m, cs, r, tag, x).Some?
    ensures var p := LowerCase(m, cs, r, tag, x).value;
            SideHasType(p, SideTypes(m, cs, r)[tag]) && LiftCase(m, cs, r, tag, p) == Some(x)
    decreases r, cs, 0
  {
    if tag == 0 {
      SideLower(m, cs[0], r, x);
    } else {
      CaseLower(m, cs[1..], r, tag - 1, x);
    }
  }

  lemma {:induction false} MembersLower(m: Module, ts: seq<Ty>, r: nat, xs: seq<Rust>)
    requires Valid(m) && AllPlaced(m, ts, r) && MembersShaped(m, ts, r, xs) && LowerMembers(m, ts, r, xs).Some?
    ensures var vs := LowerMembers(m, ts, r, xs).value;
            && |vs| == |ts| && HaveTypes(vs, TypesOf(m, ts, r))
            && LiftMembers(m, ts, r, vs) == Some(xs)
    decreases r, ts, 0
  {
    if ts != [] {
      assert TypesOf(m, ts, r)[1..] == TypesOf(m, ts[1..], r);
      LowerTyped(m, ts[0], r, xs[0]);
      MembersLower(m, ts[1..], r, xs[1..]);
      var vs := LowerMembers(m, ts, r, xs).value;
      assert vs[1..] == LowerMembers(m, ts[1..], r, xs[1..]).value;
      assert [xs[0]] + xs[1..] == xs;
    }
  }

  lemma {:induction false} ItemsLower(m: Module, ty: Ty, r: nat, xs: seq<Rust>)
    requires Valid(m) && Declared(m, ty, r) && ItemsShaped(m, ty, r, xs) && LowerItems(m, ty, r, xs).Some?
    ensures var vs := LowerItems(m, ty, r, xs).value;
            && |vs| == |xs| && AllHaveType(vs, TypeOf(m, ty, r))
            && LiftItems(m, ty, r, vs) == Some(xs)
    decreases r, ty, |xs| + 1
  {
    if xs != [] {
      LowerTyped(m, ty, r, xs[0]);
      ItemsLower(m, ty, r, xs[1..]);
      var vs := LowerItems(m, ty, r, xs).value;
      assert vs[1..] == LowerItems(m, ty, r, xs[1..]).value;
      assert [xs[0]] + xs[1..] == xs;
    }
  }

  // ---------------------------------------------------------------------------
  // Where the emitted expressions may contain `?`
  // ---------------------------------------------------------------------------

  /** `is_nominal`: following aliases, does the name end at a record, variant, enum or flags? */
  predicate Nominal(m: Module, ty: Ty)
    requires Resolve(m, ty).Some?
  {
    var u := Resolve(m, ty).value;
    u.Record? || u.Variant? || u.Enum? || u.Flags?
  }

  /** `lower_fallible`: the emitted conversion of the type may contain `?`. */
  ghost function LowerFallible(m: Module, ty: Ty, r: nat): bool
    requires Valid(m) && Placed(m, ty, r)
    decreases r, ty, 0
  {
    match ty
    case Named(n) => Nominal(m, ty) || LowerFallible(m, m.types[n], m.rank[n])
    case List(t) => LowerFallible(m, t, r)
    case Opt(t) => LowerFallible(m, t, r)
    case Tuple(ts) => AnyFallible(m, ts, r)
    case Res(o, e) => SideFallible(m, o, r) || SideFallible(m, e, r)
    case _ => false
  }

  ghost function SideFallible(m: Module, side: Option<Ty>, r: nat): bool
    requires Valid(m) && SidePlaced(m, side, r)
    decreases r, side, 0
  {
    side.Some? && LowerFallible(m, side.value, r)
  }

  ghost function AnyFallible(m: Module, ts: seq<Ty>, r: nat): bool
    requires Valid(m) && AllPlaced(m, ts, r)
    decreases r, ts, 0
  {
    ts != [] && (LowerFallible(m, ts[0], r) || AnyFallible(m, ts[1..], r))
  }

  /** The infallible form of the emitted code is used only where lowering cannot fail. */
  lemma {:induction false} InfallibleIsTotal(m: Module, ty: Ty, r: nat, x: Rust)
    requires Valid(m) && Placed(m, ty, r) && Shaped(m, ty, r, x) && !LowerFallible(m, ty, r)
    ensures Lower(m, ty, r, x).Some? && FlagWords(m, ty, r, x) == {}
    decreases r, ty, 0
  {
    hide Pow2;
    match ty
    case List(t) => InfallibleItems(m, t, r, x.items);
    case Opt(t) => if x.payload.Some? { InfallibleIsTotal(m, t, r, x.payload.value); }
    case Tuple(ts) => InfallibleMembers(m, ts, r, x.members);
    case Res(o, e) =>
      var side := if x.isErr then e else o;
      if side.Some? { InfallibleIsTotal(m, side.value, r, x.payload.value); }
    case Named(n) => InfallibleIsTotal(m, m.types[n], m.rank[n], x);
    case _ =>
  }

  lemma {:induction false} InfallibleMembers(m: Module, ts: seq<Ty>, r: nat, xs: seq<Rust>)
    requires Valid(m) && AllPlaced(m, ts, r) && MembersShaped(m, ts, r, xs) && !AnyFallible(m, ts, r)
    ensures LowerMembers(m, ts, r, xs).Some? && MemberWords(m, ts, r, xs) == {}
    decreases r, ts, 0
  {
    if ts != [] {
      InfallibleIsTotal(m, ts[0], r, xs[0]);
      InfallibleMembers(m, ts[1..], r, xs[1..]);
    }
  }

  lemma {:induction false} InfallibleItems(m: Module, ty: Ty, r: nat, xs: seq<Rust>)
    requires Valid(m) && Placed(m, ty, r) && ItemsShaped(m, ty, r, xs) && !LowerFallible(m, ty, r)
    ensures LowerItems(m, ty, r, xs).Some? && ItemWords(m, ty, r, xs) == {}
    decreases r, ty, |xs| + 1
  {
    if xs != [] {
      InfallibleIsTotal(m, ty, r, xs[0]);
      InfallibleItems(m, ty, r, xs[1..]);
    }
  }

  // ---------------------------------------------------------------------------
  // Which types those are
  // ---------------------------------------------------------------------------

  /** A record, variant, enum or flags type stands somewhere in the wire type. */
  ghost predicate HoldsNominal(t: Type)
    decreases t
  {
    match t
    case TRecord(_) => true
    case TVariant(_) => true
    case TEnum(_) => true
    case TFlags(_) => true
    case TList(x) => HoldsNominal(x)
    case TOption(x) => HoldsNominal(x)
    case TTuple(ts) => exists i :: 0 <= i < |ts| && HoldsNominal(ts[i])
    case TResult(o, e) => (o.Some? && HoldsNominal(o.value)) || (e.Some? && HoldsNominal(e.value))
    case _ => false
  }

  lemma {:induction false} NominalUnder(m: Module, ty: Ty, r: nat, n: nat)
    requires Valid(m) && Declared(m, ty, r) && ResolveFrom(m, ty, n).Some?
    ensures var u := ResolveFrom(m, ty, n).value;
            u.Record? || u.Variant? || u.Enum? || u.Flags? ==> HoldsNominal(TypeOf(m, ty, r))
    decreases n
  {
    if ty.Named? {
      NominalUnder(m, m.types[ty.name], m.rank[ty.name], n - 1);
    }
  }

  lemma {:induction false} PlainUnder(m: Module, x: string, n: nat)
    requires Valid(m) && x in m.types && ResolveFrom(m, Named(x), n).Some?
    requires var u := ResolveFrom(m, Named(x), n).value; !(u.Record? || u.Variant? || u.Enum? || u.Flags?)
    ensures Placed(m, m.types[x], m.rank[x])
  {
    assert ResolveFrom(m, Named(x), n) == ResolveFrom(m, m.types[x], n - 1);
  }

  /** The emitted conversion may fail exactly where a named record, variant, enum or flags can be reached. */
  lemma {:induction false} FallibleExact(m: Module, ty: Ty, r: nat)
    requires Valid(m) && Placed(m, ty, r)
    ensures LowerFallible(m, ty, r) <==> HoldsNominal(TypeOf(m, ty, r))
    decreases r, ty, 0
  {
    match ty
    case Named(x) =>
      if Nominal(m, ty) {
        NominalUnder(m, ty, r, ALIAS_LIMIT);
      } else {
        PlainUnder(m, x, ALIAS_LIMIT);
        FallibleExact(m, m.types[x], m.rank[x]);
      }
    case List(t) => FallibleExact(m, t, r);
    case Opt(t) => FallibleExact(m, t, r);
    case Tuple(ts) =>
      AnyFallibleExact(m, ts, r);
      NominalTuple(TypesOf(m, ts, r));
    case Res(o, e) =>
      SideFallibleExact(m, o, r);
      SideFallibleExact(m, e, r);
    case _ =>
  }

  lemma {:induction false} SideFallibleExact(m: Module, side: Option<Ty>, r: nat)
    requires Valid(m) && SidePlaced(m, side, r)
    ensures SideFallible(m, side, r) <==> side.Some? && HoldsNominal(SideType(m, side, r).value)
    decreases r, side, 0
  {
    if side.Some? {
      FallibleExact(m, side.value, r);
    }
  }

  ghost predicate AnyNominal(tys: seq<Type>) {
    exists i :: 0 <= i < |tys| && HoldsNominal(tys[i])
  }

  lemma NominalTuple(tys: seq<Type>)
    ensures HoldsNominal(TTuple(tys)) <==> AnyNominal(tys)
  {
  }

  lemma AnyNominalCons(t: Type, tys: seq<Type>)
    ensures AnyNominal([t] + tys) <==> HoldsNominal(t) || AnyNominal(tys)
  {
    hide HoldsNominal;
    var all := [t] + tys;
    assert all[0] == t && forall i :: 0 <= i < |tys| ==> all[i + 1] == tys[i];
    assert forall i :: 0 < i < |all| ==> all[i] == tys[i - 1];
  }

  lemma {:induction false} AnyFallibleExact(m: Module, ts: seq<Ty>, r: nat)
    requires Valid(m) && AllPlaced(m, ts, r)
    ensures AnyFallible(m, ts, r) <==> AnyNominal(TypesOf(m, ts, r))
    decreases r, ts, 0
  {
    hide HoldsNominal;
    if ts != [] {
      FallibleExact(m, ts[0], r);
      AnyFallibleExact(m, ts[1..], r);
      AnyNominalCons(TypeOf(m, ts[0], r), TypesOf(m, ts[1..], r));
    }
  }
}
