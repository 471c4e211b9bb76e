/**
 The generator's intermediate representation: the type trees of one module, alias
 resolution, and the wire type a tree stands for.
 */
module Ir {
  import opened Bytes
  import opened Wire

  /** Names of fields, cases, members and flags do not affect the wire and are left out. */
  datatype Ty =
    | Prim(p: Type)
    | List(t: Ty)
    | Opt(t: Ty)
    | Tuple(ts: seq<Ty>)
    | Res(ok: Option<Ty>, err: Option<Ty>)
    | Named(name: string)
    | Record(ts: seq<Ty>)
    | Variant(cs: seq<Option<Ty>>)
    | Enum(n: nat)
    | Flags(n: nat)

  /**
   The named types of a module. `rank` witnesses that no type mentions itself: a
   position in a definition-before-use order.
   */
  datatype Module = Module(types: map<string, Ty>, rank: map<string, nat>)

  predicate IsPrim(p: Type) {
    p.TBool? || p.TUInt? || p.TSInt? || p.TFloat? || p.TChar? || p.TString?
  }

  // ---------------------------------------------------------------------------
  // Alias resolution
  // ---------------------------------------------------------------------------

  /** At most `n` looks at the chain: a chain of `n` aliases already exhausts them. */
  function ResolveFrom(m: Module, ty: Ty, n: nat): Option<Ty>
    decreases n
  {
    if n == 0 then None
    else if ty.Named? then
      if ty.name in m.types then ResolveFrom(m, m.types[ty.name], n - 1) else None
    else Some(ty)
  }

  const ALIAS_LIMIT: nat := 64

  function Resolve(m: Module, ty: Ty): Option<Ty> {
    ResolveFrom(m, ty, ALIAS_LIMIT)
  }

  /** Every name is declared and stands for what follows it, the last one for `u`. */
  ghost predicate Chain(m: Module, ty: Ty, names: seq<string>, u: Ty)
    decreases |names|
  {
    if names == [] then ty == u
    else ty == Named(names[0]) && names[0] in m.types && Chain(m, m.types[names[0]], names[1..], u)
  }

  lemma {:induction false} ResolveFromExact(m: Module, ty: Ty, n: nat, u: Ty)
    ensures ResolveFrom(m, ty, n) == Some(u) <==> !u.Named? && exists names :: |names| < n && Chain(m, ty, names, u)
    decreases n
  {
    if n > 0 {
      if ty.Named? && ty.name in m.types {
        var next := m.types[ty.name];
        ResolveFromExact(m, next, n - 1, u);
        if ResolveFrom(m, next, n - 1) == Some(u) {
          var names :| |names| < n - 1 && Chain(m, next, names, u);
          var more := [ty.name] + names;
          assert more[1..] == names;
          assert |more| < n && Chain(m, ty, more, u);
        }
        if !u.Named? && exists names :: |names| < n && Chain(m, ty, names, u) {
          var names :| |names| < n && Chain(m, ty, names, u);
          assert names != [] && |names[1..]| < n - 1 && Chain(m, next, names[1..], u);
        }
      } else if ResolveFrom(m, ty, n) == Some(u) {
        assert Chain(m, ty, [], u);
      }
    }
  }

  /** A type resolves to the type at the end of its alias chain, through at most 63 names. */
  lemma ResolveExact(m: Module, ty: Ty, u: Ty)
    ensures Resolve(m, ty) == Some(u) <==> !u.Named? && exists names :: |names| < 64 && Chain(m, ty, names, u)
  {
    ResolveFromExact(m, ty, 64, u);
  }

  predicate IsAlias(types: map<string, Ty>, x: string, y: string) {
    x in types && types[x] == Named(y)
  }

  /** Each name is declared and stands for the next one. */
  ghost predicate Links(types: map<string, Ty>, names: seq<string>) {
    && (forall k :: 0 <= k < |names| ==> names[k] in types)
    && forall k :: 0 <= k < |names| - 1 ==> IsAlias(types, names[k], names[k + 1])
  }

  /** No chain of aliases from the name has more than 63 names. */
  ghost predicate ShortChain(types: map<string, Ty>, name: string) {
    forall names :: Links(types, names) && names != [] && names[0] == name ==> |names| < 64
  }

  /** What aliases stand for is declared. */
  ghost predicate AliasesDeclared(types: map<string, Ty>) {
    forall x, y :: IsAlias(types, x, y) ==> y in types
  }

  lemma {:induction false} LongChain(m: Module, names: seq<string>, n: nat)
    requires Links(m.types, names) && 0 < n <= |names|
    ensures ResolveFrom(m, Named(names[0]), n).None?
    decreases n
  {
    if n > 1 {
      var rest := names[1..];
      forall k | 0 <= k < |rest| - 1 ensures IsAlias(m.types, rest[k], rest[k + 1]) {
        assert IsAlias(m.types, names[k + 1], names[k + 1 + 1]);
      }
      LongChain(m, rest, n - 1);
      assert IsAlias(m.types, names[0], names[0 + 1]);
    }
  }

  lemma {:induction false} ChainOf(m: Module, name: string, n: nat) returns (names: seq<string>)
    requires name in m.types && AliasesDeclared(m.types) && n > 0 && ResolveFrom(m, Named(name), n).None?
    ensures Links(m.types, names) && |names| == n && names[0] == name
    decreases n
  {
    names := [name];
    if n > 1 {
      var next := m.types[name];
      assert IsAlias(m.types, name, next.name);
      var rest := ChainOf(m, next.name, n - 1);
      names := [name] + rest;
      forall k | 0 <= k < |names| - 1 ensures IsAlias(m.types, names[k], names[k + 1]) {
        assert k > 0 ==> names[k] == rest[k - 1] && names[k + 1] == rest[k];
      }
    }
  }

  /** Where every alias stands for something declared, a name resolves exactly if its alias chains are short. */
  lemma ShortResolves(m: Module, name: string)
    requires name in m.types && AliasesDeclared(m.types)
    ensures Resolve(m, Named(name)).Some? <==> ShortChain(m.types, name)
  {
    if Resolve(m, Named(name)).None? {
      var names := ChainOf(m, name, 64);
    } else {
      forall names | Links(m.types, names) && names != [] && names[0] == name ensures |names| < 64 {
        if |names| >= 64 {
          LongChain(m, names, 64);
        }
      }
    }
  }

  /** Types that map to a value type of the target language, which cannot be null. */
  predicate IsValueKind(ty: Ty) {
    (ty.Prim? && ty.p != TString) || ty.Enum?
  }

  /**
   Does an option of `ty` need a box class: the payload cannot be made nullable, or
   is nullable already?
   */
  function NeedsBox(m: Module, ty: Ty): Option<bool> {
    match Resolve(m, ty)
    case None => None
    case Some(u) => Some(IsValueKind(u) || u.Opt?)
  }

  predicate Boxed(m: Module, ty: Ty) {
    NeedsBox(m, ty) == Some(true)
  }

  // ---------------------------------------------------------------------------
  // Parts of a type
  // ---------------------------------------------------------------------------

  /** `u` is `ty` or stands somewhere in its tree. */
  ghost predicate PartOf(u: Ty, ty: Ty)
    decreases ty
  {
    || u == ty
    || match ty
       case List(t) => PartOf(u, t)
       case Opt(t) => PartOf(u, t)
       case Tuple(ts) => exists i :: 0 <= i < |ts| && PartOf(u, ts[i])
       case Record(ts) => exists i :: 0 <= i < |ts| && PartOf(u, ts[i])
       case Res(o, e) => (o.Some? && PartOf(u, o.value)) || (e.Some? && PartOf(u, e.value))
       case Variant(cs) => exists i :: 0 <= i < |cs| && cs[i].Some? && PartOf(u, cs[i].value)
       case _ => false
  }

  /** The name stands somewhere in the tree. */
  ghost predicate Mentions(ty: Ty, name: string) {
    PartOf(Named(name), ty)
  }

  // ---------------------------------------------------------------------------
  // Modules the generator accepts
  // ---------------------------------------------------------------------------

  /** `ty` may stand in value position: nominal forms only by name, of rank below `r`. */
  predicate Placed(m: Module, ty: Ty, r: nat): (placed: bool)
    ensures placed ==> !(ty.Record? || ty.Variant? || ty.Enum? || ty.Flags?)
    decreases ty, 0
  {
    match ty
    case Prim(p) => IsPrim(p)
    case List(t) => Placed(m, t, r)
    case Opt(t) => Placed(m, t, r)
    case Tuple(ts) => AllPlaced(m, ts, r)
    case Res(o, e) => SidePlaced(m, o, r) && SidePlaced(m, e, r)
    case Named(x) => x in m.types && x in m.rank && m.rank[x] < r && Resolve(m, ty).Some?
    case _ => false
  }

  predicate SidePlaced(m: Module, side: Option<Ty>, r: nat)
    decreases side, 0
  {
    side.Some? ==> Placed(m, side.value, r)
  }

  predicate AllPlaced(m: Module, ts: seq<Ty>, r: nat)
    decreases ts, 0
  {
    ts != [] ==> Placed(m, ts[0], r) && AllPlaced(m, ts[1..], r)
  }

  predicate AllSidesPlaced(m: Module, cs: seq<Option<Ty>>, r: nat)
    decreases cs, 0
  {
    cs != [] ==> SidePlaced(m, cs[0], r) && AllSidesPlaced(m, cs[1..], r)
  }

  const TAG_LIMIT: nat := 0x8000_0000

  /** `ty` may be the definition of a named type of rank `r`. */
  predicate Declared(m: Module, ty: Ty, r: nat) {
    match ty
    case Record(ts) => AllPlaced(m, ts, r)
    case Variant(cs) => 0 < |cs| < TAG_LIMIT && AllSidesPlaced(m, cs, r)
    case Enum(n) => 0 < n < TAG_LIMIT
    case Flags(n) => 0 < n <= 64
    case _ => Placed(m, ty, r)
  }

  ghost predicate Valid(m: Module) {
    forall x :: x in m.types ==> x in m.rank && Declared(m, m.types[x], m.rank[x])
  }

  // ---------------------------------------------------------------------------
  // What acceptance says of the parts of a type
  // ---------------------------------------------------------------------------

  /** A part of a type in value position: nominal forms only by name, declared, of rank below `r`, resolvable. */
  ghost predicate Fits(m: Module, u: Ty, r: nat) {
    match u
    case Prim(p) => IsPrim(p)
    case Named(x) => x in m.types && x in m.rank && m.rank[x] < r && Resolve(m, u).Some?
    case Record(_) => false
    case Variant(_) => false
    case Enum(_) => false
    case Flags(_) => false
    case _ => true
  }

  ghost predicate AllFit(m: Module, ty: Ty, r: nat) {
    forall u :: PartOf(u, ty) ==> Fits(m, u, r)
  }

  ghost predicate SideFits(m: Module, side: Option<Ty>, r: nat) {
    side.Some? ==> AllFit(m, side.value, r)
  }

  /** A type is placed exactly if all its parts fit. */
  lemma {:induction false} PlacedExact(m: Module, ty: Ty, r: nat)
    ensures Placed(m, ty, r) <==> AllFit(m, ty, r)
    decreases ty, 0
  {
    hide Resolve;
    assert PartOf(ty, ty);
    match ty
    case List(t) => PlacedExact(m, t, r);
    case Opt(t) => PlacedExact(m, t, r);
    case Tuple(ts) => AllPlacedExact(m, ts, r);
    case Res(o, e) =>
      SidePlacedExact(m, o, r);
      SidePlacedExact(m, e, r);
    case _ =>
  }

  lemma {:induction false} SidePlacedExact(m: Module, side: Option<Ty>, r: nat)
    ensures SidePlaced(m, side, r) <==> SideFits(m, side, r)
    decreases side, 0
  {
    hide AllFit;
    if side.Some? {
      PlacedExact(m, side.value, r);
    }
  }

  lemma {:induction false} AllPlacedExact(m: Module, ts: seq<Ty>, r: nat)
    ensures AllPlaced(m, ts, r) <==> forall i :: 0 <= i < |ts| ==> AllFit(m, ts[i], r)
    decreases ts, 0
  {
    hide AllFit;
    if ts != [] {
      PlacedExact(m, ts[0], r);
      AllPlacedExact(m, ts[1..], r);
      assert forall i :: 0 < i < |ts| ==> ts[i] == ts[1..][i - 1];
    }
  }

  lemma {:induction false} AllSidesPlacedExact(m: Module, cs: seq<Option<Ty>>, r: nat)
    ensures AllSidesPlaced(m, cs, r) <==> forall i :: 0 <= i < |cs| ==> SideFits(m, cs[i], r)
    decreases cs, 0
  {
    hide SideFits;
    if cs != [] {
      SidePlacedExact(m, cs[0], r);
      AllSidesPlacedExact(m, cs[1..], r);
      assert forall i :: 0 < i < |cs| ==> cs[i] == cs[1..][i - 1];
    }
  }

  /** A part in value position: of a definition whatever stands inside it, of any other type the type itself too. */
  ghost predicate Inner(u: Ty, ty: Ty) {
    match ty
    case Record(ts) => exists i :: 0 <= i < |ts| && PartOf(u, ts[i])
    case Variant(cs) => exists i :: 0 <= i < |cs| && cs[i].Some? && PartOf(u, cs[i].value)
    case Enum(_) => false
    case Flags(_) => false
    case _ => PartOf(u, ty)
  }

  /** Tags fit 31 bits and flags 64. */
  predicate Sized(ty: Ty) {
    match ty
    case Variant(cs) => 0 < |cs| < 0x8000_0000
    case Enum(n) => 0 < n < 0x8000_0000
    case Flags(n) => 0 < n <= 64
    case _ => true
  }

  lemma MentionsInner(ty: Ty, name: string)
    ensures Mentions(ty, name) <==> Inner(Named(name), ty)
  {
  }

  /** A definition is accepted exactly if its size is and everything in it fits. */
  lemma DeclaredExact(m: Module, ty: Ty, r: nat)
    ensures Declared(m, ty, r) <==> Sized(ty) && forall u :: Inner(u, ty) ==> Fits(m, u, r)
  {
    hide Fits;
    hide PartOf;
    match ty
    case Record(ts) => AllPlacedExact(m, ts, r);
    case Variant(cs) => AllSidesPlacedExact(m, cs, r);
    case Enum(_) =>
    case Flags(_) =>
    case _ => PlacedExact(m, ty, r);
  }

  lemma {:induction false} PartOfPart(u: Ty, v: Ty, ty: Ty)
    requires PartOf(u, v) && PartOf(v, ty)
    ensures PartOf(u, ty)
    decreases ty
  {
    if v != ty {
      match ty
      case List(t) => PartOfPart(u, v, t);
      case Opt(t) => PartOfPart(u, v, t);
      case Tuple(ts) =>
        var i :| 0 <= i < |ts| && PartOf(v, ts[i]);
        PartOfPart(u, v, ts[i]);
      case Record(ts) =>
        var i :| 0 <= i < |ts| && PartOf(v, ts[i]);
        PartOfPart(u, v, ts[i]);
      case Res(o, e) =>
        if o.Some? && PartOf(v, o.value) { PartOfPart(u, v, o.value); } else { PartOfPart(u, v, e.value); }
      case Variant(cs) =>
        var i :| 0 <= i < |cs| && cs[i].Some? && PartOf(v, cs[i].value);
        PartOfPart(u, v, cs[i].value);
      case _ =>
    }
  }

  predicate IsNominal(ty: Ty) {
    ty.Record? || ty.Variant? || ty.Enum? || ty.Flags?
  }

  /** Whatever stands in a definition is placed, unless it is the definition itself. */
  lemma PartPlaced(m: Module, u: Ty, ty: Ty, r: nat)
    requires Declared(m, ty, r) && PartOf(u, ty) && !IsNominal(u)
    ensures Placed(m, u, r)
  {
    hide Fits;
    hide Declared;
    hide Placed;
    DeclaredExact(m, ty, r);
    PlacedExact(m, u, r);
    forall w | PartOf(w, u) ensures Fits(m, w, r) {
      PartIsInner(w, u, ty);
    }
  }

  lemma PartIsInner(w: Ty, u: Ty, ty: Ty)
    requires PartOf(w, u) && PartOf(u, ty) && !IsNominal(u)
    ensures Inner(w, ty)
  {
    match ty
    case Record(ts) =>
      var i :| 0 <= i < |ts| && PartOf(u, ts[i]);
      PartOfPart(w, u, ts[i]);
    case Variant(cs) =>
      var i :| 0 <= i < |cs| && cs[i].Some? && PartOf(u, cs[i].value);
      PartOfPart(w, u, cs[i].value);
    case Enum(_) => assert false;
    case Flags(_) => assert false;
    case _ => PartOfPart(w, u, ty);
  }

  // ---------------------------------------------------------------------------
  // The wire type of a tree (`type_tree` of the Rust backend)
  // ---------------------------------------------------------------------------

  ghost function TypeOf(m: Module, ty: Ty, r: nat): Type
    requires Valid(m) && Declared(m, ty, r)
    decreases r, ty, 0
  {
    match ty
    case Prim(p) => p
    case List(t) => TList(TypeOf(m, t, r))
    case Opt(t) => TOption(TypeOf(m, t, r))
    case Tuple(ts) => TTuple(TypesOf(m, ts, r))
    case Res(o, e) => TResult(SideType(m, o, r), SideType(m, e, r))
    case Named(x) => TypeOf(m, m.types[x], m.rank[x])
    case Record(ts) => TRecord(TypesOf(m, ts, r))
    case Variant(cs) => TVariant(SideTypes(m, cs, r))
    case Enum(n) => TEnum(n)
    case Flags(n) => TFlags(n)
  }

  ghost function SideType(m: Module, side: Option<Ty>, r: nat): Option<Type>
    requires Valid(m) && SidePlaced(m, side, r)
    decreases r, side, 0
  {
    match side case None => None case Some(t) => Some(TypeOf(m, t, r))
  }

  ghost function TypesOf(m: Module, ts: seq<Ty>, r: nat): (tys: seq<Type>)
    requires Valid(m) && AllPlaced(m, ts, r)
    ensures |tys| == |ts|
    decreases r, ts, 0
  {
    if ts == [] then [] else [TypeOf(m, ts[0], r)] + TypesOf(m, ts[1..], r)
  }

  ghost function SideTypes(m: Module, cs: seq<Option<Ty>>, r: nat): (sides: seq<Option<Type>>)
    requires Valid(m) && AllSidesPlaced(m, cs, r)
    ensures |sides| == |cs|
    decreases r, cs, 0
  {
    if cs == [] then [] else [SideType(m, cs[0], r)] + SideTypes(m, cs[1..], r)
  }

  lemma {:induction false} SideTypesAt(m: Module, cs: seq<Option<Ty>>, r: nat, i: nat)
    requires Valid(m) && AllSidesPlaced(m, cs, r) && i < |cs|
    ensures SidePlaced(m, cs[i], r) && SideTypes(m, cs, r)[i] == SideType(m, cs[i], r)
  {
    if i > 0 {
      SideTypesAt(m, cs[1..], r, i - 1);
    }
  }

  lemma PlacedResolves(m: Module, ty: Ty, r: nat)
    requires Placed(m, ty, r)
    ensures Resolve(m, ty).Some? && NeedsBox(m, ty).Some?
  {
  }

  // ---------------------------------------------------------------------------
  // Result classes
  // ---------------------------------------------------------------------------

  /** A `result` whose err side is a message, or empty, becomes the language's own error. */
  datatype Class = NoResult | Plain | Message(ok: Option<Ty>, hasMsg: bool) | Typed

  /** `classify` of the backends. */
  function Classify(m: Module, result: Option<Ty>): Class {
    match result
    case None => NoResult
    case Some(t) =>
      match Resolve(m, t)
      case Some(Res(ok, None)) => Message(ok, false)
      case Some(Res(ok, Some(e))) => if Resolve(m, e) == Some(Prim(TString)) then Message(ok, true) else Typed
      case _ => Plain
  }
}
