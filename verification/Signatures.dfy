/**
 Function signatures of the interface: the four result classes, which every backend
 decides alike, and the parameter and reply types they put on the wire.
 */
module Signatures {
  import opened Bytes
  import opened Wire
  import opened Ir
  import opened Abi
  import opened Shapes

  /** The definition at the end of an alias chain, and the rank it stands at. */
  ghost function Under(m: Module, ty: Ty, r: nat): (u: (Ty, nat))
    requires Valid(m) && Declared(m, ty, r)
    ensures Declared(m, u.0, u.1) && TypeOf(m, u.0, u.1) == TypeOf(m, ty, r) && !u.0.Named?
    decreases r, ty
  {
    if ty.Named? then Under(m, m.types[ty.name], m.rank[ty.name]) else (ty, r)
  }

  lemma {:induction false} ResolveIsUnder(m: Module, ty: Ty, r: nat, n: nat)
    requires Valid(m) && Declared(m, ty, r) && ResolveFrom(m, ty, n).Some?
    ensures ResolveFrom(m, ty, n).value == Under(m, ty, r).0
    decreases n
  {
    if ty.Named? {
      ResolveIsUnder(m, m.types[ty.name], m.rank[ty.name], n - 1);
    }
  }

  /** The result class with the wire types the handlers and wrappers use. */
  ghost function RetOf(m: Module, result: Option<Ty>, r: nat): Ret
    requires Valid(m) && SidePlaced(m, result, r)
  {
    match result
    case None => RetNone
    case Some(t) =>
      match Classify(m, result)
      case Message(_, hasMsg) =>
        var (u, at) := Under(m, t, r);
        if u.Res? then RetStr(SideType(m, u.ok, at), hasMsg) else RetPlain(TypeOf(m, t, r))
      case Typed => RetTyped(TypeOf(m, t, r))
      case _ => RetPlain(TypeOf(m, t, r))
  }

  /**
   Whatever the class, the bytes of a status-0 reply have the declared result type: the
   message classes read and write exactly the `result` they stand for, through aliases.
   */
  lemma ReplyTypeIsDeclared(m: Module, result: Option<Ty>, r: nat)
    requires Valid(m) && SidePlaced(m, result, r)
    ensures ReplyType(RetOf(m, result, r)) == if result.Some? then TypeOf(m, result.value, r) else TTuple([])
    ensures RetOf(m, result, r).RetStr? <==> Classify(m, result).Message?
    ensures RetOf(m, result, r).RetTyped? <==> Classify(m, result).Typed?
  {
    hide TypeOf;
    hide ResolveFrom;
    if result.Some? {
      var t := result.value;
      PlacedResolves(m, t, r);
      ResolveIsUnder(m, t, r, ALIAS_LIMIT);
      var (u, at) := Under(m, t, r);
      if Classify(m, result).Message? {
        ResIsPlaced(m, u, at);
        MessageSides(m, u, at, Classify(m, result).hasMsg);
      }
    }
  }

  lemma ResIsPlaced(m: Module, u: Ty, at: nat)
    requires u.Res? && Declared(m, u, at)
    ensures Placed(m, u, at) && SidePlaced(m, u.ok, at) && SidePlaced(m, u.err, at)
  {
  }

  lemma MessageSides(m: Module, u: Ty, at: nat, hasMsg: bool)
    requires u.Res? && Valid(m) && Placed(m, u, at)
    requires if u.err.None? then !hasMsg else hasMsg && Resolve(m, u.err.value) == Some(Prim(TString))
    ensures TypeOf(m, u, at) == TResult(SideType(m, u.ok, at), if hasMsg then Some(TString) else None)
  {
    ResIsPlaced(m, u, at);
    if u.err.Some? {
      ResolveIsUnder(m, u.err.value, at, ALIAS_LIMIT);
      assert TypeOf(m, u.err.value, at) == TString;
    }
  }

  // ---------------------------------------------------------------------------
  // Which class
  // ---------------------------------------------------------------------------

  /** Under its aliases a type is a string exactly if it is one on the wire. */
  lemma StringIsString(m: Module, ty: Ty, r: nat)
    requires Valid(m) && Placed(m, ty, r)
    ensures Resolve(m, ty) == Some(Prim(TString)) <==> TypeOf(m, ty, r) == TString
  {
    hide TypeOf;
    hide ResolveFrom;
    PlacedResolves(m, ty, r);
    ResolveIsUnder(m, ty, r, ALIAS_LIMIT);
    var (u, at) := Under(m, ty, r);
    TreeOfType(m, u, at);
  }

  /** A definition that is no alias has the shape of its wire type. */
  lemma TreeOfType(m: Module, u: Ty, r: nat)
    requires Valid(m) && Declared(m, u, r) && !u.Named?
    ensures TypeOf(m, u, r) == TString <==> u == Prim(TString)
    ensures TypeOf(m, u, r).TResult? <==> u.Res?
    ensures u.Res? ==> SidePlaced(m, u.ok, r) && SidePlaced(m, u.err, r)
    ensures u.Res? ==> TypeOf(m, u, r) == TResult(SideType(m, u.ok, r), SideType(m, u.err, r))
  {
  }

  /**
   The class of a result type is decided by the definition its aliases lead to: no result
   at all is returned plainly; a result without an err side, or with a string there, becomes
   the language's own error over the ok side; any other result is returned whole.
   */
  lemma ClassIs(m: Module, t: Ty, r: nat)
    requires Valid(m) && Placed(m, t, r)
    ensures RetOf(m, None, r) == RetNone
    ensures var (u, at) := Under(m, t, r);
            var ret := RetOf(m, Some(t), r);
            && (!u.Res? ==> ret == RetPlain(TypeOf(m, t, r)))
            && (u.Res? ==> SidePlaced(m, u.ok, at) && SidePlaced(m, u.err, at))
            && (u.Res? && u.err.None? ==> ret == RetStr(SideType(m, u.ok, at), false))
            && (u.Res? && SideType(m, u.err, at) == Some(TString) ==> ret == RetStr(SideType(m, u.ok, at), true))
            && (u.Res? && u.err.Some? && SideType(m, u.err, at) != Some(TString) ==> ret == RetTyped(TypeOf(m, t, r)))
  {
    hide TypeOf;
    hide ResolveFrom;
    PlacedResolves(m, t, r);
    ResolveIsUnder(m, t, r, ALIAS_LIMIT);
    var (u, at) := Under(m, t, r);
    TreeOfType(m, u, at);
    if u.Res? && u.err.Some? {
      StringIsString(m, u.err.value, at);
    }
  }

  /** The class of a wire type: what every backend has to agree on. */
  lemma ClassOnTheWire(m: Module, t: Ty, r: nat)
    requires Valid(m) && Placed(m, t, r)
    ensures RetOf(m, Some(t), r) ==
            match TypeOf(m, t, r)
            case TResult(ok, None) => RetStr(ok, false)
            case TResult(ok, Some(TString)) => RetStr(ok, true)
            case TResult(_, Some(_)) => RetTyped(TypeOf(m, t, r))
            case _ => RetPlain(TypeOf(m, t, r))
  {
    hide TypeOf;
    hide RetOf;
    ClassIs(m, t, r);
    var (u, at) := Under(m, t, r);
    TreeOfType(m, u, at);
  }

  /**
   The value that a function's wrapper class holds: nothing without a result, the ok side
   of a result that becomes an error, and otherwise the result type as it was written.
   */
  lemma ReturnedIs(m: Module, result: Option<Ty>, r: nat)
    requires Valid(m) && SidePlaced(m, result, r)
    ensures match RetOf(m, result, r)
            case RetNone => result.None? && Returned(m, result) == None
            case RetPlain(_) => Returned(m, result) == result
            case RetTyped(_) => Returned(m, result) == result
            case RetStr(_, _) => result.Some? && Returned(m, result) == Under(m, result.value, r).0.ok
  {
    hide TypeOf;
    hide ResolveFrom;
    if result.Some? {
      var t := result.value;
      PlacedResolves(m, t, r);
      ResolveIsUnder(m, t, r, ALIAS_LIMIT);
      ClassIs(m, t, r);
    }
  }
}
