/**
 The shared-shape classes of the AssemblyScript backend.
 */
module Shapes {
  import opened Bytes
  import opened Wire
  import opened Ir
  import opened ShapeNames

  // ---------------------------------------------------------------------------
  // Shapes a type needs
  // ---------------------------------------------------------------------------

  datatype Shape =
    | OptionBox(payload: Ty)
    | TupleOf(members: seq<Ty>)
    | ResultVal(ok: Option<Ty>, err: Option<Ty>)
    | Return(value: Option<Ty>)

  /** A class name and the shape it is wanted for. */
  datatype Request = Request(name: string, shape: Shape)

  /** `scan_ty`: the requests of a type, in the order they are made. */
  function Needs(m: Module, ty: Ty): seq<Request>
    decreases ty, 0
  {
    match ty
    case List(t) => Needs(m, t)
    case Opt(t) => (if Boxed(m, t) then [Request(Token(ty), OptionBox(t))] else []) + Needs(m, t)
    case Tuple(ts) => [Request(Token(ty), TupleOf(ts))] + AllNeeds(m, ts)
    case Res(o, e) => [Request(Token(ty), ResultVal(o, e))] + SideNeeds(m, o) + SideNeeds(m, e)
    case Record(ts) => AllNeeds(m, ts)
    case Variant(cs) => CaseNeeds(m, cs)
    case _ => []
  }

  function SideNeeds(m: Module, side: Option<Ty>): seq<Request>
    decreases side, 0
  {
    if side.Some? then Needs(m, side.value) else []
  }

  function AllNeeds(m: Module, ts: seq<Ty>): seq<Request>
    decreases ts, 0
  {
    if ts == [] then [] else Needs(m, ts[0]) + AllNeeds(m, ts[1..])
  }

  function CaseNeeds(m: Module, cs: seq<Option<Ty>>): seq<Request>
    decreases cs, 0
  {
    if cs == [] then [] else SideNeeds(m, cs[0]) + CaseNeeds(m, cs[1..])
  }

  // ---------------------------------------------------------------------------
  // Exactly which
  // ---------------------------------------------------------------------------

  /** A type without a name of its own that needs a class, and the class. */
  ghost predicate Wants(m: Module, u: Ty, q: Request) {
    match u
    case Opt(t) => Boxed(m, t) && q == Request(Token(u), OptionBox(t))
    case Tuple(ts) => q == Request(Token(u), TupleOf(ts))
    case Res(o, e) => q == Request(Token(u), ResultVal(o, e))
    case _ => false
  }

  ghost predicate WantedIn(m: Module, ty: Ty, q: Request) {
    exists u :: PartOf(u, ty) && Wants(m, u, q)
  }

  /** A scan requests what some part of the type wants, and nothing else. */
  lemma {:induction false} NeedsExact(m: Module, ty: Ty, q: Request)
    ensures q in Needs(m, ty) <==> WantedIn(m, ty, q)
    decreases ty, 0
  {
    hide Boxed;
    hide Token;
    assert PartOf(ty, ty);
    match ty
    case List(t) => NeedsExact(m, t, q);
    case Opt(t) => NeedsExact(m, t, q);
    case Tuple(ts) => AllNeedsExact(m, ts, q);
    case Res(o, e) =>
      SideNeedsExact(m, o, q);
      SideNeedsExact(m, e, q);
    case Record(ts) => AllNeedsExact(m, ts, q);
    case Variant(cs) => CaseNeedsExact(m, cs, q);
    case _ =>
  }

  lemma {:induction false} SideNeedsExact(m: Module, side: Option<Ty>, q: Request)
    ensures q in SideNeeds(m, side) <==> side.Some? && WantedIn(m, side.value, q)
    decreases side, 0
  {
    hide WantedIn;
    if side.Some? {
      NeedsExact(m, side.value, q);
    }
  }

  lemma {:induction false} AllNeedsExact(m: Module, ts: seq<Ty>, q: Request)
    ensures q in AllNeeds(m, ts) <==> exists i :: 0 <= i < |ts| && WantedIn(m, ts[i], q)
    decreases ts, 0
  {
    hide WantedIn;
    if ts != [] {
      NeedsExact(m, ts[0], q);
      AllNeedsExact(m, ts[1..], q);
      assert forall i :: 0 < i < |ts| ==> ts[i] == ts[1..][i - 1];
    }
  }

  lemma {:induction false} CaseNeedsExact(m: Module, cs: seq<Option<Ty>>, q: Request)
    ensures q in CaseNeeds(m, cs) <==> exists i :: 0 <= i < |cs| && cs[i].Some? && WantedIn(m, cs[i].value, q)
    decreases cs, 0
  {
    hide WantedIn;
    if cs != [] {
      SideNeedsExact(m, cs[0], q);
      CaseNeedsExact(m, cs[1..], q);
      assert forall i :: 0 < i < |cs| ==> cs[i] == cs[1..][i - 1];
    }
  }

  // ---------------------------------------------------------------------------
  // The table
  // ---------------------------------------------------------------------------

  /** No two requests give one name to two shapes. */
  ghost predicate Consistent(reqs: seq<Request>) {
    forall i, j :: 0 <= i < |reqs| && 0 <= j < |reqs| && reqs[i].name == reqs[j].name ==> reqs[i] == reqs[j]
  }

  ghost predicate UniqueNames(table: seq<Request>) {
    forall i, j :: 0 <= i < j < |table| ==> table[i].name != table[j].name
  }

  /** One class for every shape requested, and nothing else. */
  ghost predicate Covers(table: seq<Request>, reqs: seq<Request>) {
    UniqueNames(table) && forall q :: q in table <==> q in reqs
  }

  class Accumulator {
    var list: seq<Request>
    var index: map<string, nat>
    ghost var made: seq<Request>

    ghost predicate Valid()
      reads this
    {
      && Covers(list, made) && Consistent(made)
      && (forall name :: name in index ==> index[name] < |list| && list[index[name]].name == name)
      && (forall i :: 0 <= i < |list| ==> list[i].name in index)
    }

    constructor ()
      ensures Valid() && made == []
    {
      list := [];
      index := map[];
      made := [];
    }

    /** Fails exactly when the name already stands for another shape. */
    method Add(name: string, shape: Shape) returns (ok: bool)
      requires Valid()
      modifies this
      ensures ok ==> Valid() && made == old(made) + [Request(name, shape)]
      ensures !ok ==> !Consistent(old(made) + [Request(name, shape)])
    {
      var q := Request(name, shape);
      if name in index {
        var at := list[index[name]];
        if at.shape != shape {
          assert at in made;
          Clash(made, q, at);
          return false;
        }
        assert at == q;
        AddAgain(list, made, q);
        made := made + [q];
        return true;
      }
      AddNew(list, made, q);
      index := index[name := |list|];
      list := list + [q];
      made := made + [q];
      return true;
    }

    /** `scan_ty` */
    method Scan(m: Module, ty: Ty, r: nat) returns (ok: bool)
      requires Valid() && Declared(m, ty, r)
      modifies this
      ensures ok ==> Valid() && made == old(made) + Needs(m, ty)
      ensures !ok ==> !Consistent(old(made) + Needs(m, ty))
      decreases ty, 1
    {
      hide Consistent;
      hide Covers;
      hide Token;
      ghost var before := made;
      match ty
      case List(t) => ok := Scan(m, t, r);
      case Opt(t) =>
        ok := true;
        if Boxed(m, t) {
          ok := Add(Token(ty), OptionBox(t));
          if !ok {
            StaysClashing(before + [Request(Token(ty), OptionBox(t))], Needs(m, t));
            assert before + [Request(Token(ty), OptionBox(t))] + Needs(m, t) == before + Needs(m, ty);
            return;
          }
        }
        if Boxed(m, t) {
          assert before + [Request(Token(ty), OptionBox(t))] + Needs(m, t) == before + Needs(m, ty);
        } else {
          assert [] + Needs(m, t) == Needs(m, t);
        }
        ok := Scan(m, t, r);
      case Tuple(ts) =>
        ok := Add(Token(ty), TupleOf(ts));
        var q := Request(Token(ty), TupleOf(ts));
        assert before + [q] + AllNeeds(m, ts) == before + Needs(m, ty);
        if !ok {
          StaysClashing(before + [q], AllNeeds(m, ts));
          return;
        }
        ok := ScanAll(m, ts, r);
      case Res(o, e) =>
        ok := Add(Token(ty), ResultVal(o, e));
        var q := Request(Token(ty), ResultVal(o, e));
        var rest := SideNeeds(m, o) + SideNeeds(m, e);
        assert before + [q] + rest == before + Needs(m, ty);
        if !ok {
          StaysClashing(before + [q], rest);
          return;
        }
        assert before + [q] + SideNeeds(m, o) + SideNeeds(m, e) == before + [q] + rest;
        ok := ScanSide(m, o, r);
        if !ok {
          StaysClashing(before + [q] + SideNeeds(m, o), SideNeeds(m, e));
          return;
        }
        ok := ScanSide(m, e, r);
      case Record(ts) => ok := ScanAll(m, ts, r);
      case Variant(cs) => ok := ScanCases(m, cs, r);
      case _ =>
        assert before + [] == before;
        ok := true;
    }

    method ScanSide(m: Module, side: Option<Ty>, r: nat) returns (ok: bool)
      requires Valid() && SidePlaced(m, side, r)
      modifies this
      ensures ok ==> Valid() && made == old(made) + SideNeeds(m, side)
      ensures !ok ==> !Consistent(old(made) + SideNeeds(m, side))
      decreases side, 0
    {
      if side.None? {
        assert made + [] == made;
        return true;
      }
      ok := Scan(m, side.value, r);
    }

    method ScanAll(m: Module, ts: seq<Ty>, r: nat) returns (ok: bool)
      requires Valid() && AllPlaced(m, ts, r)
      modifies this
      ensures ok ==> Valid() && made == old(made) + AllNeeds(m, ts)
      ensures !ok ==> !Consistent(old(made) + AllNeeds(m, ts))
      decreases ts, 0
    {
      hide Consistent;
      if ts == [] {
        assert made + [] == made;
        return true;
      }
      ghost var before := made;
      assert before + Needs(m, ts[0]) + AllNeeds(m, ts[1..]) == before + AllNeeds(m, ts);
      ok := Scan(m, ts[0], r);
      if !ok {
        StaysClashing(before + Needs(m, ts[0]), AllNeeds(m, ts[1..]));
        return;
      }
      ok := ScanAll(m, ts[1..], r);
    }

    method ScanCases(m: Module, cs: seq<Option<Ty>>, r: nat) returns (ok: bool)
      requires Valid() && AllSidesPlaced(m, cs, r)
      modifies this
      ensures ok ==> Valid() && made == old(made) + CaseNeeds(m, cs)
      ensures !ok ==> !Consistent(old(made) + CaseNeeds(m, cs))
      decreases cs, 0
    {
      hide Consistent;
      if cs == [] {
        assert made + [] == made;
        return true;
      }
      ghost var before := made;
      assert before + SideNeeds(m, cs[0]) + CaseNeeds(m, cs[1..]) == before + CaseNeeds(m, cs);
      ok := ScanSide(m, cs[0], r);
      if !ok {
        StaysClashing(before + SideNeeds(m, cs[0]), CaseNeeds(m, cs[1..]));
        return;
      }
      ok := ScanCases(m, cs[1..], r);
    }
  }

  lemma Clash(made: seq<Request>, q: Request, at: Request)
    requires at in made && at.name == q.name && at != q
    ensures !Consistent(made + [q])
  {
    var i :| 0 <= i < |made| && made[i] == at;
    var more := made + [q];
    assert more[i] == at && more[|made|] == q;
  }

  lemma AddAgain(list: seq<Request>, made: seq<Request>, q: Request)
    requires Covers(list, made) && Consistent(made) && q in made
    ensures Covers(list, made + [q]) && Consistent(made + [q])
  {
    var more := made + [q];
    forall i, j | 0 <= i < |more| && 0 <= j < |more| && more[i].name == more[j].name ensures more[i] == more[j] {
      assert more[i] in made && more[j] in made;
    }
  }

  lemma AddNew(list: seq<Request>, made: seq<Request>, q: Request)
    requires Covers(list, made) && Consistent(made) && forall i :: 0 <= i < |list| ==> list[i].name != q.name
    ensures Covers(list + [q], made + [q]) && Consistent(made + [q])
  {
    var more := made + [q];
    forall x | x in made ensures x.name != q.name {
      assert x in list;
    }
    forall i, j | 0 <= i < |more| && 0 <= j < |more| && more[i].name == more[j].name ensures more[i] == more[j] {
      assert i < |made| ==> more[i] in made;
      assert j < |made| ==> more[j] in made;
    }
  }

  lemma StaysClashing(a: seq<Request>, b: seq<Request>)
    requires !Consistent(a)
    ensures !Consistent(a + b)
  {
    var i, j :| 0 <= i < |a| && 0 <= j < |a| && a[i].name == a[j].name && a[i] != a[j];
    assert (a + b)[i] == a[i] && (a + b)[j] == a[j];
  }

  // ---------------------------------------------------------------------------
  // A whole module
  // ---------------------------------------------------------------------------

  datatype Func = Func(params: seq<Ty>, result: Option<Ty>)

  /** The result type whose value the wrapper class of a function holds, if any (`res_value`). */
  function Returned(m: Module, result: Option<Ty>): Option<Ty> {
    match Classify(m, result)
    case NoResult => None
    case Message(ok, _) => ok
    case _ => result
  }

  /** `res_name` */
  function ReturnName(value: Option<Ty>): string {
    if value.Some? then "Res" + Token(value.value) else "ResVoid"
  }

  function FuncNeeds(m: Module, f: Func): seq<Request> {
    var value := Returned(m, f.result);
    AllNeeds(m, f.params) + SideNeeds(m, value) + [Request(ReturnName(value), Return(value))]
  }

  function FuncsNeed(m: Module, fs: seq<Func>): seq<Request> {
    if fs == [] then [] else FuncNeeds(m, fs[0]) + FuncsNeed(m, fs[1..])
  }

  /** The definitions of the named types, in declaration order. */
  function DeclsNeed(m: Module, defs: seq<Ty>): seq<Request> {
    if defs == [] then [] else Needs(m, defs[0]) + DeclsNeed(m, defs[1..])
  }

  function Requests(m: Module, defs: seq<Ty>, fs: seq<Func>): seq<Request> {
    DeclsNeed(m, defs) + FuncsNeed(m, fs)
  }

  ghost predicate Accepted(m: Module, defs: seq<Ty>, fs: seq<Func>, r: nat) {
    && (forall i :: 0 <= i < |defs| ==> Declared(m, defs[i], r))
    && forall i :: 0 <= i < |fs| ==> AllPlaced(m, fs[i].params, r) && SidePlaced(m, Returned(m, fs[i].result), r)
  }

  /** What a function wants: what its parameters and its returned value want, and its wrapper class. */
  ghost predicate WantedBy(m: Module, f: Func, q: Request) {
    var value := Returned(m, f.result);
    || (exists i :: 0 <= i < |f.params| && WantedIn(m, f.params[i], q))
    || (value.Some? && WantedIn(m, value.value, q))
    || q == Request("Res" + (if value.Some? then Token(value.value) else "Void"), Return(value))
  }

  lemma FuncNeedsExact(m: Module, f: Func, q: Request)
    ensures q in FuncNeeds(m, f) <==> WantedBy(m, f, q)
  {
    hide WantedIn;
    hide Returned;
    hide Needs;
    var value := Returned(m, f.result);
    AllNeedsExact(m, f.params, q);
    SideNeedsExact(m, value, q);
    assert "Res" + "Void" == "ResVoid";
  }

  lemma {:induction false} DeclsNeedExact(m: Module, defs: seq<Ty>, q: Request)
    ensures q in DeclsNeed(m, defs) <==> exists i :: 0 <= i < |defs| && WantedIn(m, defs[i], q)
  {
    hide WantedIn;
    if defs != [] {
      NeedsExact(m, defs[0], q);
      DeclsNeedExact(m, defs[1..], q);
      assert forall i :: 0 < i < |defs| ==> defs[i] == defs[1..][i - 1];
    }
  }

  lemma {:induction false} FuncsNeedExact(m: Module, fs: seq<Func>, q: Request)
    ensures q in FuncsNeed(m, fs) <==> exists i :: 0 <= i < |fs| && WantedBy(m, fs[i], q)
  {
    hide WantedBy;
    hide FuncNeeds;
    if fs != [] {
      FuncNeedsExact(m, fs[0], q);
      FuncsNeedExact(m, fs[1..], q);
      assert forall i :: 0 < i < |fs| ==> fs[i] == fs[1..][i - 1];
    }
  }

  /** The requests of a module are what its definitions and its functions want. */
  lemma RequestsExact(m: Module, defs: seq<Ty>, fs: seq<Func>, q: Request)
    ensures q in Requests(m, defs, fs) <==>
            || (exists i :: 0 <= i < |defs| && WantedIn(m, defs[i], q))
            || exists i :: 0 <= i < |fs| && WantedBy(m, fs[i], q)
  {
    hide WantedBy;
    hide WantedIn;
    DeclsNeedExact(m, defs, q);
    FuncsNeedExact(m, fs, q);
  }

  // ---------------------------------------------------------------------------
  // Names without clashes
  // ---------------------------------------------------------------------------

  /** A shape whose class is named by a type is that type; the wrapper classes have names of their own. */
  function TypeFor(shape: Shape): Option<Ty> {
    match shape
    case OptionBox(t) => Some(Opt(t))
    case TupleOf(ts) => Some(Tuple(ts))
    case ResultVal(o, e) => Some(Res(o, e))
    case Return(_) => None
  }

  /** A request whose name is the one of its shape. */
  ghost predicate Proper(m: Module, q: Request, r: nat) {
    match q.shape
    case Return(v) => SidePlaced(m, v, r) && q.name == "Res" + SideToken(v)
    case _ => Placed(m, TypeFor(q.shape).value, r) && q.name == Token(TypeFor(q.shape).value)
  }

  lemma WantedIsProper(m: Module, ty: Ty, q: Request, r: nat)
    requires Declared(m, ty, r) && WantedIn(m, ty, q)
    ensures Proper(m, q, r)
  {
    hide Declared;
    hide Token;
    hide Placed;
    hide Boxed;
    hide PartOf;
    var u :| PartOf(u, ty) && Wants(m, u, q);
    PartPlaced(m, u, ty, r);
  }

  lemma {:induction false} PlacedAt(m: Module, ts: seq<Ty>, r: nat, i: nat)
    requires AllPlaced(m, ts, r) && i < |ts|
    ensures Placed(m, ts[i], r)
  {
    if i > 0 {
      PlacedAt(m, ts[1..], r, i - 1);
    }
  }

  lemma PlacedIsDeclared(m: Module, ty: Ty, r: nat)
    requires Placed(m, ty, r)
    ensures Declared(m, ty, r)
  {
  }

  lemma RequestIsProper(m: Module, defs: seq<Ty>, fs: seq<Func>, r: nat, q: Request)
    requires Accepted(m, defs, fs, r) && q in Requests(m, defs, fs)
    ensures Proper(m, q, r)
  {
    hide WantedIn;
    hide Declared;
    hide Placed;
    hide AllPlaced;
    hide Requests;
    hide Returned;
    hide Proper;
    RequestsExact(m, defs, fs, q);
    if exists i :: 0 <= i < |defs| && WantedIn(m, defs[i], q) {
      var i :| 0 <= i < |defs| && WantedIn(m, defs[i], q);
      WantedIsProper(m, defs[i], q, r);
    } else {
      var i :| 0 <= i < |fs| && WantedBy(m, fs[i], q);
      FuncRequestIsProper(m, fs[i], r, q);
    }
  }

  lemma FuncRequestIsProper(m: Module, f: Func, r: nat, q: Request)
    requires AllPlaced(m, f.params, r) && SidePlaced(m, Returned(m, f.result), r) && WantedBy(m, f, q)
    ensures Proper(m, q, r)
  {
    hide WantedIn;
    hide Declared;
    hide Placed;
    hide Returned;
    var value := Returned(m, f.result);
    if exists i :: 0 <= i < |f.params| && WantedIn(m, f.params[i], q) {
      var i :| 0 <= i < |f.params| && WantedIn(m, f.params[i], q);
      PlacedAt(m, f.params, r, i);
      PlacedIsDeclared(m, f.params[i], r);
      WantedIsProper(m, f.params[i], q, r);
    } else if value.Some? && WantedIn(m, value.value, q) {
      PlacedIsDeclared(m, value.value, r);
      WantedIsProper(m, value.value, q, r);
    }
  }

  lemma SameNameSameShape(m: Module, r: nat, q: Request, p: Request)
    requires Apart(m.types.Keys) && Proper(m, q, r) && Proper(m, p, r) && q.name == p.name
    ensures q == p
  {
    hide Apart;
    hide Placed;
    hide Token;
    if q.shape.Return? && p.shape.Return? {
      var v, w := q.shape.value, p.shape.value;
      assert SideToken(v) + "" == q.name[3..] == p.name[3..] == SideToken(w) + "";
      SideUnique(m, v, w, r, "", "");
    } else if q.shape.Return? {
      WrapperApart(m, q.shape.value, TypeFor(p.shape).value, r);
    } else if p.shape.Return? {
      WrapperApart(m, p.shape.value, TypeFor(q.shape).value, r);
    } else {
      var a, b := TypeFor(q.shape).value, TypeFor(p.shape).value;
      if a != b {
        TokensDiffer(m, a, b, r);
      }
    }
  }

  /** No wrapper class has the name of another class: `Res` is followed by a capital, and `Result` is not. */
  lemma WrapperApart(m: Module, v: Option<Ty>, ty: Ty, r: nat)
    requires Apart(m.types.Keys) && SidePlaced(m, v, r) && (ty.Opt? || ty.Tuple? || ty.Res?)
    ensures "Res" + SideToken(v) != Token(ty)
  {
    hide Apart;
    hide Placed;
    SideStartsUpper(m, v, r);
    var name := "Res" + SideToken(v);
    assert name[0] == 'R' && IsUpper(name[3]);
    assert Token(ty)[0] == 'R' ==> Token(ty)[3] == 'u';
  }

  /** Where the names of a module keep apart, no two of its shapes want one name. */
  lemma ApartIsConsistent(m: Module, defs: seq<Ty>, fs: seq<Func>, r: nat)
    requires Accepted(m, defs, fs, r) && Apart(m.types.Keys)
    ensures Consistent(Requests(m, defs, fs))
  {
    hide Accepted;
    hide Requests;
    hide Apart;
    hide Proper;
    var reqs := Requests(m, defs, fs);
    forall i, j | 0 <= i < |reqs| && 0 <= j < |reqs| && reqs[i].name == reqs[j].name ensures reqs[i] == reqs[j] {
      RequestIsProper(m, defs, fs, r, reqs[i]);
      RequestIsProper(m, defs, fs, r, reqs[j]);
      SameNameSameShape(m, r, reqs[i], reqs[j]);
    }
  }

  /** The definitions, as the first half of `collect_shapes` scans them. */
  method CollectDecls(m: Module, defs: seq<Ty>, r: nat, shapes: Accumulator) returns (ok: bool)
    requires shapes.Valid() && forall i :: 0 <= i < |defs| ==> Declared(m, defs[i], r)
    modifies shapes
    ensures ok ==> shapes.Valid() && shapes.made == old(shapes.made) + DeclsNeed(m, defs)
    ensures !ok ==> !Consistent(old(shapes.made) + DeclsNeed(m, defs))
  {
    hide Consistent;
    hide Needs;
    ghost var all := shapes.made + DeclsNeed(m, defs);
    assert defs[0..] == defs;
    for i := 0 to |defs|
      invariant shapes.Valid() && shapes.made + DeclsNeed(m, defs[i..]) == all
    {
      ghost var rest := DeclsNeed(m, defs[i + 1..]);
      assert defs[i..][0] == defs[i] && defs[i..][1..] == defs[i + 1..];
      ghost var before := shapes.made + Needs(m, defs[i]);
      assert before + rest == all;
      ok := shapes.Scan(m, defs[i], r);
      if !ok {
        StaysClashing(before, rest);
        return;
      }
    }
    assert defs[|defs|..] == [] && shapes.made + [] == shapes.made;
    ok := true;
  }

  method CollectFuncs(m: Module, fs: seq<Func>, r: nat, shapes: Accumulator) returns (ok: bool)
    requires shapes.Valid()
    requires forall i :: 0 <= i < |fs| ==>
               AllPlaced(m, fs[i].params, r) && SidePlaced(m, Returned(m, fs[i].result), r)
    modifies shapes
    ensures ok ==> shapes.Valid() && shapes.made == old(shapes.made) + FuncsNeed(m, fs)
    ensures !ok ==> !Consistent(old(shapes.made) + FuncsNeed(m, fs))
  {
    hide Consistent;
    hide FuncNeeds;
    hide Returned;
    ghost var all := shapes.made + FuncsNeed(m, fs);
    assert fs[0..] == fs;
    for i := 0 to |fs|
      invariant shapes.Valid() && shapes.made + FuncsNeed(m, fs[i..]) == all
    {
      ghost var rest := FuncsNeed(m, fs[i + 1..]);
      assert fs[i..][0] == fs[i] && fs[i..][1..] == fs[i + 1..];
      ghost var before := shapes.made + FuncNeeds(m, fs[i]);
      assert before + rest == all;
      ok := CollectFunc(m, fs[i], r, shapes);
      if !ok {
        StaysClashing(before, rest);
        return;
      }
    }
    assert fs[|fs|..] == [] && shapes.made + [] == shapes.made;
    ok := true;
  }

  /**
   `collect_shapes`: every definition, then every function. It fails exactly when one
   name would stand for two shapes, never if the names of the module keep apart; otherwise
   every requested shape has its class.
   */
  method CollectShapes(m: Module, defs: seq<Ty>, fs: seq<Func>, r: nat) returns (table: Option<seq<Request>>)
    requires Accepted(m, defs, fs, r)
    ensures table.Some? <==> Consistent(Requests(m, defs, fs))
    ensures Apart(m.types.Keys) ==> table.Some?
    ensures table.Some? ==> Covers(table.value, Requests(m, defs, fs))
    ensures table.Some? && (forall x :: x in m.types ==> m.types[x] in defs) ==> Complete(m, defs, fs, table.value)
  {
    hide Consistent;
    hide Covers;
    hide DeclsNeed;
    hide FuncsNeed;
    hide Complete;
    hide Apart;
    if Apart(m.types.Keys) {
      ApartIsConsistent(m, defs, fs, r);
    }
    var shapes := new Accumulator();
    var ok := CollectDecls(m, defs, r, shapes);
    assert [] + DeclsNeed(m, defs) == DeclsNeed(m, defs);
    if !ok {
      StaysClashing(DeclsNeed(m, defs), FuncsNeed(m, fs));
      return None;
    }
    ok := CollectFuncs(m, fs, r, shapes);
    if !ok {
      return None;
    }
    ValidFacts(shapes);
    if forall x :: x in m.types ==> m.types[x] in defs {
      TableIsComplete(m, defs, fs, shapes.list);
    }
    return Some(shapes.list);
  }

  lemma ValidFacts(shapes: Accumulator)
    requires shapes.Valid()
    ensures Covers(shapes.list, shapes.made) && Consistent(shapes.made)
  {
  }

  method CollectFunc(m: Module, f: Func, r: nat, shapes: Accumulator) returns (ok: bool)
    requires shapes.Valid() && AllPlaced(m, f.params, r) && SidePlaced(m, Returned(m, f.result), r)
    modifies shapes
    ensures ok ==> shapes.Valid() && shapes.made == old(shapes.made) + FuncNeeds(m, f)
    ensures !ok ==> !Consistent(old(shapes.made) + FuncNeeds(m, f))
  {
    hide Consistent;
    var value := Returned(m, f.result);
    var q := Request(ReturnName(value), Return(value));
    ghost var a, b, c := shapes.made, AllNeeds(m, f.params), SideNeeds(m, value);
    assert a + b + (c + [q]) == a + FuncNeeds(m, f);
    assert a + b + c + [q] == a + FuncNeeds(m, f);
    ok := shapes.ScanAll(m, f.params, r);
    if !ok {
      StaysClashing(a + b, c + [q]);
      return;
    }
    ok := shapes.ScanSide(m, value, r);
    if !ok {
      StaysClashing(a + b + c, [q]);
      return;
    }
    ok := shapes.Add(q.name, q.shape);
  }

  // ---------------------------------------------------------------------------
  // What the emitted code mentions
  // ---------------------------------------------------------------------------

  /** The classes a type expression (`as_ty`) names. */
  function TypeMentions(m: Module, ty: Ty): set<Request> {
    match ty
    case List(t) => TypeMentions(m, t)
    case Opt(t) => if Boxed(m, t) then {Request(Token(ty), OptionBox(t))} else TypeMentions(m, t)
    case Tuple(ts) => {Request(Token(ty), TupleOf(ts))}
    case Res(o, e) => {Request(Token(ty), ResultVal(o, e))}
    case _ => {}
  }

  /** The classes a default value (`default_expr`) names; an alias is resolved first. */
  function DefaultMentions(m: Module, ty: Ty): set<Request> {
    match Resolve(m, ty)
    case Some(List(t)) => TypeMentions(m, t)
    case Some(Tuple(ts)) => {Request(Token(Tuple(ts)), TupleOf(ts))}
    case Some(Res(o, e)) => {Request(Token(Res(o, e)), ResultVal(o, e))}
    case _ => {}
  }

  /** A local or field of the type: its type expression and its default. */
  function SlotMentions(m: Module, ty: Ty): set<Request> {
    TypeMentions(m, ty) + DefaultMentions(m, ty)
  }

  /** The classes the emitted decode statements name. */
  function CodeMentions(m: Module, ty: Ty): set<Request>
    decreases ty, 0
  {
    match ty
    case List(t) => SlotMentions(m, t) + CodeMentions(m, t)
    case Opt(t) => TypeMentions(m, ty) + SlotMentions(m, t) + CodeMentions(m, t)
    case Tuple(ts) => AllCodeMentions(m, ts)
    case Res(o, e) => SideCodeMentions(m, o) + SideCodeMentions(m, e)
    case _ => {}
  }

  function SideCodeMentions(m: Module, side: Option<Ty>): set<Request>
    decreases side, 0
  {
    if side.Some? then SlotMentions(m, side.value) + CodeMentions(m, side.value) else {}
  }

  function AllCodeMentions(m: Module, ts: seq<Ty>): set<Request>
    decreases ts, 0
  {
    if ts == [] then {} else SlotMentions(m, ts[0]) + CodeMentions(m, ts[0]) + AllCodeMentions(m, ts[1..])
  }

  ghost predicate Within(qs: set<Request>, reqs: seq<Request>) {
    forall q :: q in qs ==> q in reqs
  }

  ghost predicate Includes(reqs: seq<Request>, some: seq<Request>) {
    forall q :: q in some ==> q in reqs
  }

  /** The definitions of all named types were scanned. */
  ghost predicate Scanned(m: Module, reqs: seq<Request>) {
    forall x :: x in m.types ==> Includes(reqs, Needs(m, m.types[x]))
  }

  lemma {:induction false} TypeNeeded(m: Module, ty: Ty)
    ensures Within(TypeMentions(m, ty), Needs(m, ty))
  {
    match ty
    case List(t) => TypeNeeded(m, t);
    case Opt(t) => TypeNeeded(m, t);
    case _ =>
  }

  lemma {:induction false} ResolvedScanned(m: Module, ty: Ty, n: nat, reqs: seq<Request>)
    requires Scanned(m, reqs) && ResolveFrom(m, ty, n).Some? && Includes(reqs, Needs(m, ty))
    ensures Includes(reqs, Needs(m, ResolveFrom(m, ty, n).value))
    decreases n
  {
    if ty.Named? {
      ResolvedScanned(m, m.types[ty.name], n - 1, reqs);
    }
  }

  lemma SlotNeeded(m: Module, ty: Ty, reqs: seq<Request>)
    requires Scanned(m, reqs) && Includes(reqs, Needs(m, ty))
    ensures Within(SlotMentions(m, ty), reqs)
  {
    hide Scanned;
    TypeNeeded(m, ty);
    if Resolve(m, ty).Some? {
      ResolvedScanned(m, ty, ALIAS_LIMIT, reqs);
      var u := Resolve(m, ty).value;
      if u.List? {
        TypeNeeded(m, u.t);
      }
    }
  }

  /** Every class the code of a scanned type names was requested. */
  lemma {:induction false} CodeNeeded(m: Module, ty: Ty, reqs: seq<Request>)
    requires Scanned(m, reqs) && Includes(reqs, Needs(m, ty))
    ensures Within(CodeMentions(m, ty), reqs)
    decreases ty, 0
  {
    hide Scanned;
    hide SlotMentions;
    match ty
    case List(t) =>
      SlotNeeded(m, t, reqs);
      CodeNeeded(m, t, reqs);
    case Opt(t) =>
      TypeNeeded(m, ty);
      SlotNeeded(m, t, reqs);
      CodeNeeded(m, t, reqs);
    case Tuple(ts) => AllCodeNeeded(m, ts, reqs);
    case Res(o, e) =>
      SideCodeNeeded(m, o, reqs);
      SideCodeNeeded(m, e, reqs);
    case _ =>
  }

  lemma {:induction false} SideCodeNeeded(m: Module, side: Option<Ty>, reqs: seq<Request>)
    requires Scanned(m, reqs) && Includes(reqs, SideNeeds(m, side))
    ensures Within(SideCodeMentions(m, side), reqs)
    decreases side, 0
  {
    if side.Some? {
      SlotNeeded(m, side.value, reqs);
      CodeNeeded(m, side.value, reqs);
    }
  }

  lemma {:induction false} AllCodeNeeded(m: Module, ts: seq<Ty>, reqs: seq<Request>)
    requires Scanned(m, reqs) && Includes(reqs, AllNeeds(m, ts))
    ensures Within(AllCodeMentions(m, ts), reqs)
    decreases ts, 0
  {
    if ts != [] {
      SlotNeeded(m, ts[0], reqs);
      CodeNeeded(m, ts[0], reqs);
      AllCodeNeeded(m, ts[1..], reqs);
    }
  }

  lemma {:induction false} DeclIncluded(m: Module, defs: seq<Ty>, i: nat)
    requires i < |defs|
    ensures Includes(DeclsNeed(m, defs), Needs(m, defs[i]))
  {
    if i > 0 {
      DeclIncluded(m, defs[1..], i - 1);
    }
  }

  lemma {:induction false} FuncIncluded(m: Module, fs: seq<Func>, i: nat)
    requires i < |fs|
    ensures Includes(FuncsNeed(m, fs), FuncNeeds(m, fs[i]))
  {
    if i > 0 {
      FuncIncluded(m, fs[1..], i - 1);
    }
  }

  /** Scanning all definitions scans the types every name stands for. */
  lemma ModuleScanned(m: Module, defs: seq<Ty>, fs: seq<Func>)
    requires forall x :: x in m.types ==> m.types[x] in defs
    ensures Scanned(m, Requests(m, defs, fs))
  {
    forall x | x in m.types ensures Includes(Requests(m, defs, fs), Needs(m, m.types[x])) {
      var i :| 0 <= i < |defs| && defs[i] == m.types[x];
      DeclIncluded(m, defs, i);
    }
  }

  /** The types of the fields of a shape class. */
  function FieldTypes(shape: Shape): seq<Ty> {
    match shape
    case OptionBox(t) => [t]
    case TupleOf(ts) => ts
    case ResultVal(o, e) => SideList(o) + SideList(e)
    case Return(v) => SideList(v)
  }

  function SideList(side: Option<Ty>): seq<Ty> {
    if side.Some? then [side.value] else []
  }

  /** The fields of a requested class were scanned too, so the table is closed under what its classes mention. */
  lemma {:induction false} FieldsScanned(m: Module, ty: Ty, q: Request, t: Ty)
    requires q in Needs(m, ty) && t in FieldTypes(q.shape)
    ensures Includes(Needs(m, ty), Needs(m, t))
    decreases ty, 0
  {
    match ty
    case List(u) => FieldsScanned(m, u, q, t);
    case Opt(u) => if q in Needs(m, u) { FieldsScanned(m, u, q, t); }
    case Tuple(ts) => if q in AllNeeds(m, ts) { MembersScanned(m, ts, q, t); } else { MemberIncluded(m, ts, t); }
    case Res(o, e) =>
      if q in SideNeeds(m, o) { SideScanned(m, o, q, t); } else if q in SideNeeds(m, e) { SideScanned(m, e, q, t); }
    case Record(ts) => MembersScanned(m, ts, q, t);
    case Variant(cs) => CasesScanned(m, cs, q, t);
    case _ =>
  }

  lemma {:induction false} MembersScanned(m: Module, ts: seq<Ty>, q: Request, t: Ty)
    requires q in AllNeeds(m, ts) && t in FieldTypes(q.shape)
    ensures Includes(AllNeeds(m, ts), Needs(m, t))
    decreases ts, 0
  {
    if q in Needs(m, ts[0]) {
      FieldsScanned(m, ts[0], q, t);
    } else {
      MembersScanned(m, ts[1..], q, t);
    }
  }

  lemma {:induction false} SideScanned(m: Module, side: Option<Ty>, q: Request, t: Ty)
    requires q in SideNeeds(m, side) && t in FieldTypes(q.shape)
    ensures Includes(SideNeeds(m, side), Needs(m, t))
    decreases side, 0
  {
    FieldsScanned(m, side.value, q, t);
  }

  lemma {:induction false} CasesScanned(m: Module, cs: seq<Option<Ty>>, q: Request, t: Ty)
    requires q in CaseNeeds(m, cs) && t in FieldTypes(q.shape)
    ensures Includes(CaseNeeds(m, cs), Needs(m, t))
    decreases cs, 0
  {
    if q in SideNeeds(m, cs[0]) {
      SideScanned(m, cs[0], q, t);
    } else {
      CasesScanned(m, cs[1..], q, t);
    }
  }

  lemma {:induction false} MemberIncluded(m: Module, ts: seq<Ty>, t: Ty)
    requires t in ts
    ensures Includes(AllNeeds(m, ts), Needs(m, t))
  {
    if t != ts[0] {
      MemberIncluded(m, ts[1..], t);
    }
  }

  /** The class is in the table, and its name gives its own shape. */
  ghost predicate Known(table: seq<Request>, q: Request) {
    q in table && forall i :: 0 <= i < |table| && table[i].name == q.name ==> table[i] == q
  }

  ghost predicate AllKnown(table: seq<Request>, qs: set<Request>) {
    forall q :: q in qs ==> Known(table, q)
  }

  lemma RequestedIsKnown(table: seq<Request>, reqs: seq<Request>, qs: set<Request>)
    requires Covers(table, reqs) && Within(qs, reqs)
    ensures AllKnown(table, qs)
  {
    forall q | q in qs ensures Known(table, q) {
      assert q in reqs && q in table;
    }
  }

  /** If the table could be built, every class a scanned type can mention, in types, defaults or code, is known. */
  lemma MentionedHasItsShape(m: Module, ty: Ty, reqs: seq<Request>, table: seq<Request>)
    requires Scanned(m, reqs) && Includes(reqs, Needs(m, ty)) && Covers(table, reqs)
    ensures AllKnown(table, SlotMentions(m, ty) + CodeMentions(m, ty))
  {
    hide Scanned;
    hide Covers;
    hide AllKnown;
    SlotNeeded(m, ty, reqs);
    CodeNeeded(m, ty, reqs);
    RequestedIsKnown(table, reqs, SlotMentions(m, ty) + CodeMentions(m, ty));
  }

  function CaseMentions(m: Module, cs: seq<Option<Ty>>): set<Request> {
    if cs == [] then {} else SideCodeMentions(m, cs[0]) + CaseMentions(m, cs[1..])
  }

  lemma {:induction false} CasesNeeded(m: Module, cs: seq<Option<Ty>>, reqs: seq<Request>)
    requires Scanned(m, reqs) && Includes(reqs, CaseNeeds(m, cs))
    ensures Within(CaseMentions(m, cs), reqs)
  {
    hide Scanned;
    if cs != [] {
      SideCodeNeeded(m, cs[0], reqs);
      CasesNeeded(m, cs[1..], reqs);
    }
  }

  /** The classes the declaration and the codecs of a named type can name. */
  function DeclMentions(m: Module, def: Ty): set<Request> {
    match def
    case Record(ts) => AllCodeMentions(m, ts)
    case Variant(cs) => CaseMentions(m, cs)
    case _ => SlotMentions(m, def) + CodeMentions(m, def)
  }

  /** The classes the handler and the mesh wrapper of a function can name: parameters, result, wrapper class. */
  function FuncMentions(m: Module, f: Func): set<Request> {
    var value := Returned(m, f.result);
    AllCodeMentions(m, f.params) + SideCodeMentions(m, value) + {Request(ReturnName(value), Return(value))}
  }

  /** Nothing the emitted code can name is missing from the table or stands there for another shape. */
  ghost predicate Complete(m: Module, defs: seq<Ty>, fs: seq<Func>, table: seq<Request>) {
    && (forall i :: 0 <= i < |defs| ==> AllKnown(table, DeclMentions(m, defs[i])))
    && (forall i :: 0 <= i < |fs| ==> AllKnown(table, FuncMentions(m, fs[i])))
    && (forall q, t :: q in table && t in FieldTypes(q.shape) ==>
          AllKnown(table, SlotMentions(m, t) + CodeMentions(m, t)))
  }

  lemma DeclKnown(m: Module, def: Ty, reqs: seq<Request>, table: seq<Request>)
    requires Scanned(m, reqs) && Includes(reqs, Needs(m, def)) && Covers(table, reqs)
    ensures AllKnown(table, DeclMentions(m, def))
  {
    hide Scanned;
    hide Covers;
    hide AllKnown;
    match def
    case Record(ts) =>
      AllCodeNeeded(m, ts, reqs);
      RequestedIsKnown(table, reqs, DeclMentions(m, def));
    case Variant(cs) =>
      CasesNeeded(m, cs, reqs);
      RequestedIsKnown(table, reqs, DeclMentions(m, def));
    case _ => MentionedHasItsShape(m, def, reqs, table);
  }

  lemma FuncKnown(m: Module, f: Func, reqs: seq<Request>, table: seq<Request>)
    requires Scanned(m, reqs) && Includes(reqs, FuncNeeds(m, f)) && Covers(table, reqs)
    ensures AllKnown(table, FuncMentions(m, f))
  {
    hide Scanned;
    hide Covers;
    hide AllKnown;
    hide Returned;
    var value := Returned(m, f.result);
    var q := Request(ReturnName(value), Return(value));
    assert FuncNeeds(m, f) == AllNeeds(m, f.params) + SideNeeds(m, value) + [q];
    assert q in FuncNeeds(m, f);
    AllCodeNeeded(m, f.params, reqs);
    SideCodeNeeded(m, value, reqs);
    RequestedIsKnown(table, reqs, FuncMentions(m, f));
  }

  lemma {:induction false} DeclOf(m: Module, defs: seq<Ty>, q: Request) returns (i: nat)
    requires q in DeclsNeed(m, defs)
    ensures i < |defs| && q in Needs(m, defs[i])
  {
    if q in Needs(m, defs[0]) {
      i := 0;
    } else {
      var k := DeclOf(m, defs[1..], q);
      i := k + 1;
    }
  }

  lemma {:induction false} FuncOf(m: Module, fs: seq<Func>, q: Request) returns (i: nat)
    requires q in FuncsNeed(m, fs)
    ensures i < |fs| && q in FuncNeeds(m, fs[i])
  {
    hide FuncNeeds;
    if q in FuncNeeds(m, fs[0]) {
      i := 0;
    } else {
      var k := FuncOf(m, fs[1..], q);
      i := k + 1;
    }
  }

  lemma FuncFieldsScanned(m: Module, f: Func, q: Request, t: Ty)
    requires q in FuncNeeds(m, f) && t in FieldTypes(q.shape)
    ensures Includes(FuncNeeds(m, f), Needs(m, t))
  {
    hide Returned;
    hide Needs;
    var value := Returned(m, f.result);
    if q in AllNeeds(m, f.params) {
      MembersScanned(m, f.params, q, t);
    } else if q in SideNeeds(m, value) {
      SideScanned(m, value, q, t);
    } else {
      assert q.shape == Return(value) && value == Some(t);
    }
  }

  /** Whatever was requested, the types of its fields were scanned. */
  lemma RequestedFields(m: Module, defs: seq<Ty>, fs: seq<Func>, q: Request, t: Ty)
    requires q in Requests(m, defs, fs) && t in FieldTypes(q.shape)
    ensures Includes(Requests(m, defs, fs), Needs(m, t))
  {
    hide Needs;
    hide FuncNeeds;
    hide DeclsNeed;
    hide FuncsNeed;
    hide FieldTypes;
    if q in DeclsNeed(m, defs) {
      var i := DeclOf(m, defs, q);
      FieldsScanned(m, defs[i], q, t);
      DeclIncluded(m, defs, i);
    } else {
      var i := FuncOf(m, fs, q);
      FuncFieldsScanned(m, fs[i], q, t);
      FuncIncluded(m, fs, i);
    }
  }

  /**
   If the table could be built, then for every definition, for every function's parameters
   and result, and for every class in the table itself, whatever they can name is in the
   table, its own wrapper class included, and its name gives its own shape.
   */
  lemma TableIsComplete(m: Module, defs: seq<Ty>, fs: seq<Func>, table: seq<Request>)
    requires forall x :: x in m.types ==> m.types[x] in defs
    requires Covers(table, Requests(m, defs, fs))
    ensures Complete(m, defs, fs, table)
  {
    hide Scanned;
    hide AllKnown;
    hide Needs;
    hide FuncNeeds;
    hide DeclsNeed;
    hide FuncsNeed;
    hide FieldTypes;
    hide Requests;
    hide DeclMentions;
    hide FuncMentions;
    hide Covers;
    var reqs := Requests(m, defs, fs);
    ModuleScanned(m, defs, fs);
    forall i | 0 <= i < |defs| ensures AllKnown(table, DeclMentions(m, defs[i])) {
      DeclRequested(m, defs, fs, i);
      DeclKnown(m, defs[i], reqs, table);
    }
    forall i | 0 <= i < |fs| ensures AllKnown(table, FuncMentions(m, fs[i])) {
      FuncRequested(m, defs, fs, i);
      FuncKnown(m, fs[i], reqs, table);
    }
    forall q, t | q in table && t in FieldTypes(q.shape)
      ensures AllKnown(table, SlotMentions(m, t) + CodeMentions(m, t))
    {
      InTable(table, reqs, q);
      RequestedFields(m, defs, fs, q, t);
      MentionedHasItsShape(m, t, reqs, table);
    }
  }

  lemma InTable(table: seq<Request>, reqs: seq<Request>, q: Request)
    requires Covers(table, reqs) && q in table
    ensures q in reqs
  {
  }

  lemma DeclRequested(m: Module, defs: seq<Ty>, fs: seq<Func>, i: nat)
    requires i < |defs|
    ensures Includes(Requests(m, defs, fs), Needs(m, defs[i]))
  {
    hide Needs;
    DeclIncluded(m, defs, i);
  }

  lemma FuncRequested(m: Module, defs: seq<Ty>, fs: seq<Func>, i: nat)
    requires i < |fs|
    ensures Includes(Requests(m, defs, fs), FuncNeeds(m, fs[i]))
  {
    hide FuncNeeds;
    FuncIncluded(m, fs, i);
  }

  // ---------------------------------------------------------------------------
  // No class is made for nothing
  // ---------------------------------------------------------------------------

  /** A type and its code name every class that was requested for the type. */
  lemma {:induction false} NeededIsNamed(m: Module, ty: Ty, r: nat, q: Request)
    requires Placed(m, ty, r) && q in Needs(m, ty)
    ensures q in SlotMentions(m, ty) + CodeMentions(m, ty)
    decreases ty, 0
  {
    hide Resolve;
    hide Boxed;
    hide Token;
    hide DefaultMentions;
    match ty
    case List(t) =>
      NeededIsNamed(m, t, r, q);
    case Opt(t) => if q in Needs(m, t) { NeededIsNamed(m, t, r, q); }
    case Tuple(ts) => if q in AllNeeds(m, ts) { AllNeededNamed(m, ts, r, q); }
    case Res(o, e) =>
      if q in SideNeeds(m, o) {
        SideNeededNamed(m, o, r, q);
      } else if q in SideNeeds(m, e) {
        SideNeededNamed(m, e, r, q);
      }
    case _ =>
  }

  lemma {:induction false} SideNeededNamed(m: Module, side: Option<Ty>, r: nat, q: Request)
    requires SidePlaced(m, side, r) && q in SideNeeds(m, side)
    ensures q in SideCodeMentions(m, side)
    decreases side, 0
  {
    hide SlotMentions;
    NeededIsNamed(m, side.value, r, q);
  }

  lemma {:induction false} AllNeededNamed(m: Module, ts: seq<Ty>, r: nat, q: Request)
    requires AllPlaced(m, ts, r) && q in AllNeeds(m, ts)
    ensures q in AllCodeMentions(m, ts)
    decreases ts, 0
  {
    hide SlotMentions;
    if q in Needs(m, ts[0]) {
      NeededIsNamed(m, ts[0], r, q);
    } else {
      AllNeededNamed(m, ts[1..], r, q);
    }
  }

  lemma {:induction false} CasesNeededNamed(m: Module, cs: seq<Option<Ty>>, r: nat, q: Request)
    requires AllSidesPlaced(m, cs, r) && q in CaseNeeds(m, cs)
    ensures q in CaseMentions(m, cs)
    decreases cs, 0
  {
    if q in SideNeeds(m, cs[0]) {
      SideNeededNamed(m, cs[0], r, q);
    } else {
      CasesNeededNamed(m, cs[1..], r, q);
    }
  }

  lemma DeclNeededNamed(m: Module, def: Ty, r: nat, q: Request)
    requires Declared(m, def, r) && q in Needs(m, def)
    ensures q in DeclMentions(m, def)
  {
    hide SlotMentions;
    match def
    case Record(ts) => AllNeededNamed(m, ts, r, q);
    case Variant(cs) => CasesNeededNamed(m, cs, r, q);
    case Enum(_) =>
    case Flags(_) =>
    case _ => NeededIsNamed(m, def, r, q);
  }

  lemma FuncNeededNamed(m: Module, f: Func, r: nat, q: Request)
    requires AllPlaced(m, f.params, r) && SidePlaced(m, Returned(m, f.result), r) && q in FuncNeeds(m, f)
    ensures q in FuncMentions(m, f)
  {
    hide Returned;
    hide Needs;
    hide SlotMentions;
    var value := Returned(m, f.result);
    if q in AllNeeds(m, f.params) {
      AllNeededNamed(m, f.params, r, q);
    } else if q in SideNeeds(m, value) {
      SideNeededNamed(m, value, r, q);
    }
  }

  /** Every class in the table is named by some definition or some function. */
  lemma TableIsNamed(m: Module, defs: seq<Ty>, fs: seq<Func>, r: nat, table: seq<Request>, q: Request)
    requires Accepted(m, defs, fs, r) && Covers(table, Requests(m, defs, fs)) && q in table
    ensures || (exists i :: 0 <= i < |defs| && q in DeclMentions(m, defs[i]))
            || exists i :: 0 <= i < |fs| && q in FuncMentions(m, fs[i])
  {
    hide Needs;
    hide FuncNeeds;
    hide DeclsNeed;
    hide FuncsNeed;
    hide DeclMentions;
    hide FuncMentions;
    hide Covers;
    hide Returned;
    InTable(table, Requests(m, defs, fs), q);
    if q in DeclsNeed(m, defs) {
      var i := DeclOf(m, defs, q);
      DeclNeededNamed(m, defs[i], r, q);
    } else {
      var i := FuncOf(m, fs, q);
      FuncNeededNamed(m, fs[i], r, q);
    }
  }

  /**
   The default of a type names what stands at the end of its alias chain: the class of a
   tuple or result, and for a list what its element type names.
   */
  lemma DefaultNames(m: Module, ty: Ty, names: seq<string>, u: Ty, q: Request)
    requires |names| < 64 && Chain(m, ty, names, u) && !u.Named?
    ensures u.Tuple? || u.Res? ==> (q in DefaultMentions(m, ty) <==> Wants(m, u, q))
    ensures u.List? ==> (q in DefaultMentions(m, ty) <==> q in TypeMentions(m, u.t))
  {
    hide Chain;
    ResolveExact(m, ty, u);
  }

  lemma TupleParts(ts: seq<Ty>, u: Ty)
    ensures PartOf(u, Tuple(ts)) <==> u == Tuple(ts) || exists i :: 0 <= i < |ts| && PartOf(u, ts[i])
  {
  }

  lemma SideParts(o: Option<Ty>, e: Option<Ty>, u: Ty)
    ensures PartOf(u, Res(o, e)) <==>
            u == Res(o, e) || (o.Some? && PartOf(u, o.value)) || (e.Some? && PartOf(u, e.value))
  {
  }

  /** The parts of the type a class is for are the type itself and the parts of the class's fields. */
  lemma FieldsAreParts(shape: Shape, u: Ty)
    requires TypeFor(shape).Some?
    ensures PartOf(u, TypeFor(shape).value) <==>
            u == TypeFor(shape).value || exists i :: 0 <= i < |FieldTypes(shape)| && PartOf(u, FieldTypes(shape)[i])
  {
    var fields := FieldTypes(shape);
    match shape
    case OptionBox(t) => assert fields[0] == t;
    case TupleOf(ts) =>
      hide PartOf;
      TupleParts(ts, u);
    case ResultVal(o, e) =>
      hide PartOf;
      SideParts(o, e, u);
      assert o.Some? ==> fields[0] == o.value;
      assert e.Some? ==> fields[|SideList(o)|] == e.value;
      assert forall i :: 0 <= i < |fields| ==> Some(fields[i]) == o || Some(fields[i]) == e;
    case Return(_) =>
  }
}
