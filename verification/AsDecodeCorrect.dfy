/**
 Compiler correctness, decode half: on any buffer, the emitted statements give the
 verdict, the error, the cursor and (as an object) the value of the reference
 decoder. One lemma for each emitted form; together they are one induction on the
 rank and the type. A target holds the default of its type before and the decoded
 object after; nothing below the temporaries changes but the target.
 */
module AsDecodeCorrect {
  import opened Bytes
  import opened Leb128
  import opened Unicode
  import opened Wire
  import opened WireTheorems
  import opened Ir
  import opened AsNative
  import opened AsNativeTheorems
  import opened AsCode
  import opened AsDecode

  // ---------------------------------------------------------------------------
  // Paths that can be assigned to
  // ---------------------------------------------------------------------------

  predicate Assignable(dest: Expr) {
    match dest case V(_) => true case Dot(b, _) => Assignable(b) case At(_, _) => false
  }

  function RootOf(dest: Expr): Var {
    match dest case V(x) => x case Dot(b, _) => RootOf(b) case At(b, _) => RootOf(b)
  }

  lemma UpdateTwice(o: Native, sel: Sel, a: Native, b: Native)
    requires Select(o, sel).Some?
    ensures Update(o, sel, a).Some? && Select(Update(o, sel, a).value, sel) == Some(a)
    ensures Update(Update(o, sel, a).value, sel, b) == Update(o, sel, b)
    ensures Update(o, sel, Select(o, sel).value) == Some(o)
  {
    match sel
    case Item(i) =>
      assert o.fields[i := a][i := b] == o.fields[i := b];
      assert o.fields[i := o.fields[i]] == o.fields;
    case CaseField(i) =>
      assert o.cases[i := Some(a)][i := Some(b)] == o.cases[i := Some(b)];
      assert o.cases[i := o.cases[i]] == o.cases;
    case _ =>
  }

  lemma {:induction false} AssignTotal(env: Env, dest: Expr, nv: Native)
    requires Assignable(dest) && Eval(env, dest).Some?
    ensures Assign(env, dest, nv).Some? && Eval(Assign(env, dest, nv).value, dest) == Some(nv)
    ensures Assign(env, dest, nv).value.Keys == env.Keys
  {
    if dest.Dot? {
      var o := Eval(env, dest.e).value;
      AssignTotal(env, dest.e, Update(o, dest.sel, nv).value);
    }
  }

  lemma {:induction false} AssignTwice(env: Env, dest: Expr, a: Native, b: Native)
    requires Assignable(dest) && Eval(env, dest).Some?
    ensures Assign(env, dest, a).Some?
    ensures Assign(Assign(env, dest, a).value, dest, b) == Assign(env, dest, b)
  {
    AssignTotal(env, dest, a);
    if dest.Dot? {
      var o := Eval(env, dest.e).value;
      var oa, ob := Update(o, dest.sel, a).value, Update(o, dest.sel, b).value;
      UpdateTwice(o, dest.sel, a, b);
      AssignTotal(env, dest.e, oa);
      AssignTwice(env, dest.e, oa, ob);
    } else {
      assert env[dest.x := a][dest.x := b] == env[dest.x := b];
    }
  }

  lemma {:induction false} AssignSelf(env: Env, dest: Expr)
    requires Assignable(dest) && Eval(env, dest).Some?
    ensures Assign(env, dest, Eval(env, dest).value) == Some(env)
  {
    if dest.Dot? {
      var o := Eval(env, dest.e).value;
      UpdateTwice(o, dest.sel, o, o);
      AssignSelf(env, dest.e);
    } else {
      assert env[dest.x := env[dest.x]] == env;
    }
  }

  lemma {:induction false} AssignAgree(a: Env, b: Env, dest: Expr, nv: Native, tmp: nat)
    requires Assignable(dest) && Below(dest, tmp) && Agree(a, b, tmp) && Eval(a, dest).Some?
    ensures Assign(a, dest, nv).Some? && Assign(b, dest, nv).Some?
    ensures Agree(Assign(a, dest, nv).value, Assign(b, dest, nv).value, tmp)
  {
    if dest.Dot? {
      EvalAgree(a, b, dest.e, tmp);
      AssignAgree(a, b, dest.e, Update(Eval(a, dest.e).value, dest.sel, nv).value, tmp);
    }
  }

  lemma {:induction false} AssignKeeps(env: Env, dest: Expr, nv: Native, x: Var)
    requires Assign(env, dest, nv).Some? && x != RootOf(dest) && x in env
    ensures x in Assign(env, dest, nv).value && Assign(env, dest, nv).value[x] == env[x]
  {
    if dest.Dot? {
      AssignKeeps(env, dest.e, Update(Eval(env, dest.e).value, dest.sel, nv).value, x);
    }
  }

  lemma {:induction false} RootBelow(dest: Expr, tmp: nat)
    requires Below(dest, tmp)
    ensures VarBelow(RootOf(dest), tmp)
  {
    if !dest.V? {
      RootBelow(dest.e, tmp);
    }
  }

  // ---------------------------------------------------------------------------
  // Ranks only bound
  // ---------------------------------------------------------------------------

  lemma {:induction false} PlacedMore(m: Module, ty: Ty, r: nat, more: nat)
    requires Placed(m, ty, r) && r <= more
    ensures Placed(m, ty, more)
    decreases ty, 0
  {
    match ty
    case List(t) => PlacedMore(m, t, r, more);
    case Opt(t) => PlacedMore(m, t, r, more);
    case Tuple(ts) => AllPlacedMore(m, ts, r, more);
    case Res(o, e) =>
      if o.Some? { PlacedMore(m, o.value, r, more); }
      if e.Some? { PlacedMore(m, e.value, r, more); }
    case _ =>
  }

  lemma {:induction false} AllPlacedMore(m: Module, ts: seq<Ty>, r: nat, more: nat)
    requires AllPlaced(m, ts, r) && r <= more
    ensures AllPlaced(m, ts, more)
    decreases ts, 0
  {
    if ts != [] {
      PlacedMore(m, ts[0], r, more);
      AllPlacedMore(m, ts[1..], r, more);
    }
  }

  lemma {:induction false} AllSidesPlacedMore(m: Module, cs: seq<Option<Ty>>, r: nat, more: nat)
    requires AllSidesPlaced(m, cs, r) && r <= more
    ensures AllSidesPlaced(m, cs, more)
    decreases cs, 0
  {
    if cs != [] {
      if cs[0].Some? { PlacedMore(m, cs[0].value, r, more); }
      AllSidesPlacedMore(m, cs[1..], r, more);
    }
  }

  lemma DeclaredMore(m: Module, ty: Ty, r: nat, more: nat)
    requires Declared(m, ty, r) && r <= more
    ensures Declared(m, ty, more)
  {
    match ty
    case Record(ts) => AllPlacedMore(m, ts, r, more);
    case Variant(cs) => AllSidesPlacedMore(m, cs, r, more);
    case Enum(_) =>
    case Flags(_) =>
    case _ => PlacedMore(m, ty, r, more);
  }

  lemma {:induction false} DefaultMore(m: Module, ty: Ty, r: nat, more: nat)
    requires Valid(m) && Declared(m, ty, r) && Declared(m, ty, more)
    ensures Default(m, ty, r) == Default(m, ty, more)
    decreases ty, 0
  {
    match ty
    case Tuple(ts) => DefaultsMore(m, ts, r, more);
    case Record(ts) => DefaultsMore(m, ts, r, more);
    case Res(o, e) =>
      SideDefaultMore(m, o, r, more);
      SideDefaultMore(m, e, r, more);
    case Variant(cs) => CaseDefaultsMore(m, cs, r, more);
    case _ =>
  }

  lemma {:induction false} SideDefaultMore(m: Module, side: Option<Ty>, r: nat, more: nat)
    requires Valid(m) && SidePlaced(m, side, r) && SidePlaced(m, side, more)
    ensures SideDefault(m, side, r) == SideDefault(m, side, more)
    ensures CaseDefault(m, side, r) == CaseDefault(m, side, more)
    decreases side, 0
  {
    if side.Some? {
      DefaultMore(m, side.value, r, more);
    }
  }

  lemma {:induction false} DefaultsMore(m: Module, ts: seq<Ty>, r: nat, more: nat)
    requires Valid(m) && AllPlaced(m, ts, r) && AllPlaced(m, ts, more)
    ensures Defaults(m, ts, r) == Defaults(m, ts, more)
    decreases ts, 0
  {
    if ts != [] {
      DefaultMore(m, ts[0], r, more);
      DefaultsMore(m, ts[1..], r, more);
    }
  }

  lemma {:induction false} CaseDefaultsMore(m: Module, cs: seq<Option<Ty>>, r: nat, more: nat)
    requires Valid(m) && AllSidesPlaced(m, cs, r) && AllSidesPlaced(m, cs, more)
    ensures CaseDefaults(m, cs, r) == CaseDefaults(m, cs, more)
    decreases cs, 0
  {
    if cs != [] {
      SideDefaultMore(m, cs[0], r, more);
      CaseDefaultsMore(m, cs[1..], r, more);
    }
  }

  // ---------------------------------------------------------------------------
  // Emission succeeds on accepted modules
  // ---------------------------------------------------------------------------

  lemma {:induction false} EmitTotal(m: Module, ty: Ty, r: nat, tmp: nat, dest: Expr)
    requires Placed(m, ty, r)
    ensures Emit(m, ty, tmp, dest).Some? && Emit(m, ty, tmp, dest).value.1 >= tmp
    decreases ty, 0
  {
    match ty
    case List(t) => EmitTotal(m, t, r, tmp + 3, V(Tmp('x', tmp + 2)));
    case Opt(t) =>
      PlacedResolves(m, t, r);
      EmitTotal(m, t, r, tmp + 2, V(Tmp('x', tmp + 1)));
    case Tuple(ts) => EmitFieldsTotal(m, ts, r, 0, tmp, dest);
    case Res(o, e) =>
      EmitSideTotal(m, e, r, tmp + 1, Dot(dest, ErrSide));
      EmitSideTotal(m, o, r, EmitSide(m, e, tmp + 1, Dot(dest, ErrSide)).value.1, Dot(dest, OkSide));
    case _ =>
  }

  lemma {:induction false} EmitSideTotal(m: Module, side: Option<Ty>, r: nat, tmp: nat, dest: Expr)
    requires SidePlaced(m, side, r)
    ensures EmitSide(m, side, tmp, dest).Some? && EmitSide(m, side, tmp, dest).value.1 >= tmp
    decreases side, 0
  {
    if side.Some? {
      EmitTotal(m, side.value, r, tmp, dest);
    }
  }

  lemma {:induction false} EmitFieldsTotal(m: Module, ts: seq<Ty>, r: nat, i: nat, tmp: nat, dest: Expr)
    requires AllPlaced(m, ts, r)
    ensures EmitFields(m, ts, i, tmp, dest).Some? && EmitFields(m, ts, i, tmp, dest).value.1 >= tmp
    decreases ts, 0
  {
    if ts != [] {
      EmitTotal(m, ts[0], r, tmp, Dot(dest, Item(i)));
      EmitFieldsTotal(m, ts[1..], r, i + 1, Emit(m, ts[0], tmp, Dot(dest, Item(i))).value.1, dest);
    }
  }

  lemma EmitCaseTotal(m: Module, side: Option<Ty>, r: nat, i: nat, tmp: nat, dest: Expr)
    requires SidePlaced(m, side, r)
    ensures EmitCase(m, side, i, tmp, dest).Some? && EmitCase(m, side, i, tmp, dest).value.1 >= tmp
  {
    if side.Some? {
      PlacedResolves(m, side.value, r);
      EmitTotal(m, side.value, r, tmp, Dot(dest, CaseField(i)));
      EmitTotal(m, side.value, r, tmp + 1, V(Tmp('x', tmp)));
    }
  }

  lemma {:induction false} EmitCasesAt(m: Module, cs: seq<Option<Ty>>, r: nat, i: nat, tmp: nat, dest: Expr, c: nat)
    returns (at: nat)
    requires AllSidesPlaced(m, cs, r)
    ensures EmitCases(m, cs, i, tmp, dest).Some? && |EmitCases(m, cs, i, tmp, dest).value.0| == |cs|
    ensures at >= tmp
    ensures c < |cs| ==>
              && EmitCase(m, cs[c], i + c, at, dest).Some?
              && EmitCases(m, cs, i, tmp, dest).value.0[c].code == EmitCase(m, cs[c], i + c, at, dest).value.0
  {
    if cs == [] {
      at := tmp;
    } else {
      EmitCaseTotal(m, cs[0], r, i, tmp, dest);
      var mid := EmitCase(m, cs[0], i, tmp, dest).value.1;
      at := EmitCasesAt(m, cs[1..], r, i + 1, mid, dest, if c > 0 then c - 1 else 0);
      if c == 0 {
        at := tmp;
      }
    }
  }

  // ---------------------------------------------------------------------------
  // What the reference decoder says
  // ---------------------------------------------------------------------------

  datatype Outcome = Got(nv: Native, pos: nat) | Failed(e: Error)

  ghost function ValueOutcome(m: Module, ty: Ty, r: nat, buf: seq<byte>, pos: nat): Outcome
    requires Valid(m) && Declared(m, ty, r) && pos <= |buf|
  {
    match Decode(TypeOf(m, ty, r), buf, pos)
    case Err(e) => Failed(e)
    case Ok(v, p) => DecodeYields(TypeOf(m, ty, r), buf, pos); Got(FromValue(m, ty, r, v), p)
  }

  lemma {:induction false} DecodeSideYields(side: Option<Type>, buf: seq<byte>, pos: nat)
    requires pos <= |buf| && DecodeSide(side, buf, pos).Ok?
    ensures SideHasType(DecodeSide(side, buf, pos).value, side) && pos <= DecodeSide(side, buf, pos).pos <= |buf|
  {
    if side.Some? {
      DecodeYields(side.value, buf, pos);
    }
  }

  ghost function SideOutcome(m: Module, side: Option<Ty>, r: nat, buf: seq<byte>, pos: nat): Step<Option<Native>>
    requires Valid(m) && SidePlaced(m, side, r) && pos <= |buf|
  {
    match DecodeSide(SideType(m, side, r), buf, pos)
    case Err(e) => Err(e)
    case Ok(p, q) => DecodeSideYields(SideType(m, side, r), buf, pos); Ok(SideFromValue(m, side, r, p), q)
  }

  lemma {:induction false} DecodeFieldsYields(tys: seq<Type>, buf: seq<byte>, pos: nat)
    requires pos <= |buf| && DecodeFields(tys, buf, pos).Ok?
    ensures HaveTypes(DecodeFields(tys, buf, pos).value, tys) && pos <= DecodeFields(tys, buf, pos).pos <= |buf|
  {
    if tys != [] {
      DecodeYields(tys[0], buf, pos);
      DecodeFieldsYields(tys[1..], buf, Decode(tys[0], buf, pos).pos);
      var v := Decode(tys[0], buf, pos).value;
      var vs := DecodeFields(tys[1..], buf, Decode(tys[0], buf, pos).pos).value;
      assert ([v] + vs)[1..] == vs;
    }
  }

  /** Members before `i` are already there. */
  ghost function FieldsOutcome(m: Module, ts: seq<Ty>, r: nat, done: seq<Native>, buf: seq<byte>, pos: nat): Outcome
    requires Valid(m) && AllPlaced(m, ts, r) && pos <= |buf|
  {
    match DecodeFields(TypesOf(m, ts, r), buf, pos)
    case Err(e) => Failed(e)
    case Ok(vs, p) =>
      DecodeFieldsYields(TypesOf(m, ts, r), buf, pos); Got(NObj(done + FieldsFromValues(m, ts, r, vs)), p)
  }

  lemma {:induction false} DecodeItemsYields(ty: Type, n: nat, buf: seq<byte>, pos: nat)
    requires pos <= |buf| && DecodeItems(ty, n, buf, pos).Ok?
    ensures AllHaveType(DecodeItems(ty, n, buf, pos).value, ty) && pos <= DecodeItems(ty, n, buf, pos).pos <= |buf|
    decreases n
  {
    if n > 0 {
      DecodeYields(ty, buf, pos);
      DecodeItemsYields(ty, n - 1, buf, Decode(ty, buf, pos).pos);
      var v := Decode(ty, buf, pos).value;
      var vs := DecodeItems(ty, n - 1, buf, Decode(ty, buf, pos).pos).value;
      assert ([v] + vs)[1..] == vs;
    }
  }

  ghost function ItemsOutcome(m: Module, ty: Ty, r: nat, n: nat, done: seq<Native>, buf: seq<byte>, pos: nat): Outcome
    requires Valid(m) && Declared(m, ty, r) && pos <= |buf|
  {
    match DecodeItems(TypeOf(m, ty, r), n, buf, pos)
    case Err(e) => Failed(e)
    case Ok(vs, p) =>
      DecodeItemsYields(TypeOf(m, ty, r), n, buf, pos); Got(NArr(done + ItemsFromValues(m, ty, r, vs)), p)
  }

  // ---------------------------------------------------------------------------
  // What a run must have done
  // ---------------------------------------------------------------------------

  /** On success `dest` holds the object and nothing else made before changed; an error left by `fail_stmt`. */
  ghost predicate Filled(s: State, f: Flow, tmp: nat, dest: Expr, o: Outcome) {
    match o
    case Failed(e) => f.Return? && f.s.err == Some(e) && s.env.Keys <= f.s.env.Keys
    case Got(nv, p) =>
      && f.Next? && f.s.err.None? && f.s.pos == p && s.env.Keys <= f.s.env.Keys
      && Assign(s.env, dest, nv).Some?
      && Agree(Assign(s.env, dest, nv).value, f.s.env, tmp)
  }

  ghost predicate Ready(s: State, tmp: nat, dest: Expr, nv: Native, buf: seq<byte>) {
    && Assignable(dest) && Below(dest, tmp)
    && Eval(s.env, dest) == Some(nv)
    && s.err.None? && s.pos <= |buf|
  }

  /** A run from a state reached by assigning `x` to `dest` counts as one from the start. */
  lemma Rebase(s: State, mid: State, f: Flow, tmp: nat, more: nat, dest: Expr, x: Native, o: Outcome)
    requires Assignable(dest) && Below(dest, tmp) && Eval(s.env, dest).Some? && tmp <= more
    requires Assign(s.env, dest, x).Some? && Agree(Assign(s.env, dest, x).value, mid.env, tmp)
    requires s.env.Keys <= mid.env.Keys
    requires Filled(mid, f, more, dest, o)
    ensures Filled(s, f, tmp, dest, o)
  {
    if o.Got? {
      AssignTotal(s.env, dest, x);
      AssignTotal(s.env, dest, o.nv);
      var env1 := Assign(s.env, dest, x).value;
      AssignTwice(s.env, dest, x, o.nv);
      AssignAgree(env1, mid.env, dest, o.nv, tmp);
      var env2 := Assign(mid.env, dest, o.nv).value;
      AgreeLess(env2, f.s.env, tmp, more);
      AgreeTrans(Assign(s.env, dest, o.nv).value, env2, f.s.env, tmp);
    }
  }

  lemma RebaseSame(s: State, mid: State, f: Flow, tmp: nat, more: nat, dest: Expr, o: Outcome)
    requires Assignable(dest) && Below(dest, tmp) && Eval(s.env, dest).Some? && tmp <= more
    requires Agree(s.env, mid.env, tmp) && s.env.Keys <= mid.env.Keys
    requires Filled(mid, f, more, dest, o)
    ensures Filled(s, f, tmp, dest, o)
  {
    AssignSelf(s.env, dest);
    Rebase(s, mid, f, tmp, more, dest, Eval(s.env, dest).value, o);
  }

  /** A decoder call and its error check. */
  lemma CheckedThen(m: Module, buf: seq<byte>, depth: nat, st: Stmt, rest: seq<Stmt>, s: State)
    ensures var f := Exec(m, buf, depth, st, s);
            Run(m, buf, depth, [st, FailIfErr] + rest, s) ==
            if !f.Next? then f else if f.s.err.Some? then Return(f.s) else Run(m, buf, depth, rest, f.s)
  {
    assert [st, FailIfErr] + rest == [st] + ([FailIfErr] + rest);
    RunAppend(m, buf, depth, [st], [FailIfErr] + rest, s);
    RunOne(m, buf, depth, st, s);
    var f := Exec(m, buf, depth, st, s);
    if f.Next? {
      RunAppend(m, buf, depth, [FailIfErr], rest, f.s);
      RunOne(m, buf, depth, FailIfErr, f.s);
    }
  }

  lemma RunNothing(m: Module, buf: seq<byte>, depth: nat, s: State)
    ensures Run(m, buf, depth, [], s) == Next(s)
  {
  }

  predicate IsHead(st: Stmt) {
    st.GetLen? || st.GetPresent? || st.GetIsErr? || st.GetCase?
  }

  /** What a header read into a constant yields. */
  ghost function HeadStep(st: Stmt, buf: seq<byte>, pos: nat): Step<Native>
    requires IsHead(st)
  {
    match st
    case GetLen(_) => (match DecUleb(32, buf, pos) case Err(e) => Err(e) case Ok(n, p) => Ok(NNum(n), p))
    case GetPresent(_) => (match DecBit("option", buf, pos) case Err(e) => Err(e) case Ok(b, p) => Ok(NBool(b), p))
    case GetIsErr(_) => (match DecBit("result", buf, pos) case Err(e) => Err(e) case Ok(b, p) => Ok(NBool(b), p))
    case GetCase(_, n) => (match DecCase(n, buf, pos) case Err(e) => Err(e) case Ok(c, p) => Ok(NNum(c), p))
  }

  lemma HeadThen(m: Module, buf: seq<byte>, depth: nat, st: Stmt, rest: seq<Stmt>, s: State)
    requires IsHead(st) && s.err.None?
    ensures var step := HeadStep(st, buf, s.pos);
            Run(m, buf, depth, [st, FailIfErr] + rest, s) ==
            if step.Err? then Return(State(Exec(m, buf, depth, st, s).s.env, s.pos, Some(step.error)))
            else Run(m, buf, depth, rest, State(s.env[st.x := step.value], step.pos, None))
    ensures Exec(m, buf, depth, st, s).Next? && s.env.Keys <= Exec(m, buf, depth, st, s).s.env.Keys
  {
    hide Run;
    hide DecUleb;
    hide DecBit;
    hide DecCase;
    CheckedThen(m, buf, depth, st, rest, s);
  }

  lemma RunIfTrue(m: Module, buf: seq<byte>, depth: nat, x: Var, thn: seq<Stmt>, els: seq<Stmt>, s: State)
    requires x in s.env && s.env[x].NBool?
    ensures Run(m, buf, depth, [IfTrue(x, thn, els)], s) == Run(m, buf, depth, if s.env[x].b then thn else els, s)
  {
    hide Run;
    RunOne(m, buf, depth, IfTrue(x, thn, els), s);
  }

  lemma RunSetIsErr(m: Module, buf: seq<byte>, depth: nat, dest: Expr, x: Var, rest: seq<Stmt>, s: State, nv: Native)
    requires Assignable(dest) && Eval(s.env, dest) == Some(nv) && nv.NRes? && x in s.env && s.env[x].NBool?
    ensures var marked := NRes(s.env[x].b, nv.okSide, nv.errSide);
            && Assign(s.env, dest, marked).Some?
            && Run(m, buf, depth, [SetIsErr(dest, x)] + rest, s) ==
               Run(m, buf, depth, rest, s.(env := Assign(s.env, dest, marked).value))
  {
    hide Run;
    AssignTotal(s.env, dest, NRes(s.env[x].b, nv.okSide, nv.errSide));
    RunAppend(m, buf, depth, [SetIsErr(dest, x)], rest, s);
    RunOne(m, buf, depth, SetIsErr(dest, x), s);
  }

  lemma RunSetTag(m: Module, buf: seq<byte>, depth: nat, x: Var, rest: seq<Stmt>, s: State)
    requires ARG in s.env && s.env[ARG].NVar? && x in s.env && s.env[x].NNum?
    ensures Run(m, buf, depth, [SetTag(V(ARG), x)] + rest, s) ==
            Run(m, buf, depth, rest, s.(env := s.env[ARG := NVar(s.env[x].n, s.env[ARG].cases)]))
  {
    hide Run;
    RunAppend(m, buf, depth, [SetTag(V(ARG), x)], rest, s);
    RunOne(m, buf, depth, SetTag(V(ARG), x), s);
  }

  lemma RunForCount(m: Module, buf: seq<byte>, depth: nat, i: Var, n: Var, count: nat, body: seq<Stmt>, s: State)
    requires n in s.env && s.env[n] == NNum(count)
    ensures Run(m, buf, depth, [ForCount(i, n, body)], s) == Loop(m, buf, depth, i, 0, count, body, s)
  {
    hide Run;
    RunOne(m, buf, depth, ForCount(i, n, body), s);
  }

  lemma RunSwitch(m: Module, buf: seq<byte>, depth: nat, x: Var, bodies: seq<Body>, s: State)
    requires x in s.env && s.env[x].NNum? && 0 <= s.env[x].n < |bodies|
    ensures Run(m, buf, depth, [Switch(x, bodies)], s) == Run(m, buf, depth, bodies[s.env[x].n].code, s)
  {
    hide Run;
    RunOne(m, buf, depth, Switch(x, bodies), s);
  }

  /** `let x = <default>` starts a temporary that the code after it fills. */
  lemma DefaultThen(m: Module, buf: seq<byte>, depth: nat, x: Var, ty: Ty, r: nat, rest: seq<Stmt>, s: State)
    requires Valid(m) && Declared(m, ty, r) && r <= depth
    ensures Run(m, buf, depth, [LetDefault(x, ty)] + rest, s) ==
            Run(m, buf, depth, rest, s.(env := s.env[x := Default(m, ty, r)]))
  {
    hide Default;
    DeclaredMore(m, ty, r, depth);
    DefaultMore(m, ty, r, depth);
    RunAppend(m, buf, depth, [LetDefault(x, ty)], rest, s);
    RunOne(m, buf, depth, LetDefault(x, ty), s);
  }

  // ---------------------------------------------------------------------------
  // Correctness
  // ---------------------------------------------------------------------------

  ghost predicate Fills(m: Module, ty: Ty, r: nat, buf: seq<byte>, depth: nat, tmp: nat, dest: Expr, s: State)
    requires Valid(m) && Declared(m, ty, r) && s.pos <= |buf|
  {
    && Emit(m, ty, tmp, dest).Some?
    && Filled(s, Run(m, buf, depth, Emit(m, ty, tmp, dest).value.0, s), tmp, dest, ValueOutcome(m, ty, r, buf, s.pos))
  }

  lemma PrimFills(m: Module, p: Type, buf: seq<byte>, depth: nat, tmp: nat, dest: Expr, s: State)
    requires Valid(m) && IsPrim(p) && Ready(s, tmp, dest, PrimDefault(p), buf)
    ensures Fills(m, Prim(p), 0, buf, depth, tmp, dest, s)
  {
    hide Run;
    hide Pow2;
    var (nv, t) := GetPrimitive(p, buf, s);
    AssignTotal(s.env, dest, nv);
    assert [GetPrim(p, dest), FailIfErr] + [] == [GetPrim(p, dest), FailIfErr];
    RunPrim(m, p, buf, depth, dest, s);
    PrimOutcome(m, p, buf, s);
  }

  lemma RunPrim(m: Module, p: Type, buf: seq<byte>, depth: nat, dest: Expr, s: State)
    requires IsPrim(p) && Assignable(dest) && Eval(s.env, dest).Some?
    ensures var (nv, t) := GetPrimitive(p, buf, s);
            && Assign(s.env, dest, nv).Some?
            && Assign(s.env, dest, nv).value.Keys == s.env.Keys
            && Run(m, buf, depth, [GetPrim(p, dest), FailIfErr], s) ==
               var after := t.(env := Assign(s.env, dest, nv).value);
               if t.err.Some? then Return(after) else Next(after)
  {
    hide Run;
    hide GetPrimitive;
    var (nv, t) := GetPrimitive(p, buf, s);
    AssignTotal(s.env, dest, nv);
    GetKeepsEnv(p, buf, s);
    assert [GetPrim(p, dest), FailIfErr] + [] == [GetPrim(p, dest), FailIfErr];
    CheckedThen(m, buf, depth, GetPrim(p, dest), [], s);
    RunNothing(m, buf, depth, t.(env := Assign(s.env, dest, nv).value));
  }

  lemma GetKeepsEnv(p: Type, buf: seq<byte>, s: State)
    requires IsPrim(p)
    ensures GetPrimitive(p, buf, s).1.env == s.env
  {
  }

  /** A primitive read is the reference decoder's, with its value as an object. */
  lemma PrimOutcome(m: Module, p: Type, buf: seq<byte>, s: State)
    requires Valid(m) && IsPrim(p) && s.err.None? && s.pos <= |buf|
    ensures var (nv, t) := GetPrimitive(p, buf, s);
            var o := ValueOutcome(m, Prim(p), 0, buf, s.pos);
            if t.err.Some? then o == Failed(t.err.value) else o == Got(nv, t.pos)
  {
    hide Pow2;
    hide DecUleb;
    hide DecSleb;
    hide Unpack;
  }

  lemma PrimAnyRank(m: Module, p: Type, r: nat, buf: seq<byte>, pos: nat)
    requires Valid(m) && IsPrim(p) && pos <= |buf|
    ensures ValueOutcome(m, Prim(p), r, buf, pos) == ValueOutcome(m, Prim(p), 0, buf, pos)
  {
  }

  /** The emitted decode statements of a type, run on any buffer into a default-initialised target. */
  lemma {:induction false} EmitFills(m: Module, ty: Ty, r: nat, buf: seq<byte>, depth: nat, tmp: nat, dest: Expr,
                                     s: State)
    requires Valid(m) && Placed(m, ty, r) && r <= depth
    requires Ready(s, tmp, dest, Default(m, ty, r), buf)
    ensures Fills(m, ty, r, buf, depth, tmp, dest, s)
    decreases r, ty, 2
  {
    hide Run;
    hide Exec;
    hide Filled;
    match ty
    case Prim(p) =>
      PrimFills(m, p, buf, depth, tmp, dest, s);
      PrimAnyRank(m, p, r, buf, s.pos);
    case List(_) => ListFills(m, ty, r, buf, depth, tmp, dest, s);
    case Opt(_) => OptFills(m, ty, r, buf, depth, tmp, dest, s);
    case Tuple(ts) => TupleFills(m, ty, r, buf, depth, tmp, dest, s);
    case Res(_, _) => ResFills(m, ty, r, buf, depth, tmp, dest, s);
    case Named(_) => CallFills(m, ty, r, buf, depth, tmp, dest, s);
  }

  lemma {:induction false} ListFills(m: Module, ty: Ty, r: nat, buf: seq<byte>, depth: nat, tmp: nat, dest: Expr,
                                     s: State)
    requires ty.List? && Valid(m) && Placed(m, ty, r) && r <= depth
    requires Ready(s, tmp, dest, NArr([]), buf)
    ensures Fills(m, ty, r, buf, depth, tmp, dest, s)
    decreases r, ty, 1
  {
    hide ValueOutcome;
    hide ItemsOutcome;
    hide Exec;
    hide Run;
    hide Default;
    hide FromValue;
    EmitTotal(m, ty, r, tmp, dest);
    var t, n, i, x := ty.t, Tmp('r', tmp), Tmp('i', tmp + 1), Tmp('x', tmp + 2);
    var inner := Emit(m, t, tmp + 3, V(x)).value.0;
    var body := [LetDefault(x, t)] + inner + [Push(dest, x)];
    assert Emit(m, ty, tmp, dest).value.0 == [GetLen(n), FailIfErr] + [ForCount(i, n, body)];
    HeadThen(m, buf, depth, GetLen(n), [ForCount(i, n, body)], s);
    match DecUleb(32, buf, s.pos)
    case Err(_) => ListHeaderFails(m, ty, r, buf, s.pos);
    case Ok(count, p) =>
      UlebInside(32, buf, s.pos);
      var s1 := s.(env := s.env[n := NNum(count)], pos := p);
      assert Agree(s.env, s1.env, tmp);
      EvalAgree(s.env, s1.env, dest, tmp);
      RunForCount(m, buf, depth, i, n, count, body, s1);
      LoopFills(m, t, r, buf, depth, tmp, dest, s1, 0, count, []);
      var o := ItemsOutcome(m, t, r, count, [], buf, p);
      RebaseSame(s, s1, Loop(m, buf, depth, i, 0, count, body, s1), tmp, tmp, dest, o);
      ListOutcomeIs(m, ty, r, buf, s.pos);
  }

  lemma ListHeaderFails(m: Module, ty: Ty, r: nat, buf: seq<byte>, pos: nat)
    requires ty.List? && Valid(m) && Placed(m, ty, r) && pos <= |buf| && DecUleb(32, buf, pos).Err?
    ensures ValueOutcome(m, ty, r, buf, pos) == Failed(DecUleb(32, buf, pos).error)
  {
    hide DecUleb;
  }

  lemma ListOutcomeIs(m: Module, ty: Ty, r: nat, buf: seq<byte>, pos: nat)
    requires ty.List? && Valid(m) && Placed(m, ty, r) && pos <= |buf| && DecUleb(32, buf, pos).Ok?
    requires DecUleb(32, buf, pos).pos <= |buf|
    ensures ValueOutcome(m, ty, r, buf, pos) ==
            ItemsOutcome(m, ty.t, r, DecUleb(32, buf, pos).value, [], buf, DecUleb(32, buf, pos).pos)
  {
    var T, n, p := TypeOf(m, ty.t, r), DecUleb(32, buf, pos).value, DecUleb(32, buf, pos).pos;
    if DecodeItems(T, n, buf, p).Ok? {
      DecodeItemsYields(T, n, buf, p);
      var vs := DecodeItems(T, n, buf, p).value;
      assert [] + ItemsFromValues(m, ty.t, r, vs) == ItemsFromValues(m, ty.t, r, vs);
    }
  }

  lemma UlebInside(bits: nat, buf: seq<byte>, pos: nat)
    requires DecUleb(bits, buf, pos).Ok?
    ensures pos < DecUleb(bits, buf, pos).pos <= |buf|
  {
    var v, p := DecUleb(bits, buf, pos).value, DecUleb(bits, buf, pos).pos;
    UlebExact(bits, buf, pos, v, p);
  }

  lemma {:induction false} LoopFills(m: Module, t: Ty, r: nat, buf: seq<byte>, depth: nat, tmp: nat, dest: Expr,
                                     s: State,
                                     k: nat, n: nat, done: seq<Native>)
    requires Valid(m) && Placed(m, t, r) && r <= depth && k <= n
    requires Ready(s, tmp, dest, NArr(done), buf)
    ensures var i, x := Tmp('i', tmp + 1), Tmp('x', tmp + 2);
            && Emit(m, t, tmp + 3, V(x)).Some?
            && var body := [LetDefault(x, t)] + Emit(m, t, tmp + 3, V(x)).value.0 + [Push(dest, x)];
               Filled(s, Loop(m, buf, depth, i, k, n, body, s), tmp, dest,
                      ItemsOutcome(m, t, r, n - k, done, buf, s.pos))
    decreases r, t, 3 + n - k
  {
    hide ValueOutcome;
    hide ItemsOutcome;
    hide Emit;
    hide Run;
    hide Exec;
    hide Default;
    hide FromValue;
    hide Filled;
    var i, x := Tmp('i', tmp + 1), Tmp('x', tmp + 2);
    EmitTotal(m, t, r, tmp + 3, V(x));
    var inner := Emit(m, t, tmp + 3, V(x)).value.0;
    var body := [LetDefault(x, t)] + inner + [Push(dest, x)];
    if k == n {
      EmptyItems(m, t, r, buf, s, tmp, dest, done);
    } else {
      var s1 := s.(env := s.env[i := NNum(k)]);
      var s2 := s1.(env := s1.env[x := Default(m, t, r)]);
      assert body == [LetDefault(x, t)] + (inner + [Push(dest, x)]);
      DefaultThen(m, buf, depth, x, t, r, inner + [Push(dest, x)], s1);
      RunAppend(m, buf, depth, inner, [Push(dest, x)], s2);
      EmitFills(m, t, r, buf, depth, tmp + 3, V(x), s2);
      var f := Run(m, buf, depth, inner, s2);
      match ValueOutcome(m, t, r, buf, s.pos)
      case Failed(e) => ItemFailed(m, t, r, n - k, done, buf, s, s2, f, tmp, dest, e);
      case Got(nv, p) =>
        ItemRead(s, s2, f, tmp, dest, x, NArr(done), nv, p);
        var s3 := f.s;
        RunOne(m, buf, depth, Push(dest, x), s3);
        var s4 := PushExec(m, buf, depth, dest, x, done, s3);
        var pushed := NArr(done + [nv]);
        AssignAgree(s.env, s3.env, dest, pushed, tmp);
        AssignTotal(s3.env, dest, pushed);
        PosInside(m, t, r, buf, s.pos);
        LoopFills(m, t, r, buf, depth, tmp, dest, s4, k + 1, n, done + [nv]);
        ItemsOutcomeStep(m, t, r, n - k, done, buf, s.pos);
        Rebase(s, s4, Loop(m, buf, depth, i, k + 1, n, body, s4), tmp, tmp, dest, pushed,
               ItemsOutcome(m, t, r, n - k, done, buf, s.pos));
    }
  }

  lemma PosInside(m: Module, ty: Ty, r: nat, buf: seq<byte>, pos: nat)
    requires Valid(m) && Declared(m, ty, r) && pos <= |buf| && ValueOutcome(m, ty, r, buf, pos).Got?
    ensures pos <= ValueOutcome(m, ty, r, buf, pos).pos <= |buf|
  {
    DecodeYields(TypeOf(m, ty, r), buf, pos);
  }

  lemma EmptyItems(m: Module, t: Ty, r: nat, buf: seq<byte>, s: State, tmp: nat, dest: Expr, done: seq<Native>)
    requires Valid(m) && Declared(m, t, r) && Ready(s, tmp, dest, NArr(done), buf)
    ensures Filled(s, Next(s), tmp, dest, ItemsOutcome(m, t, r, 0, done, buf, s.pos))
  {
    AssignSelf(s.env, dest);
    assert done + ItemsFromValues(m, t, r, []) == done;
  }

  lemma ItemFailed(m: Module, t: Ty, r: nat, n: nat, done: seq<Native>, buf: seq<byte>, s: State, s2: State, f: Flow,
                   tmp: nat, dest: Expr, e: Error)
    requires Valid(m) && Declared(m, t, r) && n > 0 && s.pos == s2.pos <= |buf| && s.env.Keys <= s2.env.Keys
    requires ValueOutcome(m, t, r, buf, s.pos) == Failed(e)
    requires exists dest2, tmp2 :: Filled(s2, f, tmp2, dest2, Failed(e))
    ensures Filled(s, f, tmp, dest, ItemsOutcome(m, t, r, n, done, buf, s.pos)) && f.Return?
  {
  }

  /** After an element was read into the temporary `x`, `dest` is as before. */
  lemma ItemRead(s: State, s2: State, f: Flow, tmp: nat, dest: Expr, x: Var, before: Native, nv: Native, p: nat)
    requires x == Tmp('x', tmp + 2) && Below(dest, tmp) && Eval(s.env, dest) == Some(before)
    requires Agree(s.env, s2.env, tmp) && s.env.Keys <= s2.env.Keys
    requires Filled(s2, f, tmp + 3, V(x), Got(nv, p))
    ensures f.Next? && f.s.pos == p && f.s.err.None? && s.env.Keys <= f.s.env.Keys
    ensures Agree(s.env, f.s.env, tmp) && Eval(f.s.env, dest) == Some(before)
    ensures x in f.s.env && f.s.env[x] == nv
  {
    var s3 := f.s;
    var env2 := s2.env[x := nv];
    assert VarBelow(x, tmp + 3);
    assert Agree(s2.env, env2, tmp);
    AgreeLess(env2, s3.env, tmp, tmp + 3);
    AgreeTrans(s2.env, env2, s3.env, tmp);
    AgreeTrans(s.env, s2.env, s3.env, tmp);
    EvalAgree(s.env, s3.env, dest, tmp);
  }

  lemma PushExec(m: Module, buf: seq<byte>, depth: nat, dest: Expr, x: Var, done: seq<Native>,
                 s: State) returns (t: State)
    requires Assignable(dest) && Eval(s.env, dest) == Some(NArr(done)) && x in s.env
    ensures Assign(s.env, dest, NArr(done + [s.env[x]])).Some?
    ensures t == s.(env := Assign(s.env, dest, NArr(done + [s.env[x]])).value)
    ensures Exec(m, buf, depth, Push(dest, x), s) == Next(t)
  {
    AssignTotal(s.env, dest, NArr(done + [s.env[x]]));
    t := s.(env := Assign(s.env, dest, NArr(done + [s.env[x]])).value);
  }

  lemma ItemsOutcomeStep(m: Module, t: Ty, r: nat, n: nat, done: seq<Native>, buf: seq<byte>, pos: nat)
    requires Valid(m) && Declared(m, t, r) && n > 0 && pos <= |buf| && ValueOutcome(m, t, r, buf, pos).Got?
    requires ValueOutcome(m, t, r, buf, pos).pos <= |buf|
    ensures var o := ValueOutcome(m, t, r, buf, pos);
            ItemsOutcome(m, t, r, n, done, buf, pos) == ItemsOutcome(m, t, r, n - 1, done + [o.nv], buf, o.pos)
  {
    hide FromValue;
    hide Default;
    var T := TypeOf(m, t, r);
    var o := ValueOutcome(m, t, r, buf, pos);
    var v := Decode(T, buf, pos).value;
    if DecodeItems(T, n - 1, buf, o.pos).Ok? {
      DecodeItemsYields(T, n, buf, pos);
      DecodeItemsYields(T, n - 1, buf, o.pos);
      var vs := DecodeItems(T, n - 1, buf, o.pos).value;
      assert DecodeItems(T, n, buf, pos).value == [v] + vs;
      assert ([v] + vs)[1..] == vs;
      assert done + ([o.nv] + ItemsFromValues(m, t, r, vs)) == done + [o.nv] + ItemsFromValues(m, t, r, vs);
    }
  }

  lemma {:induction false} OptFills(m: Module, ty: Ty, r: nat, buf: seq<byte>, depth: nat, tmp: nat, dest: Expr,
                                    s: State)
    requires ty.Opt? && Valid(m) && Placed(m, ty, r) && r <= depth
    requires Ready(s, tmp, dest, NNull, buf)
    ensures Fills(m, ty, r, buf, depth, tmp, dest, s)
    decreases r, ty, 1
  {
    hide Run;
    hide Exec;
    hide Default;
    hide FromValue;
    EmitTotal(m, ty, r, tmp, dest);
    var t, b, x := ty.t, Tmp('r', tmp), Tmp('x', tmp + 1);
    PlacedResolves(m, t, r);
    var box := Boxed(m, t);
    assert NeedsBox(m, t) == Some(box);
    EmitTotal(m, t, r, tmp + 2, V(x));
    var inner := Emit(m, t, tmp + 2, V(x)).value.0;
    var body := [LetDefault(x, t)] + inner + [Put(dest, x, box)];
    assert Emit(m, ty, tmp, dest).value.0 == [GetPresent(b), FailIfErr] + [IfTrue(b, body, [])];
    HeadThen(m, buf, depth, GetPresent(b), [IfTrue(b, body, [])], s);
    match DecBit("option", buf, s.pos)
    case Err(_) =>
    case Ok(some, p) =>
      var s1 := s.(env := s.env[b := NBool(some)], pos := p);
      assert Agree(s.env, s1.env, tmp);
      EvalAgree(s.env, s1.env, dest, tmp);
      RunIfTrue(m, buf, depth, b, body, [], s1);
      if some {
        SomeFills(m, ty, r, buf, depth, tmp, dest, s1);
        RebaseSame(s, s1, Run(m, buf, depth, body, s1), tmp, tmp, dest, SomeOutcome(m, t, r, buf, p));
        SomeOutcomeIs(m, ty, r, buf, s.pos);
      } else {
        NoneOutcomeIs(m, ty, r, buf, s.pos);
        AssignSelf(s.env, dest);
        RunNothing(m, buf, depth, s1);
      }
  }

  ghost function SomeOutcome(m: Module, t: Ty, r: nat, buf: seq<byte>, pos: nat): Outcome
    requires Valid(m) && Declared(m, t, r) && pos <= |buf|
  {
    match ValueOutcome(m, t, r, buf, pos)
    case Failed(e) => Failed(e)
    case Got(nv, p) => Got(if Boxed(m, t) then NBox(nv) else nv, p)
  }

  lemma SomeOutcomeIs(m: Module, ty: Ty, r: nat, buf: seq<byte>, pos: nat)
    requires ty.Opt? && Valid(m) && Placed(m, ty, r) && pos < |buf| && DecBit("option", buf, pos) == Ok(true, pos + 1)
    ensures ValueOutcome(m, ty, r, buf, pos) == SomeOutcome(m, ty.t, r, buf, pos + 1)
  {
  }

  lemma NoneOutcomeIs(m: Module, ty: Ty, r: nat, buf: seq<byte>, pos: nat)
    requires ty.Opt? && Valid(m) && Placed(m, ty, r) && pos < |buf| && DecBit("option", buf, pos) == Ok(false, pos + 1)
    ensures ValueOutcome(m, ty, r, buf, pos) == Got(NNull, pos + 1)
  {
  }

  lemma {:induction false} SomeFills(m: Module, ty: Ty, r: nat, buf: seq<byte>, depth: nat, tmp: nat, dest: Expr,
                                     s: State)
    requires ty.Opt? && Valid(m) && Placed(m, ty, r) && r <= depth
    requires Ready(s, tmp, dest, NNull, buf)
    ensures var x := Tmp('x', tmp + 1);
            && Emit(m, ty.t, tmp + 2, V(x)).Some?
            && var body := [LetDefault(x, ty.t)] + Emit(m, ty.t, tmp + 2, V(x)).value.0 +
                        [Put(dest, x, Boxed(m, ty.t))];
               Filled(s, Run(m, buf, depth, body, s), tmp, dest, SomeOutcome(m, ty.t, r, buf, s.pos))
    decreases r, ty, 0
  {
    hide Run;
    hide Exec;
    hide Default;
    hide FromValue;
    var t, x, box := ty.t, Tmp('x', tmp + 1), Boxed(m, ty.t);
    EmitTotal(m, t, r, tmp + 2, V(x));
    var inner := Emit(m, t, tmp + 2, V(x)).value.0;
    var put := Put(dest, x, box);
    assert [LetDefault(x, t)] + inner + [put] == [LetDefault(x, t)] + (inner + [put]);
    DefaultThen(m, buf, depth, x, t, r, inner + [put], s);
    var s1 := s.(env := s.env[x := Default(m, t, r)]);
    RunAppend(m, buf, depth, inner, [put], s1);
    EmitFills(m, t, r, buf, depth, tmp + 2, V(x), s1);
    PutFills(m, buf, depth, tmp, dest, x, box, s, s1, Run(m, buf, depth, inner, s1), ValueOutcome(m, t, r, buf, s.pos),
             tmp + 2);
  }

  /** Storing a temporary that was just filled, boxed or not, fills the target. */
  lemma PutFills(m: Module, buf: seq<byte>, depth: nat, tmp: nat, dest: Expr, x: Var, box: bool, s: State, s1: State,
                 f: Flow, o: Outcome, more: nat)
    requires Assignable(dest) && Below(dest, tmp) && Eval(s.env, dest).Some?
    requires x.Tmp? && tmp <= x.n < more && Agree(s.env, s1.env, tmp) && s.env.Keys <= s1.env.Keys
    requires Filled(s1, f, more, V(x), o)
    ensures o.Failed? ==> Filled(s, f, tmp, dest, o)
    ensures o.Got? ==> f.Next? &&
                       Filled(s, Run(m, buf, depth, [Put(dest, x, box)], f.s), tmp, dest,
                              Got(if box then NBox(o.nv) else o.nv, o.pos))
  {
    if o.Got? {
      var env1 := s1.env[x := o.nv];
      assert VarBelow(x, more);
      assert Agree(s1.env, env1, tmp);
      AgreeLess(env1, f.s.env, tmp, more);
      AgreeTrans(s1.env, env1, f.s.env, tmp);
      AgreeTrans(s.env, s1.env, f.s.env, tmp);
      assert f.s.env[x] == o.nv;
      var nv := if box then NBox(o.nv) else o.nv;
      EvalAgree(s.env, f.s.env, dest, tmp);
      AssignTotal(f.s.env, dest, nv);
      AssignAgree(s.env, f.s.env, dest, nv, tmp);
      RunOne(m, buf, depth, Put(dest, x, box), f.s);
    }
  }

  // ---------------------------------------------------------------------------
  // Members
  // ---------------------------------------------------------------------------

  lemma {:induction false} TupleFills(m: Module, ty: Ty, r: nat, buf: seq<byte>, depth: nat, tmp: nat, dest: Expr,
                                      s: State)
    requires ty.Tuple? && Valid(m) && Placed(m, ty, r) && r <= depth
    requires Ready(s, tmp, dest, NObj(Defaults(m, ty.ts, r)), buf)
    ensures Fills(m, ty, r, buf, depth, tmp, dest, s)
    decreases r, ty, 1
  {
    hide Run;
    hide Exec;
    hide Filled;
    var ts := ty.ts;
    var fields := Defaults(m, ts, r);
    assert fields[0..] == fields;
    EmitFieldsFill(m, ts, r, buf, depth, 0, tmp, dest, s, fields);
    TupleOutcome(m, ty, r, buf, s.pos);
    assert fields[..0] == [];
  }

  lemma TupleOutcome(m: Module, ty: Ty, r: nat, buf: seq<byte>, pos: nat)
    requires Valid(m) && Declared(m, ty, r) && (ty.Tuple? || ty.Record?) && pos <= |buf|
    ensures ValueOutcome(m, ty, r, buf, pos) == FieldsOutcome(m, ty.ts, r, [], buf, pos)
  {
    match DecodeFields(TypesOf(m, ty.ts, r), buf, pos)
    case Err(_) =>
    case Ok(vs, _) =>
      DecodeFieldsYields(TypesOf(m, ty.ts, r), buf, pos);
      assert [] + FieldsFromValues(m, ty.ts, r, vs) == FieldsFromValues(m, ty.ts, r, vs);
  }

  lemma {:induction false} EmitFieldsFill(m: Module, ts: seq<Ty>, r: nat, buf: seq<byte>, depth: nat, i: nat, tmp: nat,
                                          dest: Expr, s: State, fields: seq<Native>)
    requires Valid(m) && AllPlaced(m, ts, r) && r <= depth
    requires Ready(s, tmp, dest, NObj(fields), buf)
    requires i <= |fields| && fields[i..] == Defaults(m, ts, r)
    ensures EmitFields(m, ts, i, tmp, dest).Some?
    ensures Filled(s, Run(m, buf, depth, EmitFields(m, ts, i, tmp, dest).value.0, s), tmp, dest,
                   FieldsOutcome(m, ts, r, fields[..i], buf, s.pos))
    decreases r, ts, 0
  {
    hide ValueOutcome;
    hide FieldsOutcome;
    hide Run;
    hide Exec;
    hide FromValue;
    hide Default;
    EmitFieldsTotal(m, ts, r, i, tmp, dest);
    if ts == [] {
      assert fields[..i] + [] == fields;
      RunNothing(m, buf, depth, s);
      assert fields[..i] == fields;
      NoFields(m, r, fields[..i], buf, s.pos);
      AssignSelf(s.env, dest);
    } else {
      var field := Dot(dest, Item(i));
      EmitTotal(m, ts[0], r, tmp, field);
      var (code, mid) := Emit(m, ts[0], tmp, field).value;
      EmitFieldsTotal(m, ts[1..], r, i + 1, mid, dest);
      var rest := EmitFields(m, ts[1..], i + 1, mid, dest).value.0;
      assert fields[i] == fields[i..][0] == Default(m, ts[0], r);
      EmitFills(m, ts[0], r, buf, depth, tmp, field, s);
      RunAppend(m, buf, depth, code, rest, s);
      var f := Run(m, buf, depth, code, s);
      match ValueOutcome(m, ts[0], r, buf, s.pos)
      case Failed(_) => FieldFailed(m, ts, r, fields[..i], buf, s.pos);
      case Got(nv, p) =>
        var next := fields[i := nv];
        FieldDone(s, f, tmp, mid, dest, fields, i, nv, p);
        PosInside(m, ts[0], r, buf, s.pos);
        assert next[i + 1..] == fields[i..][1..] == Defaults(m, ts[1..], r);
        EmitFieldsFill(m, ts[1..], r, buf, depth, i + 1, mid, dest, f.s, next);
        FieldsOutcomeStep(m, ts, r, fields[..i], buf, s.pos);
        assert next[..i + 1] == fields[..i] + [nv];
        Rebase(s, f.s, Run(m, buf, depth, rest, f.s), tmp, mid, dest, NObj(next),
               FieldsOutcome(m, ts, r, fields[..i], buf, s.pos));
    }
  }

  lemma NoFields(m: Module, r: nat, done: seq<Native>, buf: seq<byte>, pos: nat)
    requires Valid(m) && pos <= |buf|
    ensures FieldsOutcome(m, [], r, done, buf, pos) == Got(NObj(done), pos)
  {
    assert done + [] == done;
  }

  lemma FieldFailed(m: Module, ts: seq<Ty>, r: nat, done: seq<Native>, buf: seq<byte>, pos: nat)
    requires Valid(m) && AllPlaced(m, ts, r) && ts != [] && pos <= |buf| && ValueOutcome(m, ts[0], r, buf, pos).Failed?
    ensures FieldsOutcome(m, ts, r, done, buf, pos) == ValueOutcome(m, ts[0], r, buf, pos)
  {
  }

  /** After member `i` was decoded in place, the object holds it and everything else is as before. */
  lemma FieldDone(s: State, f: Flow, tmp: nat, mid: nat, dest: Expr, fields: seq<Native>, i: nat, nv: Native, p: nat)
    requires Assignable(dest) && Below(dest, tmp) && tmp <= mid && i < |fields|
    requires Eval(s.env, dest) == Some(NObj(fields)) && Filled(s, f, tmp, Dot(dest, Item(i)), Got(nv, p))
    ensures var next := NObj(fields[i := nv]);
            && f.Next? && f.s.err.None? && f.s.pos == p && s.env.Keys <= f.s.env.Keys
            && Assign(s.env, dest, next).Some? && Agree(Assign(s.env, dest, next).value, f.s.env, tmp)
            && Eval(f.s.env, dest) == Some(next) && Below(dest, mid)
  {
    var next := NObj(fields[i := nv]);
    AssignTotal(s.env, dest, next);
    EvalAgree(Assign(s.env, dest, next).value, f.s.env, dest, tmp);
    BelowMore(dest, tmp, mid);
  }

  lemma FieldsOutcomeStep(m: Module, ts: seq<Ty>, r: nat, done: seq<Native>, buf: seq<byte>, pos: nat)
    requires Valid(m) && AllPlaced(m, ts, r) && ts != [] && pos <= |buf| && ValueOutcome(m, ts[0], r, buf, pos).Got?
    requires ValueOutcome(m, ts[0], r, buf, pos).pos <= |buf|
    ensures var o := ValueOutcome(m, ts[0], r, buf, pos);
            FieldsOutcome(m, ts, r, done, buf, pos) == FieldsOutcome(m, ts[1..], r, done + [o.nv], buf, o.pos)
  {
    hide FromValue;
    hide Default;
    var tys := TypesOf(m, ts, r);
    assert tys[1..] == TypesOf(m, ts[1..], r);
    var o := ValueOutcome(m, ts[0], r, buf, pos);
    var v := Decode(tys[0], buf, pos).value;
    if DecodeFields(tys[1..], buf, o.pos).Ok? {
      DecodeFieldsYields(tys, buf, pos);
      DecodeFieldsYields(tys[1..], buf, o.pos);
      var vs := DecodeFields(tys[1..], buf, o.pos).value;
      assert DecodeFields(tys, buf, pos).value == [v] + vs;
      assert ([v] + vs)[1..] == vs;
      var more := FieldsFromValues(m, ts[1..], r, vs);
      assert done + ([o.nv] + more) == done + [o.nv] + more;
    }
  }

  // ---------------------------------------------------------------------------
  // Results
  // ---------------------------------------------------------------------------

  lemma {:induction false} SideFills(m: Module, side: Option<Ty>, r: nat, buf: seq<byte>, depth: nat, tmp: nat,
                                     dest: Expr,
                                     s: State)
    requires Valid(m) && SidePlaced(m, side, r) && r <= depth && s.pos <= |buf| && s.err.None?
    requires side.Some? ==> Ready(s, tmp, dest, Default(m, side.value, r), buf)
    ensures EmitSide(m, side, tmp, dest).Some?
    ensures var f := Run(m, buf, depth, EmitSide(m, side, tmp, dest).value.0, s);
            match SideOutcome(m, side, r, buf, s.pos)
            case Err(e) => Filled(s, f, tmp, dest, Failed(e))
            case Ok(None, p) => f == Next(s) && p == s.pos
            case Ok(Some(nv), p) => Filled(s, f, tmp, dest, Got(nv, p))
    decreases r, side, 3
  {
    hide Exec;
    EmitSideTotal(m, side, r, tmp, dest);
    if side.Some? {
      EmitFills(m, side.value, r, buf, depth, tmp, dest, s);
    }
  }

  /** Up to the branch: the discriminant is read, checked and stored. */
  lemma ResHead(m: Module, ty: Ty, r: nat, buf: seq<byte>, depth: nat, tmp: nat, dest: Expr, s: State)
    returns (mid: nat, s2: State)
    requires ty.Res? && Valid(m) && Placed(m, ty, r)
    requires Ready(s, tmp, dest, Default(m, ty, r), buf)
    ensures Emit(m, ty, tmp, dest).Some? && tmp < mid
    ensures EmitSide(m, ty.err, tmp + 1, Dot(dest, ErrSide)).Some? && EmitSide(m, ty.ok, mid, Dot(dest, OkSide)).Some?
    ensures var f := Run(m, buf, depth, Emit(m, ty, tmp, dest).value.0, s);
            var step := DecBit("result", buf, s.pos);
            if step.Err? then Filled(s, f, tmp, dest, Failed(step.error))
            else
              var start := NRes(step.value, SideDefault(m, ty.ok, r), SideDefault(m, ty.err, r));
              && f == Run(m, buf, depth, if step.value then EmitSide(m, ty.err, tmp + 1, Dot(dest, ErrSide)).value.0
                                         else EmitSide(m, ty.ok, mid, Dot(dest, OkSide)).value.0, s2)
              && s2.pos == step.pos && Ready(s2, tmp, dest, start, buf) && s.env.Keys <= s2.env.Keys
              && Assign(s.env, dest, start).Some? && Agree(Assign(s.env, dest, start).value, s2.env, tmp)
  {
    hide Run;
    hide Exec;
    EmitTotal(m, ty, r, tmp, dest);
    var o, e, b := ty.ok, ty.err, Tmp('r', tmp);
    EmitSideTotal(m, e, r, tmp + 1, Dot(dest, ErrSide));
    var errCode := EmitSide(m, e, tmp + 1, Dot(dest, ErrSide)).value.0;
    mid := EmitSide(m, e, tmp + 1, Dot(dest, ErrSide)).value.1;
    EmitSideTotal(m, o, r, mid, Dot(dest, OkSide));
    var okCode := EmitSide(m, o, mid, Dot(dest, OkSide)).value.0;
    var tail := if o.None? && e.None? then [] else [IfTrue(b, errCode, okCode)];
    assert Emit(m, ty, tmp, dest).value.0 == [GetIsErr(b), FailIfErr] + ([SetIsErr(dest, b)] + tail);
    HeadThen(m, buf, depth, GetIsErr(b), [SetIsErr(dest, b)] + tail, s);
    s2 := s;
    if DecBit("result", buf, s.pos).Ok? {
      var isErr, p := DecBit("result", buf, s.pos).value, DecBit("result", buf, s.pos).pos;
      var s1 := s.(env := s.env[b := NBool(isErr)], pos := p);
      assert Agree(s.env, s1.env, tmp);
      EvalAgree(s.env, s1.env, dest, tmp);
      var start := NRes(isErr, SideDefault(m, o, r), SideDefault(m, e, r));
      AssignTotal(s1.env, dest, start);
      RunSetIsErr(m, buf, depth, dest, b, tail, s1, Default(m, ty, r));
      s2 := s1.(env := Assign(s1.env, dest, start).value);
      AssignAgree(s.env, s1.env, dest, start, tmp);
      RootBelow(dest, tmp);
      AssignKeeps(s1.env, dest, start, b);
      if tail != [] {
        RunIfTrue(m, buf, depth, b, errCode, okCode, s2);
      } else {
        assert errCode == okCode == [];
      }
    }
  }

  lemma {:induction false} ResFills(m: Module, ty: Ty, r: nat, buf: seq<byte>, depth: nat, tmp: nat, dest: Expr,
                                    s: State)
    requires ty.Res? && Valid(m) && Placed(m, ty, r) && r <= depth
    requires Ready(s, tmp, dest, Default(m, ty, r), buf)
    ensures Fills(m, ty, r, buf, depth, tmp, dest, s)
    decreases r, ty, 1
  {
    hide FromValue;
    hide Run;
    var mid, s2 := ResHead(m, ty, r, buf, depth, tmp, dest, s);
    if DecBit("result", buf, s.pos).Ok? {
      var isErr, p := DecBit("result", buf, s.pos).value, DecBit("result", buf, s.pos).pos;
      ResultBranch(m, ty, r, buf, depth, tmp, mid, dest, s2, isErr);
      var f := Run(m, buf, depth, Emit(m, ty, tmp, dest).value.0, s);
      Rebase(s, s2, f, tmp, tmp, dest, NRes(isErr, SideDefault(m, ty.ok, r), SideDefault(m, ty.err, r)),
             ResultOutcome(m, ty, r, buf, p, isErr));
      ResultOutcomeIs(m, ty, r, buf, s.pos, isErr);
    }
  }

  ghost function ResultOutcome(m: Module, ty: Ty, r: nat, buf: seq<byte>, pos: nat, isErr: bool): Outcome
    requires ty.Res? && Valid(m) && Placed(m, ty, r) && pos <= |buf|
  {
    match SideOutcome(m, if isErr then ty.err else ty.ok, r, buf, pos)
    case Err(e) => Failed(e)
    case Ok(nv, p) =>
      Got(if isErr then NRes(true, SideDefault(m, ty.ok, r), nv) else NRes(false, nv, SideDefault(m, ty.err, r)), p)
  }

  lemma ResultOutcomeIs(m: Module, ty: Ty, r: nat, buf: seq<byte>, pos: nat, isErr: bool)
    requires ty.Res? && Valid(m) && Placed(m, ty, r) && pos < |buf| && DecBit("result", buf, pos) == Ok(isErr, pos + 1)
    ensures ValueOutcome(m, ty, r, buf, pos) == ResultOutcome(m, ty, r, buf, pos + 1, isErr)
  {
  }

  lemma {:induction false} ResultBranch(m: Module, ty: Ty, r: nat, buf: seq<byte>, depth: nat, tmp: nat, mid: nat,
                                        dest: Expr, s: State, isErr: bool)
    requires ty.Res? && Valid(m) && Placed(m, ty, r) && r <= depth && tmp < mid
    requires Ready(s, tmp, dest, NRes(isErr, SideDefault(m, ty.ok, r), SideDefault(m, ty.err, r)), buf)
    ensures EmitSide(m, ty.err, tmp + 1, Dot(dest, ErrSide)).Some? && EmitSide(m, ty.ok, mid, Dot(dest, OkSide)).Some?
    ensures var code := if isErr then EmitSide(m, ty.err, tmp + 1, Dot(dest, ErrSide)).value.0
                        else EmitSide(m, ty.ok, mid, Dot(dest, OkSide)).value.0;
            Filled(s, Run(m, buf, depth, code, s), tmp, dest, ResultOutcome(m, ty, r, buf, s.pos, isErr))
    decreases r, ty, 0
  {
    hide Run;
    hide Exec;
    hide FromValue;
    hide Default;
    var o, e := ty.ok, ty.err;
    EmitSideTotal(m, e, r, tmp + 1, Dot(dest, ErrSide));
    EmitSideTotal(m, o, r, mid, Dot(dest, OkSide));
    BelowMore(dest, tmp, tmp + 1);
    BelowMore(dest, tmp, mid);
    var side, sel, at := if isErr then e else o, if isErr then ErrSide else OkSide, if isErr then tmp + 1 else mid;
    var path := Dot(dest, sel);
    SideFills(m, side, r, buf, depth, at, path, s);
    var f := Run(m, buf, depth, EmitSide(m, side, at, path).value.0, s);
    match SideOutcome(m, side, r, buf, s.pos)
    case Err(_) =>
    case Ok(None, _) => AssignSelf(s.env, dest);
    case Ok(Some(nv), p) =>
      AgreeLess(Assign(s.env, path, nv).value, f.s.env, tmp, at);
  }

  // ---------------------------------------------------------------------------
  // Helpers
  // ---------------------------------------------------------------------------

  /** A helper returns its object in `v`, either at the end or through its `fail_stmt`. */
  ghost predicate Returned(f: Flow, o: Outcome) {
    && (f.Next? || f.Return?)
    && ARG in f.s.env
    && match o
       case Failed(e) => f.s.err == Some(e)
       case Got(nv, p) => f.s.err.None? && f.s.pos == p && f.s.env[ARG] == nv
  }

  lemma FilledReturned(s: State, f: Flow, tmp: nat, o: Outcome)
    requires ARG in s.env && Filled(s, f, tmp, V(ARG), o)
    ensures Returned(f, o)
  {
    if o.Got? {
      assert VarBelow(ARG, tmp);
    }
  }

  lemma {:induction false} CallFills(m: Module, ty: Ty, r: nat, buf: seq<byte>, depth: nat, tmp: nat, dest: Expr,
                                     s: State)
    requires ty.Named? && Valid(m) && Placed(m, ty, r) && r <= depth
    requires Ready(s, tmp, dest, Default(m, ty, r), buf)
    ensures Fills(m, ty, r, buf, depth, tmp, dest, s)
    decreases r, ty, 1
  {
    hide FromValue;
    hide Default;
    var name := ty.name;
    var def, at := m.types[name], m.rank[name];
    HelperReturns(m, def, at, buf, depth - 1, s.pos);
    var f := Run(m, buf, depth - 1, Helper(m, def).value, State(map[], s.pos, None));
    AssignTotal(s.env, dest, f.s.env[ARG]);
    assert [Call(name, dest), FailIfErr] + [] == [Call(name, dest), FailIfErr];
    CheckedThen(m, buf, depth, Call(name, dest), [], s);
    NamedOutcome(m, ty, r, buf, s.pos);
  }

  lemma NamedOutcome(m: Module, ty: Ty, r: nat, buf: seq<byte>, pos: nat)
    requires ty.Named? && Valid(m) && Placed(m, ty, r) && pos <= |buf|
    ensures ValueOutcome(m, ty, r, buf, pos) == ValueOutcome(m, m.types[ty.name], m.rank[ty.name], buf, pos)
  {
  }

  /** Every generated `decodeName` helper agrees with the reference decoder on every buffer. */
  lemma {:induction false} HelperReturns(m: Module, ty: Ty, r: nat, buf: seq<byte>, depth: nat, pos: nat)
    requires Valid(m) && Declared(m, ty, r) && r <= depth && pos <= |buf|
    ensures Helper(m, ty).Some?
    ensures Returned(Run(m, buf, depth, Helper(m, ty).value, State(map[], pos, None)), ValueOutcome(m, ty, r, buf, pos))
    decreases r, ty, 4
  {
    hide Exec;
    hide FromValue;
    var s := State(map[], pos, None);
    var s1 := s.(env := map[ARG := Default(m, ty, r)]);
    var v := V(ARG);
    match ty {
      case Record(ts) =>
        EmitFieldsTotal(m, ts, r, 0, 0, v);
        var code := EmitFields(m, ts, 0, 0, v).value.0;
        DefaultThen(m, buf, depth, ARG, ty, r, code, s);
        var fields := Defaults(m, ts, r);
        assert fields[0..] == fields && fields[..0] == [];
        EmitFieldsFill(m, ts, r, buf, depth, 0, 0, v, s1, fields);
        TupleOutcome(m, ty, r, buf, pos);
        FilledReturned(s1, Run(m, buf, depth, code, s1), 0, ValueOutcome(m, ty, r, buf, pos));
      case Enum(n) => EnumReturns(m, ty, r, buf, depth, pos);
      case Flags(n) => FlagsReturns(m, ty, r, buf, depth, pos);
      case Variant(cs) => VariantReturns(m, ty, r, buf, depth, pos);
      case _ =>
        EmitTotal(m, ty, r, 0, v);
        var code := Emit(m, ty, 0, v).value.0;
        DefaultThen(m, buf, depth, ARG, ty, r, code, s);
        EmitFills(m, ty, r, buf, depth, 0, v, s1);
        FilledReturned(s1, Run(m, buf, depth, code, s1), 0, ValueOutcome(m, ty, r, buf, pos));
    }
  }

  lemma EnumReturns(m: Module, ty: Ty, r: nat, buf: seq<byte>, depth: nat, pos: nat)
    requires ty.Enum? && Valid(m) && Declared(m, ty, r) && r <= depth && pos <= |buf|
    ensures Helper(m, ty).Some?
    ensures Returned(Run(m, buf, depth, Helper(m, ty).value, State(map[], pos, None)), ValueOutcome(m, ty, r, buf, pos))
  {
    var s := State(map[], pos, None);
    var s1 := s.(env := map[ARG := Default(m, ty, r)]);
    var st := GetEnum(ty.n, V(ARG));
    DefaultThen(m, buf, depth, ARG, ty, r, [st], s);
    assert Helper(m, ty).value == [LetDefault(ARG, ty)] + [st];
    RunOne(m, buf, depth, st, s1);
  }

  lemma FlagsReturns(m: Module, ty: Ty, r: nat, buf: seq<byte>, depth: nat, pos: nat)
    requires ty.Flags? && Valid(m) && Declared(m, ty, r) && r <= depth && pos <= |buf|
    ensures Helper(m, ty).Some?
    ensures Returned(Run(m, buf, depth, Helper(m, ty).value, State(map[], pos, None)), ValueOutcome(m, ty, r, buf, pos))
  {
    var s := State(map[], pos, None);
    var s1 := s.(env := map[ARG := Default(m, ty, r)]);
    var st := GetFlags(ty.n, V(ARG));
    DefaultThen(m, buf, depth, ARG, ty, r, [st, FailIfErr] + [], s);
    assert Helper(m, ty).value == [LetDefault(ARG, ty)] + ([st, FailIfErr] + []);
    CheckedThen(m, buf, depth, st, [], s1);
  }

  /** Up to the switch: the case index is read, checked and stored. */
  lemma VariantHead(m: Module, ty: Ty, r: nat, buf: seq<byte>, depth: nat, pos: nat)
    requires ty.Variant? && Valid(m) && Declared(m, ty, r) && r <= depth && pos <= |buf|
    requires EmitCases(m, ty.cs, 0, 1, V(ARG)).Some?
    ensures Helper(m, ty).Some?
    ensures var cs, v, c := ty.cs, V(ARG), Tmp('r', 0);
            var f := Run(m, buf, depth, Helper(m, ty).value, State(map[], pos, None));
            var bodies := EmitCases(m, cs, 0, 1, v).value.0;
            var step := DecCase(|cs|, buf, pos);
            if step.Err? then Returned(f, Failed(step.error))
            else f == Run(m, buf, depth, if AnyPayload(cs) then [Switch(c, bodies)] else [],
                          State(map[ARG := NVar(step.value, CaseDefaults(m, cs, r)), c := NNum(step.value)],
                                step.pos, None))
  {
    hide Run;
    hide Exec;
    hide EmitCases;
    hide DecCase;
    var s := State(map[], pos, None);
    var cs, v, c := ty.cs, V(ARG), Tmp('r', 0);
    var defaults := CaseDefaults(m, cs, r);
    var s1 := s.(env := map[ARG := NVar(0, defaults)]);
    var bodies := EmitCases(m, cs, 0, 1, v).value.0;
    var switch := if AnyPayload(cs) then [Switch(c, bodies)] else [];
    var rest := [SetTag(v, c)] + switch;
    assert Helper(m, ty).value == [LetDefault(ARG, ty)] + ([GetCase(c, |cs|), FailIfErr] + rest);
    DefaultThen(m, buf, depth, ARG, ty, r, [GetCase(c, |cs|), FailIfErr] + rest, s);
    HeadThen(m, buf, depth, GetCase(c, |cs|), rest, s1);
    if DecCase(|cs|, buf, pos).Ok? {
      var k, p := DecCase(|cs|, buf, pos).value, DecCase(|cs|, buf, pos).pos;
      var s2 := s1.(env := s1.env[c := NNum(k)], pos := p);
      RunSetTag(m, buf, depth, c, switch, s2);
      assert s2.env[ARG := NVar(k, defaults)] == map[ARG := NVar(k, defaults), c := NNum(k)];
    }
  }

  lemma {:induction false} VariantReturns(m: Module, ty: Ty, r: nat, buf: seq<byte>, depth: nat, pos: nat)
    requires ty.Variant? && Valid(m) && Declared(m, ty, r) && r <= depth && pos <= |buf|
    ensures Helper(m, ty).Some?
    ensures Returned(Run(m, buf, depth, Helper(m, ty).value, State(map[], pos, None)), ValueOutcome(m, ty, r, buf, pos))
    decreases r, ty, 3
  {
    hide Run;
    hide Exec;
    hide EmitCases;
    hide Helper;
    hide FromValue;
    hide Default;
    var cs, v, c := ty.cs, V(ARG), Tmp('r', 0);
    match DecCase(|cs|, buf, pos)
    case Err(e) =>
      var at := EmitCasesAt(m, cs, r, 0, 1, v, 0);
      VariantHead(m, ty, r, buf, depth, pos);
      assert ValueOutcome(m, ty, r, buf, pos) == Failed(e);
    case Ok(k, p) =>
      var at := EmitCasesAt(m, cs, r, 0, 1, v, k);
      VariantHead(m, ty, r, buf, depth, pos);
      UlebInside(32, buf, pos);
      var bodies := EmitCases(m, cs, 0, 1, v).value.0;
      var s3 := State(map[ARG := NVar(k, CaseDefaults(m, cs, r)), c := NNum(k)], p, None);
      RunSwitch(m, buf, depth, c, bodies, s3);
      if !AnyPayload(cs) {
        assert cs[k] == None;
        assert bodies[k].code == [];
      }
      SideTypesAt(m, cs, r, k);
      CaseFills(m, cs[k], cs, r, buf, depth, k, at, s3);
      VariantOutcome(m, ty, r, buf, pos, k);
  }

  ghost function CaseOutcome(m: Module, cs: seq<Option<Ty>>, r: nat, buf: seq<byte>, pos: nat, c: nat): Outcome
    requires Valid(m) && AllSidesPlaced(m, cs, r) && c < |cs| && SidePlaced(m, cs[c], r) && pos <= |buf|
  {
    match SideOutcome(m, cs[c], r, buf, pos)
    case Err(e) => Failed(e)
    case Ok(nv, p) => Got(NVar(c, CaseDefaults(m, cs, r)[c := nv]), p)
  }

  lemma VariantOutcome(m: Module, ty: Ty, r: nat, buf: seq<byte>, pos: nat, c: nat)
    requires ty.Variant? && Valid(m) && Declared(m, ty, r) && pos <= |buf| && c < |ty.cs| && SidePlaced(m, ty.cs[c], r)
    requires DecCase(|ty.cs|, buf, pos).Ok? && DecCase(|ty.cs|, buf, pos).value == c
    requires DecCase(|ty.cs|, buf, pos).pos <= |buf|
    ensures ValueOutcome(m, ty, r, buf, pos) == CaseOutcome(m, ty.cs, r, buf, DecCase(|ty.cs|, buf, pos).pos, c)
  {
    SideTypesAt(m, ty.cs, r, c);
  }

  lemma {:induction false} CaseDefaultsAt(m: Module, cs: seq<Option<Ty>>, r: nat, c: nat)
    requires Valid(m) && AllSidesPlaced(m, cs, r) && c < |cs|
    ensures SidePlaced(m, cs[c], r) && CaseDefaults(m, cs, r)[c] == CaseDefault(m, cs[c], r)
  {
    if c > 0 {
      CaseDefaultsAt(m, cs[1..], r, c - 1);
    }
  }

  lemma {:induction false} CaseFills(m: Module, side: Option<Ty>, cs: seq<Option<Ty>>, r: nat, buf: seq<byte>,
                                     depth: nat,
                                     c: nat, tmp: nat, s: State)
    requires Valid(m) && AllSidesPlaced(m, cs, r) && c < |cs| && side == cs[c] && SidePlaced(m, side, r)
    requires r <= depth && tmp > 0
    requires ARG in s.env && s.env[ARG] == NVar(c, CaseDefaults(m, cs, r)) && s.err.None? && s.pos <= |buf|
    ensures EmitCase(m, side, c, tmp, V(ARG)).Some?
    ensures Returned(Run(m, buf, depth, EmitCase(m, side, c, tmp, V(ARG)).value.0, s),
                     CaseOutcome(m, cs, r, buf, s.pos, c))
    decreases r, side, 4
  {
    hide Exec;
    hide FromValue;
    hide Default;
    EmitCaseTotal(m, side, r, c, tmp, V(ARG));
    CaseDefaultsAt(m, cs, r, c);
    var defaults := CaseDefaults(m, cs, r);
    if side.None? {
      assert defaults[c := None] == defaults;
    } else {
      var t, field := side.value, Dot(V(ARG), CaseField(c));
      PlacedResolves(m, t, r);
      var o := ValueOutcome(m, t, r, buf, s.pos);
      assert Eval(s.env, V(ARG)) == Some(s.env[ARG]);
      assert Below(V(ARG), tmp) && Assignable(V(ARG));
      assert Eval(s.env, field) == defaults[c] == CaseDefault(m, side, r);
      var f := Run(m, buf, depth, EmitCase(m, side, c, tmp, V(ARG)).value.0, s);
      if Boxed(m, t) {
        assert NeedsBox(m, t) == Some(true);
        EmitFills(m, t, r, buf, depth, tmp, field, s);
      } else {
        assert NeedsBox(m, t) == Some(false);
        PayloadFills(m, t, r, buf, depth, tmp, field, s);
        assert Filled(s, f, tmp, field, o);
      }
      FieldReturned(s, f, tmp, c, o);
    }
  }

  lemma FieldReturned(s: State, f: Flow, tmp: nat, c: nat, o: Outcome)
    requires ARG in s.env && s.env[ARG].NVar? && c < |s.env[ARG].cases|
    requires Filled(s, f, tmp, Dot(V(ARG), CaseField(c)), o)
    ensures Returned(f, match o
                        case Failed(e) => Failed(e)
                        case Got(nv, p) => Got(s.env[ARG].(cases := s.env[ARG].cases[c := Some(nv)]), p))
  {
    assert VarBelow(ARG, tmp);
    if o.Got? {
      var env1 := Assign(s.env, Dot(V(ARG), CaseField(c)), o.nv).value;
      var updated := Update(s.env[ARG], CaseField(c), o.nv).value;
      assert Assign(s.env, V(ARG), updated) == Some(env1);
    }
  }

  /** A payload of reference type is decoded into a temporary first. */
  lemma {:induction false} PayloadFills(m: Module, t: Ty, r: nat, buf: seq<byte>, depth: nat, tmp: nat, field: Expr,
                                        s: State)
    requires Valid(m) && Placed(m, t, r) && r <= depth && Ready(s, tmp, field, NNull, buf)
    ensures var x := Tmp('x', tmp);
            && Emit(m, t, tmp + 1, V(x)).Some?
            && var code := [LetDefault(x, t)] + Emit(m, t, tmp + 1, V(x)).value.0 + [Put(field, x, false)];
               Filled(s, Run(m, buf, depth, code, s), tmp, field, ValueOutcome(m, t, r, buf, s.pos))
    decreases r, t, 3
  {
    hide Run;
    hide Exec;
    hide Default;
    hide FromValue;
    var x := Tmp('x', tmp);
    EmitTotal(m, t, r, tmp + 1, V(x));
    var inner := Emit(m, t, tmp + 1, V(x)).value.0;
    var put := Put(field, x, false);
    assert [LetDefault(x, t)] + inner + [put] == [LetDefault(x, t)] + (inner + [put]);
    DefaultThen(m, buf, depth, x, t, r, inner + [put], s);
    var s1 := s.(env := s.env[x := Default(m, t, r)]);
    RunAppend(m, buf, depth, inner, [put], s1);
    EmitFills(m, t, r, buf, depth, tmp + 1, V(x), s1);
    PutFills(m, buf, depth, tmp, field, x, false, s, s1, Run(m, buf, depth, inner, s1),
             ValueOutcome(m, t, r, buf, s.pos), tmp + 1);
  }
}
