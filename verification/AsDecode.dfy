/**
 The decode half of the AssemblyScript backend: the statements it emits over a
 sticky-error Decoder and what they do.
 */
module AsDecode {
  import opened Bytes
  import opened Leb128
  import opened Unicode
  import opened Wire
  import opened Ir
  import opened AsNative
  import opened AsCode

  // ---------------------------------------------------------------------------
  // Statements over a Decoder `d`
  // ---------------------------------------------------------------------------

  datatype Stmt =
    | GetLen(x: Var)                                   // const x = d.listLen()
    | GetPresent(x: Var)                               // const x = d.optionTag()
    | GetIsErr(x: Var)                                 // const x = d.resultTag()
    | GetCase(x: Var, count: nat)                      // const x = d.variantCase(count)
    | GetPrim(p: Type, dest: Expr)                     // dest = d.u32(), dest = d.string(), ...
    | GetEnum(count: nat, dest: Expr)                  // dest = d.enumCase(count)
    | GetFlags(count: nat, dest: Expr)                 // dest.bits from d.flags(count)
    | Call(name: string, dest: Expr)                   // dest = decodeName(d)
    | FailIfErr                                        // if (d.err !== null) <fail_stmt>
    | LetDefault(x: Var, ty: Ty)                       // let x: T = <default>
    | ForCount(x: Var, limit: Var, body: seq<Stmt>)    // for (let x: u32 = 0; x < limit; x++)
    | IfTrue(x: Var, thn: seq<Stmt>, els: seq<Stmt>)   // if (x)
    | Switch(x: Var, bodies: seq<Body>)                // switch (x)
    | Push(dest: Expr, x: Var)                         // dest.push(x)
    | Put(dest: Expr, x: Var, box: bool)               // dest = x  or  dest = new Box(x)
    | SetIsErr(dest: Expr, x: Var)                     // dest.isErr = x
    | SetTag(dest: Expr, x: Var)                       // dest.tag = x

  datatype Body = Body(code: seq<Stmt>)

  // ---------------------------------------------------------------------------
  // Emission
  // ---------------------------------------------------------------------------

  type Code = (seq<Stmt>, nat)

  /** `emit_decode`: the statements filling `dest` of type `ty`, and the counter after them. */
  function Emit(m: Module, ty: Ty, tmp: nat, dest: Expr): Option<Code>
    decreases ty, 0
  {
    match ty
    case Prim(p) => if IsPrim(p) then Some(([GetPrim(p, dest), FailIfErr], tmp)) else None
    case List(t) =>
      var n, i, x := Tmp('r', tmp), Tmp('i', tmp + 1), Tmp('x', tmp + 2);
      (match Emit(m, t, tmp + 3, V(x))
       case None => None
       case Some((body, next)) =>
         Some(([GetLen(n), FailIfErr, ForCount(i, n, [LetDefault(x, t)] + body + [Push(dest, x)])], next)))
    case Opt(t) =>
      var b, x := Tmp('r', tmp), Tmp('x', tmp + 1);
      (match (Emit(m, t, tmp + 2, V(x)), NeedsBox(m, t))
       case (Some((body, next)), Some(box)) =>
         Some(([GetPresent(b), FailIfErr, IfTrue(b, [LetDefault(x, t)] + body + [Put(dest, x, box)], [])], next))
       case _ => None)
    case Tuple(ts) => EmitFields(m, ts, 0, tmp, dest)
    case Res(o, e) =>
      var b := Tmp('r', tmp);
      (match EmitSide(m, e, tmp + 1, Dot(dest, ErrSide))
       case None => None
       case Some((errCode, mid)) =>
         match EmitSide(m, o, mid, Dot(dest, OkSide))
         case None => None
         case Some((okCode, next)) =>
           var head := [GetIsErr(b), FailIfErr, SetIsErr(dest, b)];
           Some((if o.None? && e.None? then head else head + [IfTrue(b, errCode, okCode)], next)))
    case Named(name) => Some(([Call(name, dest), FailIfErr], tmp))
    case _ => None
  }

  function EmitSide(m: Module, side: Option<Ty>, tmp: nat, dest: Expr): Option<Code>
    decreases side, 0
  {
    match side case None => Some(([], tmp)) case Some(t) => Emit(m, t, tmp, dest)
  }

  function EmitFields(m: Module, ts: seq<Ty>, i: nat, tmp: nat, dest: Expr): Option<Code>
    decreases ts, 0
  {
    if ts == [] then Some(([], tmp))
    else
      match Emit(m, ts[0], tmp, Dot(dest, Item(i)))
      case None => None
      case Some((code, mid)) =>
        match EmitFields(m, ts[1..], i + 1, mid, dest)
        case None => None
        case Some((rest, next)) => Some((code + rest, next))
  }

  function EmitCase(m: Module, side: Option<Ty>, i: nat, tmp: nat, dest: Expr): Option<Code> {
    match side
    case None => Some(([], tmp))
    case Some(t) =>
      var field := Dot(dest, CaseField(i));
      match NeedsBox(m, t)
      case None => None
      case Some(true) => Emit(m, t, tmp, field)
      case Some(false) =>
        var x := Tmp('x', tmp);
        match Emit(m, t, tmp + 1, V(x))
        case None => None
        case Some((code, next)) => Some(([LetDefault(x, t)] + code + [Put(field, x, false)], next))
  }

  function EmitCases(m: Module, cs: seq<Option<Ty>>, i: nat, tmp: nat, dest: Expr): Option<(seq<Body>, nat)> {
    if cs == [] then Some(([], tmp))
    else
      match EmitCase(m, cs[0], i, tmp, dest)
      case None => None
      case Some((code, mid)) =>
        match EmitCases(m, cs[1..], i + 1, mid, dest)
        case None => None
        case Some((rest, next)) => Some(([Body(code)] + rest, next))
  }

  /** The body of `decodeName(d)`, which returns `v`. */
  function Helper(m: Module, ty: Ty): Option<seq<Stmt>> {
    var v := V(ARG);
    match ty
    case Record(ts) =>
      (match EmitFields(m, ts, 0, 0, v) case None => None case Some((code, _)) => Some([LetDefault(ARG, ty)] + code))
    case Enum(n) => Some([LetDefault(ARG, ty), GetEnum(n, v)])
    case Flags(n) => Some([LetDefault(ARG, ty), GetFlags(n, v), FailIfErr])
    case Variant(cs) =>
      var c := Tmp('r', 0);
      (match EmitCases(m, cs, 0, 1, v)
       case None => None
       case Some((bodies, _)) =>
         Some([LetDefault(ARG, ty), GetCase(c, |cs|), FailIfErr, SetTag(v, c)] +
              if AnyPayload(cs) then [Switch(c, bodies)] else []))
    case _ => (match Emit(m, ty, 0, v) case None => None case Some((code, _)) => Some([LetDefault(ARG, ty)] + code))
  }

  // ---------------------------------------------------------------------------
  // Assignment to a path
  // ---------------------------------------------------------------------------

  function Update(nv: Native, sel: Sel, x: Native): Option<Native> {
    match sel
    case Item(i) => if nv.NObj? && i < |nv.fields| then Some(NObj(nv.fields[i := x])) else None
    case OkSide => if nv.NRes? && nv.okSide.Some? then Some(nv.(okSide := Some(x))) else None
    case ErrSide => if nv.NRes? && nv.errSide.Some? then Some(nv.(errSide := Some(x))) else None
    case CaseField(i) =>
      if nv.NVar? && i < |nv.cases| && nv.cases[i].Some? then Some(nv.(cases := nv.cases[i := Some(x)])) else None
  }

  function Assign(env: Env, dest: Expr, nv: Native): Option<Env> {
    match dest
    case V(x) => Some(env[x := nv])
    case Dot(b, sel) =>
      (match Eval(env, b)
       case None => None
       case Some(o) => match Update(o, sel, nv) case None => None case Some(o') => Assign(env, b, o'))
    case At(_, _) => None
  }

  // ---------------------------------------------------------------------------
  // Execution
  // ---------------------------------------------------------------------------

  /** The locals, and the cursor and error of the decoder. */
  datatype State = State(env: Env, pos: nat, err: Option<Error>)

  datatype Flow = Next(s: State) | Return(s: State) | Stuck | Deep

  /** A decoder method: nothing happens once the error is set, and the result is then the zero value. */
  ghost function Get<T>(step: Step<T>, zero: T, s: State): (T, State) {
    if s.err.Some? then (zero, s)
    else match step case Ok(v, p) => (v, s.(pos := p)) case Err(e) => (zero, s.(err := Some(e)))
  }

  ghost function Bind(x: Var, nv: Native, s: State): Flow {
    Next(s.(env := s.env[x := nv]))
  }

  ghost function Store(dest: Expr, nv: Native, s: State): Flow {
    match Assign(s.env, dest, nv) case None => Stuck case Some(env) => Next(s.(env := env))
  }

  ghost function GetPrimitive(p: Type, buf: seq<byte>, s: State): (Native, State)
    requires IsPrim(p)
  {
    match p
    case TBool => var (b, t) := Get(DecBit("bool", buf, s.pos), false, s); (NBool(b), t)
    case TUInt(w) => var (n, t) := Get(DecUleb(Bits(w), buf, s.pos), 0, s); (NNum(n), t)
    case TSInt(w) => var (n, t) := Get(DecSleb(Bits(w), buf, s.pos), 0, s); (NNum(n), t)
    case TFloat(d) =>
      var (raw, t) := Get(DecBytes(FloatSize(d), buf, s.pos), PrimDefault(p).raw, s); (NRaw(raw), t)
    case TChar => var (n, t) := Get(DecChar(buf, s.pos), 0, s); (NNum(n), t)
    case TString =>
      var (bs, t) := Get(DecString(buf, s.pos), [], s);
      (match Utf8ToUtf16(bs) case Some(units) => NStr(units) case None => NStr([]), t)
  }

  ghost function Run(m: Module, buf: seq<byte>, depth: nat, code: seq<Stmt>, s: State): Flow
    decreases depth, code, 0
  {
    if code == [] then Next(s)
    else
      match Exec(m, buf, depth, code[0], s)
      case Next(s') => Run(m, buf, depth, code[1..], s')
      case other => other
  }

  ghost function Exec(m: Module, buf: seq<byte>, depth: nat, st: Stmt, s: State): Flow
    decreases depth, st, 0
  {
    match st
    case GetLen(x) => var (n, t) := Get(DecUleb(32, buf, s.pos), 0, s); Bind(x, NNum(n), t)
    case GetPresent(x) => var (b, t) := Get(DecBit("option", buf, s.pos), false, s); Bind(x, NBool(b), t)
    case GetIsErr(x) => var (b, t) := Get(DecBit("result", buf, s.pos), false, s); Bind(x, NBool(b), t)
    case GetCase(x, n) => var (c, t) := Get(DecCase(n, buf, s.pos), 0, s); Bind(x, NNum(c), t)
    case GetPrim(p, dest) =>
      if IsPrim(p) then var (nv, t) := GetPrimitive(p, buf, s); Store(dest, nv, t) else Stuck
    case GetEnum(n, dest) => var (c, t) := Get(DecEnum(n, buf, s.pos), 0, s); Store(dest, NNum(c), t)
    case GetFlags(n, dest) =>
      var (bits, t) := Get(DecFlags(n, buf, s.pos), [], s); Store(dest, NBits(BitsToInt(bits)), t)
    case Call(name, dest) =>
      if depth == 0 then Deep
      else if name !in m.types then Stuck
      else
        (match Helper(m, m.types[name])
         case None => Stuck
         case Some(body) =>
           match Run(m, buf, depth - 1, body, State(map[], s.pos, s.err))
           case Deep => Deep
           case Stuck => Stuck
           case Next(t) => if ARG in t.env then Store(dest, t.env[ARG], State(s.env, t.pos, t.err)) else Stuck
           case Return(t) => if ARG in t.env then Store(dest, t.env[ARG], State(s.env, t.pos, t.err)) else Stuck)
    case FailIfErr => if s.err.Some? then Return(s) else Next(s)
    case LetDefault(x, ty) =>
      if Valid(m) && Declared(m, ty, depth) then Bind(x, Default(m, ty, depth), s) else Stuck
    case ForCount(x, n, body) =>
      if n in s.env && s.env[n].NNum? && s.env[n].n >= 0 then Loop(m, buf, depth, x, 0, s.env[n].n, body, s) else Stuck
    case IfTrue(x, thn, els) =>
      if x in s.env && s.env[x].NBool? then
        if s.env[x].b then Run(m, buf, depth, thn, s) else Run(m, buf, depth, els, s)
      else Stuck
    case Switch(x, bodies) =>
      if x in s.env && s.env[x].NNum? then
        if 0 <= s.env[x].n < |bodies| then Run(m, buf, depth, bodies[s.env[x].n].code, s) else Next(s)
      else Stuck
    case Push(dest, x) =>
      (match Eval(s.env, dest)
       case Some(NArr(items)) => if x in s.env then Store(dest, NArr(items + [s.env[x]]), s) else Stuck
       case _ => Stuck)
    case Put(dest, x, box) =>
      if x in s.env then Store(dest, if box then NBox(s.env[x]) else s.env[x], s) else Stuck
    case SetIsErr(dest, x) =>
      (match Eval(s.env, dest)
       case Some(NRes(_, o, e)) =>
         if x in s.env && s.env[x].NBool? then Store(dest, NRes(s.env[x].b, o, e), s) else Stuck
       case _ => Stuck)
    case SetTag(dest, x) =>
      (match Eval(s.env, dest)
       case Some(NVar(_, cases)) =>
         if x in s.env && s.env[x].NNum? then Store(dest, NVar(s.env[x].n, cases), s) else Stuck
       case _ => Stuck)
  }

  /** `for (let x = k; x < n; x++) body` */
  ghost function Loop(m: Module, buf: seq<byte>, depth: nat, x: Var, k: nat, n: nat, body: seq<Stmt>, s: State): Flow
    requires k <= n
    decreases depth, body, 1 + n - k
  {
    if k == n then Next(s)
    else
      match Run(m, buf, depth, body, s.(env := s.env[x := NNum(k)]))
      case Next(s') => Loop(m, buf, depth, x, k + 1, n, body, s')
      case other => other
  }

  lemma {:induction false} RunAppend(m: Module, buf: seq<byte>, depth: nat, a: seq<Stmt>, b: seq<Stmt>, s: State)
    ensures Run(m, buf, depth, a + b, s) ==
            match Run(m, buf, depth, a, s) case Next(s') => Run(m, buf, depth, b, s') case other => other
    decreases a
  {
    hide Exec;
    if a == [] {
      assert a + b == b;
    } else {
      assert (a + b)[1..] == a[1..] + b;
      match Exec(m, buf, depth, a[0], s)
      case Next(s') => RunAppend(m, buf, depth, a[1..], b, s');
      case _ =>
    }
  }

  lemma RunOne(m: Module, buf: seq<byte>, depth: nat, st: Stmt, s: State)
    ensures Run(m, buf, depth, [st], s) == Exec(m, buf, depth, st, s)
  {
    hide Exec;
    match Exec(m, buf, depth, st, s)
    case Next(s') => assert Run(m, buf, depth, [st][1..], s') == Next(s');
    case _ =>
  }
}
