/**
 The encode half of the AssemblyScript backend: the statements it emits, and what
 they do.
 */
module AsEncode {
  import opened Bytes
  import opened Leb128
  import opened Unicode
  import opened Wire
  import opened Ir
  import opened AsNative
  import opened AsNativeTheorems
  import opened AsCode

  // ---------------------------------------------------------------------------
  // Statements over a Sink `s`
  // ---------------------------------------------------------------------------

  datatype Stmt =
    | PutLen(e: Expr)                                  // s.listLen(e.length)
    | PutPresent(e: Expr)                              // s.optionTag(e !== null)
    | PutIsErr(e: Expr)                                // s.resultTag(e.isErr)
    | PutPrim(p: Type, e: Expr)                        // s.u32(e), s.string(e), ...
    | PutEnum(count: nat, e: Expr)                     // range guard, then s.caseIdx
    | PutFlags(count: nat, e: Expr)                    // unknown-bits guard, then s.flags
    | PutTag(count: nat, e: Expr)                      // tag guard, then s.caseIdx
    | Call(name: string, e: Expr)                      // encodeName(s, e)
    | ForEach(x: Var, e: Expr, body: seq<Stmt>)        // for (let x = 0; x < e.length; x++)
    | IfPresent(e: Expr, body: seq<Stmt>)              // if (e !== null)
    | Let(x: Var, e: Expr, unbox: bool)                // const x = e!  or  e!.value
    | IfIsErr(e: Expr, thn: seq<Stmt>, els: seq<Stmt>) // if (e.isErr)
    | RequirePresent(e: Expr)                          // if (e === null) { s.err = ...; return; }
    | Switch(e: Expr, bodies: seq<Body>)                // switch (e.tag)

  datatype Body = Body(code: seq<Stmt>)

  // ---------------------------------------------------------------------------
  // Emission
  // ---------------------------------------------------------------------------

  type Code = (seq<Stmt>, nat)

  /** `emit_encode`: the statements for `e` of type `ty`, and the counter after them. */
  function Emit(m: Module, ty: Ty, tmp: nat, e: Expr): Option<Code>
    decreases ty, 0
  {
    match ty
    case Prim(p) => if IsPrim(p) then Some(([PutPrim(p, e)], tmp)) else None
    case List(t) =>
      var i := Tmp('i', tmp);
      (match Emit(m, t, tmp + 1, At(e, i))
       case None => None
       case Some((body, next)) => Some(([PutLen(e), ForEach(i, e, body)], next)))
    case Opt(t) =>
      var x := Tmp('x', tmp);
      (match (NeedsBox(m, t), Emit(m, t, tmp + 1, V(x)))
       case (Some(box), Some((body, next))) =>
         Some(([PutPresent(e), IfPresent(e, [Let(x, e, box)] + body)], next))
       case _ => None)
    case Tuple(ts) => EmitFields(m, ts, 0, tmp, e)
    case Res(o, r) =>
      (match EmitSide(m, r, tmp, Dot(e, ErrSide))
       case None => None
       case Some((errCode, mid)) =>
         match EmitSide(m, o, mid, Dot(e, OkSide))
         case None => None
         case Some((okCode, next)) =>
           Some((if o.None? && r.None? then [PutIsErr(e)] else [PutIsErr(e), IfIsErr(e, errCode, okCode)], next)))
    case Named(x) => Some(([Call(x, e)], tmp))
    case _ => None
  }

  function EmitSide(m: Module, side: Option<Ty>, tmp: nat, e: Expr): Option<Code>
    decreases side, 0
  {
    match side case None => Some(([], tmp)) case Some(t) => Emit(m, t, tmp, e)
  }

  function EmitFields(m: Module, ts: seq<Ty>, i: nat, tmp: nat, e: Expr): Option<Code>
    decreases ts, 0
  {
    if ts == [] then Some(([], tmp))
    else
      match Emit(m, ts[0], tmp, Dot(e, Item(i)))
      case None => None
      case Some((code, mid)) =>
        match EmitFields(m, ts[1..], i + 1, mid, e)
        case None => None
        case Some((rest, next)) => Some((code + rest, next))
  }

  /** One `case i:` body of a variant; a nullable payload is checked first. */
  function EmitCase(m: Module, side: Option<Ty>, i: nat, tmp: nat, e: Expr): Option<Code> {
    match side
    case None => Some(([], tmp))
    case Some(t) =>
      var field := Dot(e, CaseField(i));
      match NeedsBox(m, t)
      case None => None
      case Some(true) => Emit(m, t, tmp, field)
      case Some(false) =>
        var x := Tmp('x', tmp);
        match Emit(m, t, tmp + 1, V(x))
        case None => None
        case Some((code, next)) => Some(([RequirePresent(field), Let(x, field, false)] + code, next))
  }

  function EmitCases(m: Module, cs: seq<Option<Ty>>, i: nat, tmp: nat, e: Expr): Option<(seq<Body>, nat)> {
    if cs == [] then Some(([], tmp))
    else
      match EmitCase(m, cs[0], i, tmp, e)
      case None => None
      case Some((code, mid)) =>
        match EmitCases(m, cs[1..], i + 1, mid, e)
        case None => None
        case Some((rest, next)) => Some(([Body(code)] + rest, next))
  }

  /** The body of `encodeName(s, v)`. */
  function Helper(m: Module, ty: Ty): Option<seq<Stmt>> {
    var v := V(ARG);
    match ty
    case Record(ts) => (match EmitFields(m, ts, 0, 0, v) case None => None case Some((code, _)) => Some(code))
    case Enum(n) => Some([PutEnum(n, v)])
    case Flags(n) => Some([PutFlags(n, v)])
    case Variant(cs) =>
      (match EmitCases(m, cs, 0, 0, v)
       case None => None
       case Some((bodies, _)) => Some([PutTag(|cs|, v)] + if AnyPayload(cs) then [Switch(v, bodies)] else []))
    case _ => (match Emit(m, ty, 0, v) case None => None case Some((code, _)) => Some(code))
  }

  // ---------------------------------------------------------------------------
  // Execution
  // ---------------------------------------------------------------------------

  /** The locals, and the bytes and error flag of the sink. */
  datatype State = State(env: Env, out: seq<byte>, err: bool)

  /** `Return` leaves the running helper; `Stuck` is a trap; `Deep` is a call depth above the bound. */
  datatype Flow = Next(s: State) | Return(s: State) | Stuck | Deep

  function Append(s: State, bs: seq<byte>): State {
    s.(out := s.out + bs)
  }

  function PutPrimitive(p: Type, nv: Native, s: State): Flow {
    if p.TBool? && nv.NBool? then Next(Append(s, [if nv.b then 1 else 0]))
    else if p.TUInt? && nv.NNum? && nv.n >= 0 then Next(Append(s, Uleb(nv.n)))
    else if p.TSInt? && nv.NNum? then Next(Append(s, Sleb(nv.n)))
    else if p.TFloat? && nv.NRaw? then Next(Append(s, nv.raw))
    else if p.TChar? && nv.NNum? && nv.n >= 0 then Next(Append(s, Uleb(nv.n)))
    else if p.TString? && nv.NStr? then
      if s.err then Next(s)
      else
        match Utf16ToUtf8(nv.units)
        case None => Next(s.(err := true))
        case Some(bs) => Next(Append(s, Uleb(|bs|) + bs))
    else Stuck
  }

  ghost function Run(m: Module, depth: nat, code: seq<Stmt>, s: State): Flow
    decreases depth, code, 0
  {
    if code == [] then Next(s)
    else
      match Exec(m, depth, code[0], s)
      case Next(s') => Run(m, depth, code[1..], s')
      case other => other
  }

  ghost function Exec(m: Module, depth: nat, st: Stmt, s: State): Flow
    decreases depth, st, 0
  {
    match st
    case PutLen(e) =>
      (match Eval(s.env, e) case Some(NArr(items)) => Next(Append(s, Uleb(|items|))) case _ => Stuck)
    case PutPresent(e) =>
      (match Eval(s.env, e) case Some(nv) => Next(Append(s, [if nv.NNull? then 0 else 1])) case _ => Stuck)
    case PutIsErr(e) =>
      (match Eval(s.env, e) case Some(NRes(isErr, _, _)) => Next(Append(s, [if isErr then 1 else 0])) case _ => Stuck)
    case PutPrim(p, e) =>
      (match Eval(s.env, e) case Some(nv) => PutPrimitive(p, nv, s) case _ => Stuck)
    case PutEnum(n, e) =>
      (match Eval(s.env, e)
       case Some(NNum(k)) =>
         if k % 0x1_0000_0000 >= n then Return(s.(err := true)) else Next(Append(s, Uleb(k % 0x1_0000_0000)))
       case _ => Stuck)
    case PutFlags(n, e) =>
      (match Eval(s.env, e)
       case Some(NBits(bits)) =>
         if bits < 0 then Stuck
         else if n < 64 && bits / Pow2(n) != 0 then Return(s.(err := true))
         else Next(Append(s, Pack(BitsOf(bits, n))))
       case _ => Stuck)
    case PutTag(n, e) =>
      (match Eval(s.env, e)
       case Some(NVar(tag, _)) =>
         if tag < 0 || tag >= n then Return(s.(err := true)) else Next(Append(s, Uleb(tag)))
       case _ => Stuck)
    case Call(name, e) =>
      (match Eval(s.env, e)
       case None => Stuck
       case Some(nv) =>
         if depth == 0 then Deep
         else if name !in m.types then Stuck
         else
           match Helper(m, m.types[name])
           case None => Stuck
           case Some(body) =>
             match Run(m, depth - 1, body, State(map[ARG := nv], s.out, s.err))
             case Next(s') => Next(State(s.env, s'.out, s'.err))
             case Return(s') => Next(State(s.env, s'.out, s'.err))
             case other => other)
    case ForEach(x, e, body) =>
      (match Eval(s.env, e) case Some(NArr(items)) => Loop(m, depth, x, 0, |items|, body, s) case _ => Stuck)
    case IfPresent(e, body) =>
      (match Eval(s.env, e) case Some(nv) => if nv.NNull? then Next(s) else Run(m, depth, body, s) case _ => Stuck)
    case Let(x, e, unbox) =>
      (match Eval(s.env, e)
       case Some(nv) =>
         if !unbox then Next(s.(env := s.env[x := nv]))
         else if nv.NBox? then Next(s.(env := s.env[x := nv.value])) else Stuck
       case _ => Stuck)
    case IfIsErr(e, thn, els) =>
      (match Eval(s.env, e)
       case Some(NRes(isErr, _, _)) => if isErr then Run(m, depth, thn, s) else Run(m, depth, els, s)
       case _ => Stuck)
    case RequirePresent(e) =>
      (match Eval(s.env, e) case Some(nv) => if nv.NNull? then Return(s.(err := true)) else Next(s) case _ => Stuck)
    case Switch(e, bodies) =>
      (match Eval(s.env, e)
       case Some(NVar(tag, _)) => if 0 <= tag < |bodies| then Run(m, depth, bodies[tag].code, s) else Next(s)
       case _ => Stuck)
  }

  /** `for (let x = k; x < n; x++) body` */
  ghost function Loop(m: Module, depth: nat, x: Var, k: nat, n: nat, body: seq<Stmt>, s: State): Flow
    requires k <= n
    decreases depth, body, 1 + n - k
  {
    if k == n then Next(s)
    else
      match Run(m, depth, body, s.(env := s.env[x := NNum(k)]))
      case Next(s') => Loop(m, depth, x, k + 1, n, body, s')
      case other => other
  }

  lemma {:induction false} RunAppend(m: Module, depth: nat, a: seq<Stmt>, b: seq<Stmt>, s: State)
    ensures Run(m, depth, a + b, s) ==
            match Run(m, depth, a, s) case Next(s') => Run(m, depth, b, s') case other => other
    decreases a
  {
    if a == [] {
      assert a + b == b;
    } else {
      assert (a + b)[1..] == a[1..] + b;
      match Exec(m, depth, a[0], s)
      case Next(s') => RunAppend(m, depth, a[1..], b, s');
      case _ =>
    }
  }
}
