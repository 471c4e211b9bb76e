/**
 Variables, object paths and environments of the emitted AssemblyScript code, as
 far as both the encode and the decode statements use them.
 */
module AsCode {
  import opened Bytes
  import opened Ir
  import opened AsNative

  /** A parameter (`v`, `req`, ...) or a temporary: a prefix and the counter of `Cx`. */
  datatype Var = Arg(name: string) | Tmp(prefix: char, n: nat)

  /** A record or tuple member, a side of a result, the payload field of a case. */
  datatype Sel = Item(i: nat) | OkSide | ErrSide | CaseField(i: nat)

  datatype Expr = V(x: Var) | Dot(e: Expr, sel: Sel) | At(e: Expr, x: Var)

  type Env = map<Var, Native>

  /** The parameter (or result) of every generated helper. */
  const ARG := Arg("v")

  predicate AnyPayload(cs: seq<Option<Ty>>) {
    exists i :: 0 <= i < |cs| && cs[i].Some?
  }

  function Select(nv: Native, sel: Sel): Option<Native> {
    match sel
    case Item(i) => if nv.NObj? && i < |nv.fields| then Some(nv.fields[i]) else None
    case OkSide => if nv.NRes? then nv.okSide else None
    case ErrSide => if nv.NRes? then nv.errSide else None
    case CaseField(i) => if nv.NVar? && i < |nv.cases| then nv.cases[i] else None
  }

  function Eval(env: Env, e: Expr): Option<Native> {
    match e
    case V(x) => if x in env then Some(env[x]) else None
    case Dot(b, sel) => (match Eval(env, b) case None => None case Some(nv) => Select(nv, sel))
    case At(b, x) =>
      match Eval(env, b)
      case None => None
      case Some(nv) =>
        if nv.NArr? && x in env && env[x].NNum? && 0 <= env[x].n < |nv.items| then Some(nv.items[env[x].n]) else None
  }

  /** Every temporary in `e` was made before the counter reached `tmp`. */
  predicate Below(e: Expr, tmp: nat) {
    match e
    case V(x) => VarBelow(x, tmp)
    case Dot(b, _) => Below(b, tmp)
    case At(b, x) => Below(b, tmp) && VarBelow(x, tmp)
  }

  predicate VarBelow(x: Var, tmp: nat) {
    x.Tmp? ==> x.n < tmp
  }

  /** The two environments agree on everything but temporaries from `tmp` on. */
  ghost predicate Agree(a: Env, b: Env, tmp: nat) {
    forall x :: VarBelow(x, tmp) ==> (x in a <==> x in b) && (x in a ==> a[x] == b[x])
  }

  lemma {:induction false} EvalAgree(a: Env, b: Env, e: Expr, tmp: nat)
    requires Agree(a, b, tmp) && Below(e, tmp)
    ensures Eval(a, e) == Eval(b, e)
  {
    match e
    case V(x) => assert VarBelow(x, tmp);
    case Dot(c, _) => EvalAgree(a, b, c, tmp);
    case At(c, x) =>
      EvalAgree(a, b, c, tmp);
      assert VarBelow(x, tmp);
  }

  lemma {:induction false} BelowMore(e: Expr, tmp: nat, more: nat)
    requires Below(e, tmp) && tmp <= more
    ensures Below(e, more)
  {
    match e
    case V(_) =>
    case Dot(c, _) => BelowMore(c, tmp, more);
    case At(c, _) => BelowMore(c, tmp, more);
  }

  lemma AgreeLess(a: Env, b: Env, tmp: nat, more: nat)
    requires Agree(a, b, more) && tmp <= more
    ensures Agree(a, b, tmp)
  {
    forall x | VarBelow(x, tmp) ensures (x in a <==> x in b) && (x in a ==> a[x] == b[x]) {
      assert VarBelow(x, more);
    }
  }

  lemma AgreeTrans(a: Env, b: Env, c: Env, tmp: nat)
    requires Agree(a, b, tmp) && Agree(b, c, tmp)
    ensures Agree(a, c, tmp)
  {
  }
}
