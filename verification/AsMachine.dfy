/**
 The emitted statements on the runtime objects: every statement that writes or reads
 makes the call it is emitted as, and has the effect it is given elsewhere.
 */
module AsMachine {
  import opened Bytes
  import opened Leb128
  import opened Unicode
  import opened Wire
  import opened Ir
  import opened AsNative
  import opened AsNativeTheorems
  import opened AsCode
  import opened AsRuntime
  import E = AsEncode
  import D = AsDecode

  // ---------------------------------------------------------------------------
  // Writing
  // ---------------------------------------------------------------------------

  predicate Writes(st: E.Stmt) {
    st.PutLen? || st.PutPresent? || st.PutIsErr? || st.PutPrim? || st.PutEnum? || st.PutFlags? || st.PutTag?
  }

  /** The state of the statements, with the sink as it is. */
  ghost function Now(env: Env, sink: Sink): E.State
    requires sink.Valid()
    reads sink, sink.data
  {
    E.State(env, sink.Contents(), sink.err)
  }

  /** What is written fits: an AssemblyScript buffer holds up to 2^30 bytes. */
  ghost predicate Fits(f: E.Flow) {
    (f.Next? || f.Return?) && |f.s.out| <= MAX_CONTENTS
  }

  /** A string is converted before its length is known, at up to three bytes for each unit. */
  ghost predicate Room(st: E.Stmt, s: E.State) {
    st.PutPrim? && st.p.TString? ==>
      match Eval(s.env, st.e)
      case Some(NStr(units)) => |units| < MAX_UNITS && |s.out| + 5 + 3 * |units| <= MAX_CONTENTS
      case _ => true
  }

  /** One writing statement; `returned` says that it left the running helper. */
  method Write(m: Module, depth: nat, st: E.Stmt, env: Env, sink: Sink) returns (returned: bool)
    requires sink.Valid() && Writes(st)
    requires Fits(E.Exec(m, depth, st, Now(env, sink))) && Room(st, Now(env, sink))
    modifies sink, sink.data
    ensures sink.Valid() && (sink.data == old(sink.data) || fresh(sink.data))
    ensures old(E.Exec(m, depth, st, Now(env, sink))) ==
            if returned then E.Return(Now(env, sink)) else E.Next(Now(env, sink))
  {
    hide Uleb;
    hide Sleb;
    hide Pack;
    hide Pow2;
    hide Utf16ToUtf8;
    returned := false;
    match st
    case PutLen(e) =>
      var nv := Eval(env, e).value;
      sink.PutUleb(|nv.items|);
    case PutPresent(e) =>
      var nv := Eval(env, e).value;
      sink.Byte(if nv.NNull? then 0 else 1);
    case PutIsErr(e) =>
      var nv := Eval(env, e).value;
      sink.Byte(if nv.isErr then 1 else 0);
    case PutPrim(p, e) =>
      var nv := Eval(env, e).value;
      WritePrim(p, nv, env, sink);
    case PutEnum(n, e) =>
      var k := Eval(env, e).value.n % 0x1_0000_0000;
      if k >= n {
        sink.err := true;
        return true;
      }
      sink.PutUleb(k);
    case PutFlags(n, e) =>
      var bits := Eval(env, e).value.bits;
      if n < 64 && bits / Pow2(n) != 0 {
        sink.err := true;
        return true;
      }
      PackLengthIs(BitsOf(bits, n));
      sink.PutFlags(BitsOf(bits, n));
    case PutTag(n, e) =>
      var tag := Eval(env, e).value.tag;
      if tag < 0 || tag >= n {
        sink.err := true;
        return true;
      }
      sink.PutUleb(tag);
  }

  method WritePrim(p: Type, nv: Native, env: Env, sink: Sink)
    requires sink.Valid() && Fits(E.PutPrimitive(p, nv, Now(env, sink)))
    requires p.TString? && nv.NStr? ==> |nv.units| < MAX_UNITS && sink.len + 5 + 3 * |nv.units| <= MAX_CONTENTS
    modifies sink, sink.data
    ensures sink.Valid() && (sink.data == old(sink.data) || fresh(sink.data))
    ensures old(E.PutPrimitive(p, nv, Now(env, sink))) == E.Next(Now(env, sink))
  {
    hide Uleb;
    hide Sleb;
    hide Utf16ToUtf8;
    match p
    case TBool => sink.Byte(if nv.b then 1 else 0);
    case TUInt(_) => sink.PutUleb(nv.n);
    case TSInt(_) => sink.PutSleb(nv.n);
    case TFloat(_) => sink.Raw(nv.raw);
    case TChar => sink.PutUleb(nv.n);
    case TString => sink.PutString(nv.units);
    case _ =>
  }

  // ---------------------------------------------------------------------------
  // Reading
  // ---------------------------------------------------------------------------

  predicate Reads(st: D.Stmt) {
    || st.GetLen? || st.GetPresent? || st.GetIsErr? || st.GetCase? || st.GetEnum? || st.GetFlags? || st.FailIfErr?
    || (st.GetPrim? && IsPrim(st.p))
  }

  ghost function Here(env: Env, d: Decoder): D.State
    reads d
  {
    D.State(env, d.pos, d.err)
  }

  /** Equal up to the cursor after an error, which nothing reads. */
  predicate SameState(a: D.State, b: D.State) {
    a.env == b.env && a.err == b.err && (a.err.None? ==> a.pos == b.pos)
  }

  predicate SameFlow(a: D.Flow, b: D.Flow) {
    match (a, b)
    case (Next(s), Next(t)) => SameState(s, t)
    case (Return(s), Return(t)) => SameState(s, t)
    case _ => a == b
  }

  method Bound(x: Var, nv: Native, env: Env, d: Decoder) returns (f: D.Flow)
    ensures f == D.Bind(x, nv, Here(env, d))
  {
    return D.Next(D.State(env[x := nv], d.pos, d.err));
  }

  method Stored(dest: Expr, nv: Native, env: Env, d: Decoder) returns (f: D.Flow)
    ensures f == D.Store(dest, nv, Here(env, d))
  {
    match D.Assign(env, dest, nv)
    case None => return D.Stuck;
    case Some(after) => return D.Next(D.State(after, d.pos, d.err));
  }

  /** One reading statement, and where it leaves the code. */
  method Read(m: Module, depth: nat, st: D.Stmt, env: Env, d: Decoder) returns (f: D.Flow)
    requires d.Valid() && Reads(st)
    modifies d
    ensures d.Valid() && (f.Next? || f.Return? ==> f.s.pos == d.pos && f.s.err == d.err)
    ensures SameFlow(f, old(D.Exec(m, d.buf, depth, st, Here(env, d))))
  {
    hide DecUleb;
    hide DecSleb;
    hide DecBit;
    hide DecCase;
    hide DecEnum;
    hide DecFlags;
    hide DecString;
    match st
    case GetLen(x) =>
      var n := d.UlebBits(32);
      f := Bound(x, NNum(n), env, d);
    case GetPresent(x) =>
      var b := d.PrefixBit("option");
      f := Bound(x, NBool(b), env, d);
    case GetIsErr(x) =>
      var b := d.PrefixBit("result");
      f := Bound(x, NBool(b), env, d);
    case GetCase(x, n) =>
      var c := d.Index(false, n);
      f := Bound(x, NNum(c), env, d);
    case GetPrim(p, dest) =>
      var nv := ReadPrim(p, d);
      f := Stored(dest, nv, env, d);
    case GetEnum(n, dest) =>
      var c := d.Index(true, n);
      f := Stored(dest, NNum(c), env, d);
    case GetFlags(n, dest) =>
      var bits := d.Flags(n);
      f := Stored(dest, NBits(BitsToInt(bits)), env, d);
    case FailIfErr =>
      if d.err.Some? {
        return D.Return(D.State(env, d.pos, d.err));
      }
      return D.Next(D.State(env, d.pos, d.err));
  }

  method ReadPrim(p: Type, d: Decoder) returns (nv: Native)
    requires d.Valid() && IsPrim(p)
    modifies d
    ensures d.Valid()
    ensures forall env :: var (value, after) := old(D.GetPrimitive(p, d.buf, Here(env, d)));
                          nv == value && SameState(Here(env, d), after)
  {
    hide DecUleb;
    hide DecSleb;
    hide DecBit;
    hide DecBytes;
    hide DecChar;
    hide DecString;
    hide Utf8ToUtf16;
    match p
    case TBool =>
      var b := d.PrefixBit("bool");
      nv := NBool(b);
    case TUInt(w) =>
      var n := d.UlebBits(Bits(w));
      nv := NNum(n);
    case TSInt(w) =>
      var n := d.SlebBits(Bits(w));
      nv := NNum(n);
    case TFloat(double) =>
      var raw := d.Float(double);
      nv := NRaw(raw);
    case TChar =>
      var n := d.Char();
      nv := NNum(n);
    case TString =>
      TextIs(d.buf, d.pos);
      NoText();
      var s := d.Text();
      nv := NStr(s);
  }

  lemma TextIs(buf: seq<byte>, pos: nat)
    ensures DecString(buf, pos).Ok? ==> Utf8ToUtf16(DecString(buf, pos).value).Some?
  {
    hide DecUleb;
    hide DecBytes;
    hide Utf8ToUtf16;
    if DecString(buf, pos).Ok? {
      StringFaithful(DecString(buf, pos).value);
    }
  }

  lemma NoText()
    ensures Utf8ToUtf16([]) == Some([])
  {
  }
}
