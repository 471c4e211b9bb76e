/**
 Wire types and values, and the reference encoder and decoder of the value codec.
 */
module Wire {
  import opened Bytes
  import opened Leb128
  import opened Unicode

  datatype Width = W8 | W16 | W32 | W64

  function Bits(w: Width): nat {
    match w case W8 => 8 case W16 => 16 case W32 => 32 case W64 => 64
  }

  /** The 21 forms of the sources: integer and float forms carry their width. */
  datatype Type =
    | TBool
    | TUInt(width: Width)
    | TSInt(width: Width)
    | TFloat(double: bool)
    | TChar
    | TString
    | TList(elem: Type)
    | TRecord(fields: seq<Type>)
    | TTuple(members: seq<Type>)
    | TVariant(cases: seq<Option<Type>>)
    | TEnum(count: nat)
    | TOption(inner: Type)
    | TResult(ok: Option<Type>, err: Option<Type>)
    | TFlags(count: nat)

  /** A float is its little-endian IEEE-754 bytes; a string is its UTF-8 bytes. */
  datatype Value =
    | VBool(b: bool)
    | VUInt(width: Width, u: nat)
    | VSInt(width: Width, n: int)
    | VFloat(double: bool, raw: seq<byte>)
    | VChar(scalar: nat)
    | VString(utf8: seq<byte>)
    | VList(items: seq<Value>)
    | VRecord(vals: seq<Value>)
    | VTuple(vals: seq<Value>)
    | VVariant(tag: nat, payload: Option<Value>)
    | VEnum(tag: nat)
    | VOption(payload: Option<Value>)
    | VResult(isErr: bool, payload: Option<Value>)
    | VFlags(bits: seq<bool>)

  function FloatSize(double: bool): nat {
    if double then 8 else 4
  }

  // ---------------------------------------------------------------------------
  // Typing. Lengths, counts and case indices are u32 on the wasm32 target.
  // ---------------------------------------------------------------------------

  ghost predicate HasType(v: Value, ty: Type)
    decreases ty, 0
  {
    match ty
    case TBool => v.VBool?
    case TUInt(w) => v.VUInt? && v.width == w && v.u < Pow2(Bits(w))
    case TSInt(w) => v.VSInt? && v.width == w && FitsSigned(Bits(w), v.n)
    case TFloat(d) => v.VFloat? && v.double == d && |v.raw| == FloatSize(d)
    case TChar => v.VChar? && IsScalar(v.scalar)
    case TString => v.VString? && IsUtf8(v.utf8) && |v.utf8| < Pow2(32)
    case TList(t) => v.VList? && |v.items| < Pow2(32) && AllHaveType(v.items, t)
    case TRecord(ts) => v.VRecord? && HaveTypes(v.vals, ts)
    case TTuple(ts) => v.VTuple? && HaveTypes(v.vals, ts)
    case TVariant(cs) =>
      && v.VVariant? && v.tag < |cs| && v.tag < Pow2(32)
      && SideHasType(v.payload, cs[v.tag])
    case TEnum(n) => v.VEnum? && v.tag < n && v.tag < Pow2(32)
    case TOption(t) => v.VOption? && (v.payload.Some? ==> HasType(v.payload.value, t))
    case TResult(o, e) => v.VResult? && SideHasType(v.payload, if v.isErr then e else o)
    case TFlags(n) => v.VFlags? && |v.bits| == n
  }

  ghost predicate SideHasType(p: Option<Value>, ty: Option<Type>)
    decreases ty, 0
  {
    match ty
    case None => p == None
    case Some(t) => p.Some? && HasType(p.value, t)
  }

  ghost predicate HaveTypes(vs: seq<Value>, tys: seq<Type>)
    decreases tys, 0
  {
    && |vs| == |tys|
    && (tys != [] ==> HasType(vs[0], tys[0]) && HaveTypes(vs[1..], tys[1..]))
  }

  ghost predicate AllHaveType(vs: seq<Value>, ty: Type)
    decreases ty, |vs| + 1
  {
    vs != [] ==> HasType(vs[0], ty) && AllHaveType(vs[1..], ty)
  }

  // ---------------------------------------------------------------------------
  // Flags: bit i of the value is bit i % 8 of byte i / 8
  // ---------------------------------------------------------------------------

  function ByteOf(bits: seq<bool>): (b: nat)
    requires |bits| <= 8
  {
    if bits == [] then 0 else (if bits[0] then 1 else 0) + 2 * ByteOf(bits[1..])
  }

  lemma {:induction false} ByteOfBound(bits: seq<bool>)
    requires |bits| <= 8
    ensures ByteOf(bits) < Pow2(|bits|) <= 256
  {
    if bits != [] {
      ByteOfBound(bits[1..]);
    }
    Pow2Seven();
    Pow2Monotone(|bits|, 8);
  }

  function Pack(bits: seq<bool>): seq<byte> {
    if bits == [] then []
    else if |bits| <= 8 then ByteOfBound(bits); [ByteOf(bits)]
    else ByteOfBound(bits[..8]); [ByteOf(bits[..8])] + Pack(bits[8..])
  }

  function BitsOf(b: nat, k: nat): (bits: seq<bool>)
    ensures |bits| == k
  {
    if k == 0 then [] else [b % 2 == 1] + BitsOf(b / 2, k - 1)
  }

  function Unpack(bs: seq<byte>, n: nat): (bits: seq<bool>)
    requires |bs| == (n + 7) / 8
    ensures |bits| == n
  {
    if n <= 8 then
      if n == 0 then [] else BitsOf(bs[0], n)
    else
      BitsOf(bs[0], 8) + Unpack(bs[1..], n - 8)
  }

  /** No bit above flag `n - 1` is set in the last byte. */
  ghost predicate NoUnusedBits(bs: seq<byte>, n: nat)
    requires |bs| == (n + 7) / 8
  {
    n % 8 != 0 ==> bs[|bs| - 1] / Pow2(n % 8) == 0
  }

  // ---------------------------------------------------------------------------
  // The reference encoder
  // ---------------------------------------------------------------------------

  function Encode(v: Value): seq<byte>
    decreases v, 0
  {
    match v
    case VBool(b) => [if b then 1 else 0]
    case VUInt(_, n) => Uleb(n)
    case VSInt(_, n) => Sleb(n)
    case VFloat(_, raw) => raw
    case VChar(cp) => Uleb(cp)
    case VString(s) => Uleb(|s|) + s
    case VList(vs) => Uleb(|vs|) + EncodeAll(vs)
    case VRecord(vs) => EncodeAll(vs)
    case VTuple(vs) => EncodeAll(vs)
    case VVariant(c, p) => Uleb(c) + EncodeSide(p)
    case VEnum(c) => Uleb(c)
    case VOption(p) => [if p.Some? then 1 else 0] + EncodeSide(p)
    case VResult(e, p) => [if e then 1 else 0] + EncodeSide(p)
    case VFlags(bits) => Pack(bits)
  }

  function EncodeSide(p: Option<Value>): seq<byte>
    decreases p, 0
  {
    if p.Some? then Encode(p.value) else []
  }

  function EncodeAll(vs: seq<Value>): seq<byte>
    decreases vs, 0
  {
    if vs == [] then [] else Encode(vs[0]) + EncodeAll(vs[1..])
  }

  // ---------------------------------------------------------------------------
  // The reference decoder
  // ---------------------------------------------------------------------------

  ghost function DecByte(buf: seq<byte>, pos: nat): Step<byte> {
    if pos >= |buf| then Err(UnexpectedEnd) else Ok(buf[pos], pos + 1)
  }

  ghost function DecBytes(n: nat, buf: seq<byte>, pos: nat): Step<seq<byte>> {
    if pos > |buf| || |buf| - pos < n then Err(UnexpectedEnd) else Ok(buf[pos..pos + n], pos + n)
  }

  ghost function DecBit(what: string, buf: seq<byte>, pos: nat): Step<bool> {
    match DecByte(buf, pos)
    case Err(e) => Err(e)
    case Ok(b, p) => if b == 0 then Ok(false, p) else if b == 1 then Ok(true, p) else Err(InvalidPrefix(what, b))
  }

  ghost function DecChar(buf: seq<byte>, pos: nat): Step<nat> {
    match DecUleb(21, buf, pos)
    case Err(e) => Err(e)
    case Ok(n, p) => if IsScalar(n) then Ok(n, p) else Err(InvalidChar(n))
  }

  ghost function DecString(buf: seq<byte>, pos: nat): Step<seq<byte>> {
    match DecUleb(32, buf, pos)
    case Err(e) => Err(e)
    case Ok(n, p) =>
      match DecBytes(n, buf, p)
      case Err(e) => Err(e)
      case Ok(s, q) => if IsUtf8(s) then Ok(s, q) else Err(InvalidUtf8)
  }

  ghost function DecCase(n: nat, buf: seq<byte>, pos: nat): (r: Step<nat>)
    ensures r.Ok? ==> r.value < n
  {
    match DecUleb(32, buf, pos)
    case Err(e) => Err(e)
    case Ok(c, p) => if c < n then Ok(c, p) else Err(VariantRange(c))
  }

  ghost function DecEnum(n: nat, buf: seq<byte>, pos: nat): Step<nat> {
    match DecUleb(32, buf, pos)
    case Err(e) => Err(e)
    case Ok(c, p) => if c < n then Ok(c, p) else Err(EnumRange(c))
  }

  ghost function DecFlags(n: nat, buf: seq<byte>, pos: nat): Step<seq<bool>> {
    match DecBytes((n + 7) / 8, buf, pos)
    case Err(e) => Err(e)
    case Ok(bs, p) => if NoUnusedBits(bs, n) then Ok(Unpack(bs, n), p) else Err(FlagsUnused)
  }

  ghost function Decode(ty: Type, buf: seq<byte>, pos: nat): Step<Value>
    decreases ty, 0
  {
    match ty
    case TBool => (match DecBit("bool", buf, pos) case Err(e) => Err(e) case Ok(b, p) => Ok(VBool(b), p))
    case TUInt(w) => (match DecUleb(Bits(w), buf, pos) case Err(e) => Err(e) case Ok(n, p) => Ok(VUInt(w, n), p))
    case TSInt(w) => (match DecSleb(Bits(w), buf, pos) case Err(e) => Err(e) case Ok(n, p) => Ok(VSInt(w, n), p))
    case TFloat(d) =>
      (match DecBytes(FloatSize(d), buf, pos) case Err(e) => Err(e) case Ok(bs, p) => Ok(VFloat(d, bs), p))
    case TChar => (match DecChar(buf, pos) case Err(e) => Err(e) case Ok(c, p) => Ok(VChar(c), p))
    case TString => (match DecString(buf, pos) case Err(e) => Err(e) case Ok(s, p) => Ok(VString(s), p))
    case TList(t) =>
      (match DecUleb(32, buf, pos)
       case Err(e) => Err(e)
       case Ok(n, p) => match DecodeItems(t, n, buf, p) case Err(e) => Err(e) case Ok(vs, q) => Ok(VList(vs), q))
    case TRecord(ts) =>
      (match DecodeFields(ts, buf, pos) case Err(e) => Err(e) case Ok(vs, p) => Ok(VRecord(vs), p))
    case TTuple(ts) =>
      (match DecodeFields(ts, buf, pos) case Err(e) => Err(e) case Ok(vs, p) => Ok(VTuple(vs), p))
    case TVariant(cs) =>
      (match DecCase(|cs|, buf, pos)
       case Err(e) => Err(e)
       case Ok(c, p) =>
         match DecodeSide(cs[c], buf, p) case Err(e) => Err(e) case Ok(x, q) => Ok(VVariant(c, x), q))
    case TEnum(n) => (match DecEnum(n, buf, pos) case Err(e) => Err(e) case Ok(c, p) => Ok(VEnum(c), p))
    case TOption(t) =>
      (match DecBit("option", buf, pos)
       case Err(e) => Err(e)
       case Ok(b, p) =>
         if !b then Ok(VOption(None), p)
         else match Decode(t, buf, p) case Err(e) => Err(e) case Ok(x, q) => Ok(VOption(Some(x)), q))
    case TResult(o, e) =>
      (match DecBit("result", buf, pos)
       case Err(e) => Err(e)
       case Ok(b, p) =>
         match DecodeSide(if b then e else o, buf, p) case Err(e) => Err(e) case Ok(x, q) => Ok(VResult(b, x), q))
    case TFlags(n) => (match DecFlags(n, buf, pos) case Err(e) => Err(e) case Ok(bits, p) => Ok(VFlags(bits), p))
  }

  ghost function DecodeSide(ty: Option<Type>, buf: seq<byte>, pos: nat): Step<Option<Value>>
    decreases ty, 0
  {
    match ty
    case None => Ok(None, pos)
    case Some(t) => match Decode(t, buf, pos) case Err(e) => Err(e) case Ok(v, p) => Ok(Some(v), p)
  }

  ghost function DecodeFields(tys: seq<Type>, buf: seq<byte>, pos: nat): Step<seq<Value>>
    decreases tys, 0
  {
    if tys == [] then Ok([], pos)
    else
      match Decode(tys[0], buf, pos)
      case Err(e) => Err(e)
      case Ok(v, p) =>
        match DecodeFields(tys[1..], buf, p)
        case Err(e) => Err(e)
        case Ok(vs, q) => Ok([v] + vs, q)
  }

  ghost function DecodeItems(ty: Type, n: nat, buf: seq<byte>, pos: nat): Step<seq<Value>>
    decreases ty, n + 1
  {
    if n == 0 then Ok([], pos)
    else
      match Decode(ty, buf, pos)
      case Err(e) => Err(e)
      case Ok(v, p) =>
        match DecodeItems(ty, n - 1, buf, p)
        case Err(e) => Err(e)
        case Ok(vs, q) => Ok([v] + vs, q)
  }

  /** Exactly one value and nothing after it. */
  ghost function DecodeWhole(ty: Type, buf: seq<byte>): Step<Value> {
    match Decode(ty, buf, 0)
    case Err(e) => Err(e)
    case Ok(v, p) => if p != |buf| then Err(Trailing(if p < |buf| then |buf| - p else 0, "value")) else Ok(v, p)
  }

  /** Each parameter in declaration order; an error names the parameter it is in. */
  ghost function DecodeParamsFrom(tys: seq<Type>, i: nat, buf: seq<byte>, pos: nat): Step<seq<Value>>
    requires i <= |tys|
    decreases |tys| - i
  {
    if i == |tys| then
      if pos != |buf| then Err(Trailing(if pos < |buf| then |buf| - pos else 0, "params")) else Ok([], pos)
    else
      match Decode(tys[i], buf, pos)
      case Err(e) => Err(Param(i, e))
      case Ok(v, p) =>
        match DecodeParamsFrom(tys, i + 1, buf, p)
        case Err(e) => Err(e)
        case Ok(vs, q) => Ok([v] + vs, q)
  }

  ghost function DecodeParams(tys: seq<Type>, buf: seq<byte>): Step<seq<Value>> {
    DecodeParamsFrom(tys, 0, buf, 0)
  }
}
