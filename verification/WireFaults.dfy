/**
 Which byte strings cannot be read at a type, and why, defined without a decoder: the
 other half of `WireLanguage`. A fault is the first thing that goes wrong.
 */
module WireFaults {
  import opened Bytes
  import opened Leb128
  import opened Unicode
  import opened Wire
  import opened WireLanguage

  // ---------------------------------------------------------------------------
  // Integers
  // ---------------------------------------------------------------------------

  /** The first `n` bytes are there and all ask for another one. */
  ghost predicate Continues(bs: seq<byte>, n: nat) {
    n <= |bs| && forall i :: 0 <= i < n ==> bs[i] >= 128
  }

  /**
   The bytes end too early; or there are as many as the width allows, the last of which
   carries bits beyond the width, or asks for another one.
   */
  ghost predicate UlebFault(bits: nat, bs: seq<byte>, e: Error) {
    var n := MaxBytes(bits);
    match e
    case UnexpectedEnd => |bs| < n && Continues(bs, |bs|)
    case UlebOverflow => 0 < n <= |bs| && Continues(bs, n - 1) && UVal(bs[..n]) >= Pow2(bits)
    case UlebTooLong => Continues(bs, n) && UVal(bs[..n]) < Pow2(bits)
    case _ => false
  }

  /** Signed integers of less than 64 bits are read whole first; the tenth byte of an s64 must be a sign. */
  ghost predicate SlebFault(bits: nat, bs: seq<byte>, e: Error)
    requires 1 <= bits <= 64
  {
    var n := MaxBytes(bits);
    match e
    case UnexpectedEnd => |bs| < n && Continues(bs, |bs|)
    case SlebOverflow =>
      if bits == 64 then n <= |bs| && Continues(bs, n - 1) && bs[n - 1] != 0 && bs[n - 1] != 127
      else exists k :: 0 < k <= n && k <= |bs| && Terminated(bs[..k]) && !FitsSigned(bits, SVal(bs[..k]))
    case SlebTooLong => bits < 64 && Continues(bs, n)
    case _ => false
  }

  /** An index is read and is out of range. */
  ghost predicate IndexFault(count: nat, bs: seq<byte>, c: nat) {
    count <= c && exists k :: 0 <= k <= |bs| && IsUleb(32, c, bs[..k])
  }

  ghost predicate BitFault(what: string, bs: seq<byte>, e: Error) {
    if bs == [] then e == UnexpectedEnd else bs[0] > 1 && e == InvalidPrefix(what, bs[0])
  }

  // ---------------------------------------------------------------------------
  // Types
  // ---------------------------------------------------------------------------

  ghost predicate HasFault(ty: Type, bs: seq<byte>, e: Error)
    decreases ty, 0
  {
    match ty
    case TBool => BitFault("bool", bs, e)
    case TUInt(w) => UlebFault(Bits(w), bs, e)
    case TSInt(w) => SlebFault(Bits(w), bs, e)
    case TFloat(d) => |bs| < FloatSize(d) && e == UnexpectedEnd
    case TChar =>
      || UlebFault(21, bs, e)
      || (e.InvalidChar? && !IsScalar(e.scalar) && exists k :: 0 <= k <= |bs| && IsUleb(21, e.scalar, bs[..k]))
    case TString =>
      || UlebFault(32, bs, e)
      || exists k, n: nat :: 0 <= k <= |bs| && IsUleb(32, n, bs[..k]) &&
           if |bs| - k < n then e == UnexpectedEnd else !IsUtf8(bs[k..k + n]) && e == InvalidUtf8
    case TList(t) =>
      || UlebFault(32, bs, e)
      || exists k, n: nat :: 0 <= k <= |bs| && IsUleb(32, n, bs[..k]) && ItemsFault(t, n, bs[k..], e)
    case TRecord(ts) => FieldsFault(ts, bs, e)
    case TTuple(ts) => FieldsFault(ts, bs, e)
    case TVariant(cs) =>
      || UlebFault(32, bs, e)
      || (e.VariantRange? && IndexFault(|cs|, bs, e.variantCase))
      || exists k, c: nat :: 0 <= k <= |bs| && c < |cs| && IsUleb(32, c, bs[..k]) && SideFault(cs[c], bs[k..], e)
    case TEnum(n) => UlebFault(32, bs, e) || (e.EnumRange? && IndexFault(n, bs, e.enumCase))
    case TOption(t) => BitFault("option", bs, e) || (bs != [] && bs[0] == 1 && HasFault(t, bs[1..], e))
    case TResult(o, x) =>
      || BitFault("result", bs, e)
      || (bs != [] && bs[0] <= 1 && SideFault(if bs[0] == 1 then x else o, bs[1..], e))
    case TFlags(n) =>
      var size := (n + 7) / 8;
      if |bs| < size then e == UnexpectedEnd else !NoUnusedBits(bs[..size], n) && e == FlagsUnused
  }

  ghost predicate SideFault(ty: Option<Type>, bs: seq<byte>, e: Error)
    decreases ty, 0
  {
    ty.Some? && HasFault(ty.value, bs, e)
  }

  /** Some field cannot be read after all before it have been. */
  ghost predicate FieldsFault(tys: seq<Type>, bs: seq<byte>, e: Error)
    decreases tys, 0
  {
    tys != [] &&
    (|| HasFault(tys[0], bs, e)
     || exists k, v :: 0 <= k <= |bs| && Denotes(tys[0], v, bs[..k]) && FieldsFault(tys[1..], bs[k..], e))
  }

  /** Some of the `n` items cannot be read after all before it have been. */
  ghost predicate ItemsFault(ty: Type, n: nat, bs: seq<byte>, e: Error)
    decreases ty, n + 1
  {
    n > 0 &&
    (|| HasFault(ty, bs, e)
     || exists k, v :: 0 <= k <= |bs| && Denotes(ty, v, bs[..k]) && ItemsFault(ty, n - 1, bs[k..], e))
  }

  // ---------------------------------------------------------------------------
  // The integer decoders fail for these faults
  // ---------------------------------------------------------------------------

  lemma ContinuesTail(bs: seq<byte>, n: nat)
    requires 0 < n <= |bs|
    ensures Continues(bs, n) <==> bs[0] >= 128 && Continues(bs[1..], n - 1)
  {
    var t := bs[1..];
    if bs[0] >= 128 && Continues(t, n - 1) {
      forall i | 0 <= i < n ensures bs[i] >= 128 {
        assert i > 0 ==> bs[i] == t[i - 1];
      }
    }
  }

  lemma HeadValue(bs: seq<byte>, n: nat)
    requires 0 < n <= |bs|
    ensures bs[..n][0] == bs[0] && bs[..n][1..] == bs[1..][..n - 1]
    ensures UVal(bs[..n]) == bs[0] % 128 + 128 * UVal(bs[1..][..n - 1])
  {
  }

  /** The faults of the part of an integer from byte `i` on: `n` bytes and `room` bits are left for it. */
  ghost predicate UlebRestFault(n: nat, room: nat, bs: seq<byte>, e: Error) {
    match e
    case UnexpectedEnd => |bs| < n && Continues(bs, |bs|)
    case UlebOverflow => 0 < n <= |bs| && Continues(bs, n - 1) && UVal(bs[..n]) >= Pow2(room)
    case UlebTooLong => Continues(bs, n) && (n > 0 ==> UVal(bs[..n]) < Pow2(room))
    case _ => false
  }

  lemma UlebRestStep(n: nat, room: nat, bs: seq<byte>, e: Error)
    requires n > 1 && room > 7 && bs != [] && bs[0] >= 128
    ensures UlebRestFault(n, room, bs, e) <==> UlebRestFault(n - 1, room - 7, bs[1..], e)
  {
    Pow2Step7(room - 7);
    if |bs| >= n {
      ContinuesTail(bs, n);
      ContinuesTail(bs, n - 1);
      HeadValue(bs, n);
    } else {
      ContinuesTail(bs, |bs|);
    }
  }

  lemma UlebRestLast(room: nat, bs: seq<byte>, e: Error)
    requires 0 < room <= 7 && bs != []
    ensures UlebRestFault(1, room, bs, e) <==>
            if bs[0] % 128 >= Pow2(room) then e == UlebOverflow else bs[0] >= 128 && e == UlebTooLong
  {
    HeadValue(bs, 1);
    assert bs[1..][..0] == [];
  }

  lemma {:induction false} UlebFromFault(bits: nat, buf: seq<byte>, pos: nat, i: nat, e: Error)
    requires pos <= |buf| && i < MaxBytes(bits)
    ensures DecUlebFrom(bits, buf, pos, i) == Err(e) <==>
            UlebRestFault(MaxBytes(bits) - i, bits - 7 * i, buf[pos..], e)
    decreases MaxBytes(bits) - i
  {
    var n, room, bs := MaxBytes(bits) - i, bits - 7 * i, buf[pos..];
    if pos < |buf| {
      assert bs[0] == buf[pos] && bs[1..] == buf[pos + 1..];
      var payload := buf[pos] % 128;
      if n == 1 {
        UlebRestLast(room, bs, e);
        Pow2Seven();
        if room < 7 {
          PayloadFits(payload, room);
        }
      } else if buf[pos] >= 128 {
        UlebRestStep(n, room, bs, e);
        UlebFromFault(bits, buf, pos + 1, i + 1, e);
      }
    }
  }

  lemma UlebFaultExact(bits: nat, buf: seq<byte>, pos: nat, e: Error)
    requires pos <= |buf| && bits > 0
    ensures DecUleb(bits, buf, pos) == Err(e) <==> UlebFault(bits, buf[pos..], e)
  {
    UlebFromFault(bits, buf, pos, 0, e);
  }

  ghost predicate SlebRestFault(n: nat, wide: bool, bs: seq<byte>, e: Error) {
    match e
    case UnexpectedEnd => |bs| < n && Continues(bs, |bs|)
    case SlebOverflow => wide && 0 < n <= |bs| && Continues(bs, n - 1) && bs[n - 1] != 0 && bs[n - 1] != 127
    case SlebTooLong => !wide && Continues(bs, n)
    case _ => false
  }

  lemma SlebRestStep(n: nat, wide: bool, bs: seq<byte>, e: Error)
    requires n > 1 && bs != [] && bs[0] >= 128
    ensures SlebRestFault(n, wide, bs, e) <==> SlebRestFault(n - 1, wide, bs[1..], e)
  {
    if |bs| >= n {
      ContinuesTail(bs, n);
      ContinuesTail(bs, n - 1);
      assert bs[n - 1] == bs[1..][n - 2];
    } else {
      ContinuesTail(bs, |bs|);
    }
  }

  lemma {:induction false} SlebFromFault(bits: nat, buf: seq<byte>, pos: nat, i: nat, e: Error)
    requires 1 <= bits <= 64 && pos <= |buf| && i < MaxBytes(bits)
    ensures DecSlebFrom(bits, buf, pos, i) == Err(e) <==>
            SlebRestFault(MaxBytes(bits) - i, bits == 64, buf[pos..], e)
    decreases MaxBytes(bits) - i
  {
    var n, bs := MaxBytes(bits) - i, buf[pos..];
    assert i == 9 <==> n == 1 && bits == 64;
    if pos < |buf| {
      assert bs[0] == buf[pos] && bs[1..] == buf[pos + 1..];
      if n > 1 && buf[pos] >= 128 {
        SlebRestStep(n, bits == 64, bs, e);
        SlebFromFault(bits, buf, pos + 1, i + 1, e);
      }
    }
  }

  /** Below 64 bits a signed integer is read whole, whatever its size. */
  lemma {:induction false} NarrowExact(bits: nat, buf: seq<byte>, pos: nat, i: nat, v: int, p: nat)
    requires 1 <= bits < 64 && i < MaxBytes(bits)
    ensures DecSlebFrom(bits, buf, pos, i) == Ok(v, p) <==>
            && pos < p <= |buf| && p - pos <= MaxBytes(bits) - i
            && Terminated(buf[pos..p]) && SVal(buf[pos..p]) == v
    decreases MaxBytes(bits) - i
  {
    if pos < |buf| {
      if pos < p <= |buf| {
        TailSlice(buf, pos, p);
        TerminatedTail(buf[pos..p]);
      }
      if buf[pos] < 128 {
        assert buf[pos..pos + 1] == [buf[pos]];
      } else if i + 1 < MaxBytes(bits) {
        var rest := DecSlebFrom(bits, buf, pos + 1, i + 1);
        if rest.Ok? {
          NarrowExact(bits, buf, pos + 1, i + 1, rest.value, rest.pos);
        }
        if pos + 1 < p <= |buf| {
          NarrowExact(bits, buf, pos + 1, i + 1, SVal(buf[pos + 1..p]), p);
        }
      }
    }
  }

  lemma SlebFaultExact(bits: nat, buf: seq<byte>, pos: nat, e: Error)
    requires pos <= |buf| && 1 <= bits <= 64
    ensures DecSleb(bits, buf, pos) == Err(e) <==> SlebFault(bits, buf[pos..], e)
  {
    hide DecSlebFrom;
    hide FitsSigned;
    var n, bs := MaxBytes(bits), buf[pos..];
    SlebFromFault(bits, buf, pos, 0, e);
    var step := DecSlebFrom(bits, buf, pos, 0);
    if bits == 64 {
      assert SlebFault(bits, bs, e) <==> SlebRestFault(n, true, bs, e);
    } else {
      if step.Ok? {
        NarrowExact(bits, buf, pos, 0, step.value, step.pos);
        assert bs[..step.pos - pos] == buf[pos..step.pos];
      }
      if e.SlebOverflow? {
        forall k | 0 < k <= n && k <= |bs| && Terminated(bs[..k]) ensures step == Ok(SVal(bs[..k]), pos + k) {
          assert bs[..k] == buf[pos..pos + k];
          NarrowExact(bits, buf, pos, 0, SVal(bs[..k]), pos + k);
        }
      }
    }
  }

  // ---------------------------------------------------------------------------
  // The decoder fails for these faults
  // ---------------------------------------------------------------------------

  /** One header of the width at the front of the bytes, no other, and no fault. */
  ghost predicate OnlyHeader(bits: nat, bs: seq<byte>, n: nat, k: nat) {
    && k <= |bs| && IsUleb(bits, n, bs[..k])
    && (forall j, v: nat :: 0 <= j <= |bs| && IsUleb(bits, v, bs[..j]) ==> v == n && j == k)
    && forall e :: !UlebFault(bits, bs, e)
  }

  /** One fault of a header, no other, and no header. */
  ghost predicate NoHeader(bits: nat, bs: seq<byte>, e: Error) {
    && UlebFault(bits, bs, e)
    && (forall f :: UlebFault(bits, bs, f) ==> f == e)
    && forall j, v: nat :: 0 <= j <= |bs| ==> !IsUleb(bits, v, bs[..j])
  }

  lemma HeaderIs(bits: nat, buf: seq<byte>, pos: nat)
    requires pos <= |buf| && bits > 0
    ensures match DecUleb(bits, buf, pos)
            case Ok(n, p) => pos <= p <= |buf| && OnlyHeader(bits, buf[pos..], n, p - pos)
            case Err(e) => NoHeader(bits, buf[pos..], e)
  {
    hide DecUleb;
    hide IsUleb;
    hide UlebFault;
    var bs := buf[pos..];
    forall k, v: nat | 0 <= k <= |bs| ensures IsUleb(bits, v, bs[..k]) <==> DecUleb(bits, buf, pos) == Ok(v, pos + k) {
      assert bs[..k] == buf[pos..pos + k];
      UlebExact(bits, buf, pos, v, pos + k);
    }
    forall e ensures DecUleb(bits, buf, pos) == Err(e) <==> UlebFault(bits, bs, e) {
      UlebFaultExact(bits, buf, pos, e);
    }
    if DecUleb(bits, buf, pos).Ok? {
      var n, p := DecUleb(bits, buf, pos).value, DecUleb(bits, buf, pos).pos;
      UlebExact(bits, buf, pos, n, p);
      assert bs[..p - pos] == buf[pos..p];
    }
  }

  /** One value at the front of the bytes, and no other. */
  ghost predicate OnlyFront(ty: Type, bs: seq<byte>, v: Value, k: nat) {
    && k <= |bs| && Denotes(ty, v, bs[..k])
    && forall j, w :: 0 <= j <= |bs| && Denotes(ty, w, bs[..j]) ==> w == v && j == k
  }

  ghost predicate NoFront(ty: Type, bs: seq<byte>) {
    forall j, w :: 0 <= j <= |bs| ==> !Denotes(ty, w, bs[..j])
  }

  lemma FrontIs(ty: Type, buf: seq<byte>, pos: nat)
    requires pos <= |buf|
    ensures match Decode(ty, buf, pos)
            case Ok(v, p) => pos <= p <= |buf| && OnlyFront(ty, buf[pos..], v, p - pos)
            case Err(_) => NoFront(ty, buf[pos..])
  {
    hide Decode;
    hide Denotes;
    var bs := buf[pos..];
    forall k, w | 0 <= k <= |bs| ensures Denotes(ty, w, bs[..k]) <==> Decode(ty, buf, pos) == Ok(w, pos + k) {
      assert bs[..k] == buf[pos..pos + k];
      DecodeExact(ty, w, buf, pos, pos + k);
    }
    if Decode(ty, buf, pos).Ok? {
      var v, p := Decode(ty, buf, pos).value, Decode(ty, buf, pos).pos;
      DecodeExact(ty, v, buf, pos, p);
      assert bs[..p - pos] == buf[pos..p];
    }
  }

  lemma Slice(buf: seq<byte>, pos: nat, p: nat, q: nat)
    requires pos <= p <= q <= |buf|
    ensures buf[pos..][p - pos..q - pos] == buf[p..q]
    ensures buf[pos..][p - pos..] == buf[p..]
  {
  }

  lemma BitFaultExact(what: string, buf: seq<byte>, pos: nat, e: Error)
    requires pos <= |buf|
    ensures DecBit(what, buf, pos) == Err(e) <==> BitFault(what, buf[pos..], e)
    ensures DecBit(what, buf, pos).Ok? <==> pos < |buf| && buf[pos] <= 1
    ensures DecBit(what, buf, pos).Ok? ==> DecBit(what, buf, pos) == Ok(buf[pos] == 1, pos + 1)
  {
  }

  lemma NumberFault(ty: Type, buf: seq<byte>, pos: nat, e: Error)
    requires pos <= |buf| && (ty.TUInt? || ty.TSInt?)
    ensures Decode(ty, buf, pos) == Err(e) <==> HasFault(ty, buf[pos..], e)
  {
    hide DecUleb;
    hide DecSleb;
    hide UlebFault;
    hide SlebFault;
    if ty.TUInt? {
      UlebFaultExact(Bits(ty.width), buf, pos, e);
    } else {
      SlebFaultExact(Bits(ty.width), buf, pos, e);
    }
  }

  lemma FixedFault(ty: Type, buf: seq<byte>, pos: nat, e: Error)
    requires pos <= |buf| && (ty.TBool? || ty.TFloat?)
    ensures Decode(ty, buf, pos) == Err(e) <==> HasFault(ty, buf[pos..], e)
  {
    hide DecBit;
    hide BitFault;
    if ty.TBool? {
      BitFaultExact("bool", buf, pos, e);
    }
  }

  lemma FlagsFault(n: nat, buf: seq<byte>, pos: nat, e: Error)
    requires pos <= |buf|
    ensures DecFlags(n, buf, pos) == Err(e) <==> HasFault(TFlags(n), buf[pos..], e)
  {
    hide NoUnusedBits;
    hide Unpack;
    var size := (n + 7) / 8;
    if |buf| - pos >= size {
      assert buf[pos..][..size] == buf[pos..pos + size];
    }
  }

  lemma FlagsDecode(n: nat, buf: seq<byte>, pos: nat)
    ensures Decode(TFlags(n), buf, pos).Err? <==> DecFlags(n, buf, pos).Err?
    ensures DecFlags(n, buf, pos).Err? ==> Decode(TFlags(n), buf, pos) == Err(DecFlags(n, buf, pos).error)
  {
    hide DecFlags;
  }

  lemma CharAfterHeader(bs: seq<byte>, n: nat, k: nat, e: Error)
    requires OnlyHeader(21, bs, n, k)
    ensures HasFault(TChar, bs, e) <==> !IsScalar(n) && e == InvalidChar(n)
  {
    hide UlebFault;
    hide IsUleb;
    hide IsScalar;
  }

  lemma EnumAfterHeader(count: nat, bs: seq<byte>, n: nat, k: nat, e: Error)
    requires OnlyHeader(32, bs, n, k)
    ensures HasFault(TEnum(count), bs, e) <==> n >= count && e == EnumRange(n)
  {
    hide UlebFault;
    hide IsUleb;
  }

  /** What a string can be faulted for once its length is known. */
  lemma TextAfterHeader(bs: seq<byte>, n: nat, k: nat, e: Error)
    requires OnlyHeader(32, bs, n, k)
    ensures HasFault(TString, bs, e) <==>
            if |bs| - k < n then e == UnexpectedEnd else !IsUtf8(bs[k..k + n]) && e == InvalidUtf8
  {
    hide UlebFault;
    hide IsUleb;
    hide IsUtf8;
  }

  lemma ListAfterHeader(t: Type, bs: seq<byte>, n: nat, k: nat, e: Error)
    requires OnlyHeader(32, bs, n, k)
    ensures HasFault(TList(t), bs, e) <==> ItemsFault(t, n, bs[k..], e)
  {
    hide UlebFault;
    hide IsUleb;
    hide ItemsFault;
  }

  lemma VariantAfterHeader(cs: seq<Option<Type>>, bs: seq<byte>, n: nat, k: nat, e: Error)
    requires OnlyHeader(32, bs, n, k)
    ensures HasFault(TVariant(cs), bs, e) <==>
            if n < |cs| then SideFault(cs[n], bs[k..], e) else e == VariantRange(n)
  {
    hide UlebFault;
    hide IsUleb;
    hide SideFault;
  }

  /** Without a header the fault is the header's. */
  lemma HeaderFault(ty: Type, bs: seq<byte>, f: Error, e: Error)
    requires ty.TChar? || ty.TString? || ty.TList? || ty.TVariant? || ty.TEnum?
    requires NoHeader(if ty.TChar? then 21 else 32, bs, f)
    ensures HasFault(ty, bs, e) <==> e == f
  {
    hide UlebFault;
    hide IsUleb;
    hide SideFault;
    hide ItemsFault;
    hide IsUtf8;
  }

  lemma IndexedFault(ty: Type, buf: seq<byte>, pos: nat, e: Error)
    requires pos <= |buf| && (ty.TChar? || ty.TEnum?)
    ensures Decode(ty, buf, pos) == Err(e) <==> HasFault(ty, buf[pos..], e)
  {
    hide DecUleb;
    hide OnlyHeader;
    hide NoHeader;
    hide HasFault;
    hide IsScalar;
    var bits := if ty.TChar? then 21 else 32;
    HeaderIs(bits, buf, pos);
    match DecUleb(bits, buf, pos)
    case Err(f) => HeaderFault(ty, buf[pos..], f, e);
    case Ok(n, p) =>
      if ty.TChar? {
        CharAfterHeader(buf[pos..], n, p - pos, e);
      } else {
        EnumAfterHeader(ty.count, buf[pos..], n, p - pos, e);
      }
  }

  lemma TextDecode(buf: seq<byte>, pos: nat, n: nat, p: nat, e: Error)
    requires DecUleb(32, buf, pos) == Ok(n, p) && p <= |buf|
    ensures DecString(buf, pos) == Err(e) <==>
            if |buf| - p < n then e == UnexpectedEnd else !IsUtf8(buf[p..p + n]) && e == InvalidUtf8
  {
    hide DecUleb;
    hide IsUtf8;
  }

  lemma TextHeaderDecode(buf: seq<byte>, pos: nat)
    requires DecUleb(32, buf, pos).Err?
    ensures DecString(buf, pos) == Err(DecUleb(32, buf, pos).error)
  {
    hide DecUleb;
    hide DecBytes;
  }

  lemma TextFault(buf: seq<byte>, pos: nat, e: Error)
    requires pos <= |buf|
    ensures DecString(buf, pos) == Err(e) <==> HasFault(TString, buf[pos..], e)
  {
    hide DecUleb;
    hide DecString;
    hide OnlyHeader;
    hide NoHeader;
    hide HasFault;
    hide IsUtf8;
    HeaderIs(32, buf, pos);
    match DecUleb(32, buf, pos)
    case Err(f) =>
      TextHeaderDecode(buf, pos);
      HeaderFault(TString, buf[pos..], f, e);
    case Ok(n, p) =>
      TextDecode(buf, pos, n, p, e);
      TextAfterHeader(buf[pos..], n, p - pos, e);
      if |buf| - p >= n {
        Slice(buf, pos, p, p + n);
      }
  }

  /** Decoding fails at exactly the bytes that have a fault at the type, and for that reason. */
  lemma {:induction false} FaultExact(ty: Type, buf: seq<byte>, pos: nat, e: Error)
    requires pos <= |buf|
    ensures Decode(ty, buf, pos) == Err(e) <==> HasFault(ty, buf[pos..], e)
    decreases ty, 0
  {
    hide DecUleb;
    hide DecBit;
    hide UlebFault;
    hide BitFault;
    hide IsUleb;
    hide DecString;
    hide DecFlags;
    match ty
    case TChar => IndexedFault(ty, buf, pos, e);
    case TString => TextFault(buf, pos, e);
    case TEnum(_) => IndexedFault(ty, buf, pos, e);
    case TList(t) => ListFault(t, buf, pos, e);
    case TRecord(ts) => FieldsFaultExact(ts, buf, pos, e);
    case TTuple(ts) => FieldsFaultExact(ts, buf, pos, e);
    case TVariant(cs) => VariantFault(cs, buf, pos, e);
    case TOption(t) =>
      BitFaultExact("option", buf, pos, e);
      if DecBit("option", buf, pos).Ok? && buf[pos] == 1 {
        assert buf[pos..][1..] == buf[pos + 1..];
        FaultExact(t, buf, pos + 1, e);
      }
    case TResult(o, x) =>
      BitFaultExact("result", buf, pos, e);
      if DecBit("result", buf, pos).Ok? {
        assert buf[pos..][1..] == buf[pos + 1..];
        SideFaultExact(if buf[pos] == 1 then x else o, buf, pos + 1, e);
      }
    case TFlags(n) =>
      FlagsDecode(n, buf, pos);
      FlagsFault(n, buf, pos, e);
    case TUInt(_) => NumberFault(ty, buf, pos, e);
    case TSInt(_) => NumberFault(ty, buf, pos, e);
    case _ => FixedFault(ty, buf, pos, e);
  }

  lemma {:induction false} ListFault(t: Type, buf: seq<byte>, pos: nat, e: Error)
    requires pos <= |buf|
    ensures Decode(TList(t), buf, pos) == Err(e) <==> HasFault(TList(t), buf[pos..], e)
    decreases t, 3
  {
    hide DecUleb;
    hide OnlyHeader;
    hide NoHeader;
    hide HasFault;
    hide DecodeItems;
    hide ItemsFault;
    HeaderIs(32, buf, pos);
    match DecUleb(32, buf, pos)
    case Err(f) => HeaderFault(TList(t), buf[pos..], f, e);
    case Ok(n, p) =>
      ListAfterHeader(t, buf[pos..], n, p - pos, e);
      Slice(buf, pos, p, p);
      ItemsFaultExact(t, n, buf, p, e);
  }

  lemma {:induction false} VariantFault(cs: seq<Option<Type>>, buf: seq<byte>, pos: nat, e: Error)
    requires pos <= |buf|
    ensures Decode(TVariant(cs), buf, pos) == Err(e) <==> HasFault(TVariant(cs), buf[pos..], e)
    decreases cs, 0
  {
    hide DecUleb;
    hide OnlyHeader;
    hide NoHeader;
    hide HasFault;
    hide DecodeSide;
    hide SideFault;
    HeaderIs(32, buf, pos);
    match DecUleb(32, buf, pos)
    case Err(f) => HeaderFault(TVariant(cs), buf[pos..], f, e);
    case Ok(n, p) =>
      VariantAfterHeader(cs, buf[pos..], n, p - pos, e);
      Slice(buf, pos, p, p);
      if n < |cs| {
        SideFaultExact(cs[n], buf, p, e);
      }
  }

  lemma {:induction false} SideFaultExact(ty: Option<Type>, buf: seq<byte>, pos: nat, e: Error)
    requires pos <= |buf|
    ensures DecodeSide(ty, buf, pos) == Err(e) <==> SideFault(ty, buf[pos..], e)
    decreases ty, 0
  {
    if ty.Some? {
      FaultExact(ty.value, buf, pos, e);
    }
  }

  lemma FieldsFaultStep(tys: seq<Type>, bs: seq<byte>, e: Error, v: Value, k: nat)
    requires tys != [] && OnlyFront(tys[0], bs, v, k) && !HasFault(tys[0], bs, e)
    ensures FieldsFault(tys, bs, e) <==> FieldsFault(tys[1..], bs[k..], e)
  {
    hide Denotes;
    hide HasFault;
  }

  lemma FieldsFaultStop(tys: seq<Type>, bs: seq<byte>, e: Error)
    requires tys != [] && NoFront(tys[0], bs)
    ensures FieldsFault(tys, bs, e) <==> HasFault(tys[0], bs, e)
  {
    hide Denotes;
    hide HasFault;
  }

  lemma ItemsFaultStep(ty: Type, n: nat, bs: seq<byte>, e: Error, v: Value, k: nat)
    requires n > 0 && OnlyFront(ty, bs, v, k) && !HasFault(ty, bs, e)
    ensures ItemsFault(ty, n, bs, e) <==> ItemsFault(ty, n - 1, bs[k..], e)
  {
    hide Denotes;
    hide HasFault;
  }

  lemma ItemsFaultStop(ty: Type, n: nat, bs: seq<byte>, e: Error)
    requires n > 0 && NoFront(ty, bs)
    ensures ItemsFault(ty, n, bs, e) <==> HasFault(ty, bs, e)
  {
    hide Denotes;
    hide HasFault;
  }

  lemma FieldsDecode(tys: seq<Type>, buf: seq<byte>, pos: nat, e: Error)
    requires tys != []
    ensures DecodeFields(tys, buf, pos) == Err(e) <==>
            match Decode(tys[0], buf, pos)
            case Ok(_, p) => DecodeFields(tys[1..], buf, p) == Err(e)
            case Err(f) => e == f
  {
    hide Decode;
  }

  lemma ItemsDecode(ty: Type, n: nat, buf: seq<byte>, pos: nat, e: Error)
    requires n > 0
    ensures DecodeItems(ty, n, buf, pos) == Err(e) <==>
            match Decode(ty, buf, pos)
            case Ok(_, p) => DecodeItems(ty, n - 1, buf, p) == Err(e)
            case Err(f) => e == f
  {
    hide Decode;
  }

  lemma {:induction false} FieldsFaultExact(tys: seq<Type>, buf: seq<byte>, pos: nat, e: Error)
    requires pos <= |buf|
    ensures DecodeFields(tys, buf, pos) == Err(e) <==> FieldsFault(tys, buf[pos..], e)
    decreases tys, 0
  {
    if tys != [] {
      hide Decode;
      hide DecodeFields;
      hide HasFault;
      hide FieldsFault;
      hide OnlyFront;
      hide NoFront;
      FieldsDecode(tys, buf, pos, e);
      FaultExact(tys[0], buf, pos, e);
      FrontIs(tys[0], buf, pos);
      match Decode(tys[0], buf, pos)
      case Ok(v, p) =>
        FieldsFaultStep(tys, buf[pos..], e, v, p - pos);
        Slice(buf, pos, p, p);
        FieldsFaultExact(tys[1..], buf, p, e);
      case Err(_) => FieldsFaultStop(tys, buf[pos..], e);
    }
  }

  lemma {:induction false} ItemsFaultExact(ty: Type, n: nat, buf: seq<byte>, pos: nat, e: Error)
    requires pos <= |buf|
    ensures DecodeItems(ty, n, buf, pos) == Err(e) <==> ItemsFault(ty, n, buf[pos..], e)
    decreases ty, 1, n
  {
    if n > 0 {
      hide Decode;
      hide DecodeItems;
      hide HasFault;
      hide ItemsFault;
      hide OnlyFront;
      hide NoFront;
      ItemsDecode(ty, n, buf, pos, e);
      FaultExact(ty, buf, pos, e);
      FrontIs(ty, buf, pos);
      match Decode(ty, buf, pos)
      case Ok(v, p) =>
        ItemsFaultStep(ty, n, buf[pos..], e, v, p - pos);
        Slice(buf, pos, p, p);
        ItemsFaultExact(ty, n - 1, buf, p, e);
      case Err(_) => ItemsFaultStop(ty, n, buf[pos..], e);
    }
  }

  /** Every byte string begins with one value of the type or has one fault at it, and never both. */
  lemma OneOrTheOther(ty: Type, bs: seq<byte>)
    ensures (exists k, v :: 0 <= k <= |bs| && Denotes(ty, v, bs[..k])) <==> forall e :: !HasFault(ty, bs, e)
    ensures forall e, f :: HasFault(ty, bs, e) && HasFault(ty, bs, f) ==> e == f
  {
    hide Decode;
    hide Denotes;
    hide HasFault;
    assert bs[0..] == bs;
    FrontIs(ty, bs, 0);
    forall e ensures Decode(ty, bs, 0) == Err(e) <==> HasFault(ty, bs, e) {
      FaultExact(ty, bs, 0, e);
    }
    match Decode(ty, bs, 0)
    case Ok(v, p) => assert 0 <= p <= |bs| && Denotes(ty, v, bs[..p]);
    case Err(e) => assert HasFault(ty, bs, e);
  }
}
