/**
 Which byte strings denote which values, defined without a decoder.
 */
module WireLanguage {
  import opened Bytes
  import opened Leb128
  import opened Unicode
  import opened Wire

  /** `bs`, as a whole, is one of the encodings of `v` at type `ty`. */
  ghost predicate Denotes(ty: Type, v: Value, bs: seq<byte>)
    decreases ty, 0
  {
    match ty
    case TBool => v.VBool? && bs == [if v.b then 1 else 0]
    case TUInt(w) => v.VUInt? && v.width == w && IsUleb(Bits(w), v.u, bs)
    case TSInt(w) => v.VSInt? && v.width == w && IsSleb(Bits(w), v.n, bs)
    case TFloat(d) => v.VFloat? && v.double == d && v.raw == bs && |bs| == FloatSize(d)
    case TChar => v.VChar? && IsScalar(v.scalar) && IsUleb(21, v.scalar, bs)
    case TString => v.VString? && IsUtf8(v.utf8) && Headed(|v.utf8|, v.utf8, bs)
    case TList(t) =>
      v.VList? && exists k :: 0 <= k <= |bs| && IsUleb(32, |v.items|, bs[..k]) && DenotesItems(t, v.items, bs[k..])
    case TRecord(ts) => v.VRecord? && DenotesFields(ts, v.vals, bs)
    case TTuple(ts) => v.VTuple? && DenotesFields(ts, v.vals, bs)
    case TVariant(cs) =>
      && v.VVariant? && v.tag < |cs|
      && exists k :: 0 <= k <= |bs| && IsUleb(32, v.tag, bs[..k]) && DenotesSide(cs[v.tag], v.payload, bs[k..])
    case TEnum(n) => v.VEnum? && v.tag < n && IsUleb(32, v.tag, bs)
    case TOption(t) =>
      && v.VOption? && |bs| > 0
      && (if v.payload.None? then bs == [0] else bs[0] == 1 && Denotes(t, v.payload.value, bs[1..]))
    case TResult(o, e) =>
      && v.VResult? && |bs| > 0
      && bs[0] == (if v.isErr then 1 else 0)
      && DenotesSide(if v.isErr then e else o, v.payload, bs[1..])
    case TFlags(n) =>
      && v.VFlags? && |bs| == (n + 7) / 8
      && NoUnusedBits(bs, n) && v.bits == Unpack(bs, n)
  }

  /** A u32 header followed by `body`. */
  ghost predicate Headed(n: nat, body: seq<byte>, bs: seq<byte>) {
    |body| <= |bs| && bs[|bs| - |body|..] == body && IsUleb(32, n, bs[..|bs| - |body|])
  }

  ghost predicate DenotesSide(ty: Option<Type>, p: Option<Value>, bs: seq<byte>)
    decreases ty, 0
  {
    match ty
    case None => p == None && bs == []
    case Some(t) => p.Some? && Denotes(t, p.value, bs)
  }

  ghost predicate DenotesFields(tys: seq<Type>, vs: seq<Value>, bs: seq<byte>)
    decreases tys, 0
  {
    if tys == [] then vs == [] && bs == []
    else
      && vs != []
      && exists k :: 0 <= k <= |bs| && Denotes(tys[0], vs[0], bs[..k]) && DenotesFields(tys[1..], vs[1..], bs[k..])
  }

  ghost predicate DenotesItems(ty: Type, vs: seq<Value>, bs: seq<byte>)
    decreases ty, |vs| + 1
  {
    if vs == [] then bs == []
    else exists k :: 0 <= k <= |bs| && Denotes(ty, vs[0], bs[..k]) && DenotesItems(ty, vs[1..], bs[k..])
  }

  // ---------------------------------------------------------------------------
  // The decoder accepts only the language
  // ---------------------------------------------------------------------------

  lemma Slices(buf: seq<byte>, pos: nat, mid: nat, p: nat)
    requires pos <= mid <= p <= |buf|
    ensures buf[pos..p][..mid - pos] == buf[pos..mid]
    ensures buf[pos..p][mid - pos..] == buf[mid..p]
  {
  }

  predicate IsLeaf(ty: Type) {
    !(ty.TList? || ty.TRecord? || ty.TTuple? || ty.TVariant? || ty.TOption? || ty.TResult?)
  }

  lemma LeafSound(ty: Type, buf: seq<byte>, pos: nat)
    requires IsLeaf(ty) && pos <= |buf| && Decode(ty, buf, pos).Ok?
    ensures var (v, p) := (Decode(ty, buf, pos).value, Decode(ty, buf, pos).pos);
            pos <= p <= |buf| && Denotes(ty, v, buf[pos..p])
  {
    hide Pow2;
    hide Unpack;
    hide NoUnusedBits;
    hide DecUleb;
    hide DecSleb;
    hide IsUtf8;
    hide IsUleb;
    hide IsSleb;
    var v, p := Decode(ty, buf, pos).value, Decode(ty, buf, pos).pos;
    match ty {
      case TBool =>
      case TUInt(w) => UlebExact(Bits(w), buf, pos, v.u, p);
      case TSInt(w) => SlebExact(Bits(w), buf, pos, v.n, p);
      case TFloat(_) =>
      case TChar => UlebExact(21, buf, pos, v.scalar, p);
      case TString =>
        var n, q := DecUleb(32, buf, pos).value, DecUleb(32, buf, pos).pos;
        UlebExact(32, buf, pos, n, q);
        Slices(buf, pos, q, p);
      case TEnum(_) => UlebExact(32, buf, pos, v.tag, p);
      case TFlags(_) =>
    }
  }

  lemma ListIntro(t: Type, vs: seq<Value>, bs: seq<byte>, k: nat)
    requires k <= |bs| && IsUleb(32, |vs|, bs[..k]) && DenotesItems(t, vs, bs[k..])
    ensures Denotes(TList(t), VList(vs), bs)
  {
  }

  lemma VariantIntro(cs: seq<Option<Type>>, c: nat, x: Option<Value>, bs: seq<byte>, k: nat)
    requires c < |cs| && k <= |bs| && IsUleb(32, c, bs[..k]) && DenotesSide(cs[c], x, bs[k..])
    ensures Denotes(TVariant(cs), VVariant(c, x), bs)
  {
  }

  lemma RecordIntro(ty: Type, vs: seq<Value>, bs: seq<byte>)
    ensures ty.TRecord? && DenotesFields(ty.fields, vs, bs) ==> Denotes(ty, VRecord(vs), bs)
    ensures ty.TTuple? && DenotesFields(ty.members, vs, bs) ==> Denotes(ty, VTuple(vs), bs)
  {
  }

  lemma TaggedIntro(ty: Type, v: Value, bs: seq<byte>)
    requires |bs| > 0
    requires ty.TOption? || ty.TResult?
    requires ty.TOption? ==>
               && v.VOption?
               && (if v.payload.None? then bs == [0] else bs[0] == 1 && Denotes(ty.inner, v.payload.value, bs[1..]))
    requires ty.TResult? ==>
               && v.VResult? && bs[0] == (if v.isErr then 1 else 0)
               && DenotesSide(if v.isErr then ty.err else ty.ok, v.payload, bs[1..])
    ensures Denotes(ty, v, bs)
  {
  }

  ghost predicate Sound(ty: Type, buf: seq<byte>, pos: nat)
    requires pos <= |buf|
  {
    match Decode(ty, buf, pos)
    case Ok(v, p) => pos <= p <= |buf| && Denotes(ty, v, buf[pos..p])
    case Err(_) => true
  }

  lemma {:induction false} DecodeSound(ty: Type, buf: seq<byte>, pos: nat)
    requires pos <= |buf|
    ensures Sound(ty, buf, pos)
    decreases ty, 1
  {
    hide Denotes;
    hide Pow2;
    hide Decode;
    if IsLeaf(ty) {
      if Decode(ty, buf, pos).Ok? {
        LeafSound(ty, buf, pos);
      }
    } else if ty.TList? || ty.TVariant? {
      HeadedSound(ty, buf, pos);
    } else if ty.TRecord? || ty.TTuple? {
      RecordSound(ty, buf, pos);
    } else {
      TaggedSound(ty, buf, pos);
    }
  }

  lemma {:induction false} HeadedSound(ty: Type, buf: seq<byte>, pos: nat)
    requires (ty.TList? || ty.TVariant?) && pos <= |buf|
    ensures Sound(ty, buf, pos)
    decreases ty, 0
  {
    hide Pow2;
    hide Denotes;
    hide DenotesItems;
    hide DenotesFields;
    hide DenotesSide;
    hide IsUleb;
    hide IsSleb;
    hide DecUleb;
    hide DecSleb;
    hide DecBytes;
    hide IsUtf8;
    hide Unpack;
    hide NoUnusedBits;
    match Decode(ty, buf, pos)
    case Err(_) =>
    case Ok(v, p) =>
      var n, q := DecUleb(32, buf, pos).value, DecUleb(32, buf, pos).pos;
      UlebExact(32, buf, pos, n, q);
      if ty.TList? {
        DecodeItemsSound(ty.elem, n, buf, q);
        Slices(buf, pos, q, p);
        ListIntro(ty.elem, v.items, buf[pos..p], q - pos);
      } else {
        DecodeSideSound(ty.cases[n], buf, q);
        Slices(buf, pos, q, p);
        VariantIntro(ty.cases, n, v.payload, buf[pos..p], q - pos);
      }
  }

  lemma {:induction false} RecordSound(ty: Type, buf: seq<byte>, pos: nat)
    requires (ty.TRecord? || ty.TTuple?) && pos <= |buf|
    ensures Sound(ty, buf, pos)
    decreases ty, 0
  {
    hide Pow2;
    hide Denotes;
    hide DenotesItems;
    hide DenotesFields;
    hide DenotesSide;
    hide IsUleb;
    hide IsSleb;
    hide DecUleb;
    hide DecSleb;
    hide DecBytes;
    hide IsUtf8;
    hide Unpack;
    hide NoUnusedBits;
    match Decode(ty, buf, pos)
    case Err(_) =>
    case Ok(v, p) =>
      DecodeFieldsSound(if ty.TRecord? then ty.fields else ty.members, buf, pos);
      RecordIntro(ty, v.vals, buf[pos..p]);
  }

  lemma {:induction false} TaggedSound(ty: Type, buf: seq<byte>, pos: nat)
    requires (ty.TOption? || ty.TResult?) && pos <= |buf|
    ensures Sound(ty, buf, pos)
    decreases ty, 0
  {
    hide Pow2;
    hide Denotes;
    hide DenotesItems;
    hide DenotesFields;
    hide DenotesSide;
    hide IsUleb;
    hide IsSleb;
    hide DecUleb;
    hide DecSleb;
    hide DecBytes;
    hide IsUtf8;
    hide Unpack;
    hide NoUnusedBits;
    match Decode(ty, buf, pos)
    case Err(_) =>
    case Ok(v, p) =>
      if ty.TResult? {
        DecodeSideSound(if v.isErr then ty.err else ty.ok, buf, pos + 1);
      } else if v.payload.Some? {
        DecodeSound(ty.inner, buf, pos + 1);
      }
      Slices(buf, pos, pos + 1, p);
      TaggedIntro(ty, v, buf[pos..p]);
  }

  lemma {:induction false} DecodeSideSound(ty: Option<Type>, buf: seq<byte>, pos: nat)
    requires pos <= |buf|
    ensures match DecodeSide(ty, buf, pos)
            case Ok(v, p) => pos <= p <= |buf| && DenotesSide(ty, v, buf[pos..p])
            case Err(_) => true
    decreases ty, 0
  {
    if ty.Some? {
      DecodeSound(ty.value, buf, pos);
    }
  }

  lemma {:induction false} DecodeFieldsSound(tys: seq<Type>, buf: seq<byte>, pos: nat)
    requires pos <= |buf|
    ensures match DecodeFields(tys, buf, pos)
            case Ok(vs, p) => pos <= p <= |buf| && DenotesFields(tys, vs, buf[pos..p])
            case Err(_) => true
    decreases tys, 0
  {
    if tys != [] && DecodeFields(tys, buf, pos).Ok? {
      DecodeSound(tys[0], buf, pos);
      var v, q := Decode(tys[0], buf, pos).value, Decode(tys[0], buf, pos).pos;
      DecodeFieldsSound(tys[1..], buf, q);
      var vs, p := DecodeFields(tys[1..], buf, q).value, DecodeFields(tys[1..], buf, q).pos;
      Slices(buf, pos, q, p);
      assert ([v] + vs)[1..] == vs;
    }
  }

  lemma {:induction false} DecodeItemsSound(ty: Type, n: nat, buf: seq<byte>, pos: nat)
    requires pos <= |buf|
    ensures match DecodeItems(ty, n, buf, pos)
            case Ok(vs, p) => pos <= p <= |buf| && |vs| == n && DenotesItems(ty, vs, buf[pos..p])
            case Err(_) => true
    decreases ty, n + 1
  {
    if n > 0 && DecodeItems(ty, n, buf, pos).Ok? {
      DecodeSound(ty, buf, pos);
      var v, q := Decode(ty, buf, pos).value, Decode(ty, buf, pos).pos;
      DecodeItemsSound(ty, n - 1, buf, q);
      var vs, p := DecodeItems(ty, n - 1, buf, q).value, DecodeItems(ty, n - 1, buf, q).pos;
      Slices(buf, pos, q, p);
      assert ([v] + vs)[1..] == vs;
    }
  }

  // ---------------------------------------------------------------------------
  // The decoder accepts all of the language
  // ---------------------------------------------------------------------------

  lemma NumberComplete(ty: Type, v: Value, buf: seq<byte>, pos: nat, p: nat)
    requires ty.TUInt? || ty.TSInt? || ty.TChar? || ty.TEnum?
    requires pos <= p <= |buf| && Denotes(ty, v, buf[pos..p])
    ensures Decode(ty, buf, pos) == Ok(v, p)
  {
    hide Pow2;
    hide DecUleb;
    hide DecSleb;
    hide IsUleb;
    hide IsSleb;
    match ty {
      case TUInt(w) => UlebExact(Bits(w), buf, pos, v.u, p);
      case TSInt(w) => SlebExact(Bits(w), buf, pos, v.n, p);
      case TChar => UlebExact(21, buf, pos, v.scalar, p);
      case TEnum(_) => UlebExact(32, buf, pos, v.tag, p);
    }
  }

  lemma StringComplete(v: Value, buf: seq<byte>, pos: nat, p: nat)
    requires pos <= p <= |buf| && Denotes(TString, v, buf[pos..p])
    ensures Decode(TString, buf, pos) == Ok(v, p)
  {
    hide Pow2;
    hide DecUleb;
    hide IsUtf8;
    hide IsUleb;
    var q := p - |v.utf8|;
    Slices(buf, pos, q, p);
    UlebExact(32, buf, pos, |v.utf8|, q);
  }

  lemma LeafComplete(ty: Type, v: Value, buf: seq<byte>, pos: nat, p: nat)
    requires IsLeaf(ty) && pos <= p <= |buf| && Denotes(ty, v, buf[pos..p])
    ensures Decode(ty, buf, pos) == Ok(v, p)
  {
    hide Pow2;
    hide Unpack;
    hide NoUnusedBits;
    hide DecUleb;
    hide DecSleb;
    hide IsUtf8;
    hide IsUleb;
    hide IsSleb;
    if ty.TUInt? || ty.TSInt? || ty.TChar? || ty.TEnum? {
      NumberComplete(ty, v, buf, pos, p);
    } else if ty.TString? {
      StringComplete(v, buf, pos, p);
    } else if ty.TBool? {
      assert buf[pos..p][0] == buf[pos];
    }
  }

  lemma ListParts(t: Type, v: Value, bs: seq<byte>) returns (k: nat)
    requires Denotes(TList(t), v, bs)
    ensures v.VList? && k <= |bs| && IsUleb(32, |v.items|, bs[..k]) && DenotesItems(t, v.items, bs[k..])
  {
    k :| 0 <= k <= |bs| && IsUleb(32, |v.items|, bs[..k]) && DenotesItems(t, v.items, bs[k..]);
  }

  lemma VariantParts(cs: seq<Option<Type>>, v: Value, bs: seq<byte>) returns (k: nat)
    requires Denotes(TVariant(cs), v, bs)
    ensures v.VVariant? && v.tag < |cs|
    ensures k <= |bs| && IsUleb(32, v.tag, bs[..k]) && DenotesSide(cs[v.tag], v.payload, bs[k..])
  {
    k :| 0 <= k <= |bs| && IsUleb(32, v.tag, bs[..k]) && DenotesSide(cs[v.tag], v.payload, bs[k..]);
  }

  lemma TaggedParts(ty: Type, v: Value, bs: seq<byte>)
    requires (ty.TOption? || ty.TResult?) && Denotes(ty, v, bs)
    ensures |bs| > 0
    ensures ty.TOption? ==>
              && v.VOption?
              && (if v.payload.None? then bs == [0] else bs[0] == 1 && Denotes(ty.inner, v.payload.value, bs[1..]))
    ensures ty.TResult? ==>
              && v.VResult? && bs[0] == (if v.isErr then 1 else 0)
              && DenotesSide(if v.isErr then ty.err else ty.ok, v.payload, bs[1..])
  {
  }

  lemma RecordParts(ty: Type, v: Value, bs: seq<byte>)
    requires (ty.TRecord? || ty.TTuple?) && Denotes(ty, v, bs)
    ensures ty.TRecord? ==> v.VRecord? && DenotesFields(ty.fields, v.vals, bs)
    ensures ty.TTuple? ==> v.VTuple? && DenotesFields(ty.members, v.vals, bs)
  {
  }

  lemma {:induction false} DecodeComplete(ty: Type, v: Value, buf: seq<byte>, pos: nat, p: nat)
    requires pos <= p <= |buf| && Denotes(ty, v, buf[pos..p])
    ensures Decode(ty, buf, pos) == Ok(v, p)
    decreases ty, 0
  {
    hide Pow2;
    hide Denotes;
    hide DenotesItems;
    hide DenotesFields;
    hide DenotesSide;
    hide IsUleb;
    hide DecUleb;
    var bs := buf[pos..p];
    if IsLeaf(ty) {
      LeafComplete(ty, v, buf, pos, p);
    } else {
      match ty
      case TList(t) =>
        var k := ListParts(t, v, bs);
        Slices(buf, pos, pos + k, p);
        UlebExact(32, buf, pos, |v.items|, pos + k);
        DecodeItemsComplete(t, v.items, buf, pos + k, p);
      case TRecord(ts) =>
        RecordParts(ty, v, bs);
        DecodeFieldsComplete(ts, v.vals, buf, pos, p);
      case TTuple(ts) =>
        RecordParts(ty, v, bs);
        DecodeFieldsComplete(ts, v.vals, buf, pos, p);
      case TVariant(cs) =>
        var k := VariantParts(cs, v, bs);
        Slices(buf, pos, pos + k, p);
        UlebExact(32, buf, pos, v.tag, pos + k);
        DecodeSideComplete(cs[v.tag], v.payload, buf, pos + k, p);
      case TOption(t) =>
        TaggedParts(ty, v, bs);
        Slices(buf, pos, pos + 1, p);
        if v.payload.Some? {
          DecodeComplete(t, v.payload.value, buf, pos + 1, p);
        }
      case TResult(o, e) =>
        TaggedParts(ty, v, bs);
        Slices(buf, pos, pos + 1, p);
        DecodeSideComplete(if v.isErr then e else o, v.payload, buf, pos + 1, p);
    }
  }

  lemma {:induction false} DecodeSideComplete(ty: Option<Type>, v: Option<Value>, buf: seq<byte>, pos: nat, p: nat)
    requires pos <= p <= |buf| && DenotesSide(ty, v, buf[pos..p])
    ensures DecodeSide(ty, buf, pos) == Ok(v, p)
    decreases ty, 0
  {
    if ty.Some? {
      DecodeComplete(ty.value, v.value, buf, pos, p);
    }
  }

  lemma {:induction false} DecodeFieldsComplete(tys: seq<Type>, vs: seq<Value>, buf: seq<byte>, pos: nat, p: nat)
    requires pos <= p <= |buf| && DenotesFields(tys, vs, buf[pos..p])
    ensures DecodeFields(tys, buf, pos) == Ok(vs, p)
    decreases tys, 0
  {
    hide Decode;
    hide Denotes;
    if tys != [] {
      var bs := buf[pos..p];
      var k :| 0 <= k <= |bs| && Denotes(tys[0], vs[0], bs[..k]) && DenotesFields(tys[1..], vs[1..], bs[k..]);
      Slices(buf, pos, pos + k, p);
      DecodeComplete(tys[0], vs[0], buf, pos, pos + k);
      DecodeFieldsComplete(tys[1..], vs[1..], buf, pos + k, p);
      assert [vs[0]] + vs[1..] == vs;
    }
  }

  lemma {:induction false} DecodeItemsComplete(ty: Type, vs: seq<Value>, buf: seq<byte>, pos: nat, p: nat)
    requires pos <= p <= |buf| && DenotesItems(ty, vs, buf[pos..p])
    ensures DecodeItems(ty, |vs|, buf, pos) == Ok(vs, p)
    decreases ty, |vs| + 1
  {
    hide Decode;
    hide Denotes;
    if vs != [] {
      var bs := buf[pos..p];
      var k :| 0 <= k <= |bs| && Denotes(ty, vs[0], bs[..k]) && DenotesItems(ty, vs[1..], bs[k..]);
      Slices(buf, pos, pos + k, p);
      DecodeComplete(ty, vs[0], buf, pos, pos + k);
      DecodeItemsComplete(ty, vs[1..], buf, pos + k, p);
      assert [vs[0]] + vs[1..] == vs;
    }
  }

  /** The decoder accepts exactly the language of its type, at any cursor of any buffer. */
  lemma DecodeExact(ty: Type, v: Value, buf: seq<byte>, pos: nat, p: nat)
    requires pos <= |buf|
    ensures Decode(ty, buf, pos) == Ok(v, p) <==> pos <= p <= |buf| && Denotes(ty, v, buf[pos..p])
  {
    DecodeSound(ty, buf, pos);
    if pos <= p <= |buf| && Denotes(ty, v, buf[pos..p]) {
      DecodeComplete(ty, v, buf, pos, p);
    }
  }
}
