/**
 What the codec promises: self-delimiting round trips, prefix-freedom, typed and
 local decoding, and canonical re-encoding. All of it follows from the language.
 */
module WireTheorems {
  import opened Bytes
  import opened Leb128
  import opened Unicode
  import opened Wire
  import opened WireLanguage

  // ---------------------------------------------------------------------------
  // Flags
  // ---------------------------------------------------------------------------

  lemma {:induction false} BitsOfByteOf(bits: seq<bool>)
    requires |bits| <= 8
    ensures BitsOf(ByteOf(bits), |bits|) == bits
  {
    if bits != [] {
      BitsOfByteOf(bits[1..]);
    }
  }

  lemma {:induction false} PackLength(bits: seq<bool>)
    ensures |Pack(bits)| == (|bits| + 7) / 8
    decreases |bits|
  {
    if |bits| > 8 {
      PackLength(bits[8..]);
    }
  }

  lemma NoUnusedTail(bs: seq<byte>, n: nat)
    requires n > 8 && |bs| == (n + 7) / 8
    ensures NoUnusedBits(bs, n) <==> NoUnusedBits(bs[1..], n - 8)
  {
    assert n % 8 == (n - 8) % 8;
  }

  lemma UnpackPackShort(bits: seq<bool>)
    requires |bits| <= 8
    ensures |Pack(bits)| == (|bits| + 7) / 8 && Unpack(Pack(bits), |bits|) == bits && NoUnusedBits(Pack(bits), |bits|)
  {
    BitsOfByteOf(bits);
    ByteOfBound(bits);
    hide ByteOf;
    hide BitsOf;
    if |bits| < 8 {
      assert |bits| % 8 == |bits|;
      SmallQuotient(ByteOf(bits), Pow2(|bits|));
    }
  }

  /** Packing then unpacking gives the flags back, and leaves the spare bits clear. */
  lemma {:induction false} UnpackPack(bits: seq<bool>)
    ensures |Pack(bits)| == (|bits| + 7) / 8
    ensures Unpack(Pack(bits), |bits|) == bits && NoUnusedBits(Pack(bits), |bits|)
    decreases |bits|
  {
    hide ByteOf;
    hide BitsOf;
    hide NoUnusedBits;
    PackLength(bits);
    var n := |bits|;
    if n <= 8 {
      UnpackPackShort(bits);
    } else {
      BitsOfByteOf(bits[..8]);
      UnpackPack(bits[8..]);
      assert Pack(bits)[1..] == Pack(bits[8..]);
      NoUnusedTail(Pack(bits), n);
      assert bits[..8] + bits[8..] == bits;
    }
  }

  lemma {:induction false} ByteOfBitsOf(b: nat, k: nat)
    requires k <= 8 && b < Pow2(k)
    ensures ByteOf(BitsOf(b, k)) == b
  {
    if k > 0 {
      ByteOfBitsOf(b / 2, k - 1);
      assert BitsOf(b, k)[1..] == BitsOf(b / 2, k - 1);
    }
  }

  /** A flags value has one encoding. */
  lemma {:induction false} PackUnpack(bs: seq<byte>, n: nat)
    requires |bs| == (n + 7) / 8 && NoUnusedBits(bs, n)
    ensures Pack(Unpack(bs, n)) == bs
    decreases n
  {
    Pow2Seven();
    if 0 < n <= 8 {
      if n < 8 {
        QuotientZero(bs[0], Pow2(n));
      }
      ByteOfBitsOf(bs[0], n);
    } else if n > 8 {
      NoUnusedTail(bs, n);
      PackUnpack(bs[1..], n - 8);
      ByteOfBitsOf(bs[0], 8);
      var bits := Unpack(bs, n);
      assert bits[..8] == BitsOf(bs[0], 8);
      assert bits[8..] == Unpack(bs[1..], n - 8);
    }
  }

  // ---------------------------------------------------------------------------
  // The encoder speaks the language
  // ---------------------------------------------------------------------------

  lemma ScalarWidth(cp: int)
    requires IsScalar(cp)
    ensures 0 <= cp < Pow2(21)
  {
    Pow2Seven();
    Pow2Step7(7);
    Pow2Step7(14);
  }

  lemma StringEncodes(utf8: seq<byte>)
    requires |utf8| < Pow2(32)
    ensures Headed(|utf8|, utf8, Uleb(|utf8|) + utf8)
  {
    UlebIsUleb(32, |utf8|);
    Parts(Uleb(|utf8|), utf8);
  }

  lemma IntegerEncodes(ty: Type, v: Value)
    requires ty.TUInt? || ty.TSInt? || ty.TChar? || ty.TEnum?
    requires HasType(v, ty)
    ensures Denotes(ty, v, Encode(v))
  {
    hide Pow2;
    hide Unpack;
    hide NoUnusedBits;
    hide IsUleb;
    hide IsSleb;
    hide Uleb;
    hide Sleb;
    if ty.TUInt? {
      UlebIsUleb(Bits(ty.width), v.u);
    } else if ty.TSInt? {
      SlebIsSleb(Bits(ty.width), v.n);
    } else if ty.TChar? {
      ScalarWidth(v.scalar);
      UlebIsUleb(21, v.scalar);
    } else {
      UlebIsUleb(32, v.tag);
    }
  }

  lemma LeafEncodes(ty: Type, v: Value)
    requires IsLeaf(ty) && HasType(v, ty)
    ensures Denotes(ty, v, Encode(v))
  {
    hide Pow2;
    hide Uleb;
    hide Sleb;
    if ty.TString? {
      StringEncodes(v.utf8);
    } else if ty.TFlags? {
      UnpackPack(v.bits);
    } else if !ty.TBool? && !ty.TFloat? {
      IntegerEncodes(ty, v);
    }
  }

  lemma {:induction false} EncodeDenotes(ty: Type, v: Value)
    requires HasType(v, ty)
    ensures Denotes(ty, v, Encode(v))
    decreases ty, 0
  {
    hide Pow2;
    hide IsUleb;
    hide Uleb;
    hide DenotesItems;
    hide DenotesFields;
    hide DenotesSide;
    hide Denotes;
    var bs := Encode(v);
    if IsLeaf(ty) {
      LeafEncodes(ty, v);
    } else {
      match ty
      case TList(t) =>
        UlebIsUleb(32, |v.items|);
        EncodeItemsDenotes(t, v.items);
        Parts(Uleb(|v.items|), EncodeAll(v.items));
        ListIntro(t, v.items, bs, |Uleb(|v.items|)|);
      case TRecord(ts) =>
        EncodeFieldsDenotes(ts, v.vals);
        RecordIntro(ty, v.vals, bs);
      case TTuple(ts) =>
        EncodeFieldsDenotes(ts, v.vals);
        RecordIntro(ty, v.vals, bs);
      case TVariant(cs) =>
        UlebIsUleb(32, v.tag);
        EncodeSideDenotes(cs[v.tag], v.payload);
        Parts(Uleb(v.tag), EncodeSide(v.payload));
        VariantIntro(cs, v.tag, v.payload, bs, |Uleb(v.tag)|);
      case TOption(t) =>
        Parts([if v.payload.Some? then 1 else 0], EncodeSide(v.payload));
        if v.payload.Some? {
          EncodeDenotes(t, v.payload.value);
        }
        TaggedIntro(ty, v, bs);
      case TResult(o, e) =>
        Parts([if v.isErr then 1 else 0], EncodeSide(v.payload));
        EncodeSideDenotes(if v.isErr then e else o, v.payload);
        TaggedIntro(ty, v, bs);
    }
  }

  lemma Parts(a: seq<byte>, b: seq<byte>)
    ensures (a + b)[..|a|] == a && (a + b)[|a|..] == b
  {
  }

  lemma {:induction false} EncodeSideDenotes(ty: Option<Type>, p: Option<Value>)
    requires SideHasType(p, ty)
    ensures DenotesSide(ty, p, EncodeSide(p))
    decreases ty, 0
  {
    if ty.Some? {
      EncodeDenotes(ty.value, p.value);
    }
  }

  lemma {:induction false} EncodeFieldsDenotes(tys: seq<Type>, vs: seq<Value>)
    requires HaveTypes(vs, tys)
    ensures DenotesFields(tys, vs, EncodeAll(vs))
    decreases tys, 0
  {
    hide Denotes;
    if tys != [] {
      EncodeDenotes(tys[0], vs[0]);
      EncodeFieldsDenotes(tys[1..], vs[1..]);
      Parts(Encode(vs[0]), EncodeAll(vs[1..]));
    }
  }

  lemma {:induction false} EncodeItemsDenotes(ty: Type, vs: seq<Value>)
    requires AllHaveType(vs, ty)
    ensures DenotesItems(ty, vs, EncodeAll(vs))
    decreases ty, |vs| + 1
  {
    hide Denotes;
    if vs != [] {
      EncodeDenotes(ty, vs[0]);
      EncodeItemsDenotes(ty, vs[1..]);
      Parts(Encode(vs[0]), EncodeAll(vs[1..]));
    }
  }

  // ---------------------------------------------------------------------------
  // Round trip and prefix-freedom
  // ---------------------------------------------------------------------------

  /** Decoding an encoding gives the value back and stops at the suffix, wherever it stands. */
  lemma RoundTrip(ty: Type, v: Value, prefix: seq<byte>, suffix: seq<byte>)
    requires HasType(v, ty)
    ensures Decode(ty, prefix + Encode(v) + suffix, |prefix|) == Ok(v, |prefix| + |Encode(v)|)
  {
    hide Decode;
    hide Encode;
    hide Denotes;
    hide HasType;
    EncodeDenotes(ty, v);
    var buf := prefix + Encode(v) + suffix;
    assert buf[|prefix|..|prefix| + |Encode(v)|] == Encode(v);
    DecodeExact(ty, v, buf, |prefix|, |prefix| + |Encode(v)|);
  }

  /** No encoding of a type is a proper prefix of another; in particular encoding is injective. */
  lemma PrefixFree(ty: Type, v: Value, w: Value)
    requires HasType(v, ty) && HasType(w, ty) && Encode(v) <= Encode(w)
    ensures v == w
  {
    hide Decode;
    hide Encode;
    hide HasType;
    var rest := Encode(w)[|Encode(v)|..];
    assert [] + Encode(v) + rest == Encode(w) == [] + Encode(w) + [];
    RoundTrip(ty, v, [], rest);
    RoundTrip(ty, w, [], []);
  }

  /** A decoding depends only on the bytes it consumes. */
  lemma DecodeLocal(ty: Type, v: Value, buf: seq<byte>, pos: nat, p: nat, other: seq<byte>, at: nat)
    requires pos <= p <= |buf| && Decode(ty, buf, pos) == Ok(v, p)
    requires at + (p - pos) <= |other| && other[at..at + (p - pos)] == buf[pos..p]
    ensures Decode(ty, other, at) == Ok(v, at + (p - pos))
  {
    hide Decode;
    hide Denotes;
    DecodeExact(ty, v, buf, pos, p);
    DecodeExact(ty, v, other, at, at + (p - pos));
  }

  // ---------------------------------------------------------------------------
  // What a successful decode yields
  // ---------------------------------------------------------------------------

  /** The least number of bytes any value of the type takes. */
  function MinSize(ty: Type): nat
    decreases ty, 0
  {
    match ty
    case TFloat(d) => FloatSize(d)
    case TRecord(ts) => MinFields(ts)
    case TTuple(ts) => MinFields(ts)
    case TVariant(cs) => 1 + MinCases(cs)
    case TResult(o, e) => 1 + Min(MinSide(o), MinSide(e))
    case TFlags(n) => (n + 7) / 8
    case _ => 1
  }

  function MinSide(ty: Option<Type>): nat
    decreases ty, 0
  {
    if ty.Some? then MinSize(ty.value) else 0
  }

  function MinFields(tys: seq<Type>): nat
    decreases tys, 0
  {
    if tys == [] then 0 else MinSize(tys[0]) + MinFields(tys[1..])
  }

  function MinCases(cs: seq<Option<Type>>): nat
    decreases cs, 0
  {
    if cs == [] then 0
    else if |cs| == 1 then MinSide(cs[0])
    else Min(MinSide(cs[0]), MinCases(cs[1..]))
  }

  lemma {:induction false} MinCasesIsMin(cs: seq<Option<Type>>, c: nat)
    requires c < |cs|
    ensures MinCases(cs) <= MinSide(cs[c])
  {
    if c > 0 {
      MinCasesIsMin(cs[1..], c - 1);
    }
  }

  /** The facts a decode yields: the value is typed, and `bs` is no shorter than its re-encoding. */
  ghost predicate Canonical(ty: Type, v: Value, bs: seq<byte>) {
    HasType(v, ty) && |Encode(v)| <= |bs| && MinSize(ty) <= |bs|
  }

  lemma LeafCanonical(ty: Type, v: Value, bs: seq<byte>)
    requires IsLeaf(ty) && Denotes(ty, v, bs)
    ensures Canonical(ty, v, bs)
  {
    hide Pow2;
    match ty {
      case TBool =>
      case TUInt(w) => UlebShortest(bs);
      case TSInt(w) => SlebShortest(bs);
      case TFloat(_) =>
      case TChar => UlebShortest(bs);
      case TString => UlebShortest(bs[..|bs| - |v.utf8|]);
      case TEnum(_) => UlebShortest(bs);
      case TFlags(n) => PackUnpack(bs, n);
    }
  }

  lemma HeaderShortest(n: nat, bs: seq<byte>)
    requires IsUleb(32, n, bs)
    ensures |bs| > 0 && |Uleb(n)| <= |bs| && n < Pow2(32)
  {
    UlebShortest(bs);
  }

  lemma ListStep(t: Type, vs: seq<Value>, bs: seq<byte>, k: nat)
    requires k <= |bs| && IsUleb(32, |vs|, bs[..k])
    requires AllHaveType(vs, t) && |EncodeAll(vs)| <= |bs| - k
    ensures Canonical(TList(t), VList(vs), bs)
  {
    hide Pow2;
    HeaderShortest(|vs|, bs[..k]);
  }

  lemma VariantStep(cs: seq<Option<Type>>, c: nat, p: Option<Value>, bs: seq<byte>, k: nat)
    requires c < |cs| && k <= |bs| && IsUleb(32, c, bs[..k])
    requires SideHasType(p, cs[c]) && |EncodeSide(p)| <= |bs| - k && MinSide(cs[c]) <= |bs| - k
    ensures Canonical(TVariant(cs), VVariant(c, p), bs)
  {
    hide Pow2;
    HeaderShortest(c, bs[..k]);
    MinCasesIsMin(cs, c);
  }

  lemma OptionStep(t: Type, p: Option<Value>, bs: seq<byte>)
    requires |bs| > 0 && (p.Some? ==> Canonical(t, p.value, bs[1..]))
    ensures Canonical(TOption(t), VOption(p), bs)
  {
    hide Pow2;
    hide Uleb;
    hide Sleb;
    hide Pack;
    if p.Some? {
      assert EncodeSide(p) == Encode(p.value);
    }
  }

  lemma ResultStep(o: Option<Type>, e: Option<Type>, isErr: bool, p: Option<Value>, bs: seq<byte>)
    requires |bs| > 0
    requires var side := if isErr then e else o;
             SideHasType(p, side) && |EncodeSide(p)| <= |bs| - 1 && MinSide(side) <= |bs| - 1
    ensures Canonical(TResult(o, e), VResult(isErr, p), bs)
  {
  }

  lemma RecordStep(ty: Type, vs: seq<Value>, bs: seq<byte>)
    requires ty.TRecord? || ty.TTuple?
    requires var tys := if ty.TRecord? then ty.fields else ty.members;
             HaveTypes(vs, tys) && |EncodeAll(vs)| <= |bs| && MinFields(tys) <= |bs|
    ensures ty.TRecord? ==> Canonical(ty, VRecord(vs), bs)
    ensures ty.TTuple? ==> Canonical(ty, VTuple(vs), bs)
  {
  }

  lemma {:induction false} DenotesCanonical(ty: Type, v: Value, bs: seq<byte>)
    requires Denotes(ty, v, bs)
    ensures Canonical(ty, v, bs)
    decreases ty, 0
  {
    hide Pow2;
    hide Denotes;
    hide DenotesItems;
    hide DenotesFields;
    hide DenotesSide;
    hide Canonical;
    hide IsUleb;
    if IsLeaf(ty) {
      LeafCanonical(ty, v, bs);
    } else {
      match ty
      case TList(t) =>
        var k := ListParts(t, v, bs);
        ItemsCanonical(t, v.items, bs[k..]);
        ListStep(t, v.items, bs, k);
      case TRecord(ts) =>
        RecordParts(ty, v, bs);
        FieldsCanonical(ts, v.vals, bs);
        RecordStep(ty, v.vals, bs);
      case TTuple(ts) =>
        RecordParts(ty, v, bs);
        FieldsCanonical(ts, v.vals, bs);
        RecordStep(ty, v.vals, bs);
      case TVariant(cs) =>
        var k := VariantParts(cs, v, bs);
        SideCanonical(cs[v.tag], v.payload, bs[k..]);
        VariantStep(cs, v.tag, v.payload, bs, k);
      case TOption(t) =>
        TaggedParts(ty, v, bs);
        if v.payload.Some? {
          DenotesCanonical(t, v.payload.value, bs[1..]);
        }
        OptionStep(t, v.payload, bs);
      case TResult(o, e) =>
        TaggedParts(ty, v, bs);
        SideCanonical(if v.isErr then e else o, v.payload, bs[1..]);
        ResultStep(o, e, v.isErr, v.payload, bs);
    }
  }

  lemma {:induction false} SideCanonical(ty: Option<Type>, p: Option<Value>, bs: seq<byte>)
    requires DenotesSide(ty, p, bs)
    ensures SideHasType(p, ty) && |EncodeSide(p)| <= |bs| && MinSide(ty) <= |bs|
    decreases ty, 0
  {
    hide Denotes;
    if ty.Some? {
      DenotesCanonical(ty.value, p.value, bs);
    }
  }

  lemma {:induction false} FieldsCanonical(tys: seq<Type>, vs: seq<Value>, bs: seq<byte>)
    requires DenotesFields(tys, vs, bs)
    ensures HaveTypes(vs, tys) && |EncodeAll(vs)| <= |bs| && MinFields(tys) <= |bs|
    decreases tys, 0
  {
    hide Denotes;
    if tys != [] {
      var k :| 0 <= k <= |bs| && Denotes(tys[0], vs[0], bs[..k]) && DenotesFields(tys[1..], vs[1..], bs[k..]);
      DenotesCanonical(tys[0], vs[0], bs[..k]);
      FieldsCanonical(tys[1..], vs[1..], bs[k..]);
    }
  }

  lemma {:induction false} ItemsCanonical(ty: Type, vs: seq<Value>, bs: seq<byte>)
    requires DenotesItems(ty, vs, bs)
    ensures AllHaveType(vs, ty) && |EncodeAll(vs)| <= |bs| && MinSize(ty) * |vs| <= |bs|
    decreases ty, |vs| + 1
  {
    hide Denotes;
    if vs != [] {
      var k :| 0 <= k <= |bs| && Denotes(ty, vs[0], bs[..k]) && DenotesItems(ty, vs[1..], bs[k..]);
      DenotesCanonical(ty, vs[0], bs[..k]);
      ItemsCanonical(ty, vs[1..], bs[k..]);
      assert MinSize(ty) * |vs| == MinSize(ty) + MinSize(ty) * (|vs| - 1);
    }
  }

  /**
   Every successful decode stays in the buffer and yields a well-typed value that
   re-encodes to at most the bytes consumed and decodes from there to itself.
   */
  lemma DecodeYields(ty: Type, buf: seq<byte>, pos: nat)
    requires pos <= |buf| && Decode(ty, buf, pos).Ok?
    ensures var (v, p) := (Decode(ty, buf, pos).value, Decode(ty, buf, pos).pos);
            && pos <= p <= |buf|
            && HasType(v, ty)
            && MinSize(ty) <= p - pos
            && |Encode(v)| <= p - pos
            && DecodeWhole(ty, Encode(v)) == Ok(v, |Encode(v)|)
  {
    var v, p := Decode(ty, buf, pos).value, Decode(ty, buf, pos).pos;
    DecodeExact(ty, v, buf, pos, p);
    DenotesCanonical(ty, v, buf[pos..p]);
    RoundTrip(ty, v, [], []);
    assert [] + Encode(v) + [] == Encode(v);
  }

  lemma AtLeastCount(a: nat, n: nat)
    requires a > 0
    ensures n <= a * n
  {
  }

  /** The item count of a list is bounded by the bytes it took, unless its elements are empty. */
  lemma ListCountBounded(t: Type, buf: seq<byte>, pos: nat)
    requires pos <= |buf| && MinSize(t) > 0 && Decode(TList(t), buf, pos).Ok?
    ensures |Decode(TList(t), buf, pos).value.items| < Decode(TList(t), buf, pos).pos - pos
  {
    hide Denotes;
    var v, p := Decode(TList(t), buf, pos).value, Decode(TList(t), buf, pos).pos;
    DecodeExact(TList(t), v, buf, pos, p);
    var bs := buf[pos..p];
    var k := ListParts(t, v, bs);
    assert k > 0;
    ItemsCanonical(t, v.items, bs[k..]);
    AtLeastCount(MinSize(t), |v.items|);
  }

  // ---------------------------------------------------------------------------
  // Parameters
  // ---------------------------------------------------------------------------

  lemma {:induction false} ParamsFromRoundTrip(tys: seq<Type>, i: nat, vs: seq<Value>, prefix: seq<byte>)
    requires i <= |tys| && HaveTypes(vs, tys[i..])
    ensures DecodeParamsFrom(tys, i, prefix + EncodeAll(vs), |prefix|) == Ok(vs, |prefix| + |EncodeAll(vs)|)
    decreases |tys| - i
  {
    hide Decode;
    hide Encode;
    hide HasType;
    var buf := prefix + EncodeAll(vs);
    if i < |tys| {
      assert tys[i..][1..] == tys[i + 1..];
      var head := prefix + Encode(vs[0]);
      assert buf == prefix + Encode(vs[0]) + EncodeAll(vs[1..]) == head + EncodeAll(vs[1..]);
      RoundTrip(tys[i], vs[0], prefix, EncodeAll(vs[1..]));
      assert |head| == |prefix| + |Encode(vs[0])|;
      ParamsFromRoundTrip(tys, i + 1, vs[1..], head);
      assert [vs[0]] + vs[1..] == vs;
    }
  }

  /** `decode_params` inverts the concatenation of the encoded parameters. */
  lemma ParamsRoundTrip(tys: seq<Type>, vs: seq<Value>)
    requires HaveTypes(vs, tys)
    ensures DecodeParams(tys, EncodeAll(vs)) == Ok(vs, |EncodeAll(vs)|)
  {
    hide Decode;
    hide HasType;
    assert tys[0..] == tys;
    ParamsFromRoundTrip(tys, 0, vs, []);
    assert [] + EncodeAll(vs) == EncodeAll(vs);
  }
}
