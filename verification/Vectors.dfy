/**
 The golden vectors of the repository: what its values encode to, byte for byte, and the
 buffers its tests expect to be refused, each with its error.
 */
module Vectors {
  import opened Bytes
  import opened Leb128
  import opened Unicode
  import opened Wire
  import opened WireFaults
  import opened WireLanguage
  import opened WireTheorems
  import opened Abi

  /** The value has the type and encodes to the bytes. */
  ghost predicate Spells(ty: Type, v: Value, bs: seq<byte>) {
    HasType(v, ty) && Encode(v) == bs
  }

  /** Besides, it is what they decode to. */
  ghost predicate Golden(ty: Type, v: Value, bs: seq<byte>) {
    Spells(ty, v, bs) && DecodeWhole(ty, bs) == Ok(v, |bs|)
  }

  lemma GoldenIs(ty: Type, v: Value, bs: seq<byte>)
    requires Spells(ty, v, bs)
    ensures Golden(ty, v, bs)
  {
    hide Decode;
    hide HasType;
    hide Encode;
    RoundTrip(ty, v, [], []);
    assert [] + bs + [] == bs;
  }

  // ---------------------------------------------------------------------------
  // Integers
  // ---------------------------------------------------------------------------

  lemma UlebMore(v: nat)
    ensures v < 128 ==> Uleb(v) == [v]
    ensures v >= 128 ==> Uleb(v) == [v % 128 + 128] + Uleb(v / 128)
  {
  }

  lemma SlebMore(v: int)
    ensures -64 <= v < 64 ==> Sleb(v) == [v % 128]
    ensures !(-64 <= v < 64) ==> Sleb(v) == [v % 128 + 128] + Sleb(v / 128)
  {
  }

  lemma Pow2Of64()
    ensures Pow2(64) == 0x1_0000_0000_0000_0000 && Pow2(63) == 0x8000_0000_0000_0000
  {
    Pow2Sizes();
    Pow2Step7(29);
    Pow2Step7(36);
    Pow2Step7(43);
    Pow2Step7(50);
    Pow2Step7(57);
    assert Pow2(64) == 2 * Pow2(63);
  }

  lemma Booleans()
    ensures Golden(TBool, VBool(true), [0x01]) && Golden(TBool, VBool(false), [0x00])
  {
    hide Golden;
    GoldenIs(TBool, VBool(true), [0x01]);
    GoldenIs(TBool, VBool(false), [0x00]);
  }

  lemma NaturalIs(w: Width, n: nat, bs: seq<byte>)
    requires n < Pow2(Bits(w)) && Uleb(n) == bs
    ensures Golden(TUInt(w), VUInt(w, n), bs)
  {
    hide Golden;
    hide Pow2;
    hide Uleb;
    GoldenIs(TUInt(w), VUInt(w, n), bs);
  }

  lemma UlebsOfBytes()
    ensures Uleb(0) == [0x00] && Uleb(7) == [0x07] && Uleb(255) == [0xFF, 0x01]
  {
    hide Uleb;
    UlebMore(0);
    UlebMore(7);
    UlebMore(255);
    UlebMore(1);
  }

  lemma UlebOfThreeBytes()
    ensures Uleb(624485) == [0xE5, 0x8E, 0x26]
  {
    hide Uleb;
    UlebMore(624485);
    UlebMore(4878);
    UlebMore(38);
  }

  lemma Naturals()
    ensures Golden(TUInt(W8), VUInt(W8, 0), [0x00]) && Golden(TUInt(W8), VUInt(W8, 255), [0xFF, 0x01])
    ensures Golden(TUInt(W32), VUInt(W32, 7), [0x07])
    ensures Golden(TUInt(W32), VUInt(W32, 624485), [0xE5, 0x8E, 0x26])
  {
    Pow2Sizes();
    hide Pow2;
    hide Uleb;
    hide Golden;
    UlebsOfBytes();
    UlebOfThreeBytes();
    NaturalIs(W8, 0, [0x00]);
    NaturalIs(W8, 255, [0xFF, 0x01]);
    NaturalIs(W32, 7, [0x07]);
    NaturalIs(W32, 624485, [0xE5, 0x8E, 0x26]);
  }

  lemma UlebOfForty()
    ensures Uleb(1099511627775) == [0xFF, 0xFF, 0xFF, 0xFF, 0xFF, 0x1F]
  {
    hide Uleb;
    UlebMore(1099511627775);
    UlebMore(8589934591);
    UlebMore(67108863);
    UlebMore(524287);
    UlebMore(4095);
    UlebMore(31);
  }

  lemma UlebOfSixtyFour()
    ensures Uleb(18446744073709551615) == [0xFF, 0xFF, 0xFF, 0xFF, 0xFF, 0xFF, 0xFF, 0xFF, 0xFF, 0x01]
  {
    hide Uleb;
    UlebMore(18446744073709551615);
    UlebMore(144115188075855871);
    UlebMore(1125899906842623);
    UlebMore(8796093022207);
    UlebMore(68719476735);
    UlebMore(536870911);
    UlebMore(4194303);
    UlebMore(32767);
    UlebMore(255);
    UlebMore(1);
  }

  lemma LongNaturals()
    ensures Golden(TUInt(W64), VUInt(W64, 1099511627775), [0xFF, 0xFF, 0xFF, 0xFF, 0xFF, 0x1F])
    ensures Golden(TUInt(W64), VUInt(W64, 18446744073709551615),
                   [0xFF, 0xFF, 0xFF, 0xFF, 0xFF, 0xFF, 0xFF, 0xFF, 0xFF, 0x01])
  {
    Pow2Of64();
    UlebOfForty();
    UlebOfSixtyFour();
    hide Uleb;
    hide Pow2;
    hide Golden;
    NaturalIs(W64, 1099511627775, [0xFF, 0xFF, 0xFF, 0xFF, 0xFF, 0x1F]);
    NaturalIs(W64, 18446744073709551615,
              [0xFF, 0xFF, 0xFF, 0xFF, 0xFF, 0xFF, 0xFF, 0xFF, 0xFF, 0x01]);
  }

  lemma IntegerIs(n: int, bs: seq<byte>)
    requires -0x8000_0000 <= n < 0x8000_0000 && Sleb(n) == bs
    ensures Golden(TSInt(W32), VSInt(W32, n), bs)
  {
    Pow2Sizes();
    hide Golden;
    hide Pow2;
    hide Sleb;
    GoldenIs(TSInt(W32), VSInt(W32, n), bs);
  }

  lemma Signed()
    ensures Golden(TSInt(W32), VSInt(W32, -1), [0x7F])
    ensures Golden(TSInt(W32), VSInt(W32, -624485), [0x9B, 0xF1, 0x59])
  {
    hide Sleb;
    hide Golden;
    SlebMore(-1);
    SlebMore(-624485);
    SlebMore(-4879);
    SlebMore(-39);
    IntegerIs(-1, [0x7F]);
    IntegerIs(-624485, [0x9B, 0xF1, 0x59]);
  }

  // ---------------------------------------------------------------------------
  // How values are put together
  // ---------------------------------------------------------------------------

  lemma Small(n: nat)
    requires n < 128
    ensures Uleb(n) == [n] && Spells(TUInt(W32), VUInt(W32, n), [n])
  {
    Pow2Sizes();
    hide Pow2;
  }

  lemma PlainText(bs: seq<byte>)
    requires |bs| < 128 && forall i :: 0 <= i < |bs| ==> bs[i] < 128
    ensures Spells(TString, VString(bs), [|bs|] + bs)
  {
    PlainIsUtf8(bs);
    ShortText(bs);
  }

  lemma ShortText(bs: seq<byte>)
    requires |bs| < 128 && IsUtf8(bs)
    ensures Spells(TString, VString(bs), [|bs|] + bs)
  {
    Small(|bs|);
    Pow2Sizes();
    hide Pow2;
    hide IsUtf8;
  }

  lemma NoneOf(t: Type)
    ensures Spells(TOption(t), VOption(None), [0])
  {
  }

  lemma SomeTyped(t: Type, v: Value)
    requires HasType(v, t)
    ensures HasType(VOption(Some(v)), TOption(t))
  {
  }

  lemma SomeBytes(v: Value)
    ensures Encode(VOption(Some(v))) == [1] + Encode(v)
  {
  }

  lemma SomeOf(t: Type, v: Value, bs: seq<byte>)
    requires Spells(t, v, bs)
    ensures Spells(TOption(t), VOption(Some(v)), [1] + bs)
  {
    hide HasType;
    hide Encode;
    SomeTyped(t, v);
    SomeBytes(v);
  }

  lemma SideTyped(v: Value, t: Type)
    ensures SideHasType(Some(v), Some(t)) <==> HasType(v, t)
    ensures SideHasType(None, None)
  {
    hide HasType;
  }

  lemma SideBytes(v: Value)
    ensures EncodeSide(Some(v)) == Encode(v) && EncodeSide(None) == []
  {
    hide Encode;
  }

  lemma CaseTyped(cs: seq<Option<Type>>, c: nat, p: Option<Value>)
    requires c < |cs| && c < 128 && SideHasType(p, cs[c])
    ensures HasType(VVariant(c, p), TVariant(cs))
  {
    Pow2Sizes();
    hide Pow2;
    hide SideHasType;
  }

  lemma CaseBytes(c: nat, p: Option<Value>)
    requires c < 128
    ensures Encode(VVariant(c, p)) == [c] + EncodeSide(p)
  {
    Small(c);
    hide Uleb;
    hide EncodeSide;
  }

  lemma CaseOf(cs: seq<Option<Type>>, c: nat, v: Value, bs: seq<byte>)
    requires c < |cs| && c < 128 && cs[c].Some? && Spells(cs[c].value, v, bs)
    ensures Spells(TVariant(cs), VVariant(c, Some(v)), [c] + bs)
  {
    hide HasType;
    hide Encode;
    SideTyped(v, cs[c].value);
    SideBytes(v);
    hide SideHasType;
    hide EncodeSide;
    CaseTyped(cs, c, Some(v));
    CaseBytes(c, Some(v));
  }

  lemma EmptyCase(cs: seq<Option<Type>>, c: nat)
    requires c < |cs| && c < 128 && cs[c].None?
    ensures Spells(TVariant(cs), VVariant(c, None), [c])
  {
    hide HasType;
    hide Encode;
    SideTyped(VBool(true), TBool);
    SideBytes(VBool(true));
    hide SideHasType;
    hide EncodeSide;
    CaseTyped(cs, c, None);
    CaseBytes(c, None);
    assert [c] + [] == [c];
  }

  lemma EnumOf(n: nat, c: nat)
    requires c < n && c < 128
    ensures Spells(TEnum(n), VEnum(c), [c])
  {
    EnumTyped(n, c);
    EnumBytes(c);
    hide HasType;
    hide Encode;
  }

  lemma EnumTyped(n: nat, c: nat)
    requires c < n && c < 128
    ensures HasType(VEnum(c), TEnum(n))
  {
    Pow2Sizes();
    hide Pow2;
  }

  lemma EnumBytes(c: nat)
    requires c < 128
    ensures Encode(VEnum(c)) == [c]
  {
    Small(c);
    hide Uleb;
  }

  lemma ResultTyped(o: Option<Type>, e: Option<Type>, isErr: bool, p: Option<Value>)
    requires SideHasType(p, if isErr then e else o)
    ensures HasType(VResult(isErr, p), TResult(o, e))
  {
    hide SideHasType;
  }

  lemma ResultBytes(isErr: bool, v: Value)
    ensures Encode(VResult(isErr, Some(v))) == [if isErr then 1 else 0] + Encode(v)
  {
    SideBytes(v);
    hide EncodeSide;
  }

  lemma SideOf(o: Type, e: Type, isErr: bool, v: Value, bs: seq<byte>)
    requires Spells(if isErr then e else o, v, bs)
    ensures Spells(TResult(Some(o), Some(e)), VResult(isErr, Some(v)), [if isErr then 1 else 0] + bs)
  {
    hide HasType;
    hide Encode;
    SideTyped(v, if isErr then e else o);
    hide SideHasType;
    ResultTyped(Some(o), Some(e), isErr, Some(v));
    ResultBytes(isErr, v);
  }

  lemma PairTyped(t: Type, v: Value, u: Type, w: Value)
    requires HasType(v, t) && HasType(w, u)
    ensures HaveTypes([v, w], [t, u])
  {
    hide HasType;
    assert [w][1..] == [] && [u][1..] == [];
    assert HaveTypes([], []);
    assert HaveTypes([w], [u]);
    assert [v, w][1..] == [w] && [t, u][1..] == [u];
  }

  lemma PairBytes(v: Value, w: Value)
    ensures EncodeAll([v, w]) == Encode(v) + Encode(w)
  {
    hide Encode;
    assert [w][1..] == [];
    assert EncodeAll([w]) == Encode(w) + [] == Encode(w);
    assert [v, w][1..] == [w];
  }

  lemma Members(ts: seq<Type>, vs: seq<Value>)
    ensures HasType(VTuple(vs), TTuple(ts)) <==> HaveTypes(vs, ts)
    ensures HasType(VRecord(vs), TRecord(ts)) <==> HaveTypes(vs, ts)
    ensures Encode(VTuple(vs)) == EncodeAll(vs) && Encode(VRecord(vs)) == EncodeAll(vs)
  {
    hide HaveTypes;
    hide EncodeAll;
  }

  lemma Pair(t: Type, v: Value, bs: seq<byte>, u: Type, w: Value, cs: seq<byte>)
    requires Spells(t, v, bs) && Spells(u, w, cs)
    ensures Spells(TTuple([t, u]), VTuple([v, w]), bs + cs)
    ensures Spells(TRecord([t, u]), VRecord([v, w]), bs + cs)
  {
    hide HasType;
    hide Encode;
    hide HaveTypes;
    hide EncodeAll;
    PairTyped(t, v, u, w);
    PairBytes(v, w);
    Members([t, u], [v, w]);
  }

  // ---------------------------------------------------------------------------
  // Texts and floats
  // ---------------------------------------------------------------------------

  lemma Chars()
    ensures Golden(TChar, VChar(0x41), [0x41]) && Golden(TChar, VChar(0x1F980), [0x80, 0xF3, 0x07])
  {
    UlebMore(0x41);
    UlebMore(0x1F980);
    UlebMore(0x3F3);
    UlebMore(0x07);
    hide Uleb;
    hide Golden;
    GoldenIs(TChar, VChar(0x41), [0x41]);
    GoldenIs(TChar, VChar(0x1F980), [0x80, 0xF3, 0x07]);
  }

  lemma Floats()
    ensures Golden(TFloat(false), VFloat(false, [0x00, 0x00, 0xC0, 0x3F]), [0x00, 0x00, 0xC0, 0x3F])
    ensures Golden(TFloat(true), VFloat(true, [0x00, 0x00, 0x00, 0x00, 0x00, 0x00, 0x06, 0xC0]),
                   [0x00, 0x00, 0x00, 0x00, 0x00, 0x00, 0x06, 0xC0])
  {
    hide Golden;
    GoldenIs(TFloat(false), VFloat(false, [0x00, 0x00, 0xC0, 0x3F]), [0x00, 0x00, 0xC0, 0x3F]);
    GoldenIs(TFloat(true), VFloat(true, [0x00, 0x00, 0x00, 0x00, 0x00, 0x00, 0x06, 0xC0]),
             [0x00, 0x00, 0x00, 0x00, 0x00, 0x00, 0x06, 0xC0]);
  }

  /** The second text has five scalars and six bytes. */
  lemma Texts()
    ensures Golden(TString, VString([0x68, 0x69]), [0x02, 0x68, 0x69])
    ensures Golden(TString, VString([0x68, 0xC3, 0xA9, 0x6C, 0x6C, 0x6F]), [0x06, 0x68, 0xC3, 0xA9, 0x6C, 0x6C, 0x6F])
  {
    var hi, accented := [0x68, 0x69], [0x68, 0xC3, 0xA9, 0x6C, 0x6C, 0x6F];
    PlainText(hi);
    Accented();
    ShortText(accented);
    hide Golden;
    hide Spells;
    assert [2] + hi == [0x02, 0x68, 0x69];
    assert [6] + accented == [0x06, 0x68, 0xC3, 0xA9, 0x6C, 0x6C, 0x6F];
    GoldenIs(TString, VString(hi), [2] + hi);
    GoldenIs(TString, VString(accented), [6] + accented);
  }

  lemma Accented()
    ensures IsUtf8([0x68, 0xC3, 0xA9, 0x6C, 0x6C, 0x6F])
  {
    hide IsUtf8;
    PlainParts();
    EAcute();
    TextsJoin([0x68], [0xC3, 0xA9]);
    TextsJoin([0x68] + [0xC3, 0xA9], [0x6C, 0x6C, 0x6F]);
    assert [0x68] + [0xC3, 0xA9] + [0x6C, 0x6C, 0x6F] == [0x68, 0xC3, 0xA9, 0x6C, 0x6C, 0x6F];
  }

  lemma PlainParts()
    ensures IsUtf8([0x68]) && IsUtf8([0x6C, 0x6C, 0x6F])
  {
    hide IsUtf8;
    PlainIsUtf8([0x68]);
    PlainIsUtf8([0x6C, 0x6C, 0x6F]);
  }

  lemma EAcute()
    ensures IsUtf8([0xC3, 0xA9])
  {
    assert [0xE9][1..] == [] && Scalars([0xE9]);
    assert Utf8Encode([0xE9]) == [0xC3, 0xA9];
  }

  // ---------------------------------------------------------------------------
  // Compound values
  // ---------------------------------------------------------------------------

  lemma Lists()
    ensures Golden(TList(TUInt(W32)), VList([VUInt(W32, 1), VUInt(W32, 2), VUInt(W32, 3)]), [0x03, 0x01, 0x02, 0x03])
    ensures Golden(TList(TUInt(W32)), VList([]), [0x00])
  {
    var t, a, b, c := TUInt(W32), VUInt(W32, 1), VUInt(W32, 2), VUInt(W32, 3);
    EmptyList(t);
    Small(3);
    Small(2);
    Small(1);
    Longer(t, c, [3], [], []);
    Longer(t, b, [2], [c], [3]);
    Longer(t, a, [1], [b, c], [2, 3]);
    assert [b] + [c] == [b, c] && [a] + [b, c] == [a, b, c] && [c] + [] == [c];
    assert [3] + [] == [3] && [2] + [3] == [2, 3] && [1] + [2, 3] == [1, 2, 3];
    hide Items;
    hide Golden;
    hide Spells;
    ListOf(t, [], []);
    ListOf(t, [a, b, c], [1, 2, 3]);
    assert [0] + [] == [0] && [3] + [1, 2, 3] == [0x03, 0x01, 0x02, 0x03];
    GoldenIs(TList(t), VList([]), [0]);
    GoldenIs(TList(t), VList([a, b, c]), [3] + [1, 2, 3]);
  }

  ghost predicate Items(t: Type, vs: seq<Value>, bs: seq<byte>) {
    AllHaveType(vs, t) && EncodeAll(vs) == bs
  }

  lemma EmptyList(t: Type)
    ensures Items(t, [], [])
  {
  }

  lemma Longer(t: Type, v: Value, bs: seq<byte>, vs: seq<Value>, rest: seq<byte>)
    requires Spells(t, v, bs) && Items(t, vs, rest)
    ensures Items(t, [v] + vs, bs + rest)
  {
    assert ([v] + vs)[1..] == vs;
  }

  lemma ListOf(t: Type, vs: seq<Value>, bs: seq<byte>)
    requires Items(t, vs, bs) && |vs| < 128
    ensures Spells(TList(t), VList(vs), [|vs|] + bs)
  {
    Small(|vs|);
    Pow2Sizes();
    hide Pow2;
    hide EncodeAll;
    hide AllHaveType;
  }

  const STEVE: seq<byte> := [0x73, 0x74, 0x65, 0x76, 0x65]
  const GREET := TRecord([TString, TOption(TBool)])

  lemma TrueSpelled()
    ensures Spells(TBool, VBool(true), [1])
  {
  }

  /** A record of a name and an optional flag. */
  lemma Records()
    ensures Golden(GREET, VRecord([VString(STEVE), VOption(None)]), [0x05, 0x73, 0x74, 0x65, 0x76, 0x65, 0x00])
    ensures Golden(GREET, VRecord([VString(STEVE), VOption(Some(VBool(true)))]),
                   [0x05, 0x73, 0x74, 0x65, 0x76, 0x65, 0x01, 0x01])
  {
    hide Golden;
    hide Spells;
    var none, some := VOption(None), VOption(Some(VBool(true)));
    PlainText(STEVE);
    TrueSpelled();
    NoneOf(TBool);
    SomeOf(TBool, VBool(true), [1]);
    Pair(TString, VString(STEVE), [5] + STEVE, TOption(TBool), none, [0]);
    Pair(TString, VString(STEVE), [5] + STEVE, TOption(TBool), some, [1] + [1]);
    assert [5] + STEVE + [0] == [0x05, 0x73, 0x74, 0x65, 0x76, 0x65, 0x00];
    assert [5] + STEVE + ([1] + [1]) == [0x05, 0x73, 0x74, 0x65, 0x76, 0x65, 0x01, 0x01];
    GoldenIs(GREET, VRecord([VString(STEVE), none]), [5] + STEVE + [0]);
    GoldenIs(GREET, VRecord([VString(STEVE), some]), [5] + STEVE + ([1] + [1]));
  }

  lemma Tuples()
    ensures Golden(TTuple([TUInt(W32), TString]), VTuple([VUInt(W32, 7), VString([0x6F, 0x6B])]),
                   [0x07, 0x02, 0x6F, 0x6B])
  {
    hide Golden;
    hide Spells;
    var ok := [0x6F, 0x6B];
    Small(7);
    PlainText(ok);
    Pair(TUInt(W32), VUInt(W32, 7), [7], TString, VString(ok), [2] + ok);
    assert [7] + ([2] + ok) == [0x07, 0x02, 0x6F, 0x6B];
    GoldenIs(TTuple([TUInt(W32), TString]), VTuple([VUInt(W32, 7), VString(ok)]), [7] + ([2] + ok));
  }

  lemma Cases()
    ensures Golden(TVariant([None, Some(TUInt(W32))]), VVariant(1, Some(VUInt(W32, 42))), [0x01, 0x2A])
    ensures Golden(TVariant([None, Some(TUInt(W32))]), VVariant(0, None), [0x00])
  {
    hide Golden;
    hide Spells;
    var cs := [None, Some(TUInt(W32))];
    Small(42);
    CaseOf(cs, 1, VUInt(W32, 42), [42]);
    EmptyCase(cs, 0);
    assert [1] + [42] == [0x01, 0x2A];
    GoldenIs(TVariant(cs), VVariant(1, Some(VUInt(W32, 42))), [1] + [42]);
    GoldenIs(TVariant(cs), VVariant(0, None), [0]);
  }

  lemma Enums()
    ensures Golden(TEnum(4), VEnum(2), [0x02])
  {
    hide Golden;
    hide Spells;
    EnumOf(4, 2);
    GoldenIs(TEnum(4), VEnum(2), [0x02]);
  }

  lemma Options()
    ensures Golden(TOption(TString), VOption(None), [0x00])
    ensures Golden(TOption(TString), VOption(Some(VString([0x79, 0x6F]))), [0x01, 0x02, 0x79, 0x6F])
  {
    hide Golden;
    hide Spells;
    var yo := [0x79, 0x6F];
    PlainText(yo);
    NoneOf(TString);
    SomeOf(TString, VString(yo), [2] + yo);
    assert [1] + ([2] + yo) == [0x01, 0x02, 0x79, 0x6F];
    GoldenIs(TOption(TString), VOption(None), [0]);
    GoldenIs(TOption(TString), VOption(Some(VString(yo))), [1] + ([2] + yo));
  }

  lemma Results()
    ensures var t := TResult(Some(TUInt(W32)), Some(TString));
            && Golden(t, VResult(false, Some(VUInt(W32, 7))), [0x00, 0x07])
            && Golden(t, VResult(true, Some(VString([0x62, 0x6F, 0x6F, 0x6D]))), [0x01, 0x04, 0x62, 0x6F, 0x6F, 0x6D])
  {
    hide Golden;
    hide Spells;
    var t, boom := TResult(Some(TUInt(W32)), Some(TString)), [0x62, 0x6F, 0x6F, 0x6D];
    Small(7);
    PlainText(boom);
    SideOf(TUInt(W32), TString, false, VUInt(W32, 7), [7]);
    SideOf(TUInt(W32), TString, true, VString(boom), [4] + boom);
    assert [0] + [7] == [0x00, 0x07] && [1] + ([4] + boom) == [0x01, 0x04, 0x62, 0x6F, 0x6F, 0x6D];
    GoldenIs(t, VResult(false, Some(VUInt(W32, 7))), [0] + [7]);
    GoldenIs(t, VResult(true, Some(VString(boom))), [1] + ([4] + boom));
  }

  const TEN: seq<bool> := [true, false, false, true, false, false, false, false, false, true]

  /** Ten flags, of which 0, 3 and 9 are set: the first flag is the lowest bit of the first byte. */
  lemma FlagsOfTen()
    ensures Golden(TFlags(10), VFlags(TEN), [0x09, 0x02])
  {
    hide Golden;
    hide ByteOf;
    FirstEight();
    LastTwo();
    assert TEN[..8] == [true, false, false, true, false, false, false, false] && TEN[8..] == [false, true];
    assert Pack(TEN[8..]) == [2];
    GoldenIs(TFlags(10), VFlags(TEN), [0x09, 0x02]);
  }

  lemma FirstEight()
    ensures ByteOf([true, false, false, true, false, false, false, false]) == 9
  {
    hide ByteOf;
    NoBits();
    var four := [false] + ([false] + ([false] + ([false] + [])));
    Shift(false, []);
    Shift(false, [false] + []);
    Shift(false, [false] + ([false] + []));
    Shift(false, [false] + ([false] + ([false] + [])));
    assert ByteOf(four) == 0;
    Shift(true, four);
    Shift(false, [true] + four);
    Shift(false, [false] + ([true] + four));
    Shift(true, [false] + ([false] + ([true] + four)));
    assert [true] + ([false] + ([false] + ([true] + four))) == [true, false, false, true, false, false, false, false];
  }

  lemma LastTwo()
    ensures ByteOf([false, true]) == 2
  {
    hide ByteOf;
    NoBits();
    Shift(true, []);
    Shift(false, [true] + []);
    assert [false] + ([true] + []) == [false, true];
  }

  lemma NoBits()
    ensures ByteOf([]) == 0
  {
  }

  lemma Shift(b: bool, rest: seq<bool>)
    requires |rest| < 8
    ensures ByteOf([b] + rest) == (if b then 1 else 0) + 2 * ByteOf(rest)
  {
    assert ([b] + rest)[1..] == rest;
  }

  // ---------------------------------------------------------------------------
  // Buffers that are refused
  // ---------------------------------------------------------------------------

  lemma RefusedIs(ty: Type, bs: seq<byte>, e: Error)
    requires HasFault(ty, bs, e)
    ensures DecodeWhole(ty, bs) == Err(e)
  {
    hide HasFault;
    hide Decode;
    assert bs[0..] == bs;
    FaultExact(ty, bs, 0, e);
  }

  lemma ValOfTwo(a: byte, b: byte)
    ensures UVal([a, b]) == a % 128 + 128 * (b % 128)
    ensures b < 128 ==> SVal([a, b]) == a % 128 + 128 * ((b as int) - if b >= 64 then 128 else 0)
  {
    assert [a, b][1..] == [b] && [b][1..] == [];
    assert UVal([b]) == b % 128 + 128 * UVal([]);
  }

  /** Two bytes for a u8, of which one bit is too many. */
  lemma TooBig()
    ensures DecodeWhole(TUInt(W8), [0xFF, 0x02]) == Err(UlebOverflow)
  {
    var bs: seq<byte> := [0xFF, 0x02];
    Pow2Seven();
    ValOfTwo(0xFF, 0x02);
    assert bs[..2] == bs;
    hide DecodeWhole;
    RefusedIs(TUInt(W8), bs, UlebOverflow);
  }

  /** Three bytes for a u8. */
  lemma TooLong()
    ensures DecodeWhole(TUInt(W8), [0x80, 0x80, 0x00]) == Err(UlebTooLong)
  {
    var bs: seq<byte> := [0x80, 0x80, 0x00];
    Pow2Seven();
    ValOfTwo(0x80, 0x80);
    assert bs[..2] == [0x80, 0x80];
    hide DecodeWhole;
    RefusedIs(TUInt(W8), bs, UlebTooLong);
  }

  lemma NoBytes()
    ensures DecodeWhole(TUInt(W32), []) == Err(UnexpectedEnd)
  {
    hide DecodeWhole;
    RefusedIs(TUInt(W32), [], UnexpectedEnd);
  }

  /** -129 and 128 are no s8. */
  lemma SignedBytes()
    ensures DecodeWhole(TSInt(W8), [0xFF, 0x7E]) == Err(SlebOverflow)
    ensures DecodeWhole(TSInt(W8), [0x80, 0x01]) == Err(SlebOverflow)
  {
    hide DecodeWhole;
    hide HasFault;
    OutOfByte(0xFF, 0x7E);
    OutOfByte(0x80, 0x01);
    RefusedIs(TSInt(W8), [0xFF, 0x7E], SlebOverflow);
    RefusedIs(TSInt(W8), [0x80, 0x01], SlebOverflow);
  }

  lemma OutOfByte(a: byte, b: byte)
    requires a >= 128 && b < 128
    requires !(-128 <= a % 128 + 128 * ((b as int) - if b >= 64 then 128 else 0) < 128)
    ensures HasFault(TSInt(W8), [a, b], SlebOverflow)
  {
    var bs := [a, b];
    Pow2Seven();
    ValOfTwo(a, b);
    assert bs[..2] == bs;
    assert Terminated(bs[..2]) && !FitsSigned(8, SVal(bs[..2]));
  }

  lemma NoBoolean()
    ensures DecodeWhole(TBool, [0x02]) == Err(InvalidPrefix("bool", 2))
  {
    hide DecodeWhole;
    RefusedIs(TBool, [0x02], InvalidPrefix("bool", 2));
  }

  lemma NoOption()
    ensures DecodeWhole(TOption(TUInt(W8)), [0x02, 0x00]) == Err(InvalidPrefix("option", 2))
  {
    hide DecodeWhole;
    RefusedIs(TOption(TUInt(W8)), [0x02, 0x00], InvalidPrefix("option", 2));
  }

  lemma IndexIs(n: nat, rest: seq<byte>)
    requires n < 128
    ensures IsUleb(32, n, ([n] + rest)[..1])
  {
    Small(n);
    Pow2Sizes();
    hide Pow2;
    hide IsUleb;
    UlebIsUleb(32, n);
    assert ([n] + rest)[..1] == [n];
  }

  lemma OutOfRange(count: nat, n: nat)
    requires count <= n < 128
    ensures IndexFault(count, [n], n)
  {
    IndexIs(n, []);
    hide IsUleb;
    assert [n] + [] == [n];
  }

  lemma NoEnum()
    ensures DecodeWhole(TEnum(4), [0x04]) == Err(EnumRange(4))
  {
    hide DecodeWhole;
    hide IndexFault;
    hide UlebFault;
    OutOfRange(4, 4);
    RefusedIs(TEnum(4), [0x04], EnumRange(4));
  }

  lemma NoCase()
    ensures DecodeWhole(TVariant([None]), [0x01]) == Err(VariantRange(1))
  {
    hide DecodeWhole;
    hide IndexFault;
    hide UlebFault;
    hide SideFault;
    OutOfRange(1, 1);
    RefusedIs(TVariant([None]), [0x01], VariantRange(1));
  }

  /** A bit above the tenth flag. */
  lemma StrayBit()
    ensures DecodeWhole(TFlags(10), [0x00, 0x04]) == Err(FlagsUnused)
  {
    var bs: seq<byte> := [0x00, 0x04];
    Pow2Seven();
    assert bs[..2] == bs;
    hide DecodeWhole;
    hide Pow2;
    RefusedIs(TFlags(10), bs, FlagsUnused);
  }

  lemma TextFaultIs(n: nat, rest: seq<byte>, e: Error)
    requires n < 128
    requires if |rest| < n then e == UnexpectedEnd else !IsUtf8(rest[..n]) && e == InvalidUtf8
    ensures HasFault(TString, [n] + rest, e)
  {
    hide IsUtf8;
    hide IsUleb;
    hide UlebFault;
    IndexIs(n, rest);
    var bs: seq<byte> := [n] + rest;
    if |rest| >= n {
      assert bs[1..1 + n] == rest[..n];
    }
    assert 0 <= 1 <= |bs| && IsUleb(32, n, bs[..1]);
  }

  lemma NoText()
    ensures DecodeWhole(TString, [0x01, 0xFF]) == Err(InvalidUtf8)
  {
    LoneByte();
    hide DecodeWhole;
    hide IsUtf8;
    hide HasFault;
    var rest: seq<byte> := [0xFF];
    assert rest[..1] == rest;
    TextFaultIs(1, rest, InvalidUtf8);
    assert [1] + rest == [0x01, 0xFF];
    RefusedIs(TString, [1] + rest, InvalidUtf8);
  }

  lemma LoneByte()
    ensures !IsUtf8([0xFF])
  {
    assert Utf8Decode([0xFF]).None?;
    Utf8DecodeIsUtf8([0xFF]);
  }

  lemma CutOff()
    ensures DecodeWhole(TString, [0x05, 0x68]) == Err(UnexpectedEnd)
  {
    hide DecodeWhole;
    hide HasFault;
    var rest: seq<byte> := [0x68];
    TextFaultIs(5, rest, UnexpectedEnd);
    assert [5] + rest == [0x05, 0x68];
    RefusedIs(TString, [5] + rest, UnexpectedEnd);
  }

  // ---------------------------------------------------------------------------
  // Framing
  // ---------------------------------------------------------------------------

  /** The length prefix is little-endian. */
  lemma LengthPrefix()
    ensures Le32(0x0403_0201) == [1, 2, 3, 4]
    ensures Lenbuf([0, 0x2A]) == [2, 0, 0, 0, 0, 0x2A]
  {
  }
}
