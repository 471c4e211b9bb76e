/**
 The two hand-written text validators, against the definitions of UTF-8
 (sections 3 and 4 of RFC 3629) and UTF-16 (section 2 of RFC 2781).
 */
module Unicode {
  import opened Bytes

  type unit16 = x: int | 0 <= x < 0x1_0000

  predicate IsScalar(cp: int) {
    0 <= cp <= 0x10FFFF && !(0xD800 <= cp <= 0xDFFF)
  }

  predicate Scalars(cps: seq<int>) {
    forall i :: 0 <= i < |cps| ==> IsScalar(cps[i])
  }

  function Utf8One(cp: int): seq<byte>
    requires IsScalar(cp)
  {
    if cp < 0x80 then [cp]
    else if cp < 0x800 then [0xC0 + cp / 64, 0x80 + cp % 64]
    else if cp < 0x1_0000 then [0xE0 + cp / 64 / 64, 0x80 + cp / 64 % 64, 0x80 + cp % 64]
    else [0xF0 + cp / 64 / 64 / 64, 0x80 + cp / 64 / 64 % 64, 0x80 + cp / 64 % 64, 0x80 + cp % 64]
  }

  function Utf8Encode(cps: seq<int>): seq<byte>
    requires Scalars(cps)
  {
    if cps == [] then [] else Utf8One(cps[0]) + Utf8Encode(cps[1..])
  }

  /** The byte strings that are UTF-8: concatenations of encoded scalar values. */
  ghost predicate IsUtf8(bs: seq<byte>) {
    exists cps :: Scalars(cps) && Utf8Encode(cps) == bs
  }

  function Utf16One(cp: int): seq<unit16>
    requires IsScalar(cp)
  {
    if cp < 0x1_0000 then [cp]
    else [0xD800 + (cp - 0x1_0000) / 1024, 0xDC00 + (cp - 0x1_0000) % 1024]
  }

  function Utf16Encode(cps: seq<int>): seq<unit16>
    requires Scalars(cps)
  {
    if cps == [] then [] else Utf16One(cps[0]) + Utf16Encode(cps[1..])
  }

  ghost predicate IsUtf16(s: seq<unit16>) {
    exists cps :: Scalars(cps) && Utf16Encode(cps) == s
  }

  // ---------------------------------------------------------------------------
  // One scalar at the head of a byte string
  // ---------------------------------------------------------------------------

  predicate Continuation(b: byte) {
    b / 64 == 2
  }

  /** Length, payload bits and least scalar announced by a lead byte. */
  function Lead(c: byte): Option<(nat, nat, nat)> {
    if c < 0x80 then Some((1, c, 0))
    else if c / 32 == 6 then Some((2, c % 32, 0x80))
    else if c / 16 == 14 then Some((3, c % 16, 0x800))
    else if c / 8 == 30 then Some((4, c % 8, 0x1_0000))
    else None
  }

  /** The scalar whose bytes are the `len` first ones of `bs`, without any range check. */
  function RawScalar(bs: seq<byte>, len: nat, payload: nat): nat
    requires 1 <= len <= |bs|
  {
    if len == 1 then payload else RawScalar(bs, len - 1, payload) * 64 + bs[len - 1] % 64
  }

  function Utf8Head(bs: seq<byte>): Option<(int, nat)>
    requires bs != []
  {
    match Lead(bs[0])
    case None => None
    case Some((len, payload, least)) =>
      if len > |bs| || exists j :: 1 <= j < len && !Continuation(bs[j]) then None
      else
        var cp := RawScalar(bs, len, payload);
        if cp < least || !IsScalar(cp) then None else Some((cp, len))
  }

  function Utf8Decode(bs: seq<byte>): Option<seq<int>> {
    if bs == [] then Some([])
    else
      match Utf8Head(bs)
      case None => None
      case Some((cp, len)) =>
        if len == 0 then None
        else
          match Utf8Decode(bs[len..])
          case None => None
          case Some(rest) => Some([cp] + rest)
  }

  lemma Split64(q: nat, r: nat)
    requires r < 64
    ensures (q * 64 + r) / 64 == q && (q * 64 + r) % 64 == r
  {
  }

  /** Every continuation byte contributes one base-64 digit. */
  lemma RawScalarDigit(bs: seq<byte>, len: nat, payload: nat)
    requires 2 <= len <= |bs|
    ensures RawScalar(bs, len, payload) / 64 == RawScalar(bs, len - 1, payload)
    ensures RawScalar(bs, len, payload) % 64 == bs[len - 1] % 64
  {
    Split64(RawScalar(bs, len - 1, payload), bs[len - 1] % 64);
  }

  lemma RawScalarBytes(bs: seq<byte>, len: nat, payload: nat)
    requires 1 <= len <= 4 && len <= |bs|
    requires forall j :: 1 <= j < len ==> Continuation(bs[j])
    ensures var cp := RawScalar(bs, len, payload);
            && (len == 1 ==> cp == payload)
            && (len == 2 ==> cp / 64 == payload && 0x80 + cp % 64 == bs[1])
            && (len == 3 ==> cp / 64 / 64 == payload && 0x80 + cp / 64 % 64 == bs[1] && 0x80 + cp % 64 == bs[2])
            && (len == 4 ==> cp / 64 / 64 / 64 == payload && 0x80 + cp / 64 / 64 % 64 == bs[1] &&
                             0x80 + cp / 64 % 64 == bs[2] && 0x80 + cp % 64 == bs[3])
  {
    if len >= 2 { RawScalarDigit(bs, len, payload); assert Continuation(bs[len - 1]); }
    if len >= 3 { RawScalarDigit(bs, len - 1, payload); assert Continuation(bs[len - 2]); }
    if len == 4 { RawScalarDigit(bs, 2, payload); assert Continuation(bs[1]); }
  }

  lemma Utf8HeadSound(bs: seq<byte>)
    requires bs != [] && Utf8Head(bs).Some?
    ensures var (cp, len) := Utf8Head(bs).value;
            IsScalar(cp) && 1 <= len <= |bs| && Utf8One(cp) == bs[..len]
  {
    var (len, payload, least) := Lead(bs[0]).value;
    RawScalarBytes(bs, len, payload);
  }

  /** The lead byte announces the number of bytes and holds the top bits. */
  lemma Utf8OneLead(cp: int)
    requires IsScalar(cp)
    ensures var one := Utf8One(cp);
            && 1 <= |one| <= 4
            && Lead(one[0]) == Some((|one|,
                                     if |one| == 1 then cp else if |one| == 2 then cp / 64
                                     else if |one| == 3 then cp / 64 / 64 else cp / 64 / 64 / 64,
                                     if |one| == 1 then 0 else if |one| == 2 then 0x80
                                     else if |one| == 3 then 0x800 else 0x1_0000))
            && (|one| == 1 || (|one| == 2 && cp >= 0x80) || (|one| == 3 && cp >= 0x800) || cp >= 0x1_0000)
            && forall j :: 1 <= j < |one| ==> Continuation(one[j])
  {
  }

  lemma Digit(x: nat)
    ensures x / 64 * 64 + (0x80 + x % 64) % 64 == x
  {
  }

  lemma Utf8OneShape(cp: int)
    requires IsScalar(cp)
    ensures var one := Utf8One(cp);
            && 1 <= |one| <= 4
            && Lead(one[0]).Some?
            && Lead(one[0]).value.0 == |one|
            && Lead(one[0]).value.2 <= cp
            && (forall j :: 1 <= j < |one| ==> Continuation(one[j]))
            && RawScalar(one, |one|, Lead(one[0]).value.1) == cp
  {
    hide Lead;
    hide Continuation;
    Utf8OneLead(cp);
    var one := Utf8One(cp);
    var payload := Lead(one[0]).value.1;
    Digit(cp);
    Digit(cp / 64);
    Digit(cp / 64 / 64);
    assert RawScalar(one, 1, payload) == payload;
    if |one| >= 2 { assert RawScalar(one, 2, payload) == payload * 64 + one[1] % 64; }
    if |one| >= 3 { assert RawScalar(one, 3, payload) == RawScalar(one, 2, payload) * 64 + one[2] % 64; }
  }

  lemma {:induction false} RawScalarPrefix(bs: seq<byte>, cs: seq<byte>, len: nat, payload: nat)
    requires 1 <= len <= |bs| && bs <= cs
    ensures RawScalar(bs, len, payload) == RawScalar(cs, len, payload)
  {
    if len > 1 {
      RawScalarPrefix(bs, cs, len - 1, payload);
    }
  }

  lemma Utf8HeadComplete(bs: seq<byte>, cp: int)
    requires IsScalar(cp) && Utf8One(cp) <= bs
    ensures bs != [] && Utf8Head(bs) == Some((cp, |Utf8One(cp)|))
  {
    var one := Utf8One(cp);
    Utf8OneShape(cp);
    RawScalarPrefix(one, bs, |one|, Lead(one[0]).value.1);
  }

  lemma Utf8EncodeCons(cp: int, cps: seq<int>)
    requires IsScalar(cp) && Scalars(cps)
    ensures Scalars([cp] + cps) && Utf8Encode([cp] + cps) == Utf8One(cp) + Utf8Encode(cps)
  {
    assert ([cp] + cps)[1..] == cps;
  }

  lemma {:induction false} Utf8DecodeSound(bs: seq<byte>)
    requires Utf8Decode(bs).Some?
    ensures Scalars(Utf8Decode(bs).value) && Utf8Encode(Utf8Decode(bs).value) == bs
    decreases |bs|
  {
    hide Utf8Head;
    hide Utf8One;
    if bs != [] {
      var (cp, len) := Utf8Head(bs).value;
      Utf8HeadSound(bs);
      Utf8DecodeSound(bs[len..]);
      Utf8EncodeCons(cp, Utf8Decode(bs[len..]).value);
      assert bs[..len] + bs[len..] == bs;
    }
  }

  lemma {:induction false} Utf8DecodeComplete(bs: seq<byte>, cps: seq<int>)
    requires Scalars(cps) && Utf8Encode(cps) == bs
    ensures Utf8Decode(bs) == Some(cps)
    decreases |cps|
  {
    if cps != [] {
      Utf8HeadComplete(bs, cps[0]);
      var len := |Utf8One(cps[0])|;
      assert bs[len..] == Utf8Encode(cps[1..]);
      Utf8DecodeComplete(bs[len..], cps[1..]);
      assert [cps[0]] + cps[1..] == cps;
    }
  }

  lemma Utf8DecodeExact(bs: seq<byte>, cps: seq<int>)
    ensures Utf8Decode(bs) == Some(cps) <==> Scalars(cps) && Utf8Encode(cps) == bs
  {
    if Utf8Decode(bs).Some? {
      Utf8DecodeSound(bs);
    }
    if Scalars(cps) && Utf8Encode(cps) == bs {
      Utf8DecodeComplete(bs, cps);
    }
  }

  lemma Utf8DecodeIsUtf8(bs: seq<byte>)
    ensures IsUtf8(bs) <==> Utf8Decode(bs).Some?
  {
    if Utf8Decode(bs).Some? {
      Utf8DecodeExact(bs, Utf8Decode(bs).value);
    }
    if IsUtf8(bs) {
      var cps :| Scalars(cps) && Utf8Encode(cps) == bs;
      Utf8DecodeExact(bs, cps);
    }
  }

  /** `i` splits `p` into scalars already accepted and a rest that decides. */
  ghost predicate Decides(p: seq<byte>, i: nat) {
    i <= |p| && (IsUtf8(p) <==> IsUtf8(p[i..]))
  }

  lemma HeadAccepted(p: seq<byte>, i: nat, len: nat, payload: nat, least: nat)
    requires i < |p| && Decides(p, i) && Lead(p[i]) == Some((len, payload, least))
    requires 1 <= len <= |p| - i && forall j :: 1 <= j < len ==> Continuation(p[i..][j])
    requires var cp := RawScalar(p[i..], len, payload); cp >= least && IsScalar(cp)
    ensures Decides(p, i + len)
  {
    var rest := p[i..];
    assert Utf8Head(rest) == Some((RawScalar(rest, len, payload), len));
    assert rest[len..] == p[i + len..];
    Utf8DecodeIsUtf8(rest);
    Utf8DecodeIsUtf8(rest[len..]);
  }

  lemma EmptyUtf8()
    ensures IsUtf8([])
  {
    Utf8DecodeIsUtf8([]);
  }

  lemma NoLead(p: seq<byte>, i: nat)
    requires i < |p| && Decides(p, i) && Lead(p[i]) == None
    ensures !IsUtf8(p)
  {
    Utf8DecodeIsUtf8(p[i..]);
  }

  lemma BadContinuation(p: seq<byte>, i: nat, len: nat, payload: nat, least: nat, j: nat)
    requires i < |p| && Decides(p, i) && Lead(p[i]) == Some((len, payload, least))
    requires 1 <= j < len && (len > |p| - i || !Continuation(p[i..][j]))
    ensures !IsUtf8(p)
  {
    Utf8DecodeIsUtf8(p[i..]);
  }

  lemma BadScalar(p: seq<byte>, i: nat, len: nat, payload: nat, least: nat)
    requires i < |p| && Decides(p, i) && Lead(p[i]) == Some((len, payload, least))
    requires 1 <= len <= |p| - i
    requires var cp := RawScalar(p[i..], len, payload); cp < least || !IsScalar(cp)
    ensures !IsUtf8(p)
  {
    Utf8DecodeIsUtf8(p[i..]);
  }

  lemma DecidesStart(p: seq<byte>)
    ensures Decides(p, 0)
  {
    hide IsUtf8;
    assert p[0..] == p;
  }

  lemma DecidesEnd(p: seq<byte>)
    requires Decides(p, |p|)
    ensures IsUtf8(p)
  {
    EmptyUtf8();
  }

  lemma RawStart(bs: seq<byte>, payload: nat)
    requires bs != []
    ensures RawScalar(bs, 1, payload) == payload
  {
  }

  lemma RawStep(bs: seq<byte>, j: nat, payload: nat)
    requires 1 <= j < |bs|
    ensures RawScalar(bs, j + 1, payload) == RawScalar(bs, j, payload) * 64 + bs[j] % 64
  {
  }

  lemma LeadOf(c: byte)
    ensures c < 0x80 ==> Lead(c) == Some((1, c as nat, 0))
    ensures c / 32 == 6 ==> Lead(c) == Some((2, c % 32, 0x80))
    ensures c / 16 == 14 ==> Lead(c) == Some((3, c % 16, 0x800))
    ensures c / 8 == 30 ==> Lead(c) == Some((4, c % 8, 0x1_0000))
    ensures c >= 0x80 && c / 32 != 6 && c / 16 != 14 && c / 8 != 30 ==> Lead(c) == None
  {
  }

  /** The validator shared by the C++ and AssemblyScript runtimes accepts exactly UTF-8. */
  method Utf8Valid(p: seq<byte>) returns (ok: bool)
    ensures ok <==> IsUtf8(p)
  {
    hide Utf8Decode;
    hide IsUtf8;
    hide Decides;
    hide Lead;
    hide RawScalar;
    var i := 0;
    DecidesStart(p);
    while i < |p|
      invariant i <= |p| && Decides(p, i)
    {
      ghost var rest := p[i..];
      var c := p[i];
      LeadOf(c);
      if c < 0x80 {
        RawStart(rest, c);
        HeadAccepted(p, i, 1, c, 0);
        i := i + 1;
        continue;
      }
      var len: nat, cp: nat, least: nat;
      if c / 32 == 6 {
        len, cp, least := 2, c % 32, 0x80;
      } else if c / 16 == 14 {
        len, cp, least := 3, c % 16, 0x800;
      } else if c / 8 == 30 {
        len, cp, least := 4, c % 8, 0x1_0000;
      } else {
        NoLead(p, i);
        return false;
      }
      ghost var payload := cp;
      assert Lead(c) == Some((len, payload, least));
      if i + len > |p| {
        BadContinuation(p, i, len, payload, least, 1);
        return false;
      }
      var j := 1;
      RawStart(rest, payload);
      while j < len
        invariant 1 <= j <= len
        invariant cp == RawScalar(rest, j, payload)
        invariant forall k :: 1 <= k < j ==> Continuation(rest[k])
      {
        var cc := p[i + j];
        assert cc == rest[j];
        if cc / 64 != 2 {
          BadContinuation(p, i, len, payload, least, j);
          return false;
        }
        RawStep(rest, j, payload);
        cp := cp * 64 + cc % 64;
        j := j + 1;
      }
      if cp < least || cp > 0x10FFFF || 0xD800 <= cp <= 0xDFFF {
        BadScalar(p, i, len, payload, least);
        return false;
      }
      HeadAccepted(p, i, len, payload, least);
      i := i + len;
    }
    DecidesEnd(p);
    ok := true;
  }

  // ---------------------------------------------------------------------------
  // UTF-16
  // ---------------------------------------------------------------------------

  function Utf16Head(s: seq<unit16>): Option<(int, nat)>
    requires s != []
  {
    if 0xD800 <= s[0] <= 0xDBFF then
      if |s| < 2 || !(0xDC00 <= s[1] <= 0xDFFF) then None
      else Some((0x1_0000 + (s[0] as int - 0xD800) * 1024 + (s[1] as int - 0xDC00), 2))
    else if 0xDC00 <= s[0] <= 0xDFFF then None
    else Some((s[0], 1))
  }

  function Utf16Decode(s: seq<unit16>): Option<seq<int>> {
    if s == [] then Some([])
    else
      match Utf16Head(s)
      case None => None
      case Some((cp, len)) =>
        if len == 0 then None
        else
          match Utf16Decode(s[len..])
          case None => None
          case Some(rest) => Some([cp] + rest)
  }

  lemma Utf16HeadExact(s: seq<unit16>, cp: int)
    requires s != []
    ensures Utf16Head(s).Some? && Utf16Head(s).value.0 == cp ==>
              IsScalar(cp) && Utf16One(cp) <= s && Utf16Head(s).value.1 == |Utf16One(cp)|
    ensures IsScalar(cp) && Utf16One(cp) <= s ==> Utf16Head(s) == Some((cp, |Utf16One(cp)|))
  {
    if IsScalar(cp) && Utf16One(cp) <= s {
      assert forall j :: 0 <= j < |Utf16One(cp)| ==> s[j] == Utf16One(cp)[j];
    }
  }

  lemma Utf16EncodeCons(cp: int, cps: seq<int>)
    requires IsScalar(cp) && Scalars(cps)
    ensures Scalars([cp] + cps) && Utf16Encode([cp] + cps) == Utf16One(cp) + Utf16Encode(cps)
  {
    assert ([cp] + cps)[1..] == cps;
  }

  lemma {:induction false} Utf16DecodeSound(s: seq<unit16>)
    requires Utf16Decode(s).Some?
    ensures Scalars(Utf16Decode(s).value) && Utf16Encode(Utf16Decode(s).value) == s
    decreases |s|
  {
    hide Utf16Head;
    hide Utf16One;
    if s != [] {
      var (cp, len) := Utf16Head(s).value;
      Utf16HeadExact(s, cp);
      Utf16DecodeSound(s[len..]);
      Utf16EncodeCons(cp, Utf16Decode(s[len..]).value);
      assert s[..len] + s[len..] == s;
    }
  }

  lemma {:induction false} Utf16DecodeComplete(s: seq<unit16>, cps: seq<int>)
    requires Scalars(cps) && Utf16Encode(cps) == s
    ensures Utf16Decode(s) == Some(cps)
    decreases |cps|
  {
    if cps != [] {
      Utf16HeadExact(s, cps[0]);
      var len := |Utf16One(cps[0])|;
      assert s[len..] == Utf16Encode(cps[1..]);
      Utf16DecodeComplete(s[len..], cps[1..]);
      assert [cps[0]] + cps[1..] == cps;
    }
  }

  lemma Utf16DecodeExact(s: seq<unit16>, cps: seq<int>)
    ensures Utf16Decode(s) == Some(cps) <==> Scalars(cps) && Utf16Encode(cps) == s
  {
    if Utf16Decode(s).Some? {
      Utf16DecodeSound(s);
    }
    if Scalars(cps) && Utf16Encode(cps) == s {
      Utf16DecodeComplete(s, cps);
    }
  }

  lemma Utf16DecodeIsUtf16(s: seq<unit16>)
    ensures IsUtf16(s) <==> Utf16Decode(s).Some?
  {
    if Utf16Decode(s).Some? {
      Utf16DecodeExact(s, Utf16Decode(s).value);
    }
    if IsUtf16(s) {
      var cps :| Scalars(cps) && Utf16Encode(cps) == s;
      Utf16DecodeExact(s, cps);
    }
  }

  /** The surrogate check of the AssemblyScript runtime accepts exactly UTF-16. */
  method Utf16Wellformed(s: seq<unit16>) returns (ok: bool)
    ensures ok <==> IsUtf16(s)
  {
    Utf16DecodeIsUtf16(s);
    var i := 0;
    while i < |s|
      invariant 0 <= i <= |s|
      invariant Utf16Decode(s).Some? <==> Utf16Decode(s[i..]).Some?
    {
      ghost var rest := s[i..];
      var c := s[i];
      if 0xD800 <= c <= 0xDBFF {
        if i + 1 >= |s| {
          return false;
        }
        var c2 := s[i + 1];
        assert c2 == rest[1];
        if c2 < 0xDC00 || c2 > 0xDFFF {
          return false;
        }
        assert rest[2..] == s[i + 2..];
        i := i + 1;
      } else if 0xDC00 <= c <= 0xDFFF {
        return false;
      } else {
        assert rest[1..] == s[i + 1..];
      }
      i := i + 1;
    }
    ok := true;
  }

  // ---------------------------------------------------------------------------
  // Conversion between the two forms (the AssemblyScript library's, taken as its
  // specification)
  // ---------------------------------------------------------------------------

  function Utf16ToUtf8(s: seq<unit16>): Option<seq<byte>> {
    match Utf16Decode(s)
    case None => None
    case Some(cps) => Utf16DecodeExact(s, cps); Some(Utf8Encode(cps))
  }

  function Utf8ToUtf16(bs: seq<byte>): Option<seq<unit16>> {
    match Utf8Decode(bs)
    case None => None
    case Some(cps) => Utf8DecodeExact(bs, cps); Some(Utf16Encode(cps))
  }

  /** Conversion loses nothing, in either direction. */
  lemma ConversionInverse(s: seq<unit16>, bs: seq<byte>)
    ensures Utf16ToUtf8(s) == Some(bs) <==> Utf8ToUtf16(bs) == Some(s)
  {
    if Utf16ToUtf8(s) == Some(bs) {
      var cps := Utf16Decode(s).value;
      Utf16DecodeExact(s, cps);
      Utf8DecodeExact(bs, cps);
    }
    if Utf8ToUtf16(bs) == Some(s) {
      var cps := Utf8Decode(bs).value;
      Utf8DecodeExact(bs, cps);
      Utf16DecodeExact(s, cps);
    }
  }

  // ---------------------------------------------------------------------------
  // Texts put together
  // ---------------------------------------------------------------------------

  lemma PlainIsUtf8(bs: seq<byte>)
    requires forall i :: 0 <= i < |bs| ==> bs[i] < 128
    ensures IsUtf8(bs)
  {
    PlainEncodes(bs);
  }

  lemma {:induction false} PlainEncodes(bs: seq<byte>)
    requires forall i :: 0 <= i < |bs| ==> bs[i] < 128
    ensures Scalars(bs) && Utf8Encode(bs) == bs
  {
    if bs != [] {
      PlainEncodes(bs[1..]);
      assert [bs[0]] + bs[1..] == bs;
    }
  }

  lemma {:induction false} Utf8Concat(a: seq<int>, b: seq<int>)
    requires Scalars(a) && Scalars(b)
    ensures Scalars(a + b) && Utf8Encode(a + b) == Utf8Encode(a) + Utf8Encode(b)
  {
    if a == [] {
      assert a + b == b;
    } else {
      assert (a + b)[1..] == a[1..] + b;
      Utf8Concat(a[1..], b);
    }
  }

  lemma TextsJoin(a: seq<byte>, b: seq<byte>)
    requires IsUtf8(a) && IsUtf8(b)
    ensures IsUtf8(a + b)
  {
    var x :| Scalars(x) && Utf8Encode(x) == a;
    var y :| Scalars(y) && Utf8Encode(y) == b;
    Utf8Concat(x, y);
  }

  /** A scalar does not reach over an ASCII byte. */
  lemma HeadInside(a: seq<byte>, c: byte, b: seq<byte>)
    requires a != [] && c < 128
    ensures Utf8Head(a + [c] + b) == Utf8Head(a)
  {
    var whole := a + [c] + b;
    if Lead(a[0]).Some? {
      var (len, payload, _) := Lead(a[0]).value;
      if len > |a| {
        assert !Continuation(whole[|a|]);
      } else {
        assert a <= whole;
        RawScalarPrefix(a, whole, len, payload);
      }
    }
  }

  /** A text is cut at an ASCII byte into two texts. */
  lemma {:induction false} AsciiSplit(a: seq<byte>, c: byte, b: seq<byte>)
    requires c < 128
    ensures IsUtf8(a + [c] + b) <==> IsUtf8(a) && IsUtf8(b)
    decreases |a|
  {
    hide IsUtf8;
    hide Utf8Head;
    var whole := a + [c] + b;
    Utf8DecodeIsUtf8(whole);
    Utf8DecodeIsUtf8(a);
    Utf8DecodeIsUtf8(b);
    if a == [] {
      AsciiHead(c, b);
      assert whole == [c] + b && whole[1..] == b;
    } else {
      HeadInside(a, c, b);
      if Utf8Head(a).Some? {
        var (_, len) := Utf8Head(a).value;
        Utf8HeadSound(a);
        assert whole[len..] == a[len..] + [c] + b;
        Utf8DecodeIsUtf8(whole[len..]);
        Utf8DecodeIsUtf8(a[len..]);
        AsciiSplit(a[len..], c, b);
      }
    }
  }

  lemma AsciiHead(c: byte, b: seq<byte>)
    requires c < 128
    ensures Utf8Head([c] + b) == Some((c, 1))
  {
  }

  /** The same for any ASCII text between the two. */
  lemma {:induction false} AsciiBetween(a: seq<byte>, m: seq<byte>, b: seq<byte>)
    requires m != [] && forall i :: 0 <= i < |m| ==> m[i] < 128
    ensures IsUtf8(a + m + b) <==> IsUtf8(a) && IsUtf8(b)
    decreases |m|
  {
    hide IsUtf8;
    if |m| == 1 {
      assert m == [m[0]];
      AsciiSplit(a, m[0], b);
    } else {
      assert a + m + b == a + [m[0]] + (m[1..] + b);
      AsciiSplit(a, m[0], m[1..] + b);
      AsciiBetween([], m[1..], b);
      assert [] + m[1..] + b == m[1..] + b;
      EmptyUtf8();
    }
  }
}
