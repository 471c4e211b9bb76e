/**
 The AssemblyScript runtime objects: the growing byte sink and the decoder that
 keeps its first error.
 */
module AsRuntime {
  import opened Bytes
  import opened Leb128
  import opened Unicode
  import opened Wire
  import opened Codec
  import opened AsNative
  import opened AsNativeTheorems

  // ---------------------------------------------------------------------------
  // Sink
  // ---------------------------------------------------------------------------

  /** The contents a 32-bit signed capacity can double up to. */
  const MAX_CONTENTS: nat := 0x4000_0000

  /** A byte buffer with spare room behind the first `len` bytes. */
  class Sink {
    var data: array<byte>
    var len: nat
    var err: bool

    ghost predicate Valid()
      reads this
    {
      len <= data.Length && 64 <= data.Length < 0x8000_0000
    }

    ghost function Contents(): (bs: seq<byte>)
      requires Valid()
      reads this, data
    {
      data[..len]
    }

    constructor ()
      ensures Valid() && fresh(data) && Contents() == [] && !err
    {
      data := new byte[64](_ => 0);
      len := 0;
      err := false;
    }

    /** Room for `extra` more bytes: the capacity doubles, never past the 32-bit range. */
    method Ensure(extra: nat)
      requires Valid() && len + extra <= MAX_CONTENTS
      modifies this`data
      ensures Valid() && Contents() == old(Contents()) && len + extra <= data.Length
      ensures data == old(data) || fresh(data)
    {
      var need := len + extra;
      if need <= data.Length {
        return;
      }
      var cap := data.Length;
      while cap < need
        invariant data.Length <= cap < 0x8000_0000
        invariant cap < 2 * need
        decreases need - cap
      {
        cap := cap * 2;
      }
      var grown := new byte[cap](_ => 0);
      for i := 0 to len
        invariant Valid() && len == old(len) && data == old(data) && Contents() == old(Contents())
        invariant fresh(grown) && grown[..i] == Contents()[..i]
      {
        grown[i] := data[i];
      }
      data := grown;
    }

    method Byte(b: byte)
      requires Valid() && len + 1 <= MAX_CONTENTS
      modifies this, data
      ensures Valid() && Contents() == old(Contents()) + [b] && err == old(err)
      ensures data == old(data) || fresh(data)
    {
      Ensure(1);
      data[len] := b;
      len := len + 1;
      assert data[..len] == data[..len - 1] + [b];
    }

    method Raw(bs: seq<byte>)
      requires Valid() && len + |bs| <= MAX_CONTENTS
      modifies this, data
      ensures Valid() && Contents() == old(Contents()) + bs && err == old(err)
      ensures data == old(data) || fresh(data)
    {
      ghost var before := Contents();
      Ensure(|bs|);
      for i := 0 to |bs|
        invariant Valid() && len == old(len) && err == old(err) && len + |bs| <= data.Length
        invariant data == old(data) || fresh(data)
        invariant data[..len] == before && data[len..len + i] == bs[..i]
      {
        data[len + i] := bs[i];
      }
      assert data[..len + |bs|] == data[..len] + data[len..len + |bs|];
      len := len + |bs|;
    }

    method PutUleb(n: nat)
      requires Valid() && len + |Uleb(n)| <= MAX_CONTENTS
      modifies this, data
      ensures Valid() && Contents() == old(Contents()) + Uleb(n) && err == old(err)
      ensures data == old(data) || fresh(data)
    {
      var v := n;
      while true
        invariant Valid() && err == old(err) && len + |Uleb(v)| <= MAX_CONTENTS
        invariant data == old(data) || fresh(data)
        invariant Contents() + Uleb(v) == old(Contents()) + Uleb(n)
        decreases v
      {
        var b := v % 128;
        v := v / 128;
        if v == 0 {
          Byte(b);
          return;
        }
        Byte(b + 128);
      }
    }

    method PutSleb(n: int)
      requires Valid() && len + |Sleb(n)| <= MAX_CONTENTS
      modifies this, data
      ensures Valid() && Contents() == old(Contents()) + Sleb(n) && err == old(err)
      ensures data == old(data) || fresh(data)
    {
      var v := n;
      while true
        invariant Valid() && err == old(err) && len + |Sleb(v)| <= MAX_CONTENTS
        invariant data == old(data) || fresh(data)
        invariant Contents() + Sleb(v) == old(Contents()) + Sleb(n)
        decreases if v < 0 then -v else v + 1
      {
        var b := v % 128;
        v := v / 128;
        var sign := b >= 64;
        if (v == 0 && !sign) || (v == -1 && sign) {
          Byte(b);
          return;
        }
        Byte(b + 128);
      }
    }

    /** Nothing is written after an error, nor for a string without a UTF-8 form. */
    method PutString(s: seq<unit16>)
      requires Valid() && |s| < MAX_UNITS && len + 5 + 3 * |s| <= MAX_CONTENTS
      modifies this, data
      ensures Valid() && (data == old(data) || fresh(data))
      ensures err == (old(err) || Utf16ToUtf8(s).None?)
      ensures Contents() == old(Contents()) + if err then [] else Uleb(|Utf16ToUtf8(s).value|) + Utf16ToUtf8(s).value
    {
      hide Utf16ToUtf8;
      hide Pow2;
      if err {
        return;
      }
      var wellFormed := Utf16Wellformed(s);
      Utf16FormIsUtf8(s);
      if !wellFormed {
        err := true;
        return;
      }
      var bytes := Utf16ToUtf8(s).value;
      StringLengths(s, bytes);
      Pow2Sizes();
      HeaderShort(|bytes|);
      PutUleb(|bytes|);
      Raw(bytes);
    }

    /** Zero bytes first, then every set flag is or-ed into its byte in place. */
    method PutFlags(bits: seq<bool>)
      requires Valid() && len + (|bits| + 7) / 8 <= MAX_CONTENTS
      modifies this, data
      ensures Valid() && Contents() == old(Contents()) + Pack(bits) && err == old(err)
      ensures data == old(data) || fresh(data)
    {
      hide Pack;
      var count := (|bits| + 7) / 8;
      var start := len;
      ghost var before := Contents();
      for i := 0 to count
        invariant Valid() && err == old(err) && len == start + i
        invariant data == old(data) || fresh(data)
        invariant Contents() == before + seq(i, _ => 0)
      {
        Byte(0);
        assert seq(i + 1, _ => 0) == seq(i, _ => 0 as byte) + [0];
      }
      assert forall j :: start <= j < len ==> Contents()[j] == 0;
      OrFlags(start, bits);
    }

    method OrFlags(start: nat, bits: seq<bool>)
      requires Valid() && len == start + (|bits| + 7) / 8
      requires forall j :: start <= j < len ==> data[j] == 0
      modifies data
      ensures Contents() == old(Contents()[..start]) + Pack(bits)
    {
      hide ByteOf;
      hide Pack;
      hide OrBit;
      hide Chunk;
      var count := len - start;
      NothingSet(bits);
      for i := 0 to |bits|
        invariant data[..start] == old(data[..start])
        invariant forall j :: 0 <= j < count ==> data[start + j] == ByteOf(Chunk(bits[..i], j))
      {
        ghost var was := data[..];
        ghost var done := bits[..i + 1];
        ChunkAppend(bits, i, i / 8);
        ByteOfAppend(Chunk(bits[..i], i / 8), bits[i]);
        ByteOfBound(Chunk(bits[..i], i / 8) + [bits[i]]);
        if bits[i] {
          var at := start + i / 8;
          data[at] := OrBit(data[at], i % 8);
        }
        forall j | 0 <= j < count ensures data[start + j] == ByteOf(Chunk(done, j)) {
          assert j != i / 8 ==> data[start + j] == was[start + j];
          ChunkAppend(bits, i, j);
        }
      }
      assert bits[..|bits|] == bits;
      PackLengthIs(bits);
      forall j | 0 <= j < count ensures data[start + j] == Pack(bits)[j] {
        PackAt(bits, j);
      }
      assert data[start..len] == Pack(bits);
      assert data[..len] == data[..start] + data[start..len];
    }
  }

  lemma Utf16FormIsUtf8(s: seq<unit16>)
    ensures IsUtf16(s) <==> Utf16ToUtf8(s).Some?
  {
    Utf16DecodeIsUtf16(s);
  }

  lemma HeaderShort(n: nat)
    requires n < 0x1_0000_0000
    ensures |Uleb(n)| <= 5
  {
    Pow2Sizes();
    hide Pow2;
    UlebIsUleb(32, n);
  }

  lemma PackLengthIs(bits: seq<bool>)
    ensures |Pack(bits)| == (|bits| + 7) / 8
  {
    if bits != [] {
      PackAt(bits, 0);
    }
  }

  // ---------------------------------------------------------------------------
  // Decoder
  // ---------------------------------------------------------------------------

  /**
   A call did what the short-circuiting specification does: on success it returns the
   value and moves the cursor, on failure it keeps the error and returns the zero
   value. Once an error is kept, a call changes nothing and returns the zero value.
   */
  ghost predicate Sticks<T(!new)>(wasErr: Option<Error>, wasPos: nat, r: T, err: Option<Error>, pos: nat,
                                  step: Step<T>, zero: T)
  {
    if wasErr.Some? then r == zero && err == wasErr && pos == wasPos
    else if step.Ok? then r == step.value && err == None && pos == step.pos
    else r == zero && err == Some(step.error)
  }

  ghost function DecText(buf: seq<byte>, pos: nat): Step<seq<unit16>> {
    match DecString(buf, pos)
    case Err(e) => Err(e)
    case Ok(bs, p) => match Utf8ToUtf16(bs) case None => Err(InvalidUtf8) case Some(units) => Ok(units, p)
  }

  ghost function DecIndex(what: bool, n: nat, buf: seq<byte>, pos: nat): Step<nat> {
    if what then DecEnum(n, buf, pos) else DecCase(n, buf, pos)
  }

  /** A cursor whose methods do nothing once `err` is set. */
  class Decoder {
    const buf: seq<byte>
    var pos: nat
    var err: Option<Error>

    ghost predicate Valid()
      reads this
    {
      pos <= |buf|
    }

    constructor (buf: seq<byte>)
      ensures Valid() && this.buf == buf && pos == 0 && err == None
    {
      this.buf := buf;
      pos := 0;
      err := None;
    }

    method ByteRead() returns (b: byte)
      requires Valid() && err.None?
      modifies this
      ensures Valid() && Sticks(None, old(pos), b, err, pos, DecByte(buf, old(pos)), 0)
    {
      if pos >= |buf| {
        err := Some(UnexpectedEnd);
        return 0;
      }
      b := buf[pos];
      pos := pos + 1;
    }

    method UlebBits(bits: nat) returns (r: nat)
      requires Valid() && bits <= 64
      modifies this
      ensures Valid() && Sticks(old(err), old(pos), r, err, pos, DecUleb(bits, buf, old(pos)), 0)
    {
      hide DecUlebFrom;
      hide Pow2;
      hide Reading;
      hide ShiftLeft;
      if err.Some? {
        return 0;
      }
      ghost var all := DecUleb(bits, buf, pos);
      ReadingStart(all);
      var maxBytes := (bits + 6) / 7;
      var result, shift := 0, 0;
      for i := 0 to maxBytes
        invariant Valid() && err.None? && shift == 7 * i && 0 <= result < Pow2(shift)
        invariant Reading(result, i, DecUlebFrom(bits, buf, pos, i), all)
      {
        UlebByte(bits, buf, pos, i, result, all);
        var b := ByteRead();
        if err.Some? {
          return 0;
        }
        var payload := b % 128;
        if shift + 7 > bits && payload / Pow2(bits - shift) != 0 {
          err := Some(UlebOverflow);
          return 0;
        }
        if shift + 7 > bits {
          PayloadFits(payload, bits - shift);
        }
        NoCarry(bits, shift, result, payload);
        result := Or(result, ShiftLeft(payload, shift));
        if b < 128 {
          return result;
        }
        shift := shift + 7;
      }
      UlebByte(bits, buf, pos, maxBytes, result, all);
      err := Some(UlebTooLong);
      return 0;
    }

    method SlebBits(bits: nat) returns (r: int)
      requires Valid() && 1 <= bits <= 64
      modifies this
      ensures Valid() && Sticks(old(err), old(pos), r, err, pos, DecSleb(bits, buf, old(pos)), 0)
    {
      hide DecSlebFrom;
      hide Pow2;
      hide Reading;
      hide ShiftLeft;
      if err.Some? {
        return 0;
      }
      ghost var all := DecSlebFrom(bits, buf, pos, 0);
      ReadingStart(all);
      var maxBytes := (bits + 6) / 7;
      var result: int, shift := 0, 0;
      for i := 0 to maxBytes
        invariant Valid() && err.None? && shift == 7 * i && 0 <= result < Pow2(shift)
        invariant Reading(result, i, DecSlebFrom(bits, buf, pos, i), all)
      {
        SlebByte(bits, buf, pos, i, result, all);
        var b := ByteRead();
        if err.Some? {
          return 0;
        }
        if shift == 63 {
          if b != 0 && b != 127 {
            err := Some(SlebOverflow);
            return 0;
          }
          return if b % 2 == 1 then result - Pow2(63) else result;
        }
        NoCarry(64, shift, result, b % 128);
        result := Or(result, ShiftLeft(b % 128, shift));
        shift := shift + 7;
        if b < 128 {
          if shift < 64 && b >= 64 {
            result := result - Pow2(shift);
          }
          if bits < 64 {
            var bound: int := Pow2(bits - 1);
            if result < -bound || result > bound - 1 {
              err := Some(SlebOverflow);
              return 0;
            }
          }
          return result;
        }
      }
      SlebByte(bits, buf, pos, maxBytes, result, all);
      err := Some(SlebTooLong);
      return 0;
    }

    method PrefixBit(what: string) returns (r: bool)
      requires Valid()
      modifies this
      ensures Valid() && Sticks(old(err), old(pos), r, err, pos, DecBit(what, buf, old(pos)), false)
    {
      if err.Some? {
        return false;
      }
      var b := ByteRead();
      if err.Some? {
        return false;
      }
      if b == 0 {
        return false;
      }
      if b == 1 {
        return true;
      }
      err := Some(InvalidPrefix(what, b));
      return false;
    }

    /** The bytes of a float, which are all zero after an error. */
    method Float(double: bool) returns (raw: seq<byte>)
      requires Valid()
      modifies this
      ensures Valid()
      ensures Sticks(old(err), old(pos), raw, err, pos, DecBytes(FloatSize(double), buf, old(pos)),
                     PrimDefault(TFloat(double)).raw)
    {
      var size := FloatSize(double);
      raw := PrimDefault(TFloat(double)).raw;
      if err.Some? {
        return;
      }
      if |buf| - pos < size {
        err := Some(UnexpectedEnd);
        return;
      }
      raw := buf[pos..pos + size];
      pos := pos + size;
    }

    method Char() returns (r: nat)
      requires Valid()
      modifies this
      ensures Valid() && Sticks(old(err), old(pos), r, err, pos, DecChar(buf, old(pos)), 0)
    {
      hide DecUleb;
      if err.Some? {
        return 0;
      }
      var v := UlebBits(21);
      if err.Some? {
        return 0;
      }
      if v > 0x10ffff || 0xd800 <= v <= 0xdfff {
        err := Some(InvalidChar(v));
        return 0;
      }
      return v;
    }

    method Text() returns (s: seq<unit16>)
      requires Valid()
      modifies this
      ensures Valid() && Sticks(old(err), old(pos), s, err, pos, DecText(buf, old(pos)), [])
    {
      hide DecUleb;
      hide IsUtf8;
      hide Utf8ToUtf16;
      if err.Some? {
        return [];
      }
      var n := UlebBits(32);
      if err.Some? {
        return [];
      }
      if |buf| - pos < n {
        err := Some(UnexpectedEnd);
        return [];
      }
      var bytes := buf[pos..pos + n];
      var valid := Utf8Valid(bytes);
      if !valid {
        err := Some(InvalidUtf8);
        return [];
      }
      StringFaithful(bytes);
      s := Utf8ToUtf16(bytes).value;
      pos := pos + n;
    }

    method Index(isEnum: bool, count: nat) returns (r: nat)
      requires Valid()
      modifies this
      ensures Valid() && Sticks(old(err), old(pos), r, err, pos, DecIndex(isEnum, count, buf, old(pos)), 0)
    {
      hide DecUleb;
      if err.Some? {
        return 0;
      }
      var v := UlebBits(32);
      if err.Some? {
        return 0;
      }
      if v >= count {
        err := Some(if isEnum then EnumRange(v) else VariantRange(v));
        return 0;
      }
      return v;
    }

    method Flags(n: nat) returns (bits: seq<bool>)
      requires Valid()
      modifies this
      ensures Valid() && Sticks(old(err), old(pos), bits, err, pos, DecFlags(n, buf, old(pos)), [])
    {
      hide Unpack;
      if err.Some? {
        return [];
      }
      var count := (n + 7) / 8;
      if |buf| - pos < count {
        err := Some(UnexpectedEnd);
        return [];
      }
      ghost var bytes := buf[pos..pos + count];
      if n % 8 != 0 && buf[pos + count - 1] / Pow2(n % 8) != 0 {
        err := Some(FlagsUnused);
        return [];
      }
      bits := [];
      for i := 0 to n
        invariant pos == old(pos) && err.None?
        invariant |bits| == i && forall k :: 0 <= k < i ==> bits[k] == Unpack(bytes, n)[k]
      {
        UnpackAt(bytes, n, i);
        bits := bits + [BitSet(buf[pos + i / 8], i % 8)];
      }
      assert bits == Unpack(bytes, n);
      pos := pos + count;
    }

    /** Null (here: none) when the whole buffer was consumed. */
    method Finish(what: string) returns (e: Option<Error>)
      requires Valid()
      ensures e == if pos == |buf| then None else Some(Trailing(|buf| - pos, what))
    {
      var n := |buf| - pos;
      if n == 0 {
        return None;
      }
      return Some(Trailing(n, what));
    }

    method Perform(c: Get) returns (nv: Native)
      requires Valid() && Legal(c)
      modifies this
      ensures Valid() && Sticks(old(err), old(pos), nv, err, pos, Got(c, buf, old(pos)), Zero(c))
    {
      hide DecUleb;
      hide DecSleb;
      hide DecBit;
      hide DecBytes;
      hide DecChar;
      hide DecText;
      hide DecIndex;
      hide DecFlags;
      match c
      case GUleb(bits) =>
        var r := UlebBits(bits);
        return NNum(r);
      case GSleb(bits) =>
        var r := SlebBits(bits);
        return NNum(r);
      case GBit(what) =>
        var r := PrefixBit(what);
        return NBool(r);
      case GFloat(double) =>
        var r := Float(double);
        return NRaw(r);
      case GChar =>
        var r := Char();
        return NNum(r);
      case GText =>
        var r := Text();
        return NStr(r);
      case GIndex(isEnum, n) =>
        var r := Index(isEnum, n);
        return NNum(r);
      case GFlags(n) =>
        var r := Flags(n);
        return NBits(BitsToInt(r));
    }

    /**
     Any sequence of calls: the results up to the first failing call are those of the
     short-circuiting decoder, the rest are zero values, and the error is the first.
     */
    method PerformAll(cs: seq<Get>) returns (nvs: seq<Native>)
      requires Valid() && err.None? && forall i :: 0 <= i < |cs| ==> Legal(cs[i])
      modifies this
      ensures Valid()
      ensures var short := UntilError(cs, buf, old(pos));
              && err == short.error
              && (err.None? ==> pos == short.pos)
              && nvs == short.values + Zeros(cs[|short.values|..])
    {
      hide Got;
      hide Progress;
      hide UntilError;
      nvs := [];
      ghost var short := UntilError(cs, buf, pos);
      ProgressStart(cs, buf, pos);
      for i := 0 to |cs|
        invariant Valid() && Progress(cs, buf, short, i, nvs, err, pos)
      {
        ghost var at, was := pos, err;
        var nv := Perform(cs[i]);
        ProgressStep(cs, buf, short, i, nvs, was, at, nv, err, pos);
        nvs := nvs + [nv];
      }
      ProgressEnd(cs, buf, short, nvs, err, pos);
    }
  }

  // ---------------------------------------------------------------------------
  // Sequences of calls
  // ---------------------------------------------------------------------------

  datatype Get =
    | GUleb(bits: nat)
    | GSleb(bits: nat)
    | GBit(what: string)
    | GFloat(double: bool)
    | GChar
    | GText
    | GIndex(isEnum: bool, n: nat)
    | GFlags(n: nat)

  predicate Legal(c: Get) {
    (c.GUleb? ==> c.bits <= 64) && (c.GSleb? ==> 1 <= c.bits <= 64)
  }

  /** The specification of one call, its value as an object. */
  ghost function Got(c: Get, buf: seq<byte>, pos: nat): Step<Native>
    requires Legal(c)
  {
    match c
    case GUleb(bits) => (match DecUleb(bits, buf, pos) case Err(e) => Err(e) case Ok(n, p) => Ok(NNum(n), p))
    case GSleb(bits) => (match DecSleb(bits, buf, pos) case Err(e) => Err(e) case Ok(n, p) => Ok(NNum(n), p))
    case GBit(what) => (match DecBit(what, buf, pos) case Err(e) => Err(e) case Ok(b, p) => Ok(NBool(b), p))
    case GFloat(d) =>
      (match DecBytes(FloatSize(d), buf, pos) case Err(e) => Err(e) case Ok(raw, p) => Ok(NRaw(raw), p))
    case GChar => (match DecChar(buf, pos) case Err(e) => Err(e) case Ok(n, p) => Ok(NNum(n), p))
    case GText => (match DecText(buf, pos) case Err(e) => Err(e) case Ok(s, p) => Ok(NStr(s), p))
    case GIndex(isEnum, n) =>
      (match DecIndex(isEnum, n, buf, pos) case Err(e) => Err(e) case Ok(k, p) => Ok(NNum(k), p))
    case GFlags(n) =>
      (match DecFlags(n, buf, pos) case Err(e) => Err(e) case Ok(bits, p) => Ok(NBits(BitsToInt(bits)), p))
  }

  function Zero(c: Get): Native {
    match c
    case GBit(_) => NBool(false)
    case GFloat(d) => NRaw(PrimDefault(TFloat(d)).raw)
    case GText => NStr([])
    case GFlags(_) => NBits(0)
    case _ => NNum(0)
  }

  function Zeros(cs: seq<Get>): (nvs: seq<Native>)
    ensures |nvs| == |cs|
  {
    if cs == [] then [] else [Zero(cs[0])] + Zeros(cs[1..])
  }

  lemma {:induction false} ZerosAppend(cs: seq<Get>, c: Get)
    ensures Zeros(cs + [c]) == Zeros(cs) + [Zero(c)]
  {
    if cs != [] {
      assert (cs + [c])[1..] == cs[1..] + [c];
      ZerosAppend(cs[1..], c);
    } else {
      assert [c][1..] == [];
    }
  }

  /** The values before the first error, that error, and the cursor if there is none. */
  datatype Prefix = Prefix(values: seq<Native>, error: Option<Error>, pos: nat)

  ghost function UntilError(cs: seq<Get>, buf: seq<byte>, pos: nat): (p: Prefix)
    requires forall i :: 0 <= i < |cs| ==> Legal(cs[i])
    ensures |p.values| <= |cs| && (p.error.None? ==> |p.values| == |cs|)
  {
    if cs == [] then Prefix([], None, pos)
    else
      match Got(cs[0], buf, pos)
      case Err(e) => Prefix([], Some(e), pos)
      case Ok(nv, p) =>
        var rest := UntilError(cs[1..], buf, p);
        rest.(values := [nv] + rest.values)
  }

  /** After `i` calls: the rest is still to come, or everything since the first error is zero. */
  ghost predicate Progress(cs: seq<Get>, buf: seq<byte>, short: Prefix, i: nat, nvs: seq<Native>, err: Option<Error>,
                           pos: nat)
    requires i <= |cs| && forall k :: 0 <= k < |cs| ==> Legal(cs[k])
  {
    if err.None? then
      var rest := UntilError(cs[i..], buf, pos);
      short == rest.(values := nvs + rest.values) && |nvs| == i
    else
      err == short.error && |short.values| < i && nvs == short.values + Zeros(cs[|short.values|..i])
  }

  lemma ProgressStart(cs: seq<Get>, buf: seq<byte>, pos: nat)
    requires forall k :: 0 <= k < |cs| ==> Legal(cs[k])
    ensures Progress(cs, buf, UntilError(cs, buf, pos), 0, [], None, pos)
  {
    var short := UntilError(cs, buf, pos);
    assert cs[0..] == cs && [] + short.values == short.values;
  }

  lemma UntilErrorStep(cs: seq<Get>, buf: seq<byte>, i: nat, pos: nat)
    requires i < |cs| && forall k :: 0 <= k < |cs| ==> Legal(cs[k])
    ensures var step := Got(cs[i], buf, pos);
            UntilError(cs[i..], buf, pos) ==
            if step.Err? then Prefix([], Some(step.error), pos)
            else var rest := UntilError(cs[i + 1..], buf, step.pos); rest.(values := [step.value] + rest.values)
  {
    hide Got;
    assert cs[i..][0] == cs[i] && cs[i..][1..] == cs[i + 1..];
  }

  lemma ProgressStep(cs: seq<Get>, buf: seq<byte>, short: Prefix, i: nat, nvs: seq<Native>, was: Option<Error>, at: nat,
                     nv: Native, err: Option<Error>, pos: nat)
    requires i < |cs| && forall k :: 0 <= k < |cs| ==> Legal(cs[k])
    requires Progress(cs, buf, short, i, nvs, was, at)
    requires Sticks(was, at, nv, err, pos, Got(cs[i], buf, at), Zero(cs[i]))
    ensures Progress(cs, buf, short, i + 1, nvs + [nv], err, pos)
  {
    hide Got;
    hide UntilError;
    UntilErrorStep(cs, buf, i, at);
    if was.Some? {
      var n := |short.values|;
      assert cs[n..i + 1] == cs[n..i] + [cs[i]];
      ZerosAppend(cs[n..i], cs[i]);
    } else if err.Some? {
      assert short.values == nvs + [] == nvs;
      assert cs[i..i + 1] == [cs[i]];
    } else {
      var rest := UntilError(cs[i + 1..], buf, pos);
      assert nvs + ([nv] + rest.values) == nvs + [nv] + rest.values;
    }
  }

  lemma ProgressEnd(cs: seq<Get>, buf: seq<byte>, short: Prefix, nvs: seq<Native>, err: Option<Error>, pos: nat)
    requires forall k :: 0 <= k < |cs| ==> Legal(cs[k])
    requires Progress(cs, buf, short, |cs|, nvs, err, pos)
    ensures err == short.error && (err.None? ==> pos == short.pos)
    ensures |short.values| <= |cs| && nvs == short.values + Zeros(cs[|short.values|..])
  {
    assert cs[|cs|..] == [];
    if err.None? {
      assert short.values == nvs + [] == nvs;
    } else {
      assert cs[|short.values|..|cs|] == cs[|short.values|..];
    }
  }
}
