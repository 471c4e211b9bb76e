/**
 The value codec as the SDK runs it: bytes are pushed onto a vector, a cursor moves
 over a buffer, and every call is proved to do what the specification says.
 */
module Codec {
  import opened Bytes
  import opened Leb128
  import opened Unicode
  import opened Wire
  import opened WireTheorems

  // ---------------------------------------------------------------------------
  // Bits of a byte
  // ---------------------------------------------------------------------------

  /** `b & (1 << k) != 0` */
  predicate BitSet(b: nat, k: nat) {
    b / Pow2(k) % 2 == 1
  }

  /** `b | 1 << k` */
  function OrBit(b: nat, k: nat): nat {
    if BitSet(b, k) then b else b + Pow2(k)
  }

  lemma {:induction false} BitsOfAt(b: nat, k: nat, i: nat)
    requires i < k
    ensures BitsOf(b, k)[i] == BitSet(b, i)
  {
    if i > 0 {
      BitsOfAt(b / 2, k - 1, i - 1);
      HalfQuotient(b, Pow2(i - 1));
    }
  }

  lemma HalfQuotient(b: nat, d: nat)
    requires d > 0
    ensures b / 2 / d == b / (2 * d)
  {
    var q, r := b / 2 / d, b / 2 % d;
    assert b == 2 * (q * d + r) + b % 2;
    assert b == q * (2 * d) + (2 * r + b % 2);
    QuotientIs(b, 2 * d, q, 2 * r + b % 2);
  }

  lemma QuotientIs(a: nat, d: nat, q: nat, r: nat)
    requires r < d && a == q * d + r
    ensures a / d == q
  {
    var k := q - a / d;
    assert k * d == q * d - a / d * d;
    Apart(k, d);
  }

  lemma Apart(k: int, d: int)
    requires d >= 0
    ensures k == 0 || k * d >= d || k * d <= -d
  {
  }

  /** Flag `i` is bit `i % 8` of byte `i / 8`. */
  lemma {:induction false} UnpackAt(bs: seq<byte>, n: nat, i: nat)
    requires |bs| == (n + 7) / 8 && i < n
    ensures Unpack(bs, n)[i] == BitSet(bs[i / 8], i % 8)
    decreases n
  {
    hide BitSet;
    hide BitsOf;
    if n <= 8 {
      BitsOfAt(bs[0], n, i);
    } else if i < 8 {
      BitsOfAt(bs[0], 8, i);
    } else {
      UnpackAt(bs[1..], n - 8, i - 8);
      assert bs[1..][(i - 8) / 8] == bs[i / 8];
    }
  }

  lemma {:induction false} ByteOfAppend(bits: seq<bool>, b: bool)
    requires |bits| < 8
    ensures ByteOf(bits + [b]) == if b then OrBit(ByteOf(bits), |bits|) else ByteOf(bits)
    ensures ByteOf(bits + [b]) == ByteOf(bits) + if b then Pow2(|bits|) else 0
  {
    if bits == [] {
      assert [b][1..] == [];
    } else {
      assert (bits + [b])[1..] == bits[1..] + [b];
      ByteOfAppend(bits[1..], b);
    }
    ByteOfBound(bits);
    QuotientIs(ByteOf(bits), Pow2(|bits|), 0, ByteOf(bits));
  }

  /** The flags among `bits` that belong to byte `j`. */
  function Chunk(bits: seq<bool>, j: nat): (chunk: seq<bool>)
    ensures |chunk| <= 8
  {
    bits[Min(8 * j, |bits|)..Min(8 * j + 8, |bits|)]
  }

  lemma ChunkTail(bits: seq<bool>, j: nat)
    requires |bits| > 8 && j > 0
    ensures Chunk(bits[8..], j - 1) == Chunk(bits, j)
  {
    var lo, hi := Min(8 * j, |bits|), Min(8 * j + 8, |bits|);
    assert Min(8 * (j - 1), |bits[8..]|) == lo - 8 && Min(8 * (j - 1) + 8, |bits[8..]|) == hi - 8;
    assert bits[8..][lo - 8..hi - 8] == bits[lo..hi];
  }

  lemma {:induction false} PackAt(bits: seq<bool>, j: nat)
    requires j < (|bits| + 7) / 8
    ensures |Pack(bits)| == (|bits| + 7) / 8 && Pack(bits)[j] == ByteOf(Chunk(bits, j))
    decreases |bits|
  {
    hide ByteOf;
    PackLength(bits);
    if |bits| <= 8 {
      assert Chunk(bits, 0) == bits;
    } else if j == 0 {
      assert Chunk(bits, 0) == bits[..8];
    } else {
      PackAt(bits[8..], j - 1);
      ChunkTail(bits, j);
      assert Pack(bits)[1..] == Pack(bits[8..]);
    }
  }

  lemma ChunkAppend(bits: seq<bool>, i: nat, j: nat)
    requires i < |bits|
    ensures j == i / 8 ==>
              |Chunk(bits[..i], j)| == i % 8 && Chunk(bits[..i + 1], j) == Chunk(bits[..i], j) + [bits[i]]
    ensures j != i / 8 ==> Chunk(bits[..i + 1], j) == Chunk(bits[..i], j)
  {
    var short, long := bits[..i], bits[..i + 1];
    if j == i / 8 {
      assert 8 * j <= i < 8 * j + 8;
      assert Chunk(short, j) == bits[8 * j..i];
      assert Chunk(long, j) == bits[8 * j..i + 1];
    } else if j < i / 8 {
      assert 8 * j + 8 <= i;
      assert Chunk(short, j) == bits[8 * j..8 * j + 8];
      assert Chunk(long, j) == bits[8 * j..8 * j + 8];
    } else {
      assert 8 * j > i;
      assert Chunk(short, j) == [] == Chunk(long, j);
    }
  }

  // ---------------------------------------------------------------------------
  // Encoding
  // ---------------------------------------------------------------------------

  /** The byte vector that is appended to. */
  class Out {
    var bytes: seq<byte>

    constructor ()
      ensures bytes == []
    {
      bytes := [];
    }

    method Push(b: byte)
      modifies this
      ensures bytes == old(bytes) + [b]
    {
      bytes := bytes + [b];
    }

    method Extend(bs: seq<byte>)
      modifies this
      ensures bytes == old(bytes) + bs
    {
      bytes := bytes + bs;
    }
  }

  method UlebEncode(n: nat, out: Out)
    modifies out
    ensures out.bytes == old(out.bytes) + Uleb(n)
  {
    var v := n;
    while true
      invariant out.bytes + Uleb(v) == old(out.bytes) + Uleb(n)
      decreases v
    {
      var b := v % 128;
      v := v / 128;
      if v == 0 {
        out.Push(b);
        return;
      }
      out.Push(b + 128);
    }
  }

  method SlebEncode(n: int, out: Out)
    modifies out
    ensures out.bytes == old(out.bytes) + Sleb(n)
  {
    var v := n;
    while true
      invariant out.bytes + Sleb(v) == old(out.bytes) + Sleb(n)
      decreases if v < 0 then -v else v + 1
    {
      var b := v % 128;
      v := v / 128;
      var signBit := b >= 64;
      if (v == 0 && !signBit) || (v == -1 && signBit) {
        out.Push(b);
        return;
      }
      out.Push(b + 128);
    }
  }

  lemma NothingSet(bits: seq<bool>)
    ensures forall j: nat :: ByteOf(Chunk(bits[..0], j)) == 0
  {
  }

  /** Every flag is or-ed into its byte of a zeroed buffer. */
  method PackFlags(bits: seq<bool>) returns (bytes: array<byte>)
    ensures fresh(bytes) && bytes[..] == Pack(bits)
  {
    hide ByteOf;
    hide Pack;
    hide OrBit;
    hide Chunk;
    var count := (|bits| + 7) / 8;
    NothingSet(bits);
    bytes := new byte[count](_ => 0);
    for i := 0 to |bits|
      invariant fresh(bytes) && bytes.Length == count
      invariant forall j :: 0 <= j < count ==> bytes[j] == ByteOf(Chunk(bits[..i], j))
    {
      ghost var before := bytes[..];
      ChunkAppend(bits, i, i / 8);
      ByteOfAppend(Chunk(bits[..i], i / 8), bits[i]);
      ByteOfBound(Chunk(bits[..i], i / 8) + [bits[i]]);
      if bits[i] {
        bytes[i / 8] := OrBit(bytes[i / 8], i % 8);
      }
      forall j | 0 <= j < count ensures bytes[j] == ByteOf(Chunk(bits[..i + 1], j)) {
        assert j != i / 8 ==> bytes[j] == before[j];
        ChunkAppend(bits, i, j);
      }
    }
    assert bits[..|bits|] == bits;
    PackLength(bits);
    forall j | 0 <= j < count ensures bytes[j] == Pack(bits)[j] {
      PackAt(bits, j);
    }
  }

  /** `encode`: appends exactly the reference encoding. */
  method EncodeValue(v: Value, out: Out)
    modifies out
    ensures out.bytes == old(out.bytes) + Encode(v)
    decreases v, 0
  {
    hide EncodeAll;
    hide EncodeSide;
    hide Uleb;
    hide Sleb;
    hide Pack;
    match v
    case VBool(b) => out.Push(if b then 1 else 0);
    case VUInt(_, n) => UlebEncode(n, out);
    case VSInt(_, n) => SlebEncode(n, out);
    case VFloat(_, raw) => out.Extend(raw);
    case VChar(scalar) => UlebEncode(scalar, out);
    case VString(s) =>
      UlebEncode(|s|, out);
      out.Extend(s);
    case VList(items) =>
      UlebEncode(|items|, out);
      EncodeEach(items, out);
    case VRecord(fields) => EncodeEach(fields, out);
    case VTuple(fields) => EncodeEach(fields, out);
    case VVariant(c, payload) =>
      UlebEncode(c, out);
      EncodePayload(payload, out);
    case VEnum(c) => UlebEncode(c, out);
    case VOption(payload) =>
      out.Push(if payload.Some? then 1 else 0);
      EncodePayload(payload, out);
    case VResult(isErr, payload) =>
      out.Push(if isErr then 1 else 0);
      EncodePayload(payload, out);
    case VFlags(bits) =>
      var bytes := PackFlags(bits);
      out.Extend(bytes[..]);
  }

  method EncodePayload(payload: Option<Value>, out: Out)
    modifies out
    ensures out.bytes == old(out.bytes) + EncodeSide(payload)
    decreases payload, 0
  {
    if payload.Some? {
      EncodeValue(payload.value, out);
    }
  }

  method EncodeEach(vs: seq<Value>, out: Out)
    modifies out
    ensures out.bytes == old(out.bytes) + EncodeAll(vs)
    decreases vs, 0
  {
    for i := 0 to |vs|
      invariant out.bytes + EncodeAll(vs[i..]) == old(out.bytes) + EncodeAll(vs)
    {
      assert vs[i..][0] == vs[i] && vs[i..][1..] == vs[i + 1..];
      EncodeValue(vs[i], out);
    }
  }

  // ---------------------------------------------------------------------------
  // Decoding
  // ---------------------------------------------------------------------------

  /** The call returned what the specification says, and the cursor stands after it. */
  ghost predicate Agrees<T(!new)>(r: Result<T, Error>, pos: nat, step: Step<T>) {
    match r
    case Success(v) => step == Ok(v, pos)
    case Failure(e) => step == Err(e)
  }

  /** `x << k` */
  function ShiftLeft(x: int, k: nat): int {
    x * Pow2(k)
  }

  /** `low` holds the digits before byte `i`; what is left from there, put above them, is the whole. */
  ghost predicate Reading(low: int, i: nat, rest: Step<int>, all: Step<int>) {
    all == match rest case Ok(v, p) => Ok(low + ShiftLeft(v, 7 * i), p) case Err(e) => Err(e)
  }

  lemma ReadingStart(all: Step<int>)
    ensures Reading(0, 0, all, all)
  {
  }

  lemma Distribute(scale: int, payload: int, v: int)
    ensures (payload + 128 * v) * scale == payload * scale + v * (128 * scale)
  {
  }

  lemma ReadingStep(low: int, i: nat, payload: int, rest: Step<int>, here: Step<int>, all: Step<int>)
    requires Reading(low, i, here, all)
    requires here == match rest case Ok(v, p) => Ok(payload + 128 * v, p) case Err(e) => Err(e)
    ensures Reading(low + ShiftLeft(payload, 7 * i), i + 1, rest, all)
  {
    Pow2Step7(7 * i);
    hide Pow2;
    if rest.Ok? {
      Distribute(Pow2(7 * i), payload, rest.value);
    }
  }

  lemma ReadingEnd(low: int, i: nat, here: Step<int>, all: Step<int>)
    requires Reading(low, i, here, all)
    ensures here.Ok? ==> all == Ok(low + ShiftLeft(here.value, 7 * i), here.pos)
    ensures here.Err? ==> all == here
  {
  }

  lemma {:induction false} Pow2Add(a: nat, b: nat)
    ensures Pow2(a + b) == Pow2(a) * Pow2(b)
  {
    if a > 0 {
      Pow2Add(a - 1, b);
    }
  }

  lemma Fits(low: nat, scale: nat, digit: nat, base: nat)
    requires low < scale && digit < base
    ensures 0 <= low + digit * scale < base * scale
  {
    assert base * scale - digit * scale == (base - digit) * scale;
    Apart(base - digit, scale);
  }

  /** The bitwise or of two unsigned integers. */
  function Or(a: nat, b: nat): nat
    decreases a + b
  {
    if a == 0 && b == 0 then 0
    else (if a % 2 == 1 || b % 2 == 1 then 1 else 0) + 2 * Or(a / 2, b / 2)
  }

  lemma {:induction false} OrZero(b: nat)
    ensures Or(0, b) == b
  {
    if b > 0 {
      OrZero(b / 2);
    }
  }

  /** Nothing is or-ed onto a set bit if the second operand ends in as many zero bits as the first has digits. */
  lemma {:induction false} OrAdds(low: nat, shift: nat, high: nat)
    requires low < Pow2(shift)
    ensures Or(low, high * Pow2(shift)) == low + high * Pow2(shift)
    decreases shift
  {
    if shift == 0 {
      OrZero(high);
    } else {
      var b := high * Pow2(shift - 1);
      assert high * Pow2(shift) == 2 * b;
      OrAdds(low / 2, shift - 1, high);
    }
  }

  lemma {:induction false} OrZeroRight(a: nat)
    ensures Or(a, 0) == a
  {
    if a > 0 {
      OrZeroRight(a / 2);
    }
  }

  /** Setting a flag is or-ing its bit in. */
  lemma {:induction false} OrBitIsOr(b: nat, k: nat)
    ensures OrBit(b, k) == Or(b, Pow2(k))
    decreases k
  {
    OrZeroRight(b / 2);
    if k > 0 {
      OrBitIsOr(b / 2, k - 1);
      HalfQuotient(b, Pow2(k - 1));
    }
  }

  lemma StaysIn64(bits: nat, shift: nat, low: nat, payload: nat)
    requires shift < bits <= 64 && low < Pow2(shift) && payload < 128
    requires shift + 7 > bits ==> payload < Pow2(bits - shift)
    ensures low + payload * Pow2(shift) < Pow2(64)
    ensures 0 <= low + payload * Pow2(shift) < Pow2(shift + 7)
  {
    Pow2Step7(shift);
    hide Pow2;
    Fits(low, Pow2(shift), payload, 128);
    if shift + 7 > bits {
      Fits(low, Pow2(shift), payload, Pow2(bits - shift));
      Pow2Add(bits - shift, shift);
      Pow2Monotone(bits, 64);
    } else {
      Pow2Monotone(shift + 7, 64);
    }
  }

  /** Or-ing the payload in adds it: the bits below are all that is set, and none is shifted out of 64. */
  lemma NoCarry(bits: nat, shift: nat, low: nat, payload: nat)
    requires shift < bits <= 64 && low < Pow2(shift) && payload < 128
    requires shift + 7 > bits ==> payload < Pow2(bits - shift)
    ensures var high := ShiftLeft(payload, shift);
            && high >= 0 && Or(low, high) == low + high
            && low + high < Pow2(64) && 0 <= low + high < Pow2(shift + 7)
  {
    OrAdds(low, shift, payload);
    StaysIn64(bits, shift, low, payload);
    hide Pow2;
    hide Or;
    Product(payload, Pow2(shift));
  }

  lemma Product(a: nat, b: nat)
    ensures a * b >= 0
  {
  }

  /** One byte of an unsigned integer. */
  lemma UlebByte(bits: nat, buf: seq<byte>, pos: nat, i: nat, low: int, all: Step<int>)
    requires Reading(low, i, DecUlebFrom(bits, buf, pos, i), all)
    ensures i >= MaxBytes(bits) ==> all == Err(UlebTooLong)
    ensures i < MaxBytes(bits) && pos >= |buf| ==> all == Err(UnexpectedEnd)
    ensures i < MaxBytes(bits) && pos < |buf| ==>
              var payload := buf[pos] % 128;
              var value := low + ShiftLeft(payload, 7 * i);
              if 7 * i + 7 > bits && payload / Pow2(bits - 7 * i) != 0 then all == Err(UlebOverflow)
              else if buf[pos] < 128 then all == Ok(value, pos + 1)
              else Reading(value, i + 1, DecUlebFrom(bits, buf, pos + 1, i + 1), all)
  {
    hide Pow2;
    hide ShiftLeft;
    hide Reading;
    ReadingEnd(low, i, DecUlebFrom(bits, buf, pos, i), all);
    if i < MaxBytes(bits) && pos < |buf| && buf[pos] >= 128 &&
       !(7 * i + 7 > bits && buf[pos] % 128 / Pow2(bits - 7 * i) != 0) {
      ReadingStep(low, i, buf[pos] % 128, DecUlebFrom(bits, buf, pos + 1, i + 1), DecUlebFrom(bits, buf, pos, i), all);
    }
  }

  /** One byte of a signed integer. */
  lemma SlebByte(bits: nat, buf: seq<byte>, pos: nat, i: nat, low: int, all: Step<int>)
    requires Reading(low, i, DecSlebFrom(bits, buf, pos, i), all)
    ensures i >= MaxBytes(bits) ==> all == Err(SlebTooLong)
    ensures i < MaxBytes(bits) && pos >= |buf| ==> all == Err(UnexpectedEnd)
    ensures i < MaxBytes(bits) && pos < |buf| ==>
              var b := buf[pos];
              var value := low + ShiftLeft(b % 128, 7 * i);
              if i == 9 then
                all == if b == 0 then Ok(low, pos + 1) else if b == 127 then Ok(low - Pow2(63), pos + 1)
                       else Err(SlebOverflow)
              else if b < 128 then all == Ok(if b >= 64 then value - Pow2(7 * i + 7) else value, pos + 1)
              else Reading(value, i + 1, DecSlebFrom(bits, buf, pos + 1, i + 1), all)
  {
    hide Pow2;
    hide ShiftLeft;
    hide Reading;
    var here := DecSlebFrom(bits, buf, pos, i);
    ReadingEnd(low, i, here, all);
    if i < MaxBytes(bits) && pos < |buf| {
      var b := buf[pos];
      if i == 9 {
        SignBit(b);
      } else if b < 128 {
        SignExtend(b, i);
      } else {
        ReadingStep(low, i, b % 128, DecSlebFrom(bits, buf, pos + 1, i + 1), here, all);
      }
    }
  }

  lemma SignBit(b: byte)
    ensures ShiftLeft(0, 63) == 0 && ShiftLeft(-1, 63) == -(Pow2(63) as int)
  {
    hide Pow2;
  }

  lemma SignExtend(b: int, i: nat)
    ensures ShiftLeft(b - 128, 7 * i) == ShiftLeft(b, 7 * i) - Pow2(7 * i + 7)
  {
    Pow2Step7(7 * i);
    hide Pow2;
    SubDistribute(b, Pow2(7 * i));
  }

  lemma SubDistribute(b: int, scale: int)
    ensures (b - 128) * scale == b * scale - 128 * scale
  {
  }

  /** A cursor over an encoded buffer. */
  class Decoder {
    const buf: seq<byte>
    var pos: nat

    ghost predicate Valid()
      reads this
    {
      pos <= |buf|
    }

    constructor (buf: seq<byte>)
      ensures Valid() && this.buf == buf && pos == 0
    {
      this.buf := buf;
      pos := 0;
    }

    method Byte() returns (r: Result<byte, Error>)
      requires Valid()
      modifies this
      ensures Valid() && Agrees(r, pos, DecByte(buf, old(pos)))
    {
      if pos >= |buf| {
        return Failure(UnexpectedEnd);
      }
      var b := buf[pos];
      pos := pos + 1;
      return Success(b);
    }

    method Take(n: nat) returns (r: Result<seq<byte>, Error>)
      requires Valid()
      modifies this
      ensures Valid() && Agrees(r, pos, DecBytes(n, buf, old(pos)))
    {
      if |buf| - pos < n {
        return Failure(UnexpectedEnd);
      }
      var s := buf[pos..pos + n];
      pos := pos + n;
      return Success(s);
    }

    /** Or-ing `payload << shift` in is an addition: the sum stays within 64 bits and below no set bit. */
    method Uleb(bits: nat) returns (r: Result<nat, Error>)
      requires Valid() && bits <= 64
      modifies this
      ensures Valid() && Agrees(r, pos, DecUleb(bits, buf, old(pos)))
    {
      hide DecUlebFrom;
      hide Pow2;
      hide Reading;
      hide ShiftLeft;
      ghost var all := DecUleb(bits, buf, pos);
      ReadingStart(all);
      var maxBytes := (bits + 6) / 7;
      var result, shift := 0, 0;
      for i := 0 to maxBytes
        invariant Valid() && shift == 7 * i && 0 <= result < Pow2(shift)
        invariant Reading(result, i, DecUlebFrom(bits, buf, pos, i), all)
      {
        UlebByte(bits, buf, pos, i, result, all);
        var b :- Byte();
        var payload := b % 128;
        if shift + 7 > bits && payload / Pow2(bits - shift) != 0 {
          return Failure(UlebOverflow);
        }
        if shift + 7 > bits {
          PayloadFits(payload, bits - shift);
        }
        NoCarry(bits, shift, result, payload);
        result := Or(result, ShiftLeft(payload, shift));
        if b < 128 {
          return Success(result);
        }
        shift := shift + 7;
      }
      UlebByte(bits, buf, pos, maxBytes, result, all);
      return Failure(UlebTooLong);
    }

    method Sleb(bits: nat) returns (r: Result<int, Error>)
      requires Valid() && 1 <= bits <= 64
      modifies this
      ensures Valid() && Agrees(r, pos, DecSleb(bits, buf, old(pos)))
    {
      hide DecSlebFrom;
      hide Pow2;
      hide Reading;
      hide ShiftLeft;
      ghost var all := DecSlebFrom(bits, buf, pos, 0);
      ReadingStart(all);
      var maxBytes := (bits + 6) / 7;
      var result: int, shift := 0, 0;
      for i := 0 to maxBytes
        invariant Valid() && shift == 7 * i && 0 <= result < Pow2(shift)
        invariant Reading(result, i, DecSlebFrom(bits, buf, pos, i), all)
      {
        SlebByte(bits, buf, pos, i, result, all);
        var b :- Byte();
        if shift == 63 {
          if b != 0 && b != 127 {
            return Failure(SlebOverflow);
          }
          return Success(if b % 2 == 1 then result - Pow2(63) else result);
        }
        NoCarry(64, shift, result, b % 128);
        result := Or(result, ShiftLeft(b % 128, shift));
        shift := shift + 7;
        if b < 128 {
          if shift < 64 && b >= 64 {
            result := result - Pow2(shift);
          }
          if bits < 64 {
            var bound: int := Pow2(bits - 1);
            if result < -bound || result > bound - 1 {
              return Failure(SlebOverflow);
            }
          }
          return Success(result);
        }
      }
      SlebByte(bits, buf, pos, maxBytes, result, all);
      return Failure(SlebTooLong);
    }

    method PrefixBit(what: string) returns (r: Result<bool, Error>)
      requires Valid()
      modifies this
      ensures Valid() && Agrees(r, pos, DecBit(what, buf, old(pos)))
    {
      var b :- Byte();
      match b
      case 0 => return Success(false);
      case 1 => return Success(true);
      case _ => return Failure(InvalidPrefix(what, b));
    }

    /** The packed bytes are unpacked bit by bit, once the spare high bits are known to be clear. */
    method FlagBits(n: nat) returns (r: Result<seq<bool>, Error>)
      requires Valid()
      modifies this
      ensures Valid() && Agrees(r, pos, DecFlags(n, buf, old(pos)))
    {
      hide Unpack;
      var count := (n + 7) / 8;
      var bytes :- Take(count);
      if n % 8 != 0 {
        var unused := bytes[count - 1] / Pow2(n % 8);
        if unused != 0 {
          return Failure(FlagsUnused);
        }
      }
      var bits := [];
      ghost var end := pos;
      for i := 0 to n
        invariant pos == end
        invariant |bits| == i && forall k :: 0 <= k < i ==> bits[k] == Unpack(bytes, n)[k]
      {
        UnpackAt(bytes, n, i);
        bits := bits + [BitSet(bytes[i / 8], i % 8)];
      }
      assert bits == Unpack(bytes, n);
      return Success(bits);
    }

    method Text() returns (r: Result<seq<byte>, Error>)
      requires Valid()
      modifies this
      ensures Valid() && Agrees(r, pos, DecString(buf, old(pos)))
    {
      hide DecUleb;
      hide IsUtf8;
      var len :- Uleb(32);
      var bytes :- Take(len);
      var ok := Utf8Valid(bytes);
      if !ok {
        return Failure(InvalidUtf8);
      }
      return Success(bytes);
    }

    method Scalar() returns (r: Result<nat, Error>)
      requires Valid()
      modifies this
      ensures Valid() && Agrees(r, pos, DecChar(buf, old(pos)))
    {
      hide DecUleb;
      var scalar :- Uleb(21);
      if !IsScalar(scalar) {
        return Failure(InvalidChar(scalar));
      }
      return Success(scalar);
    }

    /** Decodes one value at the cursor; the depth of the recursion is that of the type. */
    method Value(ty: Type) returns (r: Result<Value, Error>)
      requires Valid()
      modifies this
      ensures Valid() && Agrees(r, pos, Decode(ty, buf, old(pos)))
      decreases ty, 0
    {
      hide DecUleb;
      hide DecSleb;
      hide DecBytes;
      hide DecString;
      hide DecFlags;
      hide Pow2;
      match ty
      case TBool =>
        var b :- PrefixBit("bool");
        return Success(VBool(b));
      case TUInt(w) =>
        var n :- Uleb(Bits(w));
        return Success(VUInt(w, n));
      case TSInt(w) =>
        var n :- Sleb(Bits(w));
        return Success(VSInt(w, n));
      case TFloat(double) =>
        var raw :- Take(FloatSize(double));
        return Success(VFloat(double, raw));
      case TChar =>
        var scalar :- Scalar();
        return Success(VChar(scalar));
      case TString =>
        var s :- Text();
        return Success(VString(s));
      case TList(elem) =>
        var count :- Uleb(32);
        var items :- Items(elem, count);
        return Success(VList(items));
      case TRecord(fields) =>
        var vals :- Fields(fields);
        return Success(VRecord(vals));
      case TTuple(members) =>
        var vals :- Fields(members);
        return Success(VTuple(vals));
      case TVariant(cases) =>
        var c :- Uleb(32);
        if c >= |cases| {
          return Failure(VariantRange(c));
        }
        var payload :- Payload(cases[c]);
        return Success(VVariant(c, payload));
      case TEnum(n) =>
        var c :- Uleb(32);
        if c >= n {
          return Failure(EnumRange(c));
        }
        return Success(VEnum(c));
      case TOption(inner) =>
        var some :- PrefixBit("option");
        if !some {
          return Success(VOption(None));
        }
        var v :- Value(inner);
        return Success(VOption(Some(v)));
      case TResult(ok, err) =>
        var isErr :- PrefixBit("result");
        var payload :- Payload(if isErr then err else ok);
        return Success(VResult(isErr, payload));
      case TFlags(n) =>
        var bits :- FlagBits(n);
        return Success(VFlags(bits));
    }

    method Payload(ty: Option<Type>) returns (r: Result<Option<Value>, Error>)
      requires Valid()
      modifies this
      ensures Valid() && Agrees(r, pos, DecodeSide(ty, buf, old(pos)))
      decreases ty, 0
    {
      hide Decode;
      match ty
      case None => return Success(None);
      case Some(t) =>
        var v :- Value(t);
        return Success(Some(v));
    }

    method Items(elem: Type, count: nat) returns (r: Result<seq<Value>, Error>)
      requires Valid()
      modifies this
      ensures Valid() && Agrees(r, pos, DecodeItems(elem, count, buf, old(pos)))
      decreases elem, count + 1
    {
      hide Decode;
      var items := [];
      FollowsStart(DecodeItems(elem, count, buf, pos));
      for i := 0 to count
        invariant Valid()
        invariant Follows(items, DecodeItems(elem, count - i, buf, pos), DecodeItems(elem, count, buf, old(pos)))
      {
        ghost var before := items;
        ghost var at := pos;
        var v :- Value(elem);
        items := items + [v];
        FollowsOne(before, v, DecodeItems(elem, count - i - 1, buf, pos), DecodeItems(elem, count - i, buf, at),
                   DecodeItems(elem, count, buf, old(pos)));
      }
      FollowsEnd(items, pos, DecodeItems(elem, count, buf, old(pos)));
      return Success(items);
    }

    method Fields(tys: seq<Type>) returns (r: Result<seq<Value>, Error>)
      requires Valid()
      modifies this
      ensures Valid() && Agrees(r, pos, DecodeFields(tys, buf, old(pos)))
      decreases tys, 0
    {
      hide Decode;
      var vals := [];
      FollowsStart(DecodeFields(tys, buf, pos));
      assert tys[0..] == tys;
      for i := 0 to |tys|
        invariant Valid()
        invariant Follows(vals, DecodeFields(tys[i..], buf, pos), DecodeFields(tys, buf, old(pos)))
      {
        ghost var before := vals;
        ghost var at := pos;
        assert tys[i..][0] == tys[i] && tys[i..][1..] == tys[i + 1..];
        var v :- Value(tys[i]);
        vals := vals + [v];
        FollowsOne(before, v, DecodeFields(tys[i + 1..], buf, pos), DecodeFields(tys[i..], buf, at),
                   DecodeFields(tys, buf, old(pos)));
      }
      FollowsEnd(vals, pos, DecodeFields(tys, buf, old(pos)));
      return Success(vals);
    }
  }

  /** What is left to decode, put after what is already there, is the whole. */
  ghost predicate Follows(done: seq<Value>, rest: Step<seq<Value>>, all: Step<seq<Value>>) {
    all == match rest case Ok(vs, p) => Ok(done + vs, p) case Err(e) => Err(e)
  }

  lemma FollowsStart(all: Step<seq<Value>>)
    ensures Follows([], all, all)
  {
    if all.Ok? {
      assert [] + all.value == all.value;
    }
  }

  lemma FollowsEnd(done: seq<Value>, pos: nat, all: Step<seq<Value>>)
    ensures Follows(done, Ok([], pos), all) <==> all == Ok(done, pos)
  {
    assert done + [] == done;
  }

  lemma FollowsOne(done: seq<Value>, v: Value, rest: Step<seq<Value>>, here: Step<seq<Value>>, all: Step<seq<Value>>)
    requires Follows(done, here, all) && Follows([v], rest, here)
    ensures Follows(done + [v], rest, all)
  {
    if rest.Ok? {
      assert done + ([v] + rest.value) == done + [v] + rest.value;
    }
  }

  /** Decodes exactly one value; trailing bytes are an error. */
  method DecodeBuffer(ty: Type, buf: seq<byte>) returns (r: Result<Value, Error>)
    ensures Agrees(r, |buf|, DecodeWhole(ty, buf))
  {
    hide Decode;
    var d := new Decoder(buf);
    var v :- d.Value(ty);
    if d.pos != |buf| {
      return Failure(Trailing(|buf| - d.pos, "value"));
    }
    return Success(v);
  }

  method DecodeParamsBuffer(tys: seq<Type>, buf: seq<byte>) returns (r: Result<seq<Value>, Error>)
    ensures Agrees(r, |buf|, DecodeParams(tys, buf))
  {
    hide Decode;
    var d := new Decoder(buf);
    var vals := [];
    FollowsStart(DecodeParams(tys, buf));
    for i := 0 to |tys|
      invariant fresh(d) && d.Valid() && d.buf == buf
      invariant Follows(vals, DecodeParamsFrom(tys, i, buf, d.pos), DecodeParams(tys, buf))
    {
      ghost var before := vals;
      ghost var at := d.pos;
      var step := d.Value(tys[i]);
      match step
      case Failure(e) => return Failure(Param(i, e));
      case Success(v) =>
        vals := vals + [v];
        FollowsOne(before, v, DecodeParamsFrom(tys, i + 1, buf, d.pos), DecodeParamsFrom(tys, i, buf, at),
                   DecodeParams(tys, buf));
    }
    if d.pos != |buf| {
      return Failure(Trailing(|buf| - d.pos, "params"));
    }
    FollowsEnd(vals, |buf|, DecodeParams(tys, buf));
    return Success(vals);
  }
}
