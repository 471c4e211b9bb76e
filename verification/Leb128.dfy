/**
 LEB128 integers (section 5.2.2 of the WebAssembly Core Specification).
 */
module Leb128 {
  import opened Bytes

  /** The error kinds of the wire codec. */
  datatype Error =
    | UnexpectedEnd
    | UlebOverflow
    | UlebTooLong
    | SlebOverflow
    | SlebTooLong
    | InvalidPrefix(what: string, b: byte)
    | InvalidChar(scalar: nat)
    | InvalidUtf8
    | VariantRange(variantCase: nat)
    | EnumRange(enumCase: nat)
    | FlagsUnused
    | Trailing(count: nat, after: string)
    | Param(index: nat, inner: Error)

  /** A decoding step either yields a value and the cursor after it, or an error. */
  datatype Step<+T> = Ok(value: T, pos: nat) | Err(error: Error)

  // ---------------------------------------------------------------------------
  // What a byte string denotes
  // ---------------------------------------------------------------------------

  /** Exactly the last byte of `bs` has a clear continuation bit. */
  ghost predicate Terminated(bs: seq<byte>) {
    && |bs| > 0
    && bs[|bs| - 1] < 128
    && forall i :: 0 <= i < |bs| - 1 ==> bs[i] >= 128
  }

  ghost function UVal(bs: seq<byte>): nat {
    if bs == [] then 0 else bs[0] % 128 + 128 * UVal(bs[1..])
  }

  ghost function SVal(bs: seq<byte>): int
    requires |bs| > 0
  {
    if |bs| == 1 then
      if bs[0] % 128 >= 64 then bs[0] % 128 - 128 else bs[0] % 128
    else
      bs[0] % 128 + 128 * SVal(bs[1..])
  }

  function MaxBytes(bits: nat): nat {
    (bits + 6) / 7
  }

  /** `bs` is some (possibly zero-padded) encoding of the `bits`-wide unsigned `v`. */
  ghost predicate IsUleb(bits: nat, v: int, bs: seq<byte>) {
    && |bs| <= MaxBytes(bits)
    && Terminated(bs)
    && UVal(bs) == v
    && v < Pow2(bits)
  }

  ghost predicate FitsSigned(bits: nat, v: int)
    requires bits > 0
  {
    var bound: int := Pow2(bits - 1);
    -bound <= v < bound
  }

  ghost predicate IsSleb(bits: nat, v: int, bs: seq<byte>)
    requires bits > 0
  {
    && |bs| <= MaxBytes(bits)
    && Terminated(bs)
    && SVal(bs) == v
    && FitsSigned(bits, v)
  }

  // ---------------------------------------------------------------------------
  // Encoders
  // ---------------------------------------------------------------------------

  function Uleb(v: nat): seq<byte> {
    if v / 128 == 0 then [v % 128] else [v % 128 + 128] + Uleb(v / 128)
  }

  /** `v / 128` is the arithmetic shift of the sources: it rounds towards minus infinity. */
  function Sleb(v: int): seq<byte>
    decreases if v < 0 then -v else v + 1
  {
    var b := v % 128;
    var rest := v / 128;
    if (rest == 0 && b < 64) || (rest == -1 && b >= 64) then [b] else [b + 128] + Sleb(rest)
  }

  // ---------------------------------------------------------------------------
  // Decoders: the `i`th byte of the integer is at `pos`; the value is the part
  // of the integer from that byte on
  // ---------------------------------------------------------------------------

  ghost function DecUlebFrom(bits: nat, buf: seq<byte>, pos: nat, i: nat): (r: Step<nat>)
    decreases MaxBytes(bits) - i
  {
    if i >= MaxBytes(bits) then Err(UlebTooLong)
    else if pos >= |buf| then Err(UnexpectedEnd)
    else
      var payload := buf[pos] % 128;
      if 7 * i + 7 > bits && payload / Pow2(bits - 7 * i) != 0 then Err(UlebOverflow)
      else if buf[pos] < 128 then Ok(payload, pos + 1)
      else
        match DecUlebFrom(bits, buf, pos + 1, i + 1)
        case Ok(v, p) => Ok(payload + 128 * v, p)
        case Err(e) => Err(e)
  }

  ghost function DecUleb(bits: nat, buf: seq<byte>, pos: nat): Step<nat> {
    DecUlebFrom(bits, buf, pos, 0)
  }

  ghost function DecSlebFrom(bits: nat, buf: seq<byte>, pos: nat, i: nat): Step<int>
    decreases MaxBytes(bits) - i
  {
    if i >= MaxBytes(bits) then Err(SlebTooLong)
    else if pos >= |buf| then Err(UnexpectedEnd)
    else
      var payload := buf[pos] % 128;
      if i == 9 then
        // only the two sign-extension patterns fit in the tenth byte of an s64
        if buf[pos] == 0 then Ok(0, pos + 1)
        else if buf[pos] == 127 then Ok(-1, pos + 1)
        else Err(SlebOverflow)
      else if buf[pos] < 128 then
        Ok(if payload >= 64 then payload - 128 else payload, pos + 1)
      else
        match DecSlebFrom(bits, buf, pos + 1, i + 1)
        case Ok(v, p) => Ok(payload + 128 * v, p)
        case Err(e) => Err(e)
  }

  ghost function DecSleb(bits: nat, buf: seq<byte>, pos: nat): Step<int>
    requires 1 <= bits <= 64
  {
    match DecSlebFrom(bits, buf, pos, 0)
    case Ok(v, p) => if bits < 64 && !FitsSigned(bits, v) then Err(SlebOverflow) else Ok(v, p)
    case Err(e) => Err(e)
  }

  // ---------------------------------------------------------------------------
  // Exact acceptance
  // ---------------------------------------------------------------------------

  lemma TailSlice(buf: seq<byte>, pos: nat, p: nat)
    requires pos < p <= |buf|
    ensures buf[pos..p][0] == buf[pos]
    ensures buf[pos..p][1..] == buf[pos + 1..p]
  {
  }

  lemma TerminatedTail(bs: seq<byte>)
    requires |bs| > 0
    ensures Terminated(bs) <==> if |bs| == 1 then bs[0] < 128 else bs[0] >= 128 && Terminated(bs[1..])
  {
    if |bs| > 1 {
      var t := bs[1..];
      assert t[|t| - 1] == bs[|bs| - 1];
      if bs[0] >= 128 && Terminated(t) {
        forall i | 0 <= i < |bs| - 1 ensures bs[i] >= 128 {
          if i > 0 { assert bs[i] == t[i - 1]; }
        }
      }
      if Terminated(bs) {
        forall i | 0 <= i < |t| - 1 ensures t[i] >= 128 {
          assert t[i] == bs[i + 1];
        }
      }
    }
  }

  /** `payload >> (bits - shift)` is zero exactly when the payload fits the bits that are left. */
  lemma PayloadFits(payload: nat, room: nat)
    requires room < 7
    ensures payload / Pow2(room) == 0 <==> payload < Pow2(room)
  {
    Pow2Seven();
    if room == 0 { assert Pow2(room) == 1; }
    else if room == 1 { assert Pow2(room) == 2; }
    else if room == 2 { assert Pow2(room) == 4; }
    else if room == 3 { assert Pow2(room) == 8; }
    else if room == 4 { assert Pow2(room) == 16; }
    else if room == 5 { assert Pow2(room) == 32; }
    else { assert Pow2(room) == 64; }
  }

  lemma {:induction false} UlebFromExact(bits: nat, buf: seq<byte>, pos: nat, i: nat, v: nat, p: nat)
    requires i <= MaxBytes(bits)
    ensures DecUlebFrom(bits, buf, pos, i) == Ok(v, p) <==>
            && pos < p <= |buf|
            && p - pos <= MaxBytes(bits) - i
            && Terminated(buf[pos..p])
            && UVal(buf[pos..p]) == v
            && v < Pow2(if 7 * i < bits then bits - 7 * i else 0)
    decreases MaxBytes(bits) - i
  {
    if i < MaxBytes(bits) && pos < |buf| {
      var room := bits - 7 * i;
      var payload := buf[pos] % 128;
      Pow2Seven();
      if 7 * i + 7 > bits {
        PayloadFits(payload, room);
      }
      if pos < p <= |buf| {
        TailSlice(buf, pos, p);
        TerminatedTail(buf[pos..p]);
      }
      if 7 * i + 7 <= bits {
        Pow2Step7(room - 7);
        Pow2Monotone(7, room);
      }
      if buf[pos] < 128 {
        assert p == pos + 1 ==> buf[pos..p][1..] == [];
      } else {
        if pos < p <= |buf| {
          UlebFromExact(bits, buf, pos + 1, i + 1, v / 128, p);
        }
        match DecUlebFrom(bits, buf, pos + 1, i + 1)
        case Ok(w, q) =>
          UlebFromExact(bits, buf, pos + 1, i + 1, w, q);
        case Err(_) =>
      }
    }
  }

  /** `uleb(bits)` succeeds exactly on the padded encodings of `bits`-wide integers that fit the byte cap. */
  lemma UlebExact(bits: nat, buf: seq<byte>, pos: nat, v: int, p: nat)
    ensures DecUleb(bits, buf, pos) == Ok(v, p) <==> pos <= p <= |buf| && IsUleb(bits, v, buf[pos..p])
  {
    if v >= 0 {
      UlebFromExact(bits, buf, pos, 0, v, p);
    }
  }

  /** The signed range left for the part of a `bits`-wide integer from byte `i` on, doubled. */
  ghost predicate FitsFrom(bits: nat, i: nat, v: int)
    requires 7 * i < bits
  {
    FitsSigned(bits - 7 * i, v)
  }

  lemma FitsStep(room: nat, payload: nat, w: int)
    requires room > 7 && payload < 128
    ensures FitsSigned(room, payload + 128 * w) <==> FitsSigned(room - 7, w)
  {
    Pow2Step7(room - 8);
  }

  /** `bs` denotes `v`, the part of a `bits`-wide signed integer from byte `i` on. */
  ghost predicate SlebTail(bits: nat, i: nat, v: int, bs: seq<byte>)
    requires 7 * i < bits
  {
    && |bs| <= MaxBytes(bits) - i
    && Terminated(bs)
    && SVal(bs) == v
    && FitsFrom(bits, i, v)
  }

  lemma SlebTailStep(bits: nat, i: nat, v: int, bs: seq<byte>)
    requires 7 * (i + 1) < bits && |bs| > 0 && bs[0] >= 128
    ensures SlebTail(bits, i, v, bs) <==>
            && |bs| > 1
            && v == bs[0] % 128 + 128 * SVal(bs[1..])
            && SlebTail(bits, i + 1, SVal(bs[1..]), bs[1..])
  {
    TerminatedTail(bs);
    if |bs| > 1 {
      FitsStep(bits - 7 * i, bs[0] % 128, SVal(bs[1..]));
    }
  }

  lemma SlebTailCons(bits: nat, i: nat, w: int, bs: seq<byte>)
    requires 7 * (i + 1) < bits && |bs| > 1 && bs[0] >= 128 && SlebTail(bits, i + 1, w, bs[1..])
    ensures SlebTail(bits, i, bs[0] % 128 + 128 * w, bs)
  {
    SlebTailStep(bits, i, bs[0] % 128 + 128 * w, bs);
  }

  lemma SlebTailLast(bits: nat, i: nat, v: int, b: byte)
    requires 7 * i < bits <= 64
    ensures SlebTail(bits, i, v, [b]) <==>
            && b < 128
            && v == (if b >= 64 then b - 128 else b)
            && FitsFrom(bits, i, v)
    ensures bits == 64 && i < 9 && b < 128 ==> FitsFrom(bits, i, if b >= 64 then b - 128 else b)
    ensures bits == 64 && i == 9 && b < 128 ==>
              (FitsFrom(bits, i, if b >= 64 then b - 128 else b) <==> b == 0 || b == 127)
  {
    TerminatedTail([b]);
    Pow2Seven();
    if bits == 64 && i < 9 {
      Pow2Monotone(6, bits - 7 * i - 1);
    }
  }

  lemma {:induction false} SlebFromSound(bits: nat, buf: seq<byte>, pos: nat, i: nat)
    requires 1 <= bits <= 64 && i < MaxBytes(bits)
    ensures match DecSlebFrom(bits, buf, pos, i)
            case Ok(v, p) =>
              && pos < p <= |buf|
              && (bits == 64 || FitsFrom(bits, i, v) ==> SlebTail(bits, i, v, buf[pos..p]))
            case Err(_) => true
    decreases MaxBytes(bits) - i
  {
    hide SlebTail;
    hide FitsSigned;
    if pos < |buf| {
      assert buf[pos..pos + 1] == [buf[pos]];
      match DecSlebFrom(bits, buf, pos, i)
      case Err(_) =>
      case Ok(v, p) =>
        if buf[pos] < 128 || i == 9 {
          SlebTailLast(bits, i, v, buf[pos]);
        } else {
          assert DecSlebFrom(bits, buf, pos + 1, i + 1).Ok?;
          SlebFromSound(bits, buf, pos + 1, i + 1);
          var w := DecSlebFrom(bits, buf, pos + 1, i + 1).value;
          FitsStep(bits - 7 * i, buf[pos] % 128, w);
          TailSlice(buf, pos, p);
          if bits == 64 || FitsFrom(bits, i, v) {
            SlebTailCons(bits, i, w, buf[pos..p]);
          }
        }
    }
  }

  lemma {:induction false} SlebFromComplete(bits: nat, buf: seq<byte>, pos: nat, i: nat, v: int, p: nat)
    requires 1 <= bits <= 64 && i < MaxBytes(bits)
    requires pos < p <= |buf| && SlebTail(bits, i, v, buf[pos..p])
    ensures DecSlebFrom(bits, buf, pos, i) == Ok(v, p)
    decreases MaxBytes(bits) - i
  {
    TailSlice(buf, pos, p);
    TerminatedTail(buf[pos..p]);
    if p == pos + 1 {
      assert buf[pos..p] == [buf[pos]];
      SlebTailLast(bits, i, v, buf[pos]);
    } else {
      SlebTailStep(bits, i, v, buf[pos..p]);
      SlebFromComplete(bits, buf, pos + 1, i + 1, SVal(buf[pos + 1..p]), p);
    }
  }

  /**
   `sleb(bits)` succeeds exactly on the padded encodings of the signed integers
   that fit `bits`: the range check of the narrow widths and the two patterns
   allowed in the tenth byte of an s64 are the same rule.
   */
  lemma SlebExact(bits: nat, buf: seq<byte>, pos: nat, v: int, p: nat)
    requires 1 <= bits <= 64
    ensures DecSleb(bits, buf, pos) == Ok(v, p) <==> pos <= p <= |buf| && IsSleb(bits, v, buf[pos..p])
  {
    SlebFromSound(bits, buf, pos, 0);
    if pos < p <= |buf| && SlebTail(bits, 0, v, buf[pos..p]) {
      SlebFromComplete(bits, buf, pos, 0, v, p);
    }
  }

  // ---------------------------------------------------------------------------
  // The encoders produce the shortest encoding
  // ---------------------------------------------------------------------------

  lemma {:induction false} UlebValue(v: nat)
    ensures Terminated(Uleb(v)) && UVal(Uleb(v)) == v
  {
    if v / 128 != 0 {
      UlebValue(v / 128);
      TerminatedTail(Uleb(v));
      assert Uleb(v)[1..] == Uleb(v / 128);
    }
  }

  lemma {:induction false} UlebLength(v: nat, n: nat)
    requires n > 0 && v < Pow2(7 * n)
    ensures |Uleb(v)| <= n
  {
    if v / 128 != 0 {
      Pow2Seven();
      if n > 1 {
        Pow2Step7(7 * (n - 1));
        UlebLength(v / 128, n - 1);
      }
    }
  }

  lemma {:induction false} UlebShortest(bs: seq<byte>)
    requires Terminated(bs)
    ensures |Uleb(UVal(bs))| <= |bs|
  {
    if |bs| > 1 {
      TerminatedTail(bs);
      UlebShortest(bs[1..]);
    }
  }

  lemma UlebIsUleb(bits: nat, v: nat)
    requires bits > 0 && v < Pow2(bits)
    ensures IsUleb(bits, v, Uleb(v))
  {
    UlebValue(v);
    Pow2Monotone(bits, 7 * MaxBytes(bits));
    UlebLength(v, MaxBytes(bits));
  }

  lemma {:induction false} SlebValue(v: int)
    ensures Terminated(Sleb(v)) && SVal(Sleb(v)) == v
    decreases if v < 0 then -v else v + 1
  {
    var b := v % 128;
    var rest := v / 128;
    if !((rest == 0 && b < 64) || (rest == -1 && b >= 64)) {
      SlebValue(rest);
      TerminatedTail(Sleb(v));
      assert Sleb(v)[1..] == Sleb(rest);
    }
  }

  lemma {:induction false} SlebLength(v: int, n: nat)
    requires n > 0 && FitsSigned(7 * n, v)
    ensures |Sleb(v)| <= n
    decreases if v < 0 then -v else v + 1
  {
    var b := v % 128;
    var rest := v / 128;
    Pow2Seven();
    if !((rest == 0 && b < 64) || (rest == -1 && b >= 64)) {
      if n > 1 {
        FitsStep(7 * n, b, rest);
        SlebLength(rest, n - 1);
      }
    }
  }

  lemma {:induction false} SlebShortest(bs: seq<byte>)
    requires Terminated(bs)
    ensures |Sleb(SVal(bs))| <= |bs|
  {
    if |bs| > 1 {
      TerminatedTail(bs);
      SlebShortest(bs[1..]);
    }
  }

  lemma SlebIsSleb(bits: nat, v: int)
    requires bits > 0 && FitsSigned(bits, v)
    ensures IsSleb(bits, v, Sleb(v))
  {
    SlebValue(v);
    Pow2Monotone(bits - 1, 7 * MaxBytes(bits) - 1);
    SlebLength(v, MaxBytes(bits));
  }
}
