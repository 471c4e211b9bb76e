/**
 The names of the shared-shape classes of the AssemblyScript backend, and when they are
 unique to their shapes.
 */
module ShapeNames {
  import opened Bytes
  import opened Wire
  import opened Ir

  // ---------------------------------------------------------------------------
  // Names
  // ---------------------------------------------------------------------------

  function Upper(c: char): char {
    if 'a' <= c <= 'z' then (c as int - 32) as char else c
  }

  /** Kebab case to Pascal case; `start` says that a segment begins here. */
  function Pascal(kebab: string, start: bool): string {
    if kebab == "" then ""
    else if kebab[0] == '-' then Pascal(kebab[1..], true)
    else [if start then Upper(kebab[0]) else kebab[0]] + Pascal(kebab[1..], false)
  }

  function PrimToken(p: Type): string {
    match p
    case TBool => "Bool"
    case TUInt(w) => "U" + Decimal(Bits(w))
    case TSInt(w) => "S" + Decimal(Bits(w))
    case TFloat(double) => if double then "F64" else "F32"
    case TChar => "Char"
    case _ => "String"
  }

  /** `ty_token` */
  function Token(ty: Ty): string
    decreases ty, 0
  {
    match ty
    case Prim(p) => PrimToken(p)
    case List(t) => "List" + Token(t)
    case Opt(t) => "Option" + Token(t)
    case Tuple(ts) => "Tuple" + Decimal(|ts|) + Tokens(ts)
    case Res(o, e) => "Result" + SideToken(o) + SideToken(e)
    case Named(n) => Pascal(n, true)
    case _ => ""
  }

  function SideToken(side: Option<Ty>): string
    decreases side, 0
  {
    if side.Some? then Token(side.value) else "Void"
  }

  function Tokens(ts: seq<Ty>): string
    decreases ts, 0
  {
    if ts == [] then "" else Token(ts[0]) + Tokens(ts[1..])
  }

  // ---------------------------------------------------------------------------
  // Words
  // ---------------------------------------------------------------------------

  predicate IsUpper(c: char) {
    'A' <= c <= 'Z'
  }

  /** A place where a word can begin, or the end. */
  predicate Boundary(s: string) {
    s == "" || IsUpper(s[0])
  }

  predicate StartsUpper(s: string) {
    s != "" && IsUpper(s[0])
  }

  predicate OneWord(w: string) {
    StartsUpper(w) && forall i :: 0 < i < |w| ==> !IsUpper(w[i])
  }

  /** `k` is `h`, or `h` with more words behind it. */
  predicate Extends(h: string, k: string) {
    h <= k && Boundary(k[|h|..])
  }

  /** The words that begin the names of types without a name of their own. */
  ghost predicate Reserved(w: string) {
    || w in WORDS
    || exists n: nat :: w == "Tuple" + Decimal(n)
  }

  const WORDS: seq<string> := [
    "Bool", "U8", "U16", "U32", "U64", "S8", "S16", "S32", "S64", "F32", "F64", "Char", "String",
    "List", "Option", "Result", "Void"
  ]

  /**
   The names of a module keep apart: each begins with a letter, and none is a word of the
   generator or another name, alone or with more words behind it. Names of one word only
   have to be different and not reserved.
   */
  ghost predicate Apart(names: set<string>) {
    && (forall x :: x in names ==> StartsUpper(Pascal(x, true)))
    && (forall x, w :: x in names && Reserved(w) ==> !Extends(w, Pascal(x, true)) && !Extends(Pascal(x, true), w))
    && forall x, y :: x in names && y in names && x != y ==> !Extends(Pascal(x, true), Pascal(y, true))
  }

  // ---------------------------------------------------------------------------
  // Heads
  // ---------------------------------------------------------------------------

  /** What a token begins with. */
  function Head(ty: Ty): string {
    match ty
    case Prim(p) => PrimToken(p)
    case List(_) => "List"
    case Opt(_) => "Option"
    case Tuple(ts) => "Tuple" + Decimal(|ts|)
    case Res(_, _) => "Result"
    case Named(n) => Pascal(n, true)
    case _ => ""
  }

  function Rest(ty: Ty): string {
    match ty
    case List(t) => Token(t)
    case Opt(t) => Token(t)
    case Tuple(ts) => Tokens(ts)
    case Res(o, e) => SideToken(o) + SideToken(e)
    case _ => ""
  }

  lemma HeadAndRest(ty: Ty)
    ensures Token(ty) == Head(ty) + Rest(ty)
  {
  }

  lemma DecimalsOfWidths()
    ensures Decimal(8) == "8" && Decimal(16) == "16" && Decimal(32) == "32" && Decimal(64) == "64"
  {
    assert Decimal(1) == "1" && Decimal(3) == "3" && Decimal(6) == "6";
  }

  lemma LetterAndDigits(c: char, n: nat)
    requires IsUpper(c)
    ensures OneWord([c] + Decimal(n))
  {
    DecimalDigits(n);
  }

  lemma UnsignedListed(w: Width)
    ensures "U" + Decimal(Bits(w)) in WORDS
  {
    DecimalsOfWidths();
    hide Decimal;
    match w
    case W8 => assert "U" + "8" == WORDS[1];
    case W16 => assert "U" + "16" == WORDS[2];
    case W32 => assert "U" + "32" == WORDS[3];
    case W64 => assert "U" + "64" == WORDS[4];
  }

  lemma SignedListed(w: Width)
    ensures "S" + Decimal(Bits(w)) in WORDS
  {
    DecimalsOfWidths();
    hide Decimal;
    match w
    case W8 => assert "S" + "8" == WORDS[5];
    case W16 => assert "S" + "16" == WORDS[6];
    case W32 => assert "S" + "32" == WORDS[7];
    case W64 => assert "S" + "64" == WORDS[8];
  }

  lemma PrimIsWord(p: Type)
    requires IsPrim(p)
    ensures PrimToken(p) in WORDS && OneWord(PrimToken(p))
  {
    hide Decimal;
    match p
    case TBool => assert WORDS[0] == "Bool";
    case TUInt(w) =>
      UnsignedListed(w);
      LetterAndDigits('U', Bits(w));
    case TSInt(w) =>
      SignedListed(w);
      LetterAndDigits('S', Bits(w));
    case TFloat(d) => assert WORDS[9] == "F32" && WORDS[10] == "F64";
    case TChar => assert WORDS[11] == "Char";
    case TString => assert WORDS[12] == "String";
  }

  lemma TupleIsWord(n: nat)
    ensures OneWord("Tuple" + Decimal(n)) && Reserved("Tuple" + Decimal(n))
  {
    DecimalDigits(n);
    var w := "Tuple" + Decimal(n);
    forall i | 0 < i < |w| ensures !IsUpper(w[i]) {
      assert i >= 5 ==> w[i] == Decimal(n)[i - 5];
    }
  }

  lemma HeadIsWord(ty: Ty)
    requires ty.Prim? ==> IsPrim(ty.p)
    requires ty.Prim? || ty.List? || ty.Opt? || ty.Tuple? || ty.Res?
    ensures OneWord(Head(ty)) && Reserved(Head(ty))
  {
    match ty
    case Prim(p) => PrimIsWord(p);
    case List(_) => assert WORDS[13] == "List";
    case Opt(_) => assert WORDS[14] == "Option";
    case Tuple(ts) => TupleIsWord(|ts|);
    case Res(_, _) => assert WORDS[15] == "Result";
  }

  lemma VoidIsWord()
    ensures OneWord("Void") && Reserved("Void")
  {
    assert WORDS[16] == "Void";
  }

  lemma TwoHeads(h: string, k: string, s: string, t: string)
    requires h + s == k + t && Boundary(s) && Boundary(t)
    ensures Extends(h, k) || Extends(k, h)
    ensures h == k ==> s == t
  {
    if |h| <= |k| {
      assert h == (h + s)[..|h|] == (k + t)[..|h|] == k[..|h|];
      if |h| < |k| {
        assert (h + s)[|h|] == s[0] == (k + t)[|h|] == k[|h|];
      }
    } else {
      assert k == (k + t)[..|k|] == (h + s)[..|k|] == h[..|k|];
      assert (k + t)[|k|] == t[0] == (h + s)[|k|] == h[|k|];
    }
    if h == k {
      assert s == (h + s)[|h|..] == (k + t)[|k|..] == t;
    }
  }

  lemma WordsApart(w: string, v: string)
    requires OneWord(w) && OneWord(v) && Extends(w, v)
    ensures w == v
  {
    assert v == w + v[|w|..];
  }

  // ---------------------------------------------------------------------------
  // Tokens of distinct types are distinct
  // ---------------------------------------------------------------------------

  lemma HeadStartsUpper(m: Module, ty: Ty, r: nat)
    requires Apart(m.types.Keys) && Placed(m, ty, r)
    ensures StartsUpper(Head(ty)) && StartsUpper(Token(ty))
    ensures !ty.Named? ==> OneWord(Head(ty)) && Reserved(Head(ty))
  {
    hide Pascal;
    HeadAndRest(ty);
    if !ty.Named? {
      HeadIsWord(ty);
    } else {
      NameKept(m, ty, r);
    }
  }

  lemma NameKept(m: Module, ty: Ty, r: nat)
    requires Placed(m, ty, r) && ty.Named?
    ensures ty.name in m.types.Keys
  {
  }

  lemma SideStartsUpper(m: Module, side: Option<Ty>, r: nat)
    requires Apart(m.types.Keys) && SidePlaced(m, side, r)
    ensures StartsUpper(SideToken(side))
  {
    if side.Some? {
      HeadStartsUpper(m, side.value, r);
    }
  }

  lemma RestBoundary(m: Module, ty: Ty, r: nat, s: string)
    requires Apart(m.types.Keys) && Placed(m, ty, r) && Boundary(s)
    ensures Boundary(Rest(ty) + s)
  {
    hide Apart;
    match ty
    case List(t) => HeadStartsUpper(m, t, r);
    case Opt(t) => HeadStartsUpper(m, t, r);
    case Tuple(ts) => if ts != [] { HeadStartsUpper(m, ts[0], r); }
    case Res(o, e) => SideStartsUpper(m, o, r);
    case Prim(_) => assert "" + s == s;
    case Named(_) => assert "" + s == s;
    case _ =>
  }

  /** The head tells whether a type has a name, and which. */
  lemma HeadsDecide(m: Module, a: Ty, b: Ty, r: nat)
    requires Apart(m.types.Keys) && Placed(m, a, r) && Placed(m, b, r)
    requires Extends(Head(a), Head(b))
    ensures Head(a) == Head(b)
    ensures a.Named? || b.Named? ==> a == b
  {
    hide Pascal;
    hide Reserved;
    HeadStartsUpper(m, a, r);
    HeadStartsUpper(m, b, r);
    if a.Named? {
      NameKept(m, a, r);
    }
    if b.Named? {
      NameKept(m, b, r);
    }
    if !a.Named? && !b.Named? {
      WordsApart(Head(a), Head(b));
    }
  }

  /** Equal words come from types of one form: one number of members, one primitive. */
  lemma SameWord(a: Ty, b: Ty)
    requires !a.Named? && !b.Named? && (a.Prim? ==> IsPrim(a.p)) && (b.Prim? ==> IsPrim(b.p))
    requires Head(a) == Head(b) != ""
    ensures a.Prim? ==> a == b
    ensures a.List? <==> b.List?
    ensures a.Opt? <==> b.Opt?
    ensures a.Res? <==> b.Res?
    ensures a.Tuple? <==> b.Tuple?
    ensures a.Tuple? ==> |a.ts| == |b.ts|
  {
    DecimalsOfWidths();
    if a.Tuple? {
      TupleHead(a.ts, Head(b));
    }
    if b.Tuple? {
      TupleHead(b.ts, Head(a));
    }
    if a.Tuple? && b.Tuple? {
      assert Decimal(|a.ts|) == Head(a)[5..] == Head(b)[5..] == Decimal(|b.ts|);
      DecimalInjective(|a.ts|, |b.ts|);
    } else if a.Prim? && b.Prim? {
      SamePrim(a.p, b.p);
    }
  }

  lemma TupleHead(ts: seq<Ty>, w: string)
    requires w == Head(Tuple(ts))
    ensures |w| > 5 && w[0] == 'T'
  {
    DecimalDigits(|ts|);
  }

  lemma SamePrim(p: Type, q: Type)
    requires IsPrim(p) && IsPrim(q) && PrimToken(p) == PrimToken(q)
    ensures p == q
  {
    DecimalsOfWidths();
    var v, w := PrimToken(p), PrimToken(q);
    assert v[0] == w[0] && |v| == |w|;
    if |v| > 1 {
      assert v[1] == w[1];
    }
  }

  /** A token is read back: what it is the token of, and where it ends. */
  lemma {:induction false} TokenUnique(m: Module, a: Ty, b: Ty, r: nat, s: string, t: string)
    requires Apart(m.types.Keys) && Placed(m, a, r) && Placed(m, b, r)
    requires Token(a) + s == Token(b) + t && Boundary(s) && Boundary(t)
    ensures a == b && s == t
    decreases a, 2
  {
    hide Apart;
    hide Token;
    hide Head;
    hide Rest;
    HeadAndRest(a);
    HeadAndRest(b);
    RestBoundary(m, a, r, s);
    RestBoundary(m, b, r, t);
    assert Head(a) + (Rest(a) + s) == Token(a) + s;
    assert Head(b) + (Rest(b) + t) == Token(b) + t;
    TwoHeads(Head(a), Head(b), Rest(a) + s, Rest(b) + t);
    if Extends(Head(a), Head(b)) {
      HeadsDecide(m, a, b, r);
    } else {
      HeadsDecide(m, b, a, r);
    }
    TwoHeads(Head(a), Head(b), Rest(a) + s, Rest(b) + t);
    HeadStartsUpper(m, a, r);
    RestUnique(m, a, b, r, s, t);
  }

  lemma {:induction false} RestUnique(m: Module, a: Ty, b: Ty, r: nat, s: string, t: string)
    requires Apart(m.types.Keys) && Placed(m, a, r) && Placed(m, b, r)
    requires Head(a) == Head(b) != "" && (a.Named? || b.Named? ==> a == b)
    requires Rest(a) + s == Rest(b) + t && Boundary(s) && Boundary(t)
    ensures a == b && s == t
    decreases a, 1
  {
    hide Apart;
    hide Token;
    hide Head;
    hide Resolve;
    if a.Named? || b.Named? {
      assert Rest(a) == Rest(b) == "" && "" + s == s && "" + t == t;
    } else {
      SameWord(a, b);
      match a
      case List(x) => TokenUnique(m, x, b.t, r, s, t);
      case Opt(x) => TokenUnique(m, x, b.t, r, s, t);
      case Tuple(ts) => TokensUnique(m, ts, b.ts, r, s, t);
      case Res(_, _) => SidesUnique(m, a, b, r, s, t);
      case Prim(_) => assert "" + s == s && "" + t == t;
      case _ =>
    }
  }

  lemma {:induction false} SidesUnique(m: Module, a: Ty, b: Ty, r: nat, s: string, t: string)
    requires Apart(m.types.Keys) && a.Res? && b.Res? && Placed(m, a, r) && Placed(m, b, r)
    requires SideToken(a.ok) + SideToken(a.err) + s == SideToken(b.ok) + SideToken(b.err) + t
    requires Boundary(s) && Boundary(t)
    ensures a == b && s == t
    decreases a, 0
  {
    hide Apart;
    hide SideToken;
    var x, y := SideToken(a.err) + s, SideToken(b.err) + t;
    assert SideToken(a.ok) + x == SideToken(a.ok) + SideToken(a.err) + s;
    assert SideToken(b.ok) + y == SideToken(b.ok) + SideToken(b.err) + t;
    SideStartsUpper(m, a.err, r);
    SideStartsUpper(m, b.err, r);
    SideUnique(m, a.ok, b.ok, r, x, y);
    SideUnique(m, a.err, b.err, r, s, t);
  }

  lemma {:induction false} TokensUnique(m: Module, xs: seq<Ty>, ys: seq<Ty>, r: nat, s: string, t: string)
    requires Apart(m.types.Keys) && AllPlaced(m, xs, r) && AllPlaced(m, ys, r) && |xs| == |ys|
    requires Tokens(xs) + s == Tokens(ys) + t && Boundary(s) && Boundary(t)
    ensures xs == ys && s == t
    decreases xs, 0
  {
    hide Apart;
    hide Token;
    if xs == [] {
      assert "" + s == s && "" + t == t;
    } else {
      var u, v := Tokens(xs[1..]) + s, Tokens(ys[1..]) + t;
      assert Token(xs[0]) + u == Tokens(xs) + s && Token(ys[0]) + v == Tokens(ys) + t;
      TokensBoundary(m, xs[1..], r, s);
      TokensBoundary(m, ys[1..], r, t);
      TokenUnique(m, xs[0], ys[0], r, u, v);
      TokensUnique(m, xs[1..], ys[1..], r, s, t);
      assert xs == [xs[0]] + xs[1..] && ys == [ys[0]] + ys[1..];
    }
  }

  lemma TokensBoundary(m: Module, ts: seq<Ty>, r: nat, s: string)
    requires Apart(m.types.Keys) && AllPlaced(m, ts, r) && Boundary(s)
    ensures Boundary(Tokens(ts) + s)
  {
    hide Apart;
    if ts == [] {
      assert "" + s == s;
    } else {
      HeadStartsUpper(m, ts[0], r);
    }
  }

  lemma {:induction false} SideUnique(m: Module, a: Option<Ty>, b: Option<Ty>, r: nat, s: string, t: string)
    requires Apart(m.types.Keys) && SidePlaced(m, a, r) && SidePlaced(m, b, r)
    requires SideToken(a) + s == SideToken(b) + t && Boundary(s) && Boundary(t)
    ensures a == b && s == t
    decreases a, 0
  {
    hide Apart;
    hide Token;
    if a.Some? && b.Some? {
      TokenUnique(m, a.value, b.value, r, s, t);
    } else if a.Some? {
      NotVoid(m, a.value, r, s, t);
    } else if b.Some? {
      NotVoid(m, b.value, r, t, s);
    } else {
      TwoHeads("Void", "Void", s, t);
    }
  }

  lemma NotVoid(m: Module, a: Ty, r: nat, s: string, t: string)
    requires Apart(m.types.Keys) && Placed(m, a, r) && Boundary(s) && Boundary(t)
    ensures Token(a) + s != "Void" + t
  {
    hide Apart;
    hide Token;
    hide Head;
    hide Rest;
    hide Placed;
    if Token(a) + s == "Void" + t {
      HeadAndRest(a);
      RestBoundary(m, a, r, s);
      assert Head(a) + (Rest(a) + s) == Token(a) + s;
      TwoHeads(Head(a), "Void", Rest(a) + s, t);
      HeadAwayFromVoid(m, a, r);
      assert false;
    }
  }

  lemma HeadAwayFromVoid(m: Module, a: Ty, r: nat)
    requires Apart(m.types.Keys) && Placed(m, a, r)
    ensures !Extends(Head(a), "Void") && !Extends("Void", Head(a))
  {
    hide Pascal;
    hide Reserved;
    hide Extends;
    hide OneWord;
    VoidIsWord();
    HeadStartsUpper(m, a, r);
    if a.Named? {
      NameKept(m, a, r);
    } else {
      HeadIsNotVoid(a);
      NoExtension(Head(a), "Void");
    }
  }

  lemma HeadIsNotVoid(a: Ty)
    requires !a.Named? && (a.Prim? ==> IsPrim(a.p))
    ensures Head(a) != "Void"
  {
    DecimalsOfWidths();
    var h := Head(a);
    assert h == "" || h[0] != 'V';
  }

  /** Where the names keep apart, no two types share a token. */
  lemma TokensDiffer(m: Module, a: Ty, b: Ty, r: nat)
    requires Apart(m.types.Keys) && Placed(m, a, r) && Placed(m, b, r) && a != b
    ensures Token(a) != Token(b)
  {
    if Token(a) == Token(b) {
      assert Token(a) + "" == Token(b) + "";
      TokenUnique(m, a, b, r, "", "");
    }
  }

  /** Names of one word keep apart as soon as they are spelled differently and not reserved. */
  lemma OneWordNames(names: set<string>)
    requires forall x :: x in names ==> OneWord(Pascal(x, true)) && !Reserved(Pascal(x, true))
    requires forall x, y :: x in names && y in names && x != y ==> Pascal(x, true) != Pascal(y, true)
    ensures Apart(names)
  {
    hide Pascal;
    forall x, w | x in names && Reserved(w)
      ensures !Extends(w, Pascal(x, true)) && !Extends(Pascal(x, true), w)
    {
      ReservedIsOneWord(w);
      NoExtension(Pascal(x, true), w);
    }
    forall x, y | x in names && y in names && x != y ensures !Extends(Pascal(x, true), Pascal(y, true)) {
      NoExtension(Pascal(x, true), Pascal(y, true));
    }
  }

  lemma NoExtension(w: string, v: string)
    requires OneWord(w) && OneWord(v) && w != v
    ensures !Extends(w, v) && !Extends(v, w)
  {
    if Extends(w, v) {
      WordsApart(w, v);
    }
    if Extends(v, w) {
      WordsApart(v, w);
    }
  }

  lemma ReservedIsOneWord(w: string)
    requires Reserved(w)
    ensures OneWord(w)
  {
    if w !in WORDS {
      var n: nat :| w == "Tuple" + Decimal(n);
      TupleIsWord(n);
    }
  }

  // ---------------------------------------------------------------------------
  // Spellings
  // ---------------------------------------------------------------------------

  function Capital(segment: string): string {
    if segment == "" then "" else [Upper(segment[0])] + segment[1..]
  }

  lemma PascalStep(c: char, rest: string, start: bool)
    requires c != '-'
    ensures Pascal([c] + rest, start) == [if start then Upper(c) else c] + Pascal(rest, false)
  {
    assert ([c] + rest)[1..] == rest;
  }

  lemma PascalHyphen(b: string, start: bool)
    ensures Pascal("-" + b, start) == Pascal(b, true)
  {
    assert ("-" + b)[1..] == b;
  }

  lemma Regroup(a: string, b: string)
    requires a != ""
    ensures a == [a[0]] + a[1..]
    ensures a + "-" + b == [a[0]] + (a[1..] + "-" + b)
  {
  }

  lemma Joined(a: string, b: string, c: string)
    ensures a + (b + c) == a + b + c
  {
  }

  lemma {:induction false} PascalTail(a: string, b: string)
    requires '-' !in a
    ensures Pascal(a, false) == a
    ensures Pascal(a + "-" + b, false) == a + Pascal(b, true)
  {
    hide Pascal;
    if a == "" {
      PascalEmpty(false);
      assert a + "-" + b == "-" + b && a + Pascal(b, true) == Pascal(b, true);
      PascalHyphen(b, false);
    } else {
      var c, rest := a[0], a[1..];
      Regroup(a, b);
      PascalTail(rest, b);
      PascalStep(c, rest, false);
      PascalStep(c, rest + "-" + b, false);
      Joined([c], rest, Pascal(b, true));
    }
  }

  lemma PascalEmpty(start: bool)
    ensures Pascal("", start) == ""
  {
  }

  /** A name is spelled by its segments, each with a capital and without the hyphens. */
  lemma PascalSplits(a: string, b: string)
    requires '-' !in a
    ensures Pascal(a, true) == Capital(a)
    ensures Pascal(a + "-" + b, true) == Capital(a) + Pascal(b, true)
  {
    hide Pascal;
    if a == "" {
      PascalEmpty(true);
      assert a + "-" + b == "-" + b && Capital(a) + Pascal(b, true) == Pascal(b, true);
      PascalHyphen(b, true);
    } else {
      var c, rest := a[0], a[1..];
      Regroup(a, b);
      PascalTail(rest, b);
      PascalStep(c, rest, true);
      PascalStep(c, rest + "-" + b, true);
      Joined([Upper(c)], rest, Pascal(b, true));
    }
  }

  /** The spellings of the forms of types. */
  lemma TokenSpellings()
    ensures Token(Res(Some(Prim(TUInt(W32))), Some(Named("x-err")))) == "ResultU32XErr"
    ensures Token(Res(None, Some(Prim(TFloat(true))))) == "ResultVoidF64"
    ensures Token(Tuple([Prim(TString), List(Prim(TUInt(W8)))])) == "Tuple2StringListU8"
    ensures Token(Opt(Opt(Prim(TBool)))) == "OptionOptionBool"
  {
    hide PrimToken;
    hide Pascal;
    PrimSpellings();
    XErr();
    var ty := List(Prim(TUInt(W8)));
    assert [Prim(TString), ty][1..] == [ty];
    TokensOne(ty);
    assert Tokens([Prim(TString), ty]) == "String" + "ListU8";
    assert Decimal(2) == "2";
    assert "Result" + "U32" + "XErr" == "ResultU32XErr";
    assert "Result" + "Void" + "F64" == "ResultVoidF64";
    assert "Tuple" + "2" + ("String" + "ListU8") == "Tuple2StringListU8";
    assert "Option" + "Bool" == "OptionBool";
    assert "Option" + "OptionBool" == "OptionOptionBool";
  }

  lemma PrimSpellings()
    ensures PrimToken(TBool) == "Bool" && PrimToken(TChar) == "Char" && PrimToken(TString) == "String"
    ensures PrimToken(TUInt(W8)) == "U8" && PrimToken(TUInt(W32)) == "U32" && PrimToken(TSInt(W16)) == "S16"
    ensures PrimToken(TFloat(true)) == "F64" && PrimToken(TFloat(false)) == "F32"
  {
    DecimalsOfWidths();
  }

  lemma XErr()
    ensures Pascal("x-err", true) == "XErr"
  {
    hide Pascal;
    assert "x-err" == "x" + "-" + "err";
    PascalSplits("x", "err");
    PascalSplits("err", "");
    assert Capital("x") + Capital("err") == "XErr" by {
      assert "x"[1..] == "" && "err"[1..] == "rr";
    }
  }

  lemma TokensOne(ty: Ty)
    ensures Tokens([ty]) == Token(ty)
  {
    assert [ty][1..] == [] && Token(ty) + "" == Token(ty);
  }

  // ---------------------------------------------------------------------------
  // Where the names do not keep apart
  // ---------------------------------------------------------------------------

  /** Names are not unique to types: two tuples can spell one class name. */
  lemma TokensCollide()
    ensures var a, b := Tuple([Named("a-b"), Named("c")]), Tuple([Named("a"), Named("b-c")]);
            a != b && Token(a) == Token(b) == "Tuple2ABC"
  {
    PascalExamples();
    hide Pascal;
    var x, y := [Named("a-b"), Named("c")], [Named("a"), Named("b-c")];
    assert x[0] != y[0];
    assert x[1..] == [Named("c")] && y[1..] == [Named("b-c")];
    TokensOne(Named("c"));
    TokensOne(Named("b-c"));
    assert "AB" + "C" == "ABC" && "A" + "BC" == "ABC";
    assert Tokens(x) == Tokens(y) == "ABC" && Decimal(2) == "2";
    hide Tokens;
  }

  lemma PascalExamples()
    ensures Pascal("a-b", true) == "AB" && Pascal("c", true) == "C"
    ensures Pascal("a", true) == "A" && Pascal("b-c", true) == "BC"
  {
    assert "a-b"[1..] == "-b" && "-b"[1..] == "b" && "b"[1..] == "";
    assert "b-c"[1..] == "-c" && "-c"[1..] == "c" && "c"[1..] == "" && "a"[1..] == "";
  }
}
