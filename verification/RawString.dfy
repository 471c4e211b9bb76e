/**
 The raw string literal that embeds the schema in a C++ header: the search for a
 delimiter the schema cannot close, and what the literal reads back as.
 */
module RawString {
  import opened Bytes

  ghost predicate OccursAt(s: string, p: string, i: nat) {
    i + |p| <= |s| && s[i..i + |p|] == p
  }

  ghost predicate Occurs(s: string, p: string) {
    exists i :: OccursAt(s, p, i)
  }

  method Contains(s: string, p: string) returns (found: bool)
    ensures found <==> Occurs(s, p)
  {
    var i := 0;
    while i + |p| <= |s|
      invariant forall k :: 0 <= k < i ==> !OccursAt(s, p, k)
    {
      if s[i..i + |p|] == p {
        assert OccursAt(s, p, i);
        return true;
      }
      i := i + 1;
    }
    return false;
  }

  /** The `n`th delimiter: the bare word first, then with a number. */
  function Delimiter(n: nat): string {
    if n == 0 then "CRABGEN" else "CRABGEN" + Decimal(n)
  }

  function Closing(n: nat): string {
    ")" + Delimiter(n) + "\""
  }

  /** A closing sequence has its parenthesis only in front and its quote only at the end. */
  lemma ClosingShape(n: nat)
    ensures var c := Closing(n);
            && |c| >= 9 && c[0] == ')' && c[|c| - 1] == '"'
            && c[1..8] == "CRABGEN"
            && (forall i :: 0 < i < |c| ==> c[i] != ')')
            && (forall i :: 0 <= i < |c| - 1 ==> c[i] != '"')
            && c[1..|c| - 1] == Delimiter(n)
  {
    if n > 0 {
      DecimalDigits(n);
    }
  }

  lemma DelimiterInjective(m: nat, n: nat)
    requires Delimiter(m) == Delimiter(n)
    ensures m == n
  {
    DecimalDigits(m);
    DecimalDigits(n);
    assert |Delimiter(m)| > 7 <==> m > 0;
    assert |Delimiter(n)| > 7 <==> n > 0;
    if m > 0 {
      assert Delimiter(m)[7..] == Decimal(m) && Delimiter(n)[7..] == Decimal(n);
      DecimalInjective(m, n);
    }
  }

  /** Two closing sequences at one position are the same. */
  lemma PositionsDiffer(s: string, m: nat, n: nat, i: nat)
    requires OccursAt(s, Closing(m), i) && OccursAt(s, Closing(n), i)
    ensures m == n
  {
    var a, b := Closing(m), Closing(n);
    ClosingShape(m);
    ClosingShape(n);
    hide Delimiter;
    hide Closing;
    if |a| <= |b| {
      SameFront(s, a, b, i);
    } else {
      SameFront(s, b, a, i);
    }
    DelimiterInjective(m, n);
  }

  lemma SameFront(s: string, a: string, b: string, i: nat)
    requires OccursAt(s, a, i) && OccursAt(s, b, i) && 0 < |a| <= |b|
    requires a[|a| - 1] == '"' && forall k :: 0 <= k < |b| - 1 ==> b[k] != '"'
    ensures a == b
  {
    var last := |a| - 1;
    assert a[last] == s[i..i + |a|][last] == s[i + last];
    assert b[last] == s[i..i + |b|][last] == s[i + last];
  }

  lemma {:induction false} Pigeonhole(ps: seq<nat>, bound: nat)
    requires forall k :: 0 <= k < |ps| ==> ps[k] < bound
    requires forall j, k :: 0 <= j < k < |ps| ==> ps[j] != ps[k]
    ensures |ps| <= bound
  {
    var used := set k | 0 <= k < |ps| :: ps[k];
    UsedSize(ps);
    assert used <= Range(bound);
    SubsetSize(used, Range(bound));
  }

  ghost function Range(n: nat): (r: set<nat>)
    ensures |r| == n && forall i: nat :: i in r <==> i < n
  {
    if n == 0 then {} else Range(n - 1) + {n - 1}
  }

  lemma {:induction false} UsedSize(ps: seq<nat>)
    requires forall j, k :: 0 <= j < k < |ps| ==> ps[j] != ps[k]
    ensures |set k | 0 <= k < |ps| :: ps[k]| == |ps|
  {
    if ps != [] {
      var front, n := ps[..|ps| - 1], |ps| - 1;
      UsedSize(front);
      var before := set k | 0 <= k < |front| :: front[k];
      assert (set k | 0 <= k < |ps| :: ps[k]) == before + {ps[n]};
      assert ps[n] !in before;
    }
  }

  lemma {:induction false} SubsetSize<T>(a: set<T>, b: set<T>)
    requires a <= b
    ensures |a| <= |b|
  {
    assert b == a + (b - a);
  }

  /** Where each rejected delimiter was found; no position can reject two. */
  ghost predicate Rejections(schema: string, at: seq<nat>) {
    forall k :: 0 <= k < |at| ==> OccursAt(schema, Closing(k), at[k])
  }

  lemma FewRejections(schema: string, at: seq<nat>)
    requires Rejections(schema, at)
    ensures |at| <= |schema|
  {
    hide Closing;
    forall j, k | 0 <= j < k < |at| ensures at[j] != at[k] {
      if at[j] == at[k] {
        PositionsDiffer(schema, j, k, at[j]);
      }
    }
    forall k | 0 <= k < |at| ensures at[k] < |schema| {
      ClosingShape(k);
    }
    Pigeonhole(at, |schema|);
  }

  /**
   The search of `schema_json_h`. It ends for every schema, with the first delimiter
   whose closing sequence the schema does not contain.
   */
  method ChooseDelimiter(schema: string) returns (n: nat)
    ensures !Occurs(schema, Closing(n))
    ensures forall k :: 0 <= k < n ==> Occurs(schema, Closing(k))
    ensures n <= |schema|
  {
    hide Closing;
    n := 0;
    ghost var at: seq<nat> := [];
    var found := Contains(schema, Closing(0));
    while found
      invariant found <==> Occurs(schema, Closing(n))
      invariant |at| == n <= |schema| && Rejections(schema, at)
      decreases |schema| - n, found
    {
      ghost var i: nat :| OccursAt(schema, Closing(n), i);
      at := at + [i];
      FewRejections(schema, at);
      n := n + 1;
      found := Contains(schema, Closing(n));
    }
    forall k | 0 <= k < n ensures Occurs(schema, Closing(k)) {
      assert OccursAt(schema, Closing(k), at[k]);
    }
  }

  /** The literal after its opening quote and delimiter: the reader stops at the first closing sequence. */
  ghost predicate ReadsAs(body: string, n: nat, text: string) {
    && OccursAt(body, Closing(n), |text|)
    && body[..|text|] == text
    && forall i: nat :: i < |text| ==> !OccursAt(body, Closing(n), i)
  }

  /** The emitted literal reads back as exactly the schema: no closing sequence straddles its end. */
  lemma LiteralReadsBack(schema: string, n: nat)
    requires !Occurs(schema, Closing(n))
    ensures ReadsAs(schema + Closing(n) + ";\n", n, schema)
  {
    ClosingShape(n);
    hide Closing;
    var c := Closing(n);
    var body := schema + c + ";\n";
    assert body[|schema|..|schema| + |c|] == c;
    forall i: nat | i < |schema| ensures !OccursAt(body, c, i) {
      var k := |schema| - i;
      assert body[i + k] == c[0];
      if i + |c| <= |schema| {
        assert body[i..i + |c|] == schema[i..i + |c|];
        assert !OccursAt(schema, c, i);
      } else if i + |c| <= |body| {
        assert body[i..i + |c|][k] == body[i + k];
      }
    }
  }

  lemma {:induction false} DecimalShort(n: nat, d: nat)
    requires d > 0 && n < Pow10(d)
    ensures |Decimal(n)| <= d
  {
    if n >= 10 {
      if d > 1 {
        assert Pow10(d) == 10 * Pow10(d - 1);
        DecimalShort(n / 10, d - 1);
      }
    }
  }

  function Pow10(d: nat): nat {
    if d == 0 then 1 else 10 * Pow10(d - 1)
  }

  /** The delimiter stays within the 16 characters C++ allows, for schemas below 10^9 characters. */
  lemma DelimiterFits(schema: string, n: nat)
    requires n <= |schema| < 1000000000
    ensures |Delimiter(n)| <= 16
  {
    assert Pow10(9) == 1000000000 by {
      assert Pow10(3) == 1000;
      assert Pow10(6) == 1000 * Pow10(3);
      assert Pow10(9) == 1000 * Pow10(6);
    }
    DecimalShort(n, 9);
  }
}
