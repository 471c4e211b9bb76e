/**
 Definition-before-use order of the named types (`emit_order` of the C++ backend):
 a depth-first, three-colour topological sort.
 */
module EmitOrder {
  import opened Bytes
  import opened Ir

  // ---------------------------------------------------------------------------
  // The dependency graph
  // ---------------------------------------------------------------------------

  /** The names a type mentions, in order. */
  function Deps(ty: Ty): seq<string>
    decreases ty, 0
  {
    match ty
    case Named(n) => [n]
    case List(t) => Deps(t)
    case Opt(t) => Deps(t)
    case Tuple(ts) => AllDeps(ts)
    case Record(ts) => AllDeps(ts)
    case Variant(cs) => CaseDeps(cs)
    case Res(o, e) => SideDeps(o) + SideDeps(e)
    case _ => []
  }

  function SideDeps(side: Option<Ty>): seq<string>
    decreases side, 0
  {
    if side.Some? then Deps(side.value) else []
  }

  function AllDeps(ts: seq<Ty>): seq<string>
    decreases ts, 0
  {
    if ts == [] then [] else Deps(ts[0]) + AllDeps(ts[1..])
  }

  function CaseDeps(cs: seq<Option<Ty>>): seq<string>
    decreases cs, 0
  {
    if cs == [] then [] else SideDeps(cs[0]) + CaseDeps(cs[1..])
  }

  datatype Decl = Decl(name: string, ty: Ty)

  function IndexOf(decls: seq<Decl>, name: string): Option<nat> {
    if decls == [] then None
    else if decls[0].name == name then Some(0)
    else match IndexOf(decls[1..], name) case None => None case Some(i) => Some(i + 1)
  }

  /** Mentions of names that are not declared are ignored. */
  function Targets(decls: seq<Decl>, names: seq<string>): seq<nat> {
    if names == [] then []
    else
      var rest := Targets(decls, names[1..]);
      match IndexOf(decls, names[0]) case None => rest case Some(j) => [j] + rest
  }

  /** For every declaration the declarations its type mentions. */
  function Graph(decls: seq<Decl>): seq<seq<nat>> {
    seq(|decls|, i requires 0 <= i < |decls| => Targets(decls, Deps(decls[i].ty)))
  }

  lemma {:induction false} IndexOfIsIndex(decls: seq<Decl>, name: string)
    ensures match IndexOf(decls, name)
            case Some(i) => i < |decls| && decls[i].name == name
            case None => forall i :: 0 <= i < |decls| ==> decls[i].name != name
  {
    if decls != [] {
      IndexOfIsIndex(decls[1..], name);
    }
  }

  lemma {:induction false} TargetsExact(decls: seq<Decl>, names: seq<string>, j: nat)
    ensures j in Targets(decls, names) <==> exists name :: name in names && IndexOf(decls, name) == Some(j)
    ensures j in Targets(decls, names) ==> j < |decls|
  {
    if names != [] {
      TargetsExact(decls, names[1..], j);
      IndexOfIsIndex(decls, names[0]);
      assert forall name :: name in names <==> name == names[0] || name in names[1..];
    }
  }

  /** The collected names are those that stand anywhere in the tree. */
  lemma {:induction false} DepsExact(ty: Ty, name: string)
    ensures name in Deps(ty) <==> Mentions(ty, name)
    decreases ty, 0
  {
    match ty
    case List(t) => DepsExact(t, name);
    case Opt(t) => DepsExact(t, name);
    case Tuple(ts) => AllDepsExact(ts, name);
    case Record(ts) => AllDepsExact(ts, name);
    case Variant(cs) => CaseDepsExact(cs, name);
    case Res(o, e) =>
      SideDepsExact(o, name);
      SideDepsExact(e, name);
    case _ =>
  }

  lemma {:induction false} SideDepsExact(side: Option<Ty>, name: string)
    ensures name in SideDeps(side) <==> side.Some? && Mentions(side.value, name)
    decreases side, 0
  {
    if side.Some? {
      DepsExact(side.value, name);
    }
  }

  lemma {:induction false} AllDepsExact(ts: seq<Ty>, name: string)
    ensures name in AllDeps(ts) <==> exists i :: 0 <= i < |ts| && Mentions(ts[i], name)
    decreases ts, 0
  {
    hide PartOf;
    if ts != [] {
      DepsExact(ts[0], name);
      AllDepsExact(ts[1..], name);
      assert forall i :: 0 < i < |ts| ==> ts[i] == ts[1..][i - 1];
    }
  }

  lemma {:induction false} CaseDepsExact(cs: seq<Option<Ty>>, name: string)
    ensures name in CaseDeps(cs) <==> exists i :: 0 <= i < |cs| && cs[i].Some? && Mentions(cs[i].value, name)
    decreases cs, 0
  {
    hide PartOf;
    if cs != [] {
      SideDepsExact(cs[0], name);
      CaseDepsExact(cs[1..], name);
      assert forall i :: 0 < i < |cs| ==> cs[i] == cs[1..][i - 1];
    }
  }

  ghost predicate DistinctNames(decls: seq<Decl>) {
    forall a, b :: 0 <= a < b < |decls| ==> decls[a].name != decls[b].name
  }

  /** The type of declaration `i` mentions declaration `j`. */
  ghost predicate Uses(decls: seq<Decl>, i: nat, j: nat) {
    i < |decls| && j < |decls| && Mentions(decls[i].ty, decls[j].name)
  }

  /** There is an edge exactly where one declaration mentions another. */
  lemma GraphExact(decls: seq<Decl>, i: nat, j: nat)
    requires DistinctNames(decls)
    ensures |Graph(decls)| == |decls|
    ensures i < |decls| && j in Graph(decls)[i] <==> Uses(decls, i, j)
  {
    hide PartOf;
    hide Deps;
    if i < |decls| {
      var names := Deps(decls[i].ty);
      TargetsExact(decls, names, j);
      if j < |decls| {
        var name := decls[j].name;
        IndexOfIsIndex(decls, name);
        DepsExact(decls[i].ty, name);
        if j in Graph(decls)[i] {
          var other :| other in names && IndexOf(decls, other) == Some(j);
          IndexOfIsIndex(decls, other);
        }
      }
    }
  }

  lemma GraphWellFormed(decls: seq<Decl>)
    ensures WellFormed(Graph(decls))
  {
    var g := Graph(decls);
    forall i, j | 0 <= i < |g| && j in g[i] ensures j < |g| {
      TargetsExact(decls, Deps(decls[i].ty), j);
    }
  }

  type Nodes = seq<seq<nat>>

  ghost predicate WellFormed(g: Nodes) {
    forall i, j :: 0 <= i < |g| && j in g[i] ==> j < |g|
  }

  ghost predicate Path(g: Nodes, p: seq<nat>) {
    && |p| > 0
    && (forall k :: 0 <= k < |p| ==> p[k] < |g|)
    && forall k :: 0 <= k < |p| - 1 ==> p[k + 1] in g[p[k]]
  }

  ghost predicate Reaches(g: Nodes, i: nat, j: nat) {
    exists p :: Path(g, p) && p[0] == i && p[|p| - 1] == j
  }

  /** Some type contains itself. */
  ghost predicate Cyclic(g: Nodes) {
    exists p :: Path(g, p) && |p| > 1 && p[0] == p[|p| - 1]
  }

  lemma ReachesStep(g: Nodes, i: nat, j: nat, k: nat)
    requires i < |g| && j in g[i] && Reaches(g, j, k)
    ensures Reaches(g, i, k)
  {
    var p :| Path(g, p) && p[0] == j && p[|p| - 1] == k;
    var q := [i] + p;
    forall a | 0 <= a < |q| - 1 ensures q[a + 1] in g[q[a]] {
      if a > 0 { assert q[a] == p[a - 1] && q[a + 1] == p[a]; }
    }
    assert Path(g, q) && q[0] == i && q[|q| - 1] == k;
  }

  lemma ReachesSelf(g: Nodes, i: nat)
    requires i < |g|
    ensures Reaches(g, i, i)
  {
    assert Path(g, [i]);
  }

  // ---------------------------------------------------------------------------
  // What an order must be
  // ---------------------------------------------------------------------------

  ghost predicate Distinct(s: seq<nat>) {
    forall a, b :: 0 <= a < b < |s| ==> s[a] != s[b]
  }

  /** Everything a type mentions stands before it. */
  ghost predicate DepsFirst(g: Nodes, order: seq<nat>) {
    && (forall k :: 0 <= k < |order| ==> order[k] < |g|)
    && forall k, d :: 0 <= k < |order| && d in g[order[k]] ==> d in order[..k]
  }

  ghost predicate Permutes(g: Nodes, order: seq<nat>) {
    Distinct(order) && forall i: nat :: i in order <==> i < |g|
  }

  /** Some declaration before `n` needs `j`. */
  ghost predicate FromRoot(g: Nodes, n: nat, j: nat) {
    exists k: nat :: k < n && Reaches(g, k, j)
  }

  /** A type overtakes an earlier one only if it is needed by one declared no later than that. */
  ghost predicate Stable(g: Nodes, order: seq<nat>) {
    forall a, b :: 0 <= a < b < |order| && order[b] < order[a] ==>
      FromRoot(g, order[b] + 1, order[a])
  }

  lemma {:induction false} PathDescends(g: Nodes, order: seq<nat>, p: seq<nat>, k: nat) returns (a: nat)
    requires DepsFirst(g, order) && Permutes(g, order) && Path(g, p) && k < |order| && order[k] == p[0]
    ensures a <= k && a < |order| && order[a] == p[|p| - 1] && (|p| > 1 ==> a < k)
    decreases |p|
  {
    if |p| == 1 {
      a := k;
    } else {
      assert p[1] in g[p[0]];
      assert p[1] in order[..k];
      var k' :| 0 <= k' < k && order[k'] == p[1];
      var q := p[1..];
      forall i | 0 <= i < |q| - 1 ensures q[i + 1] in g[q[i]] {
        assert p[i + 2] in g[p[i + 1]];
      }
      a := PathDescends(g, order, q, k');
    }
  }

  /** An order with dependencies first exists only for acyclic graphs. */
  lemma OrderedIsAcyclic(g: Nodes, order: seq<nat>)
    requires DepsFirst(g, order) && Permutes(g, order)
    ensures !Cyclic(g)
  {
    if Cyclic(g) {
      var p :| Path(g, p) && |p| > 1 && p[0] == p[|p| - 1];
      assert p[0] in order;
      var k :| 0 <= k < |order| && order[k] == p[0];
      var a := PathDescends(g, order, p, k);
    }
  }

  // ---------------------------------------------------------------------------
  // The sort
  // ---------------------------------------------------------------------------

  datatype Colour = Unvisited | InProgress | Done

  class Sorter {
    const g: Nodes
    const state: array<Colour>
    var order: seq<nat>

    ghost predicate Valid()
      reads this, state
    {
      && WellFormed(g) && state.Length == |g|
      && Distinct(order) && DepsFirst(g, order)
      && forall i :: 0 <= i < |g| ==> (state[i] == Done <==> i in order)
    }

    /** The nodes in progress are the ones on the way from the root to here. */
    ghost predicate OnStack(stack: seq<nat>)
      requires Valid()
      reads this, state
    {
      && (stack != [] ==> Path(g, stack))
      && forall i :: 0 <= i < |g| ==> (state[i] == InProgress <==> i in stack)
    }

    ghost function Fresh(): set<nat>
      requires Valid()
      reads this, state
    {
      set i: nat | i < |g| && state[i] == Unvisited
    }

    constructor (g: Nodes)
      requires WellFormed(g)
      ensures Valid() && OnStack([]) && this.g == g && order == [] && fresh(state)
      ensures forall i :: 0 <= i < |g| ==> state[i] == Unvisited
    {
      this.g := g;
      state := new Colour[|g|](_ => Unvisited);
      order := [];
    }

    /** Depth-first from `i`; false means that `i` leads back into the stack. */
    method Visit(i: nat, ghost stack: seq<nat>) returns (ok: bool)
      requires Valid() && OnStack(stack) && i < |g|
      requires stack != [] ==> i in g[stack[|stack| - 1]]
      modifies this, state
      ensures !ok ==> Cyclic(g)
      ensures ok ==> Valid() && OnStack(stack) && state[i] == Done
      ensures ok ==> Fresh() <= old(Fresh()) && old(order) <= order
      ensures ok ==> forall j :: j in order && j !in old(order) ==> Reaches(g, i, j)
      decreases Fresh()
    {
      hide Path;
      hide Reaches;
      hide Distinct;
      hide DepsFirst;
      hide Cyclic;
      if state[i] == Done {
        return true;
      }
      if state[i] == InProgress {
        ghost var k :| 0 <= k < |stack| && stack[k] == i;
        CycleOnStack(g, stack, k, i);
        return false;
      }
      ghost var before := Fresh();
      ghost var inner := stack + [i];
      PushPath(g, stack, i);
      state[i] := InProgress;
      assert i in before && i !in Fresh();
      var ds := g[i];
      var n := 0;
      while n < |ds|
        invariant 0 <= n <= |ds|
        invariant Valid() && OnStack(inner)
        invariant Fresh() < before && old(order) <= order
        invariant forall a :: 0 <= a < n ==> ds[a] in order
        invariant forall j :: j in order && j !in old(order) ==> Reaches(g, i, j)
      {
        ghost var so := order;
        assert ds[n] in g[i];
        ok := Visit(ds[n], inner);
        if !ok {
          return false;
        }
        forall j | j in order && j !in old(order) ensures Reaches(g, i, j) {
          if j !in so {
            ReachesStep(g, i, ds[n], j);
          }
        }
        assert forall a :: 0 <= a < n ==> ds[a] in so;
        n := n + 1;
      }
      assert state[i] == InProgress;
      state[i] := Done;
      ghost var so := order;
      order := order + [i];
      ReachesSelf(g, i);
      AppendKeeps(g, so, i);
      ok := true;
    }
  }

  lemma PushPath(g: Nodes, stack: seq<nat>, i: nat)
    requires i < |g| && (stack != [] ==> Path(g, stack) && i in g[stack[|stack| - 1]])
    ensures Path(g, stack + [i])
  {
    var p := stack + [i];
    forall k | 0 <= k < |p| - 1 ensures p[k + 1] in g[p[k]] {
      if k + 1 < |stack| {
        assert stack[k + 1] in g[stack[k]];
      }
    }
  }

  lemma CycleOnStack(g: Nodes, stack: seq<nat>, k: nat, i: nat)
    requires Path(g, stack) && k < |stack| && stack[k] == i && i in g[stack[|stack| - 1]] && i < |g|
    ensures Cyclic(g)
  {
    var p := stack[k..] + [i];
    forall a | 0 <= a < |p| - 1 ensures p[a + 1] in g[p[a]] {
      if a + 1 < |p| - 1 {
        assert p[a] == stack[k + a] && p[a + 1] == stack[k + a + 1];
      }
    }
    assert Path(g, p) && p[0] == p[|p| - 1];
  }

  lemma AppendKeeps(g: Nodes, order: seq<nat>, i: nat)
    requires Distinct(order) && DepsFirst(g, order) && i !in order && i < |g|
    requires forall a :: 0 <= a < |g[i]| ==> g[i][a] in order
    ensures Distinct(order + [i]) && DepsFirst(g, order + [i])
  {
    var next := order + [i];
    forall k, d | 0 <= k < |next| && d in g[next[k]] ensures d in next[..k] {
      if k < |order| {
        assert next[..k] == order[..k];
      } else {
        assert next[..k] == order;
      }
    }
  }

  /**
   Sorts the declarations, or fails. It fails exactly when a type contains itself;
   otherwise every type stands after all it mentions, and none is lost.
   */
  method Sort(g: Nodes) returns (order: Option<seq<nat>>)
    requires WellFormed(g)
    ensures order.None? <==> Cyclic(g)
    ensures order.Some? ==>
              Permutes(g, order.value) && DepsFirst(g, order.value) && Stable(g, order.value)
  {
    var s := new Sorter(g);
    var i := 0;
    while i < |g|
      invariant 0 <= i <= |g|
      invariant s.Valid() && s.OnStack([]) && s.g == g && fresh(s) && fresh(s.state)
      invariant forall j :: 0 <= j < i ==> j in s.order
      invariant forall j :: j in s.order ==> FromRoot(g, i, j)
      invariant Stable(g, s.order)
    {
      ghost var so := s.order;
      var ok := s.Visit(i, []);
      if !ok {
        return None;
      }
      StableVisit(g, so, s.order, i);
      i := i + 1;
    }
    OrderedIsAcyclic(g, s.order);
    order := Some(s.order);
  }

  lemma StableVisit(g: Nodes, so: seq<nat>, order: seq<nat>, i: nat)
    requires Stable(g, so) && so <= order && Distinct(order)
    requires forall j :: j in so ==> FromRoot(g, i, j)
    requires forall j :: j in order && j !in so ==> Reaches(g, i, j)
    requires forall j :: 0 <= j < i ==> j in so
    ensures Stable(g, order)
    ensures forall j :: j in order ==> FromRoot(g, i + 1, j)
  {
    forall a, b | 0 <= a < b < |order| && order[b] < order[a]
      ensures FromRoot(g, order[b] + 1, order[a])
    {
      if b < |so| {
        assert so[a] == order[a] && so[b] == order[b];
      } else {
        // order[b] is new, so it is not below i; whatever is before it comes from a root up to i
        forall c | 0 <= c < |so| ensures so[c] != order[b] {
          assert so[c] == order[c];
        }
        NewIsLate(so, order[b], i);
        if order[a] in so {
          var k: nat :| k < i && Reaches(g, k, order[a]);
          assert k < order[b] + 1;
        } else {
          assert Reaches(g, i, order[a]) && i < order[b] + 1;
        }
      }
    }
  }

  lemma NewIsLate(so: seq<nat>, j: nat, i: nat)
    requires j !in so && forall k :: 0 <= k < i ==> k in so
    ensures i <= j
  {
  }

  lemma PathLeaves(g: Nodes, p: seq<nat>)
    requires Path(g, p) && |p| > 1
    ensures g[p[0]] != []
  {
    assert p[0 + 1] in g[p[0]];
  }

  lemma RootWithoutEdges(g: Nodes, n: nat, j: nat)
    requires FromRoot(g, n, j) && forall i :: 0 <= i < |g| ==> g[i] == []
    ensures j < n
  {
    var k: nat :| k < n && Reaches(g, k, j);
    var p :| Path(g, p) && p[0] == k && p[|p| - 1] == j;
    if |p| > 1 {
      PathLeaves(g, p);
    }
  }

  /** Without dependencies the declaration order is kept. */
  lemma NoDepsKeepsOrder(g: Nodes, order: seq<nat>)
    requires Permutes(g, order) && Stable(g, order)
    requires forall i :: 0 <= i < |g| ==> g[i] == []
    ensures forall a, b :: 0 <= a < b < |order| ==> order[a] < order[b]
  {
    forall a, b | 0 <= a < b < |order| ensures order[a] < order[b] {
      if order[b] < order[a] {
        RootWithoutEdges(g, order[b] + 1, order[a]);
      }
    }
  }

  // ---------------------------------------------------------------------------
  // Declarations
  // ---------------------------------------------------------------------------

  /** Each declaration mentions the next one. */
  ghost predicate MentionChain(decls: seq<Decl>, p: seq<nat>) {
    && |p| > 0
    && (forall k :: 0 <= k < |p| ==> p[k] < |decls|)
    && forall k :: 0 <= k < |p| - 1 ==> Uses(decls, p[k], p[k + 1])
  }

  /** Some declaration leads back to itself. */
  ghost predicate Recursive(decls: seq<Decl>) {
    exists p :: MentionChain(decls, p) && |p| > 1 && p[0] == p[|p| - 1]
  }

  /** Some declaration before `n` leads to `j`. */
  ghost predicate NeededBefore(decls: seq<Decl>, n: nat, j: nat) {
    exists p :: MentionChain(decls, p) && p[0] < n && p[|p| - 1] == j
  }

  ghost predicate Whole(decls: seq<Decl>, order: seq<nat>) {
    Distinct(order) && forall i: nat :: i in order <==> i < |decls|
  }

  /** Whatever a declaration mentions stands before it. */
  ghost predicate MentionedFirst(decls: seq<Decl>, order: seq<nat>) {
    forall a, b :: 0 <= a < |order| && 0 <= b < |order| && Uses(decls, order[a], order[b]) ==> b < a
  }

  /** A declaration overtakes an earlier one only if one declared no later than that leads to it. */
  ghost predicate OvertakesForNeed(decls: seq<Decl>, order: seq<nat>) {
    forall a, b :: 0 <= a < b < |order| && order[b] < order[a] ==> NeededBefore(decls, order[b] + 1, order[a])
  }

  lemma ChainIsPath(decls: seq<Decl>, p: seq<nat>)
    requires DistinctNames(decls)
    ensures MentionChain(decls, p) <==> Path(Graph(decls), p)
  {
    hide Graph;
    hide Uses;
    var g := Graph(decls);
    assert |g| == |decls| by {
      GraphExact(decls, 0, 0);
    }
    if |p| > 0 && forall k :: 0 <= k < |p| ==> p[k] < |decls| {
      forall k | 0 <= k < |p| - 1 ensures Uses(decls, p[k], p[k + 1]) <==> p[k + 1] in g[p[k]] {
        GraphExact(decls, p[k], p[k + 1]);
      }
    }
  }

  lemma RecursiveIsCyclic(decls: seq<Decl>)
    requires DistinctNames(decls)
    ensures Recursive(decls) <==> Cyclic(Graph(decls))
  {
    forall p ensures MentionChain(decls, p) <==> Path(Graph(decls), p) {
      ChainIsPath(decls, p);
    }
    hide MentionChain;
    hide Path;
    hide Graph;
  }

  lemma DepsFirstExact(decls: seq<Decl>, order: seq<nat>)
    requires DistinctNames(decls) && Whole(decls, order)
    ensures DepsFirst(Graph(decls), order) <==> MentionedFirst(decls, order)
  {
    hide Graph;
    hide Uses;
    var g := Graph(decls);
    GraphExact(decls, 0, 0);
    forall k | 0 <= k < |order| ensures order[k] < |g| {
      assert order[k] in order;
    }
    if DepsFirst(g, order) {
      forall a, b | 0 <= a < |order| && 0 <= b < |order| && Uses(decls, order[a], order[b]) ensures b < a {
        GraphExact(decls, order[a], order[b]);
        var k :| 0 <= k < a && order[k] == order[b];
      }
    }
    if MentionedFirst(decls, order) {
      forall k, d | 0 <= k < |order| && d in g[order[k]] ensures d in order[..k] {
        GraphExact(decls, order[k], d);
        assert d < |decls| by { UsesBound(decls, order[k], d); }
        assert d in order;
        var b :| 0 <= b < |order| && order[b] == d;
        assert order[..k][b] == d;
      }
    }
  }

  lemma UsesBound(decls: seq<Decl>, i: nat, j: nat)
    requires Uses(decls, i, j)
    ensures i < |decls| && j < |decls|
  {
  }

  lemma StableExact(decls: seq<Decl>, order: seq<nat>)
    requires DistinctNames(decls) && Stable(Graph(decls), order)
    ensures OvertakesForNeed(decls, order)
  {
    hide Graph;
    hide Uses;
    forall a, b | 0 <= a < b < |order| && order[b] < order[a] ensures NeededBefore(decls, order[b] + 1, order[a]) {
      var k: nat :| k < order[b] + 1 && Reaches(Graph(decls), k, order[a]);
      var p :| Path(Graph(decls), p) && p[0] == k && p[|p| - 1] == order[a];
      ChainIsPath(decls, p);
    }
  }

  /**
   The emission order of the declared types of all interfaces. There is none exactly if
   some declaration leads back to itself; otherwise every declaration stands in it once,
   after whatever it mentions.
   */
  method EmissionOrder(decls: seq<Decl>) returns (order: Option<seq<nat>>)
    requires DistinctNames(decls)
    ensures order.None? <==> Recursive(decls)
    ensures order.Some? ==>
              Whole(decls, order.value) && MentionedFirst(decls, order.value) && OvertakesForNeed(decls, order.value)
  {
    hide Graph;
    hide Stable;
    hide OvertakesForNeed;
    GraphWellFormed(decls);
    order := Sort(Graph(decls));
    RecursiveIsCyclic(decls);
    if order.Some? {
      GraphExact(decls, 0, 0);
      DepsFirstExact(decls, order.value);
      StableExact(decls, order.value);
    }
  }

  // ---------------------------------------------------------------------------
  // A sorted module is one the code generators accept
  // ---------------------------------------------------------------------------

  function PositionOf(order: seq<nat>, j: nat): (k: nat)
    requires j in order
    ensures k < |order| && order[k] == j
  {
    if order[0] == j then 0 else 1 + PositionOf(order[1..], j)
  }

  function Names(decls: seq<Decl>): set<string> {
    set i | 0 <= i < |decls| :: decls[i].name
  }

  /** The named types, each ranked by its place in the emission order. */
  ghost function Ranked(decls: seq<Decl>, order: seq<nat>): Module
    requires Whole(decls, order)
  {
    Module(map x | x in Names(decls) :: DeclOf(decls, x).ty,
           map x | x in Names(decls) :: PlaceOf(decls, order, x))
  }

  ghost function PlaceOf(decls: seq<Decl>, order: seq<nat>, name: string): nat
    requires name in Names(decls) && Whole(decls, order)
  {
    IndexOfIsIndex(decls, name);
    PositionOf(order, IndexOf(decls, name).value)
  }

  function DeclOf(decls: seq<Decl>, name: string): Decl
    requires name in Names(decls)
  {
    IndexOfIsIndex(decls, name);
    decls[IndexOf(decls, name).value]
  }

  /** The module holds the declarations, each at its place. */
  lemma RankedAt(decls: seq<Decl>, order: seq<nat>, a: nat)
    requires DistinctNames(decls) && Whole(decls, order) && a < |order|
    ensures order[a] < |decls|
    ensures var m, d := Ranked(decls, order), decls[order[a]];
            d.name in m.types && m.types[d.name] == d.ty && d.name in m.rank && m.rank[d.name] == a
  {
    assert order[a] in order;
    IndexOfIsIndex(decls, decls[order[a]].name);
  }

  lemma PlaceIs(decls: seq<Decl>, order: seq<nat>, x: string) returns (a: nat)
    requires DistinctNames(decls) && Whole(decls, order) && x in Ranked(decls, order).types
    ensures a < |order| && order[a] < |decls| && decls[order[a]].name == x
    ensures var m := Ranked(decls, order);
            m.types[x] == decls[order[a]].ty && x in m.rank && m.rank[x] == a
  {
    IndexOfIsIndex(decls, x);
    a := PositionOf(order, IndexOf(decls, x).value);
    RankedAt(decls, order, a);
  }

  /** A part that may stand in value position, whatever the order of the declarations. */
  ghost predicate MayStand(types: map<string, Ty>, u: Ty) {
    match u
    case Prim(p) =>
      !(p.TList? || p.TOption? || p.TResult? || p.TTuple? || p.TRecord? || p.TVariant? || p.TEnum? || p.TFlags?)
    case Named(x) => x in types && ShortChain(types, x)
    case _ => !(u.Record? || u.Variant? || u.Enum? || u.Flags?)
  }

  /** Sizes in range, names declared, alias chains below 64, nominal forms only at the top. */
  ghost predicate Formed(types: map<string, Ty>, ty: Ty) {
    Sized(ty) && forall u :: Inner(u, ty) ==> MayStand(types, u)
  }

  ghost predicate AllFormed(types: map<string, Ty>) {
    forall x :: x in types ==> Formed(types, types[x])
  }

  lemma FormedAliases(types: map<string, Ty>)
    requires AllFormed(types)
    ensures AliasesDeclared(types)
  {
    forall x, y | IsAlias(types, x, y) ensures y in types {
      assert Formed(types, types[x]) && Inner(Named(y), types[x]);
    }
  }

  lemma ValidAliases(m: Module)
    requires Valid(m)
    ensures AliasesDeclared(m.types)
  {
    forall x, y | IsAlias(m.types, x, y) ensures y in m.types {
      assert Declared(m, m.types[x], m.rank[x]);
    }
  }

  lemma FitsIsMayStand(m: Module, u: Ty, r: nat)
    requires AliasesDeclared(m.types)
    ensures Fits(m, u, r) <==>
            MayStand(m.types, u) && (u.Named? && u.name in m.types ==> u.name in m.rank && m.rank[u.name] < r)
  {
    hide ShortChain;
    hide AliasesDeclared;
    hide Resolve;
    if u.Named? && u.name in m.types {
      ShortResolves(m, u.name);
    }
  }

  /** Everything a definition mentions is ranked below it. */
  ghost predicate Descends(m: Module, x: string)
    requires x in m.types && x in m.rank
  {
    forall y :: Mentions(m.types[x], y) && y in m.types ==> y in m.rank && m.rank[y] < m.rank[x]
  }

  lemma FormedIsDeclared(m: Module, x: string)
    requires AliasesDeclared(m.types) && x in m.types && x in m.rank
    ensures Declared(m, m.types[x], m.rank[x]) <==> Formed(m.types, m.types[x]) && Descends(m, x)
  {
    hide AliasesDeclared;
    hide Fits;
    hide MayStand;
    hide Declared;
    hide PartOf;
    hide Inner;
    var ty, r := m.types[x], m.rank[x];
    DeclaredExact(m, ty, r);
    forall u ensures Fits(m, u, r) <==>
                     MayStand(m.types, u) && (u.Named? && u.name in m.types ==> u.name in m.rank && m.rank[u.name] < r)
    {
      FitsIsMayStand(m, u, r);
    }
    forall y ensures Mentions(ty, y) <==> Inner(Named(y), ty) {
      MentionsInner(ty, y);
    }
    if Declared(m, ty, r) {
      forall y | Mentions(ty, y) && y in m.types ensures y in m.rank && m.rank[y] < r {
        assert Inner(Named(y), ty) && Fits(m, Named(y), r);
      }
    }
    if Formed(m.types, ty) && Descends(m, x) {
      forall u | Inner(u, ty) ensures Fits(m, u, r) {
        assert MayStand(m.types, u);
        assert u.Named? ==> Mentions(ty, u.name);
      }
    }
  }

  lemma RanksDescend(decls: seq<Decl>, order: seq<nat>)
    requires DistinctNames(decls) && Whole(decls, order)
    ensures var m := Ranked(decls, order);
            && (forall x :: x in m.types ==> x in m.rank)
            && ((forall x :: x in m.types ==> Descends(m, x)) <==> MentionedFirst(decls, order))
  {
    hide Ranked;
    hide PartOf;
    var m := Ranked(decls, order);
    forall x | x in m.types ensures x in m.rank {
      var a := PlaceIs(decls, order, x);
    }
    if MentionedFirst(decls, order) {
      forall x, y | x in m.types && Mentions(m.types[x], y) && y in m.types
        ensures y in m.rank && m.rank[y] < m.rank[x]
      {
        var a := PlaceIs(decls, order, x);
        var b := PlaceIs(decls, order, y);
        assert Uses(decls, order[a], order[b]);
      }
      assert forall x :: x in m.types ==> Descends(m, x);
    }
    if forall x :: x in m.types ==> Descends(m, x) {
      forall a, b | 0 <= a < |order| && 0 <= b < |order| && Uses(decls, order[a], order[b]) ensures b < a {
        RankedAt(decls, order, a);
        RankedAt(decls, order, b);
        assert Descends(m, decls[order[a]].name);
      }
    }
  }

  /**
   The sort is what makes a module acceptable. Ranked by their places in any order of the
   declarations, they are what the code generators rely on exactly if every declaration is
   well formed and stands after whatever it mentions; of aliases only the length of their
   chains is asked.
   */
  lemma SortedIsValid(decls: seq<Decl>, order: seq<nat>)
    requires DistinctNames(decls) && Whole(decls, order)
    ensures var m := Ranked(decls, order);
            Valid(m) <==> AllFormed(m.types) && MentionedFirst(decls, order)
  {
    hide Ranked;
    hide Formed;
    hide Descends;
    hide Declared;
    hide MentionedFirst;
    hide AliasesDeclared;
    var m := Ranked(decls, order);
    RanksDescend(decls, order);
    if Valid(m) {
      ValidAliases(m);
    }
    if AllFormed(m.types) {
      FormedAliases(m.types);
    }
    if AliasesDeclared(m.types) {
      forall x | x in m.types
        ensures Declared(m, m.types[x], m.rank[x]) <==> Formed(m.types, m.types[x]) && Descends(m, x)
      {
        FormedIsDeclared(m, x);
      }
    }
  }
}
