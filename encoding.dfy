/**
 * The SAT encoding of "the graph has a proper k-colouring" built by
 * find_coloring in color.py: three clause families over the variables
 * Var(node, colour). The families are specified here as functions that follow
 * the order in which the source's loops append clauses; the loops themselves
 * are the Build* methods at the end.
 */
module Encoding {
  import opened Cnf
  import opened Graphs

  /** The clause "not v or not w". */
  function NotBoth(v: Var, w: Var): Clause {
    [Neg(v), Neg(w)]
  }

  /** Family 1 for one edge e: for colours 0 .. c-1, the two ends do not both have it. */
  function EdgeClauses(e: Edge, c: nat): Formula {
    if c == 0 then []
    else EdgeClauses(e, c - 1) + [NotBoth(Var(e.0, c - 1), Var(e.1, c - 1))]
  }

  /** Family 1 (adjacent_not_same): the edge clauses of every edge in turn. */
  function AdjacentNotSame(edges: seq<Edge>, k: nat): Formula {
    if edges == [] then []
    else AdjacentNotSame(edges[..|edges| - 1], k) + EdgeClauses(edges[|edges| - 1], k)
  }

  /** The clause "node n has one of the colours 0 .. c-1". */
  function AtLeastOneClause(n: nat, c: nat): Clause {
    if c == 0 then []
    else AtLeastOneClause(n, c - 1) + [Pos(Var(n, c - 1))]
  }

  /** Family 2 (at_least_one_color): one clause per node 0 .. nodes-1. */
  function AtLeastOneColour(nodes: nat, k: nat): Formula {
    if nodes == 0 then []
    else AtLeastOneColour(nodes - 1, k) + [AtLeastOneClause(nodes - 1, k)]
  }

  /** Node n does not have both colour i and colour c, for c = i+1 .. j-1. */
  function AtMostOneRow(n: nat, i: nat, j: nat): Formula {
    if j <= i + 1 then []
    else AtMostOneRow(n, i, j - 1) + [NotBoth(Var(n, i), Var(n, j - 1))]
  }

  /** The rows i' = 0 .. i-1 of node n's at-most-one clauses for k colours. */
  function AtMostOneNode(n: nat, i: nat, k: nat): Formula {
    if i == 0 then []
    else AtMostOneNode(n, i - 1, k) + AtMostOneRow(n, i - 1, k)
  }

  /** Family 3 (at_most_one_color): every pair of colours c1 < c2 for every node. */
  function AtMostOneColour(nodes: nat, k: nat): Formula {
    if nodes == 0 then []
    else AtMostOneColour(nodes - 1, k) + AtMostOneNode(nodes - 1, k, k)
  }

  /** The formula given to the solver: the three families, in the order they are added. */
  function Encode(g: Graph, k: nat): Formula {
    AdjacentNotSame(g.edges, k) + AtLeastOneColour(g.nodes, k) + AtMostOneColour(g.nodes, k)
  }

  // ----- What a model of the formula says about colours -----

  /** No edge has both ends true for the same colour below k. */
  ghost predicate AdjacentDiffer(a: Assignment, edges: seq<Edge>, k: nat) {
    forall p, c :: 0 <= p < |edges| && 0 <= c < k ==> !(a(Var(edges[p].0, c)) && a(Var(edges[p].1, c)))
  }

  /** Node n has at least one colour below k. */
  ghost predicate Coloured(a: Assignment, n: nat, k: nat) {
    exists c :: 0 <= c < k && a(Var(n, c))
  }

  /** Every node has at least one colour below k. */
  ghost predicate EveryNodeColoured(a: Assignment, nodes: nat, k: nat) {
    forall n :: 0 <= n < nodes ==> Coloured(a, n, k)
  }

  /** No node has two colours below k. */
  ghost predicate AtMostOneEach(a: Assignment, nodes: nat, k: nat) {
    forall n, c, d :: 0 <= n < nodes && 0 <= c < d < k ==> !(a(Var(n, c)) && a(Var(n, d)))
  }

  /** The assignment reads as a proper k-colouring of g. */
  ghost predicate DescribesColouring(a: Assignment, g: Graph, k: nat) {
    AdjacentDiffer(a, g.edges, k) && EveryNodeColoured(a, g.nodes, k) && AtMostOneEach(a, g.nodes, k)
  }

  lemma NotBothMeaning(a: Assignment, v: Var, w: Var)
    ensures ClauseHolds(a, NotBoth(v, w)) <==> !(a(v) && a(w))
  {
    var cl := NotBoth(v, w);
    if !a(v) { assert LitHolds(a, cl[0]); }
    if !a(w) { assert LitHolds(a, cl[1]); }
  }

  lemma SatisfiesSingle(a: Assignment, cl: Clause)
    ensures Satisfies(a, [cl]) <==> ClauseHolds(a, cl)
  {
    assert [cl][0] == cl;
  }

  lemma {:induction false} EdgeClausesMeaning(a: Assignment, e: Edge, c: nat)
    ensures Satisfies(a, EdgeClauses(e, c)) <==>
              forall d :: 0 <= d < c ==> !(a(Var(e.0, d)) && a(Var(e.1, d)))
  {
    if c > 0 {
      var cl := NotBoth(Var(e.0, c - 1), Var(e.1, c - 1));
      EdgeClausesMeaning(a, e, c - 1);
      SatisfiesAppend(a, EdgeClauses(e, c - 1), [cl]);
      SatisfiesSingle(a, cl);
      NotBothMeaning(a, Var(e.0, c - 1), Var(e.1, c - 1));
    }
  }

  /** Family 1 holds exactly when no edge has a colour on both ends. */
  lemma {:induction false} AdjacentNotSameMeaning(a: Assignment, edges: seq<Edge>, k: nat)
    ensures Satisfies(a, AdjacentNotSame(edges, k)) <==> AdjacentDiffer(a, edges, k)
    decreases |edges|
  {
    if edges != [] {
      var init, last := edges[..|edges| - 1], edges[|edges| - 1];
      AdjacentNotSameMeaning(a, init, k);
      SatisfiesAppend(a, AdjacentNotSame(init, k), EdgeClauses(last, k));
      EdgeClausesMeaning(a, last, k);
      assert forall p :: 0 <= p < |init| ==> init[p] == edges[p];
    }
  }

  lemma {:induction false} AtLeastOneClauseMeaning(a: Assignment, n: nat, c: nat)
    ensures ClauseHolds(a, AtLeastOneClause(n, c)) <==> Coloured(a, n, c)
  {
    if c > 0 {
      AtLeastOneClauseMeaning(a, n, c - 1);
      var init := AtLeastOneClause(n, c - 1);
      var cl := AtLeastOneClause(n, c);
      assert cl == init + [Pos(Var(n, c - 1))];
      if ClauseHolds(a, cl) {
        var j :| 0 <= j < |cl| && LitHolds(a, cl[j]);
        if j < |init| {
          assert LitHolds(a, init[j]);
        } else {
          assert a(Var(n, c - 1));
        }
      }
      if Coloured(a, n, c) {
        if a(Var(n, c - 1)) {
          assert LitHolds(a, cl[|init|]);
        } else {
          var d :| 0 <= d < c && a(Var(n, d));
          assert Coloured(a, n, c - 1);
          var j :| 0 <= j < |init| && LitHolds(a, init[j]);
          assert cl[j] == init[j];
        }
      }
    }
  }

  /** Family 2 holds exactly when every node has some colour. */
  lemma {:induction false} AtLeastOneColourMeaning(a: Assignment, nodes: nat, k: nat)
    ensures Satisfies(a, AtLeastOneColour(nodes, k)) <==> EveryNodeColoured(a, nodes, k)
  {
    if nodes > 0 {
      var cl := AtLeastOneClause(nodes - 1, k);
      AtLeastOneColourMeaning(a, nodes - 1, k);
      SatisfiesAppend(a, AtLeastOneColour(nodes - 1, k), [cl]);
      SatisfiesSingle(a, cl);
      AtLeastOneClauseMeaning(a, nodes - 1, k);
    }
  }

  lemma {:induction false} AtMostOneRowMeaning(a: Assignment, n: nat, i: nat, j: nat)
    ensures Satisfies(a, AtMostOneRow(n, i, j)) <==>
              forall d :: i < d < j ==> !(a(Var(n, i)) && a(Var(n, d)))
  {
    if j > i + 1 {
      var cl := NotBoth(Var(n, i), Var(n, j - 1));
      AtMostOneRowMeaning(a, n, i, j - 1);
      SatisfiesAppend(a, AtMostOneRow(n, i, j - 1), [cl]);
      SatisfiesSingle(a, cl);
      NotBothMeaning(a, Var(n, i), Var(n, j - 1));
    }
  }

  lemma {:induction false} AtMostOneNodeMeaning(a: Assignment, n: nat, i: nat, k: nat)
    ensures Satisfies(a, AtMostOneNode(n, i, k)) <==>
              forall c, d :: 0 <= c < i && c < d < k ==> !(a(Var(n, c)) && a(Var(n, d)))
  {
    if i > 0 {
      AtMostOneNodeMeaning(a, n, i - 1, k);
      SatisfiesAppend(a, AtMostOneNode(n, i - 1, k), AtMostOneRow(n, i - 1, k));
      AtMostOneRowMeaning(a, n, i - 1, k);
    }
  }

  /** Family 3 holds exactly when no node has two colours. */
  lemma {:induction false} AtMostOneColourMeaning(a: Assignment, nodes: nat, k: nat)
    ensures Satisfies(a, AtMostOneColour(nodes, k)) <==> AtMostOneEach(a, nodes, k)
  {
    if nodes > 0 {
      AtMostOneColourMeaning(a, nodes - 1, k);
      SatisfiesAppend(a, AtMostOneColour(nodes - 1, k), AtMostOneNode(nodes - 1, k, k));
      AtMostOneNodeMeaning(a, nodes - 1, k, k);
    }
  }

  /**
   * The encoding is exact: an assignment satisfies it iff adjacent nodes never
   * share a colour, every node has a colour and no node has two.
   */
  lemma EncodeMeaning(a: Assignment, g: Graph, k: nat)
    ensures Satisfies(a, Encode(g, k)) <==> DescribesColouring(a, g, k)
  {
    var f1, f2, f3 := AdjacentNotSame(g.edges, k), AtLeastOneColour(g.nodes, k), AtMostOneColour(g.nodes, k);
    SatisfiesAppend(a, f1 + f2, f3);
    SatisfiesAppend(a, f1, f2);
    AdjacentNotSameMeaning(a, g.edges, k);
    AtLeastOneColourMeaning(a, g.nodes, k);
    AtMostOneColourMeaning(a, g.nodes, k);
  }

  // ----- Reading a colouring out of a model, and back -----

  /** The colours c < k that the assignment makes true for node n, in increasing order. */
  function TrueColours(a: Assignment, n: nat, k: nat): seq<nat> {
    if k == 0 then []
    else TrueColours(a, n, k - 1) + (if a(Var(n, k - 1)) then [k - 1] else [])
  }

  /** TrueColours lists exactly the true colours below k, each once and in order. */
  lemma {:induction false} TrueColoursMeaning(a: Assignment, n: nat, k: nat)
    ensures forall c: nat :: c in TrueColours(a, n, k) <==> c < k && a(Var(n, c))
    ensures forall s, t :: 0 <= s < t < |TrueColours(a, n, k)| ==> TrueColours(a, n, k)[s] < TrueColours(a, n, k)[t]
  {
    if k > 0 {
      TrueColoursMeaning(a, n, k - 1);
      var init := TrueColours(a, n, k - 1);
      var last: seq<nat> := if a(Var(n, k - 1)) then [k - 1] else [];
      assert TrueColours(a, n, k) == init + last;
      assert forall s :: 0 <= s < |init| ==> init[s] in init && init[s] < k - 1;
    }
  }

  /** When the model gives node n exactly one colour c, that is all TrueColours reports. */
  lemma {:induction false} TrueColoursSingle(a: Assignment, n: nat, k: nat, c: nat)
    requires c < k && a(Var(n, c))
    requires forall d :: 0 <= d < k && a(Var(n, d)) ==> d == c
    ensures TrueColours(a, n, k) == [c]
  {
    if c < k - 1 {
      TrueColoursSingle(a, n, k - 1, c);
    } else {
      TrueColoursNone(a, n, k - 1);
    }
  }

  lemma {:induction false} TrueColoursNone(a: Assignment, n: nat, k: nat)
    requires forall d :: 0 <= d < k ==> !a(Var(n, d))
    ensures TrueColours(a, n, k) == []
  {
    if k > 0 {
      TrueColoursNone(a, n, k - 1);
    }
  }

  /** The least colour below k that the model gives node n, or k when there is none. */
  function FirstColour(a: Assignment, n: nat, k: nat): (c: nat)
    ensures c <= k
    ensures c < k ==> a(Var(n, c))
    ensures forall d :: 0 <= d < c && d < k ==> !a(Var(n, d))
  {
    if k == 0 then 0
    else
      var c := FirstColour(a, n, k - 1);
      if c < k - 1 then c else if a(Var(n, k - 1)) then k - 1 else k
  }

  /** The colouring a model stands for: each node's (first) true colour. */
  function Decode(a: Assignment, nodes: nat, k: nat): (col: seq<nat>)
    ensures |col| == nodes
  {
    seq(nodes, n requires 0 <= n < nodes => FirstColour(a, n, k))
  }

  /** The assignment that makes Var(n, c) true iff col gives node n colour c. */
  function FromColouring(col: seq<nat>): Assignment {
    (v: Var) => v.node < |col| && col[v.node] == v.colour
  }

  /**
   * Soundness: a model of the encoding gives every node exactly one colour
   * below k, and the colouring it gives is proper.
   */
  lemma Soundness(a: Assignment, g: Graph, k: nat)
    requires ValidGraph(g) && Satisfies(a, Encode(g, k))
    ensures ProperColouring(g, k, Decode(a, g.nodes, k))
    ensures forall n :: 0 <= n < g.nodes ==> TrueColours(a, n, k) == [Decode(a, g.nodes, k)[n]]
  {
    EncodeMeaning(a, g, k);
    var col := Decode(a, g.nodes, k);
    forall n | 0 <= n < g.nodes
      ensures col[n] < k && TrueColours(a, n, k) == [col[n]]
    {
      assert Coloured(a, n, k);
      var c := FirstColour(a, n, k);
      assert col[n] == c;
      assert forall d :: 0 <= d < k && a(Var(n, d)) ==> d == c;
      TrueColoursSingle(a, n, k, c);
    }
    forall p | 0 <= p < |g.edges|
      ensures col[g.edges[p].0] != col[g.edges[p].1]
    {
      var c := col[g.edges[p].0];
      assert a(Var(g.edges[p].0, c));
    }
  }

  /**
   * Completeness: the assignment read off a proper k-colouring satisfies
   * every clause, and decoding it gives the colouring back.
   */
  lemma Completeness(g: Graph, k: nat, col: seq<nat>)
    requires ProperColouring(g, k, col)
    ensures Satisfies(FromColouring(col), Encode(g, k))
    ensures Decode(FromColouring(col), g.nodes, k) == col
  {
    var a := FromColouring(col);
    forall n | 0 <= n < g.nodes
      ensures Coloured(a, n, k)
    {
      assert a(Var(n, col[n]));
    }
    forall p, c | 0 <= p < |g.edges| && 0 <= c < k
      ensures !(a(Var(g.edges[p].0, c)) && a(Var(g.edges[p].1, c)))
    {
    }
    EncodeMeaning(a, g, k);
    var d := Decode(a, g.nodes, k);
    forall n | 0 <= n < g.nodes
      ensures d[n] == col[n]
    {
      assert a(Var(n, col[n]));
    }
  }

  /** The encoding is satisfiable exactly when the graph has a proper k-colouring. */
  lemma SatisfiableIffColourable(g: Graph, k: nat)
    requires ValidGraph(g)
    ensures Satisfiable(Encode(g, k)) <==> Colourable(g, k)
  {
    if Satisfiable(Encode(g, k)) {
      var a :| Satisfies(a, Encode(g, k));
      Soundness(a, g, k);
    }
    if Colourable(g, k) {
      var col :| ProperColouring(g, k, col);
      Completeness(g, k, col);
    }
  }

  /** One more colour never makes a satisfiable encoding unsatisfiable. */
  lemma EncodeMonotone(g: Graph, k: nat)
    requires ValidGraph(g) && Satisfiable(Encode(g, k))
    ensures Satisfiable(Encode(g, k + 1))
  {
    SatisfiableIffColourable(g, k);
    var col :| ProperColouring(g, k, col);
    assert ProperColouring(g, k + 1, col);
    SatisfiableIffColourable(g, k + 1);
  }

  // ----- Clause counts -----

  lemma {:induction false} EdgeClausesCount(e: Edge, c: nat)
    ensures |EdgeClauses(e, c)| == c
  {
    if c > 0 { EdgeClausesCount(e, c - 1); }
  }

  /** Family 1 has k clauses per edge. */
  lemma {:induction false} AdjacentNotSameCount(edges: seq<Edge>, k: nat)
    ensures |AdjacentNotSame(edges, k)| == |edges| * k
    decreases |edges|
  {
    if edges != [] {
      AdjacentNotSameCount(edges[..|edges| - 1], k);
      EdgeClausesCount(edges[|edges| - 1], k);
      assert (|edges| - 1) * k + k == |edges| * k;
    }
  }

  lemma {:induction false} AtLeastOneClauseSize(n: nat, c: nat)
    ensures |AtLeastOneClause(n, c)| == c
  {
    if c > 0 { AtLeastOneClauseSize(n, c - 1); }
  }

  /** Family 2 has one clause per node, each with one literal per colour. */
  lemma {:induction false} AtLeastOneColourCount(nodes: nat, k: nat)
    ensures |AtLeastOneColour(nodes, k)| == nodes
    ensures forall i :: 0 <= i < nodes ==> |AtLeastOneColour(nodes, k)[i]| == k
  {
    if nodes > 0 {
      AtLeastOneColourCount(nodes - 1, k);
      AtLeastOneClauseSize(nodes - 1, k);
    }
  }

  lemma {:induction false} AtMostOneRowCount(n: nat, i: nat, j: nat)
    ensures |AtMostOneRow(n, i, j)| == if j > i then j - i - 1 else 0
  {
    if j > i + 1 { AtMostOneRowCount(n, i, j - 1); }
  }

  lemma {:induction false} AtMostOneNodeCount(n: nat, i: nat, k: nat)
    requires i <= k
    ensures 2 * |AtMostOneNode(n, i, k)| == i * (2 * k - i - 1)
  {
    if i > 0 {
      AtMostOneNodeCount(n, i - 1, k);
      AtMostOneRowCount(n, i - 1, k);
      assert (i - 1) * (2 * k - i) + 2 * (k - i) == i * (2 * k - i - 1);
    }
  }

  /** Family 3 has k(k-1)/2 clauses per node. */
  lemma {:induction false} AtMostOneColourCount(nodes: nat, k: nat)
    ensures |AtMostOneColour(nodes, k)| == nodes * (k * (k - 1) / 2)
  {
    if nodes > 0 {
      AtMostOneColourCount(nodes - 1, k);
      AtMostOneNodeCount(nodes - 1, k, k);
      assert |AtMostOneNode(nodes - 1, k, k)| == k * (k - 1) / 2;
      assert (nodes - 1) * (k * (k - 1) / 2) + k * (k - 1) / 2 == nodes * (k * (k - 1) / 2);
    }
  }

  // ----- The loops of find_coloring that build the clause lists -----

  /** Variable declaration (the list vs): every (node, colour) pair once, node-major. */
  method DeclareVars(nodes: nat, k: nat) returns (vs: seq<Var>)
    ensures |vs| == nodes * k
    ensures forall v :: v in vs <==> v.node < nodes && v.colour < k
    ensures forall s, t :: 0 <= s < t < |vs| ==>
              vs[s].node < vs[t].node || (vs[s].node == vs[t].node && vs[s].colour < vs[t].colour)
  {
    vs := [];
    for n := 0 to nodes
      invariant |vs| == n * k
      invariant forall v :: v in vs <==> v.node < n && v.colour < k
      invariant forall s, t :: 0 <= s < t < |vs| ==>
                  vs[s].node < vs[t].node || (vs[s].node == vs[t].node && vs[s].colour < vs[t].colour)
    {
      for c := 0 to k
        invariant |vs| == n * k + c
        invariant forall v :: v in vs <==> (v.node < n && v.colour < k) || (v.node == n && v.colour < c)
        invariant forall s, t :: 0 <= s < t < |vs| ==>
                    vs[s].node < vs[t].node || (vs[s].node == vs[t].node && vs[s].colour < vs[t].colour)
      {
        vs := vs + [Var(n, c)];
      }
      assert n * k + k == (n + 1) * k;
    }
  }

  /** The adjacent_not_same loop. */
  method BuildAdjacentNotSame(edges: seq<Edge>, k: nat) returns (clauses: Formula)
    ensures clauses == AdjacentNotSame(edges, k)
  {
    clauses := [];
    for p := 0 to |edges|
      invariant clauses == AdjacentNotSame(edges[..p], k)
    {
      var (n1, n2) := edges[p];
      for c := 0 to k
        invariant clauses == AdjacentNotSame(edges[..p], k) + EdgeClauses(edges[p], c)
      {
        clauses := clauses + [NotBoth(Var(n1, c), Var(n2, c))];
      }
      assert edges[..p + 1][..p] == edges[..p];
    }
    assert edges[..|edges|] == edges;
  }

  /** The at_least_one_color loop. */
  method BuildAtLeastOne(nodes: nat, k: nat) returns (clauses: Formula)
    ensures clauses == AtLeastOneColour(nodes, k)
  {
    clauses := [];
    for n := 0 to nodes
      invariant clauses == AtLeastOneColour(n, k)
    {
      var disj := [];
      for c := 0 to k
        invariant disj == AtLeastOneClause(n, c)
      {
        disj := disj + [Pos(Var(n, c))];
      }
      clauses := clauses + [disj];
    }
  }

  /** The at_most_one_color loop. */
  method BuildAtMostOne(nodes: nat, k: nat) returns (clauses: Formula)
    ensures clauses == AtMostOneColour(nodes, k)
  {
    clauses := [];
    for n := 0 to nodes
      invariant clauses == AtMostOneColour(n, k)
    {
      for i := 0 to k
        invariant clauses == AtMostOneColour(n, k) + AtMostOneNode(n, i, k)
      {
        for j := i + 1 to k
          invariant clauses == AtMostOneColour(n, k) + AtMostOneNode(n, i, k) + AtMostOneRow(n, i, j)
        {
          clauses := clauses + [NotBoth(Var(n, i), Var(n, j))];
        }
      }
    }
  }
}
