/** Part I of motif_clustering_stats (mcstats.c): the catalogue of overlap
    types is built by trying, for every overlap size k = 1, 2, 3 below the
    motif's vertex count, every pair of ordered k-tuples of pairwise distinct
    motif vertices, one for each copy. The source writes one block of 2k
    nested loops per overlap size; a motif with 5 or more vertices reaches
    overlap 4 and is refused.

    The loops visit index tuples in lexicographic order. `Visited1`,
    `Visited2` and `Visited3` list the tuples that one, two or three nested
    loops have visited when their indices hold the given values; the loop
    invariants below are stated in them. */
module Enumeration {
  import opened Lists
  import opened Graphs
  import opened Merge

  /** The tuples t + [d] for d = 0 .. hi-1. */
  function Cells(t: seq<int>, hi: nat): (r: seq<seq<int>>)
    ensures |r| == hi
  {
    seq(hi, d => t + [d])
  }

  /** Each tuple of `ts`, in order, extended by every index below n. */
  function Grow(ts: seq<seq<int>>, n: nat): seq<seq<int>> {
    if ts == [] then []
    else if |ts| == 1 then Cells(ts[0], n)
    else Grow(ts[..|ts| - 1], n) + Cells(ts[|ts| - 1], n)
  }

  /** All k-index tuples over 0 .. n-1 in the order k nested loops visit them. */
  function Lex(n: nat, k: nat): seq<seq<int>> {
    if k == 0 then [[]] else Grow(Lex(n, k - 1), n)
  }

  /** The tuples one loop has visited when its index holds i. */
  function Visited1(i: nat): seq<seq<int>> {
    Cells([], i)
  }

  /** The tuples two nested loops over 0 .. n-1 have visited when their
      indices hold i and j. */
  function Visited2(n: nat, i: nat, j: nat): seq<seq<int>> {
    Grow(Visited1(i), n) + Cells([i], j)
  }

  /** The same for three nested loops. */
  function Visited3(n: nat, i: nat, j: nat, k: nat): seq<seq<int>> {
    Grow(Visited2(n, i, j), n) + Cells([i, j], k)
  }

  /** The tuples that pass the tests i != j (and i != k, j != k): no index
      repeated. */
  function Injective(ts: seq<seq<int>>): seq<seq<int>> {
    if ts == [] then []
    else if |ts| == 1 then (if NoDup(ts[0]) then [ts[0]] else [])
    else Injective(ts[..|ts| - 1]) + (if NoDup(ts[|ts| - 1]) then [ts[|ts| - 1]] else [])
  }

  /** The ordered k-tuples of distinct motif vertices, in loop order. */
  function Tuples(n: nat, k: nat): seq<seq<int>> {
    Injective(Lex(n, k))
  }

  /** The first-copy tuple `a` paired with each second-copy tuple, in order. */
  function Pairs(a: seq<int>, bs: seq<seq<int>>): (r: seq<Attempt>)
    ensures |r| == |bs|
  {
    seq(|bs|, j requires 0 <= j < |bs| => (a, bs[j]))
  }

  /** Every first-copy tuple with every second-copy tuple, outer loop first. */
  function Cross(as_: seq<seq<int>>, bs: seq<seq<int>>): seq<Attempt> {
    if as_ == [] then []
    else if |as_| == 1 then Pairs(as_[0], bs)
    else Cross(as_[..|as_| - 1], bs) + Pairs(as_[|as_| - 1], bs)
  }

  /** The attempts of the overlap sizes 1 .. levels, in the order tried. */
  function Tried(n: nat, levels: nat): seq<Attempt> {
    if levels == 0 then []
    else if levels == 1 then Cross(Tuples(n, 1), Tuples(n, 1))
    else Tried(n, levels - 1) + Cross(Tuples(n, levels), Tuples(n, levels))
  }

  /** How many overlap sizes the enumeration completes: all below n, but at
      most three, since overlap 4 aborts. */
  function Levels(n: nat): (l: nat)
    ensures l < n || n == 0
    ensures l <= 3
  {
    if n >= 5 then 3 else if n == 0 then 0 else n - 1
  }

  lemma {:induction false} GrowAppend(a: seq<seq<int>>, b: seq<seq<int>>, n: nat)
    ensures Grow(a + b, n) == Grow(a, n) + Grow(b, n)
  {
    if b == [] {
      assert a + b == a;
    } else {
      var b', x := b[..|b| - 1], b[|b| - 1];
      GrowAppend(a, b', n);
      assert (a + b)[..|a + b| - 1] == a + b';
      assert (a + b)[|a + b| - 1] == x;
      calc {
        Grow(a + b, n);
        Grow(a + b', n) + Cells(x, n);
        (Grow(a, n) + Grow(b', n)) + Cells(x, n);
        { AppendAssoc(Grow(a, n), Grow(b', n), Cells(x, n)); }
        Grow(a, n) + (Grow(b', n) + Cells(x, n));
      }
    }
  }

  lemma CellsNext(t: seq<int>, d: nat)
    ensures Cells(t, d + 1) == Cells(t, d) + [t + [d]]
  {
  }

  lemma GrowOne(t: seq<int>, n: nat)
    ensures Grow([t], n) == Cells(t, n)
  {
    assert [t][..0] == [];
  }

  /** One step of the innermost loop visits one more tuple. */
  lemma Next1(i: nat)
    ensures Visited1(i + 1) == Visited1(i) + [[i]]
  {
    CellsNext([], i);
    assert [] + [i] == [i];
  }

  lemma Next2(n: nat, i: nat, j: nat)
    ensures Visited2(n, i, j + 1) == Visited2(n, i, j) + [[i, j]]
  {
    CellsNext([i], j);
    assert [i] + [j] == [i, j];
  }

  lemma Next3(n: nat, i: nat, j: nat, k: nat)
    ensures Visited3(n, i, j, k + 1) == Visited3(n, i, j, k) + [[i, j, k]]
  {
    CellsNext([i, j], k);
    assert [i, j] + [k] == [i, j, k];
  }

  /** The innermost of two loops running out (index n) is the outer index
      moving on with the inner loop not started. */
  lemma Carry2(n: nat, i: nat)
    ensures Visited2(n, i, n) == Visited2(n, i + 1, 0)
  {
    Next1(i);
    GrowAppend(Visited1(i), [[i]], n);
    GrowOne([i], n);
  }

  /** The same for the innermost of three loops. */
  lemma Carry3(n: nat, i: nat, j: nat)
    ensures Visited3(n, i, j, n) == Visited3(n, i, j + 1, 0)
  {
    Next2(n, i, j);
    GrowAppend(Visited2(n, i, j), [[i, j]], n);
    GrowOne([i, j], n);
  }

  /** The same for the middle of three loops. */
  lemma Carry3Outer(n: nat, i: nat)
    ensures Visited3(n, i, n, 0) == Visited3(n, i + 1, 0, 0)
  {
    Carry2(n, i);
  }

  /** No loop has started: nothing visited yet. */
  lemma Origin(n: nat)
    ensures Visited1(0) == [] && Visited2(n, 0, 0) == [] && Visited3(n, 0, 0, 0) == []
  {
    assert Grow([], n) == [];
  }

  /** The outermost loop running out: every tuple visited. */
  lemma All1(n: nat)
    ensures Visited1(n) == Lex(n, 1)
  {
    assert Lex(n, 1) == Grow([[]], n);
    GrowOne([], n);
  }

  lemma All2(n: nat)
    ensures Visited2(n, n, 0) == Lex(n, 2)
  {
    All1(n);
    assert Grow(Visited1(n), n) + Cells([n], 0) == Grow(Visited1(n), n);
  }

  lemma All3(n: nat)
    ensures Visited3(n, n, 0, 0) == Lex(n, 3)
  {
    All2(n);
    assert Grow(Visited2(n, n, 0), n) + Cells([n, 0], 0) == Grow(Visited2(n, n, 0), n);
  }

  lemma InjectiveSnoc(ts: seq<seq<int>>, x: seq<int>)
    ensures Injective(ts + [x]) == Injective(ts) + (if NoDup(x) then [x] else [])
  {
    assert (ts + [x])[..|ts|] == ts;
  }

  lemma PairsSnoc(a: seq<int>, bs: seq<seq<int>>, b: seq<int>)
    ensures Pairs(a, bs + [b]) == Pairs(a, bs) + [(a, b)]
  {
  }

  lemma CrossSnoc(as_: seq<seq<int>>, a: seq<int>, bs: seq<seq<int>>)
    ensures Cross(as_ + [a], bs) == Cross(as_, bs) + Pairs(a, bs)
  {
    assert (as_ + [a])[..|as_|] == as_;
  }

  /** A second-copy loop visiting tuple x, on the catalogue: x is passed to
      add_cluster_type exactly when no index repeats. */
  lemma SecondStep(m: Graph, base: seq<Attempt>, m1: seq<int>, vs: seq<seq<int>>, x: seq<int>,
                   subIso: (Graph, Graph) -> bool)
    requires WellFormed(m) && (NoDup(x) ==> Overlap(m.n, m1, x))
    ensures Catalogue(m, base + Pairs(m1, Injective(vs + [x])), subIso) ==
            var c := Catalogue(m, base + Pairs(m1, Injective(vs)), subIso);
            if NoDup(x) then AddType(c, m, m1, x, subIso) else c
  {
    InjectiveSnoc(vs, x);
    var v := Injective(vs);
    if NoDup(x) {
      PairsSnoc(m1, v, x);
      assert base + Pairs(m1, v + [x]) == (base + Pairs(m1, v)) + [(m1, x)];
      CatalogueSnoc(m, base + Pairs(m1, v), (m1, x), subIso);
    } else {
      assert v + [] == v;
    }
  }

  /** A first-copy loop visiting tuple x: the second copy's loops run for x
      exactly when no index repeats. */
  lemma FirstStep(base: seq<Attempt>, vs: seq<seq<int>>, x: seq<int>, t: seq<seq<int>>)
    ensures NoDup(x) ==>
              base + Cross(Injective(vs + [x]), t) == (base + Cross(Injective(vs), t)) + Pairs(x, t)
    ensures !NoDup(x) ==> base + Cross(Injective(vs + [x]), t) == base + Cross(Injective(vs), t)
  {
    var v := Injective(vs);
    if NoDup(x) {
      assert Injective(vs + [x]) == v + [x] by {
        InjectiveSnoc(vs, x);
      }
      CrossSnoc(v, x, t);
      AppendAssoc(base, Cross(v, t), Pairs(x, t));
    } else {
      assert Injective(vs + [x]) == v by {
        InjectiveSnoc(vs, x);
        assert v + [] == v;
      }
    }
  }

  /** The filter distributes over concatenation. */
  lemma {:induction false} InjectiveAppend(a: seq<seq<int>>, b: seq<seq<int>>)
    ensures Injective(a + b) == Injective(a) + Injective(b)
  {
    if b != [] {
      var b', x := b[..|b| - 1], b[|b| - 1];
      InjectiveAppend(a, b');
      assert b == b' + [x];
      assert a + b == (a + b') + [x];
      InjectiveSnoc(a + b', x);
      InjectiveSnoc(b', x);
      AppendAssoc(Injective(a), Injective(b'), if NoDup(x) then [x] else []);
    } else {
      assert a + b == a;
      assert Injective(a) + [] == Injective(a);
    }
  }

  /** So does the pairing of first-copy tuples with second-copy tuples. */
  lemma {:induction false} CrossAppend(a: seq<seq<int>>, b: seq<seq<int>>, t: seq<seq<int>>)
    ensures Cross(a + b, t) == Cross(a, t) + Cross(b, t)
  {
    if b != [] {
      var b', x := b[..|b| - 1], b[|b| - 1];
      CrossAppend(a, b', t);
      assert b == b' + [x];
      assert a + b == (a + b') + [x];
      CrossSnoc(a + b', x, t);
      CrossSnoc(b', x, t);
      AppendAssoc(Cross(a, t), Cross(b', t), Pairs(x, t));
    } else {
      assert a + b == a;
      assert Cross(a, t) + [] == Cross(a, t);
    }
  }

  /** A completed row of the first copy's loops: the attempts before the row
      followed by the row's own attempts are the attempts before the next row. */
  lemma RowCarry2(base: seq<Attempt>, n: nat, i: nat, t: seq<seq<int>>)
    ensures (base + Cross(Injective(Visited2(n, i, 0)), t)) + Cross(Injective(Cells([i], n)), t) ==
            base + Cross(Injective(Visited2(n, i + 1, 0)), t)
  {
    var g := Grow(Visited1(i), n);
    assert Visited2(n, i, 0) == g;
    Next1(i);
    GrowAppend(Visited1(i), [[i]], n);
    GrowOne([i], n);
    assert Visited2(n, i + 1, 0) == g + Cells([i], n);
    InjectiveAppend(g, Cells([i], n));
    CrossAppend(Injective(g), Injective(Cells([i], n)), t);
    AppendAssoc(base, Cross(Injective(g), t), Cross(Injective(Cells([i], n)), t));
  }

  lemma AppendAssoc<T>(a: seq<T>, b: seq<T>, c: seq<T>)
    ensures a + (b + c) == (a + b) + c
  {
  }

  /** A step of the second copy's loop for overlap 1. */
  lemma Step1(m: Graph, base: seq<Attempt>, m1: seq<int>, i2: nat, subIso: (Graph, Graph) -> bool)
    requires WellFormed(m) && |m1| == 1 < m.n && Below(m1, m.n) && i2 < m.n
    ensures Catalogue(m, base + Pairs(m1, Injective(Visited1(i2 + 1))), subIso) ==
            AddType(Catalogue(m, base + Pairs(m1, Injective(Visited1(i2))), subIso), m, m1, [i2], subIso)
  {
    Next1(i2);
    SecondStep(m, base, m1, Visited1(i2), [i2], subIso);
  }

  /** A step of the innermost second-copy loop for overlap 2. */
  lemma Step2(m: Graph, base: seq<Attempt>, m1: seq<int>, i2: nat, j2: nat, subIso: (Graph, Graph) -> bool)
    requires WellFormed(m) && |m1| == 2 < m.n && Below(m1, m.n) && i2 < m.n && j2 < m.n
    ensures Catalogue(m, base + Pairs(m1, Injective(Visited2(m.n, i2, j2 + 1))), subIso) ==
            var c := Catalogue(m, base + Pairs(m1, Injective(Visited2(m.n, i2, j2))), subIso);
            if i2 != j2 then AddType(c, m, m1, [i2, j2], subIso) else c
  {
    Next2(m.n, i2, j2);
    NoDupPair(i2, j2);
    SecondStep(m, base, m1, Visited2(m.n, i2, j2), [i2, j2], subIso);
  }

  /** A step of the innermost second-copy loop for overlap 3. */
  lemma Step3(m: Graph, base: seq<Attempt>, m1: seq<int>, i2: nat, j2: nat, k2: nat,
              subIso: (Graph, Graph) -> bool)
    requires WellFormed(m) && |m1| == 3 < m.n && Below(m1, m.n) && i2 < m.n && j2 < m.n && k2 < m.n
    ensures Catalogue(m, base + Pairs(m1, Injective(Visited3(m.n, i2, j2, k2 + 1))), subIso) ==
            var c := Catalogue(m, base + Pairs(m1, Injective(Visited3(m.n, i2, j2, k2))), subIso);
            if i2 != j2 && i2 != k2 && j2 != k2 then AddType(c, m, m1, [i2, j2, k2], subIso) else c
  {
    Next3(m.n, i2, j2, k2);
    NoDupTriple(i2, j2, k2);
    SecondStep(m, base, m1, Visited3(m.n, i2, j2, k2), [i2, j2, k2], subIso);
  }

  /** A step of the first copy's loop for overlap 1. */
  lemma FirstStep1(m: Graph, i: nat, t: seq<seq<int>>, subIso: (Graph, Graph) -> bool)
    requires WellFormed(m)
    ensures Catalogue(m, Cross(Injective(Visited1(i + 1)), t), subIso) ==
            Catalogue(m, Cross(Injective(Visited1(i)), t) + Pairs([i], t), subIso)
  {
    Next1(i);
    InjectiveSnoc(Visited1(i), [i]);
    CrossSnoc(Injective(Visited1(i)), [i], t);
  }

  /** A step of the innermost first-copy loop for overlap 2. */
  lemma FirstStep2(m: Graph, pre: seq<Attempt>, i: nat, j: nat, t: seq<seq<int>>,
                   subIso: (Graph, Graph) -> bool)
    requires WellFormed(m)
    ensures Catalogue(m, pre + Cross(Injective(Cells([i], j + 1)), t), subIso) ==
            var b := pre + Cross(Injective(Cells([i], j)), t);
            if i != j then Catalogue(m, b + Pairs([i, j], t), subIso) else Catalogue(m, b, subIso)
  {
    CellsNext([i], j);
    assert [i] + [j] == [i, j];
    NoDupPair(i, j);
    FirstStep(pre, Cells([i], j), [i, j], t);
  }

  /** A step of the innermost first-copy loop for overlap 3. */
  lemma FirstStep3(m: Graph, base: seq<Attempt>, i: nat, j: nat, k: nat, t: seq<seq<int>>,
                   subIso: (Graph, Graph) -> bool)
    requires WellFormed(m)
    ensures Catalogue(m, base + Cross(Injective(Visited3(m.n, i, j, k + 1)), t), subIso) ==
            var b := base + Cross(Injective(Visited3(m.n, i, j, k)), t);
            if i != j && i != k && j != k then Catalogue(m, b + Pairs([i, j, k], t), subIso)
            else Catalogue(m, b, subIso)
  {
    Next3(m.n, i, j, k);
    NoDupTriple(i, j, k);
    FirstStep(base, Visited3(m.n, i, j, k), [i, j, k], t);
  }

  /** The body of the innermost second-copy loop for overlap 2. */
  method SecondCell2(m: Graph, subIso: (Graph, Graph) -> bool, cTypes: seq<Graph>,
                     m1: seq<int>, i2: nat, j2: nat, ghost base: seq<Attempt>) returns (r: seq<Graph>)
    requires WellFormed(m) && 2 < m.n && |m1| == 2 && Below(m1, m.n) && i2 < m.n && j2 < m.n
    requires cTypes == Catalogue(m, base + Pairs(m1, Injective(Visited2(m.n, i2, j2))), subIso)
    ensures r == Catalogue(m, base + Pairs(m1, Injective(Visited2(m.n, i2, j2 + 1))), subIso)
  {
    Step2(m, base, m1, i2, j2, subIso);
    BelowPair(i2, j2, m.n);
    r := cTypes;
    if i2 != j2 {
      r := AddClusterType(r, m, m1, [i2, j2], subIso);
    }
  }

  /** The body of the innermost second-copy loop for overlap 3. */
  method SecondCell3(m: Graph, subIso: (Graph, Graph) -> bool, cTypes: seq<Graph>,
                     m1: seq<int>, i2: nat, j2: nat, k2: nat, ghost base: seq<Attempt>) returns (r: seq<Graph>)
    requires WellFormed(m) && 3 < m.n && |m1| == 3 && Below(m1, m.n) && i2 < m.n && j2 < m.n && k2 < m.n
    requires cTypes == Catalogue(m, base + Pairs(m1, Injective(Visited3(m.n, i2, j2, k2))), subIso)
    ensures r == Catalogue(m, base + Pairs(m1, Injective(Visited3(m.n, i2, j2, k2 + 1))), subIso)
  {
    Step3(m, base, m1, i2, j2, k2, subIso);
    BelowTriple(i2, j2, k2, m.n);
    r := cTypes;
    if i2 != j2 && i2 != k2 && j2 != k2 {
      r := AddClusterType(r, m, m1, [i2, j2, k2], subIso);
    }
  }

  /** The body of the innermost first-copy loop for overlap 2. */
  method FirstCell2(m: Graph, subIso: (Graph, Graph) -> bool, cTypes: seq<Graph>,
                    i: nat, j: nat, ghost pre: seq<Attempt>) returns (r: seq<Graph>)
    requires WellFormed(m) && 2 < m.n && i < m.n && j < m.n
    requires cTypes == Catalogue(m, pre + Cross(Injective(Cells([i], j)), Tuples(m.n, 2)), subIso)
    ensures r == Catalogue(m, pre + Cross(Injective(Cells([i], j + 1)), Tuples(m.n, 2)), subIso)
  {
    FirstStep2(m, pre, i, j, Tuples(m.n, 2), subIso);
    BelowPair(i, j, m.n);
    r := cTypes;
    if i != j {
      r := SecondCopies2(m, subIso, r, [i, j], pre + Cross(Injective(Cells([i], j)), Tuples(m.n, 2)));
    }
  }

  /** The body of the innermost first-copy loop for overlap 3. */
  method FirstCell3(m: Graph, subIso: (Graph, Graph) -> bool, cTypes: seq<Graph>,
                    i: nat, j: nat, k: nat, ghost base: seq<Attempt>) returns (r: seq<Graph>)
    requires WellFormed(m) && 3 < m.n && i < m.n && j < m.n && k < m.n
    requires cTypes == Catalogue(m, base + Cross(Injective(Visited3(m.n, i, j, k)), Tuples(m.n, 3)), subIso)
    ensures r == Catalogue(m, base + Cross(Injective(Visited3(m.n, i, j, k + 1)), Tuples(m.n, 3)), subIso)
  {
    FirstStep3(m, base, i, j, k, Tuples(m.n, 3), subIso);
    BelowTriple(i, j, k, m.n);
    r := cTypes;
    if i != j && i != k && j != k {
      r := SecondCopies3(m, subIso, r, [i, j, k], base + Cross(Injective(Visited3(m.n, i, j, k)), Tuples(m.n, 3)));
    }
  }

  /** The second copy's loop for overlap 1, for a fixed first tuple. */
  method SecondCopies1(m: Graph, subIso: (Graph, Graph) -> bool, cTypes: seq<Graph>,
                       m1: seq<int>, ghost base: seq<Attempt>) returns (r: seq<Graph>)
    requires WellFormed(m) && 1 < m.n && |m1| == 1 && Below(m1, m.n)
    requires cTypes == Catalogue(m, base, subIso)
    ensures r == Catalogue(m, base + Pairs(m1, Tuples(m.n, 1)), subIso)
  {
    var n := m.n;
    r := cTypes;
    Origin(n);
    assert base + Pairs(m1, Injective(Visited1(0))) == base;
    var i2 := 0;
    while i2 < n
      invariant 0 <= i2 <= n
      invariant r == Catalogue(m, base + Pairs(m1, Injective(Visited1(i2))), subIso)
    {
      Step1(m, base, m1, i2, subIso);
      r := AddClusterType(r, m, m1, [i2], subIso);
      i2 := i2 + 1;
    }
    assert i2 == n;
    All1(n);
  }

  /** The innermost second-copy loop (j2) of overlap 2, for fixed i2. */
  method SecondRow2(m: Graph, subIso: (Graph, Graph) -> bool, cTypes: seq<Graph>,
                    m1: seq<int>, i2: nat, ghost base: seq<Attempt>) returns (r: seq<Graph>)
    requires WellFormed(m) && 2 < m.n && |m1| == 2 && Below(m1, m.n) && i2 < m.n
    requires cTypes == Catalogue(m, base + Pairs(m1, Injective(Visited2(m.n, i2, 0))), subIso)
    ensures r == Catalogue(m, base + Pairs(m1, Injective(Visited2(m.n, i2 + 1, 0))), subIso)
  {
    var n := m.n;
    r := cTypes;
    var j2 := 0;
    while j2 < n
      invariant 0 <= j2 <= n
      invariant r == Catalogue(m, base + Pairs(m1, Injective(Visited2(n, i2, j2))), subIso)
    {
      r := SecondCell2(m, subIso, r, m1, i2, j2, base);
      j2 := j2 + 1;
    }
    assert j2 == n;
    Carry2(n, i2);
  }

  /** The second copy's loops for overlap 2, for a fixed first tuple. */
  method SecondCopies2(m: Graph, subIso: (Graph, Graph) -> bool, cTypes: seq<Graph>,
                       m1: seq<int>, ghost base: seq<Attempt>) returns (r: seq<Graph>)
    requires WellFormed(m) && 2 < m.n && |m1| == 2 && Below(m1, m.n)
    requires cTypes == Catalogue(m, base, subIso)
    ensures r == Catalogue(m, base + Pairs(m1, Tuples(m.n, 2)), subIso)
  {
    var n := m.n;
    r := cTypes;
    Origin(n);
    assert base + Pairs(m1, Injective(Visited2(n, 0, 0))) == base;
    var i2 := 0;
    while i2 < n
      invariant 0 <= i2 <= n
      invariant r == Catalogue(m, base + Pairs(m1, Injective(Visited2(n, i2, 0))), subIso)
    {
      r := SecondRow2(m, subIso, r, m1, i2, base);
      i2 := i2 + 1;
    }
    assert i2 == n;
    All2(n);
  }

  /** The innermost second-copy loop (k2) of overlap 3, for fixed i2, j2. */
  method SecondRow3(m: Graph, subIso: (Graph, Graph) -> bool, cTypes: seq<Graph>,
                    m1: seq<int>, i2: nat, j2: nat, ghost base: seq<Attempt>) returns (r: seq<Graph>)
    requires WellFormed(m) && 3 < m.n && |m1| == 3 && Below(m1, m.n) && i2 < m.n && j2 < m.n
    requires cTypes == Catalogue(m, base + Pairs(m1, Injective(Visited3(m.n, i2, j2, 0))), subIso)
    ensures r == Catalogue(m, base + Pairs(m1, Injective(Visited3(m.n, i2, j2 + 1, 0))), subIso)
  {
    var n := m.n;
    r := cTypes;
    var k2 := 0;
    while k2 < n
      invariant 0 <= k2 <= n
      invariant r == Catalogue(m, base + Pairs(m1, Injective(Visited3(n, i2, j2, k2))), subIso)
    {
      r := SecondCell3(m, subIso, r, m1, i2, j2, k2, base);
      k2 := k2 + 1;
    }
    assert k2 == n;
    Carry3(n, i2, j2);
  }

  /** The middle second-copy loop (j2) of overlap 3, for fixed i2. */
  method SecondPlane3(m: Graph, subIso: (Graph, Graph) -> bool, cTypes: seq<Graph>,
                      m1: seq<int>, i2: nat, ghost base: seq<Attempt>) returns (r: seq<Graph>)
    requires WellFormed(m) && 3 < m.n && |m1| == 3 && Below(m1, m.n) && i2 < m.n
    requires cTypes == Catalogue(m, base + Pairs(m1, Injective(Visited3(m.n, i2, 0, 0))), subIso)
    ensures r == Catalogue(m, base + Pairs(m1, Injective(Visited3(m.n, i2 + 1, 0, 0))), subIso)
  {
    var n := m.n;
    r := cTypes;
    var j2 := 0;
    while j2 < n
      invariant 0 <= j2 <= n
      invariant r == Catalogue(m, base + Pairs(m1, Injective(Visited3(n, i2, j2, 0))), subIso)
    {
      r := SecondRow3(m, subIso, r, m1, i2, j2, base);
      j2 := j2 + 1;
    }
    assert j2 == n;
    Carry3Outer(n, i2);
  }

  /** The second copy's loops for overlap 3, for a fixed first tuple. */
  method SecondCopies3(m: Graph, subIso: (Graph, Graph) -> bool, cTypes: seq<Graph>,
                       m1: seq<int>, ghost base: seq<Attempt>) returns (r: seq<Graph>)
    requires WellFormed(m) && 3 < m.n && |m1| == 3 && Below(m1, m.n)
    requires cTypes == Catalogue(m, base, subIso)
    ensures r == Catalogue(m, base + Pairs(m1, Tuples(m.n, 3)), subIso)
  {
    var n := m.n;
    r := cTypes;
    Origin(n);
    assert base + Pairs(m1, Injective(Visited3(n, 0, 0, 0))) == base;
    var i2 := 0;
    while i2 < n
      invariant 0 <= i2 <= n
      invariant r == Catalogue(m, base + Pairs(m1, Injective(Visited3(n, i2, 0, 0))), subIso)
    {
      r := SecondPlane3(m, subIso, r, m1, i2, base);
      i2 := i2 + 1;
    }
    assert i2 == n;
    All3(n);
  }

  /** The block for overlap 1: every first vertex against every second vertex. */
  method TryOverlap1(m: Graph, subIso: (Graph, Graph) -> bool) returns (r: seq<Graph>)
    requires WellFormed(m) && 1 < m.n
    ensures r == Catalogue(m, Tried(m.n, 1), subIso)
  {
    var n := m.n;
    ghost var t := Tuples(n, 1);
    r := [];
    Origin(n);
    var i := 0;
    while i < n
      invariant 0 <= i <= n
      invariant r == Catalogue(m, Cross(Injective(Visited1(i)), t), subIso)
    {
      FirstStep1(m, i, t, subIso);
      r := SecondCopies1(m, subIso, r, [i], Cross(Injective(Visited1(i)), t));
      i := i + 1;
    }
    assert i == n;
    All1(n);
  }

  /** The innermost first-copy loop (j) of overlap 2, for fixed i. */
  method FirstRow2(m: Graph, subIso: (Graph, Graph) -> bool, cTypes: seq<Graph>,
                   i: nat, ghost pre: seq<Attempt>) returns (r: seq<Graph>)
    requires WellFormed(m) && 2 < m.n && i < m.n
    requires cTypes == Catalogue(m, pre, subIso)
    ensures r == Catalogue(m, pre + Cross(Injective(Cells([i], m.n)), Tuples(m.n, 2)), subIso)
  {
    var n := m.n;
    r := cTypes;
    assert pre + Cross(Injective(Cells([i], 0)), Tuples(n, 2)) == pre;
    var j := 0;
    while j < n
      invariant 0 <= j <= n
      invariant r == Catalogue(m, pre + Cross(Injective(Cells([i], j)), Tuples(n, 2)), subIso)
    {
      r := FirstCell2(m, subIso, r, i, j, pre);
      j := j + 1;
    }
    assert j == n;
  }

  /** The block for overlap 2. */
  method TryOverlap2(m: Graph, subIso: (Graph, Graph) -> bool, cTypes: seq<Graph>,
                     ghost base: seq<Attempt>) returns (r: seq<Graph>)
    requires WellFormed(m) && 2 < m.n
    requires cTypes == Catalogue(m, base, subIso)
    ensures r == Catalogue(m, base + Cross(Tuples(m.n, 2), Tuples(m.n, 2)), subIso)
  {
    var n := m.n;
    r := cTypes;
    Origin(n);
    assert base + Cross(Injective(Visited2(n, 0, 0)), Tuples(n, 2)) == base;
    var i := 0;
    while i < n
      invariant 0 <= i <= n
      invariant r == Catalogue(m, base + Cross(Injective(Visited2(n, i, 0)), Tuples(n, 2)), subIso)
    {
      RowCarry2(base, n, i, Tuples(n, 2));
      r := FirstRow2(m, subIso, r, i, base + Cross(Injective(Visited2(n, i, 0)), Tuples(n, 2)));
      i := i + 1;
    }
    assert i == n;
    All2(n);
  }

  /** The innermost first-copy loop (k) of overlap 3, for fixed i, j. */
  method FirstRow3(m: Graph, subIso: (Graph, Graph) -> bool, cTypes: seq<Graph>,
                   i: nat, j: nat, ghost base: seq<Attempt>) returns (r: seq<Graph>)
    requires WellFormed(m) && 3 < m.n && i < m.n && j < m.n
    requires cTypes == Catalogue(m, base + Cross(Injective(Visited3(m.n, i, j, 0)), Tuples(m.n, 3)), subIso)
    ensures r == Catalogue(m, base + Cross(Injective(Visited3(m.n, i, j + 1, 0)), Tuples(m.n, 3)), subIso)
  {
    var n := m.n;
    ghost var t := Tuples(n, 3);
    r := cTypes;
    var k := 0;
    while k < n
      invariant 0 <= k <= n
      invariant r == Catalogue(m, base + Cross(Injective(Visited3(n, i, j, k)), t), subIso)
    {
      r := FirstCell3(m, subIso, r, i, j, k, base);
      k := k + 1;
    }
    assert k == n;
    Carry3(n, i, j);
  }

  /** The middle first-copy loop (j) of overlap 3, for fixed i. */
  method FirstPlane3(m: Graph, subIso: (Graph, Graph) -> bool, cTypes: seq<Graph>,
                     i: nat, ghost base: seq<Attempt>) returns (r: seq<Graph>)
    requires WellFormed(m) && 3 < m.n && i < m.n
    requires cTypes == Catalogue(m, base + Cross(Injective(Visited3(m.n, i, 0, 0)), Tuples(m.n, 3)), subIso)
    ensures r == Catalogue(m, base + Cross(Injective(Visited3(m.n, i + 1, 0, 0)), Tuples(m.n, 3)), subIso)
  {
    var n := m.n;
    r := cTypes;
    var j := 0;
    while j < n
      invariant 0 <= j <= n
      invariant r == Catalogue(m, base + Cross(Injective(Visited3(n, i, j, 0)), Tuples(n, 3)), subIso)
    {
      r := FirstRow3(m, subIso, r, i, j, base);
      j := j + 1;
    }
    assert j == n;
    Carry3Outer(n, i);
  }

  /** The block for overlap 3. */
  method TryOverlap3(m: Graph, subIso: (Graph, Graph) -> bool, cTypes: seq<Graph>,
                     ghost base: seq<Attempt>) returns (r: seq<Graph>)
    requires WellFormed(m) && 3 < m.n
    requires cTypes == Catalogue(m, base, subIso)
    ensures r == Catalogue(m, base + Cross(Tuples(m.n, 3), Tuples(m.n, 3)), subIso)
  {
    var n := m.n;
    r := cTypes;
    Origin(n);
    assert base + Cross(Injective(Visited3(n, 0, 0, 0)), Tuples(n, 3)) == base;
    var i := 0;
    while i < n
      invariant 0 <= i <= n
      invariant r == Catalogue(m, base + Cross(Injective(Visited3(n, i, 0, 0)), Tuples(n, 3)), subIso)
    {
      r := FirstPlane3(m, subIso, r, i, base);
      i := i + 1;
    }
    assert i == n;
    All3(n);
  }

  /** The block of loops for one overlap size below 4. */
  method OverlapBlock(m: Graph, subIso: (Graph, Graph) -> bool, cTypes: seq<Graph>, overlap: nat)
    returns (r: seq<Graph>)
    requires WellFormed(m) && 1 <= overlap <= 3 && overlap < m.n
    requires cTypes == Catalogue(m, Tried(m.n, overlap - 1), subIso)
    ensures r == Catalogue(m, Tried(m.n, overlap), subIso)
  {
    if overlap == 1 {
      r := TryOverlap1(m, subIso);
    } else if overlap == 2 {
      r := TryOverlap2(m, subIso, cTypes, Tried(m.n, 1));
    } else {
      r := TryOverlap3(m, subIso, cTypes, Tried(m.n, 2));
    }
  }

  /** Part I: overlap sizes 1, 2, 3 in turn while below the motif's vertex
      count; overlap 4 returns 1. The catalogue is add_cluster_type applied to
      every attempt in loop order. */
  method EnumerateTypes(m: Graph, subIso: (Graph, Graph) -> bool) returns (ret: int, cTypes: seq<Graph>)
    requires WellFormed(m)
    ensures ret == if m.n >= 5 then 1 else 0
    ensures cTypes == Catalogue(m, Tried(m.n, Levels(m.n)), subIso)
  {
    cTypes := [];
    var overlap := 1;
    while overlap < m.n
      invariant 1 <= overlap <= 4 && (overlap <= m.n || overlap == 1)
      invariant cTypes == Catalogue(m, Tried(m.n, overlap - 1), subIso)
    {
      if overlap == 4 {
        assert Levels(m.n) == overlap - 1;
        return 1, cTypes;
      }
      cTypes := OverlapBlock(m, subIso, cTypes, overlap);
      overlap := overlap + 1;
    }
    assert Levels(m.n) == overlap - 1;
    ret := 0;
  }

  /** A tuple extends a tuple of the list by one index below n exactly when it
      is in the grown list. */
  lemma {:induction false} GrowMember(ts: seq<seq<int>>, n: nat, y: seq<int>)
    ensures y in Grow(ts, n) <==> |y| >= 1 && y[..|y| - 1] in ts && 0 <= y[|y| - 1] < n
  {
    if ts != [] {
      var ts' := ts[..|ts| - 1];
      var t := ts[|ts| - 1];
      GrowMember(ts', n, y);
      assert ts == ts' + [t];
      if |y| >= 1 && y[..|y| - 1] == t && 0 <= y[|y| - 1] < n {
        assert y == t + [y[|y| - 1]];
        assert Cells(t, n)[y[|y| - 1]] == y;
      }
      if y in Cells(t, n) {
        var d :| 0 <= d < n && Cells(t, n)[d] == y;
        assert y[..|y| - 1] == t;
      }
    }
  }

  /** The nested loops visit exactly the k-digit tuples over 0 .. n-1. */
  lemma {:induction false} LexMember(n: nat, k: nat, x: seq<int>)
    ensures x in Lex(n, k) <==> |x| == k && Below(x, n)
  {
    if k > 0 {
      GrowMember(Lex(n, k - 1), n, x);
      if |x| >= 1 {
        var x' := x[..|x| - 1];
        LexMember(n, k - 1, x');
        assert x == x' + [x[|x| - 1]];
      }
    } else {
      assert x in Lex(n, 0) <==> x == [];
    }
  }

  /** The filter keeps exactly the tuples without a repeated index. */
  lemma {:induction false} InjectiveMember(ts: seq<seq<int>>, x: seq<int>)
    ensures x in Injective(ts) <==> x in ts && NoDup(x)
  {
    if ts != [] {
      var ts' := ts[..|ts| - 1];
      InjectiveMember(ts', x);
      assert ts == ts' + [ts[|ts| - 1]];
    }
  }

  /** The pairs of the two copies' loops are exactly the combinations of a
      first tuple and a second tuple. */
  lemma {:induction false} CrossMember(as_: seq<seq<int>>, bs: seq<seq<int>>, p: Attempt)
    ensures p in Cross(as_, bs) <==> p.0 in as_ && p.1 in bs
  {
    if as_ != [] {
      var as' := as_[..|as_| - 1];
      var a := as_[|as_| - 1];
      CrossMember(as', bs, p);
      assert as_ == as' + [a];
      if p.0 == a && p.1 in bs {
        var j :| 0 <= j < |bs| && bs[j] == p.1;
        assert Pairs(a, bs)[j] == p;
      }
    }
  }

  /** For every overlap size k up to `levels`, the enumeration tries exactly
      the pairs of ordered k-tuples of pairwise distinct motif vertices. */
  lemma {:induction false} TriedMember(n: nat, levels: nat, p: Attempt)
    ensures p in Tried(n, levels) <==>
              1 <= |p.0| <= levels && |p.1| == |p.0| &&
              Below(p.0, n) && Below(p.1, n) && NoDup(p.0) && NoDup(p.1)
  {
    if levels > 0 {
      var t := Tuples(n, levels);
      CrossMember(t, t, p);
      InjectiveMember(Lex(n, levels), p.0);
      InjectiveMember(Lex(n, levels), p.1);
      LexMember(n, levels, p.0);
      LexMember(n, levels, p.1);
      if levels > 1 {
        TriedMember(n, levels - 1, p);
        assert Tried(n, levels) == Tried(n, levels - 1) + Cross(t, t);
      }
    }
  }

  /** Every attempt of the enumeration is an overlap of the motif whose glued
      second-copy vertices are distinct, so the catalogue facts apply to it. */
  lemma TriedAttempts(n: nat, levels: nat)
    requires levels <= n
    ensures Attempts(n, Tried(n, levels))
  {
    var tr := Tried(n, levels);
    forall i | 0 <= i < |tr|
      ensures Overlap(n, tr[i].0, tr[i].1) && NoDup(tr[i].1)
    {
      TriedMember(n, levels, tr[i]);
    }
  }
}
