/** Small facts about integer lists shared by the three tools: the linear
    searches igraph performs on its vectors, and the "how many positions of
    one mapping occur in another" count that every tool uses to compare motif
    instances. */
module Lists {

  /** The elements of a list, as a set. */
  function SetOf(s: seq<int>): set<int> {
    set x | x in s
  }

  /** Every entry lies in [0, n). */
  predicate Below(s: seq<int>, n: int) {
    forall i :: 0 <= i < |s| ==> 0 <= s[i] < n
  }

  /** Loop indices below n make index lists below n. */
  lemma BelowPair(a: int, b: int, n: int)
    requires 0 <= a < n && 0 <= b < n
    ensures Below([a, b], n)
  {
  }

  lemma BelowTriple(a: int, b: int, c: int, n: int)
    requires 0 <= a < n && 0 <= b < n && 0 <= c < n
    ensures Below([a, b, c], n)
  {
  }

  /** No value occurs twice. */
  predicate NoDup(s: seq<int>) {
    forall i, j :: 0 <= i < j < |s| ==> s[i] != s[j]
  }

  /** Position of the first occurrence of `x`, as igraph_vector_search finds it
      when started at position 0. */
  function IndexOf(s: seq<int>, x: int): (k: nat)
    requires x in s
    ensures k < |s| && s[k] == x
    ensures forall i :: 0 <= i < k ==> s[i] != x
  {
    if s[0] == x then 0 else 1 + IndexOf(s[1..], x)
  }

  /** Appending never moves the first occurrence of a value already present. */
  lemma {:induction false} IndexOfAppend(s: seq<int>, t: seq<int>, x: int)
    requires x in s
    ensures x in s + t && IndexOf(s + t, x) == IndexOf(s, x)
  {
    var k := IndexOf(s, x);
    assert (s + t)[k] == x;
  }

  /** Two indices are distinct exactly when the loops' test i != j passes. */
  lemma NoDupPair(a: int, b: int)
    ensures NoDup([a, b]) <==> a != b
  {
    var s := [a, b];
    if NoDup(s) {
      assert s[0] != s[1];
    }
  }

  /** Three indices are pairwise distinct exactly when the loops' three tests
      pass. */
  lemma NoDupTriple(a: int, b: int, c: int)
    ensures NoDup([a, b, c]) <==> a != b && a != c && b != c
  {
    var s := [a, b, c];
    if NoDup(s) {
      assert s[0] != s[1] && s[0] != s[2] && s[1] != s[2];
    }
  }

  /** In a list without duplicates the first occurrence of s[p] is p itself. */
  lemma IndexOfNoDup(s: seq<int>, p: nat)
    requires p < |s| && NoDup(s)
    ensures IndexOf(s, s[p]) == p
  {
  }

  /** The number of positions of `a` whose value occurs somewhere in `b`: the
      `count`/`found` the tools compute with two nested loops and a `break`. */
  function Matches(a: seq<int>, b: seq<int>): (c: nat)
    ensures c <= |a|
  {
    if a == [] then 0
    else Matches(a[..|a| - 1], b) + (if a[|a| - 1] in b then 1 else 0)
  }

  /** A full count means every value of `a` occurs in `b`, and conversely. */
  lemma {:induction false} MatchesFull(a: seq<int>, b: seq<int>)
    ensures Matches(a, b) == |a| <==> SetOf(a) <= SetOf(b)
  {
    if a != [] {
      var a' := a[..|a| - 1];
      MatchesFull(a', b);
      assert a == a' + [a[|a| - 1]];
      assert SetOf(a) == SetOf(a') + {a[|a| - 1]};
    }
  }

  /** A zero count means the two lists share no value, and conversely. */
  lemma {:induction false} MatchesZero(a: seq<int>, b: seq<int>)
    ensures Matches(a, b) == 0 <==> SetOf(a) !! SetOf(b)
  {
    if a != [] {
      var a' := a[..|a| - 1];
      MatchesZero(a', b);
      assert a == a' + [a[|a| - 1]];
      assert SetOf(a) == SetOf(a') + {a[|a| - 1]};
    }
  }

  /** For a list without duplicates the count is the number of values the
      two lists have in common. */
  lemma {:induction false} MatchesCommon(a: seq<int>, b: seq<int>)
    requires NoDup(a)
    ensures Matches(a, b) == |SetOf(a) * SetOf(b)|
  {
    if a != [] {
      var a', x := a[..|a| - 1], a[|a| - 1];
      NoDupSnoc(a', x);
      assert a == a' + [x];
      MatchesCommon(a', b);
      CommonSnoc(a', x, b);
    }
  }

  /** Removing the last value keeps a list duplicate-free, and that value
      occurs nowhere before. */
  lemma NoDupSnoc(s: seq<int>, x: int)
    requires NoDup(s + [x])
    ensures NoDup(s) && x !in SetOf(s)
  {
    var t := s + [x];
    forall i, j | 0 <= i < j < |s| ensures s[i] != s[j] {
      assert s[i] == t[i] && s[j] == t[j];
    }
    forall i | 0 <= i < |s| ensures s[i] != x {
      assert s[i] == t[i] && x == t[|s|];
    }
  }

  /** One new value adds one common value exactly when the other list has it. */
  lemma CommonSnoc(s: seq<int>, x: int, b: seq<int>)
    requires x !in SetOf(s)
    ensures |SetOf(s + [x]) * SetOf(b)| == |SetOf(s) * SetOf(b)| + (if x in b then 1 else 0)
  {
    assert SetOf(s + [x]) == SetOf(s) + {x};
    var common := SetOf(s) * SetOf(b);
    if x in b {
      assert SetOf(s + [x]) * SetOf(b) == common + {x};
    } else {
      assert SetOf(s + [x]) * SetOf(b) == common;
    }
  }

  /** A list without duplicates has as many distinct values as positions. */
  lemma {:induction false} NoDupCard(s: seq<int>)
    requires NoDup(s)
    ensures |SetOf(s)| == |s|
  {
    if s != [] {
      var s' := s[..|s| - 1];
      NoDupCard(s');
      assert SetOf(s) == SetOf(s') + {s[|s| - 1]};
      assert s[|s| - 1] !in SetOf(s');
    }
  }

  /** Two duplicate-free lists of equal length, one covering the other, hold
      the same set of values: the covering test of the deduplication loops is
      vertex-set equality for injective mappings. */
  lemma SameSizeCover(a: seq<int>, b: seq<int>)
    requires NoDup(a) && NoDup(b) && |a| == |b|
    requires SetOf(a) <= SetOf(b)
    ensures SetOf(a) == SetOf(b)
  {
    NoDupCard(a);
    NoDupCard(b);
    var extra := SetOf(b) - SetOf(a);
    assert SetOf(b) == SetOf(a) + extra;
    assert |SetOf(b)| == |SetOf(a)| + |extra|;
    assert extra == {};
  }

  /** The values of `s` in order of first appearance: what a loop that appends
      each value it has not seen yet leaves behind. */
  function Distinct(s: seq<int>): (r: seq<int>)
    ensures |r| <= |s|
  {
    if s == [] then []
    else
      var r := Distinct(s[..|s| - 1]);
      if s[|s| - 1] in r then r else r + [s[|s| - 1]]
  }

  /** Distinct keeps every value once and invents none. */
  lemma {:induction false} DistinctSpec(s: seq<int>)
    ensures NoDup(Distinct(s))
    ensures SetOf(Distinct(s)) == SetOf(s)
  {
    if s != [] {
      var s' := s[..|s| - 1];
      DistinctSpec(s');
      assert s == s' + [s[|s| - 1]];
      assert SetOf(s) == SetOf(s') + {s[|s| - 1]};
    }
  }

  /** Distinct of a longer list extends Distinct of its prefix. */
  lemma {:induction false} DistinctPrefix(s: seq<int>, t: seq<int>)
    ensures |Distinct(s)| <= |Distinct(s + t)|
    ensures Distinct(s + t)[..|Distinct(s)|] == Distinct(s)
  {
    if t != [] {
      var t' := t[..|t| - 1];
      DistinctPrefix(s, t');
      assert (s + t)[..|s + t| - 1] == s + t';
    } else {
      assert s + t == s;
    }
  }
}
