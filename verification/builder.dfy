/**
  Huffman tree construction: a min-weight pool of leaves, one per table entry,
  from which the two lightest trees are repeatedly removed and replaced by
  their parent, until one tree is left.

  The pool is a sequence; which of several equally light trees is removed, and
  in which order the table's entries enter the pool, are both left open (the
  source's heap and hash map do not fix them), so every property below holds
  for all of those choices.
 */
module Builder {
  import opened HuffmanTree

  /** The heap order: true when `a` comes out of the min-heap after `b`. */
  predicate CompareNodes(a: Tree, b: Tree) {
    a.weight > b.weight
  }

  /** `pool[i]` is a tree no other pool member precedes in the heap order. */
  predicate IsLightest(pool: seq<Tree>, i: int) {
    0 <= i < |pool| && forall k :: 0 <= k < |pool| ==> !CompareNodes(pool[i], pool[k])
  }

  /** Every tree of the pool keeps the weight invariant. */
  predicate AllWellWeighted(pool: seq<Tree>) {
    forall t :: t in pool ==> WellWeighted(t)
  }

  /** The union of `f` over the trees of a pool. */
  function Gather(pool: seq<Tree>, f: Tree -> multiset<char>): multiset<char> {
    if pool == [] then multiset{} else Gather(pool[..|pool| - 1], f) + f(pool[|pool| - 1])
  }

  lemma {:induction false} GatherAppend(p: seq<Tree>, q: seq<Tree>, f: Tree -> multiset<char>)
    ensures Gather(p + q, f) == Gather(p, f) + Gather(q, f)
  {
    if q == [] {
      assert p + q == p;
    } else {
      assert (p + q)[..|p + q| - 1] == p + q[..|q| - 1];
      GatherAppend(p, q[..|q| - 1], f);
    }
  }

  /** Adding one tree at the end of the pool adds its part to the union. */
  lemma GatherLast(p: seq<Tree>, t: Tree, f: Tree -> multiset<char>)
    ensures Gather(p + [t], f) == Gather(p, f) + f(t)
  {
    assert (p + [t])[..|p + [t]| - 1] == p;
  }

  lemma GatherSingle(t: Tree, f: Tree -> multiset<char>)
    ensures Gather([t], f) == f(t)
  {
    GatherLast([], t, f);
    assert [] + [t] == [t];
  }

  lemma SplitAt(p: seq<Tree>, i: nat)
    requires i < |p|
    ensures p == (p[..i] + [p[i]]) + p[i + 1..]
  {
  }

  /** Taking one tree out of the pool takes exactly its part out of the union. */
  lemma GatherRemove(p: seq<Tree>, i: nat, f: Tree -> multiset<char>)
    requires i < |p|
    ensures Gather(p, f) == Gather(p[..i] + p[i + 1..], f) + f(p[i])
  {
    var left, right := p[..i], p[i + 1..];
    SplitAt(p, i);
    GatherAppend(left + [p[i]], right, f);
    GatherAppend(left, [p[i]], f);
    GatherAppend(left, right, f);
    GatherSingle(p[i], f);
  }

  /** The index of the first lightest tree, found by a linear scan. */
  method FirstLightest(pool: seq<Tree>) returns (best: nat)
    requires |pool| > 0
    ensures IsLightest(pool, best)
  {
    best := 0;
    var k := 1;
    while k < |pool|
      invariant 1 <= k <= |pool|
      invariant best < k
      invariant forall j :: 0 <= j < k ==> !CompareNodes(pool[best], pool[j])
    {
      if CompareNodes(pool[best], pool[k]) {
        best := k;
      }
      k := k + 1;
    }
  }

  /** `top()` then `pop()`: removes some lightest tree; ties may go either way. */
  method PopLightest(pool: seq<Tree>) returns (i: nat, t: Tree, rest: seq<Tree>)
    requires |pool| > 0
    ensures i < |pool| && t == pool[i] && rest == pool[..i] + pool[i + 1..]
    ensures |rest| == |pool| - 1
    ensures forall u :: u in pool ==> t.weight <= u.weight
  {
    var first := FirstLightest(pool);
    assert IsLightest(pool, first);
    i :| 0 <= i < |pool| && IsLightest(pool, i);
    t := pool[i];
    rest := pool[..i] + pool[i + 1..];
    forall u | u in pool
      ensures t.weight <= u.weight
    {
      var k :| 0 <= k < |pool| && pool[k] == u;
      assert IsLightest(pool, i);
      assert !CompareNodes(pool[i], pool[k]);
    }
  }

  /** The union over a pool does not depend on the order of the pool. */
  lemma {:induction false} GatherPermutation(p: seq<Tree>, q: seq<Tree>, f: Tree -> multiset<char>)
    requires multiset(p) == multiset(q)
    ensures Gather(p, f) == Gather(q, f)
    decreases |p|
  {
    if p == [] {
      assert |q| == |multiset(q)| == 0;
    } else {
      var n := |p| - 1;
      var x := p[n];
      assert x in multiset(q);
      var k :| 0 <= k < |q| && q[k] == x;
      var q' := q[..k] + q[k + 1..];
      assert p == p[..n] + [x];
      assert q == q[..k] + [x] + q[k + 1..];
      assert multiset(p) == multiset(p[..n]) + multiset{x};
      assert multiset(q) == multiset(q') + multiset{x};
      assert multiset(p[..n]) == multiset(p) - multiset{x};
      assert multiset(q') == multiset(q) - multiset{x};
      GatherPermutation(p[..n], q', f);
      GatherRemove(q, k, f);
    }
  }

  lemma GatherPair(a: Tree, b: Tree, f: Tree -> multiset<char>)
    ensures Gather([a, b], f) == f(a) + f(b)
  {
    assert [a][..0] == [];
    assert Gather([a], f) == f(a);
    assert [a, b][..1] == [a];
  }

  /**
    Replacing two trees of a pool by their parent keeps the union of `f`
    over the pool, for any `f` by which a parent stands for its two children
    (the leaf symbols, the represented occurrences).
   */
  lemma MergeKeepsPool(pool: seq<Tree>, merged: seq<Tree>, a: Tree, b: Tree, f: Tree -> multiset<char>)
    requires |merged| >= 1
    requires merged[|merged| - 1] == Node(a, b, a.weight + b.weight)
    requires multiset(merged[..|merged| - 1]) + multiset{a, b} == multiset(pool)
    requires f(Node(a, b, a.weight + b.weight)) == f(a) + f(b)
    ensures Gather(merged, f) == Gather(pool, f)
  {
    var rest := merged[..|merged| - 1];
    var q := rest + [a, b];
    assert multiset(q) == multiset(pool);
    GatherAppend(rest, [a, b], f);
    GatherPair(a, b, f);
    GatherPermutation(q, pool, f);
  }

  /** Replacing two trees of a pool by their parent keeps every tree well weighted. */
  lemma MergeKeepsWeights(pool: seq<Tree>, merged: seq<Tree>, a: Tree, b: Tree)
    requires |merged| >= 1
    requires merged[|merged| - 1] == Node(a, b, a.weight + b.weight)
    requires multiset(merged[..|merged| - 1]) + multiset{a, b} == multiset(pool)
    requires AllWellWeighted(pool)
    ensures AllWellWeighted(merged)
  {
    var rest := merged[..|merged| - 1];
    assert merged == rest + [merged[|merged| - 1]];
    assert a in multiset(pool) && b in multiset(pool);
    forall u | u in merged
      ensures WellWeighted(u)
    {
      if u in rest {
        assert u in multiset(pool);
      }
    }
  }

  /** Every tree left after removing `p[i]` and then `rest[j]` was in `p`, and the two removed trees account for the rest. */
  lemma RemoveTwo(p: seq<Tree>, i: nat, j: nat)
    requires i < |p| && j < |p| - 1
    ensures
      var rest := p[..i] + p[i + 1..];
      var rest2 := rest[..j] + rest[j + 1..];
      && multiset(rest2) + multiset{p[i], rest[j]} == multiset(p)
      && rest[j] in p
      && forall u :: u in rest2 ==> u in rest && u in p
  {
    var rest := p[..i] + p[i + 1..];
    var rest2 := rest[..j] + rest[j + 1..];
    assert p == p[..i] + [p[i]] + p[i + 1..];
    assert rest == rest[..j] + [rest[j]] + rest[j + 1..];
    assert multiset(rest2) + multiset{rest[j]} == multiset(rest);
    assert multiset(rest) + multiset{p[i]} == multiset(p);
    forall u | u in rest2
      ensures u in rest && u in p
    {
      assert u in multiset(rest2);
      assert u in multiset(p);
    }
    assert rest[j] in multiset(p);
  }

  /**
    One iteration of the construction loop: the two lightest trees `a` and `b`
    leave the pool and their parent, weighing their sum, joins it.
   */
  method MergeLightest(pool: seq<Tree>) returns (merged: seq<Tree>, a: Tree, b: Tree)
    requires |pool| >= 2
    ensures |merged| == |pool| - 1
    ensures merged[|merged| - 1] == Node(a, b, a.weight + b.weight)
    ensures multiset(merged[..|merged| - 1]) + multiset{a, b} == multiset(pool)
    ensures a.weight <= b.weight
    ensures forall u :: u in merged[..|merged| - 1] ==> a.weight <= u.weight && b.weight <= u.weight
  {
    var i, rest, j, rest2;
    i, a, rest := PopLightest(pool);
    j, b, rest2 := PopLightest(rest);
    var parent := Node(a, b, a.weight + b.weight);
    merged := rest2 + [parent];
    assert merged[..|merged| - 1] == rest2;
    RemoveTwo(pool, i, j);
  }

  /** The heap as filled from the table: one leaf per entry, weighted by its count, in whatever order the table hands out its entries. */
  method InitialPool(freq: map<char, nat>) returns (pool: seq<Tree>)
    ensures |pool| == |freq|
    ensures forall t :: t in pool ==> t.Leaf? && t.sym in freq && t.weight == freq[t.sym]
    ensures Gather(pool, Leaves) == multiset(freq.Keys)
    ensures forall c :: Gather(pool, Bag)[c] == (if c in freq then freq[c] else 0)
  {
    pool := [];
    var keys := freq.Keys;
    while keys != {}
      invariant keys <= freq.Keys
      invariant forall t :: t in pool ==> t.Leaf? && t.sym in freq && t.weight == freq[t.sym]
      invariant Gather(pool, Leaves) + multiset(keys) == multiset(freq.Keys)
      invariant forall c :: Gather(pool, Bag)[c] == (if c in freq && c !in keys then freq[c] else 0)
      invariant |pool| + |keys| == |freq|
      decreases keys
    {
      var c :| c in keys;
      var leaf := Leaf(c, freq[c]);
      GatherLast(pool, leaf, Leaves);
      GatherLast(pool, leaf, Bag);
      assert multiset(keys - {c}) + multiset{c} == multiset(keys);
      pool := pool + [leaf];
      keys := keys - {c};
    }
  }

  /**
    The construction of code.cpp's `buildHuffmanTree`: a leaf per table entry,
    then merges of the two lightest trees until one tree, the root, is left.
   */
  method BuildHuffmanTree(freq: map<char, nat>) returns (r: Result<Tree>)
    ensures r.Failure? <==> |freq| == 0
    ensures r.Failure? ==> r.error == EmptyInput
    ensures r.Success? ==> WellWeighted(r.value)
    ensures r.Success? ==> Leaves(r.value) == multiset(freq.Keys)
    ensures r.Success? ==> DistinctLeaves(r.value)
    ensures r.Success? ==> forall c :: Bag(r.value)[c] == (if c in freq then freq[c] else 0)
    ensures r.Success? ==> Internals(r.value) == |freq| - 1
    ensures r.Success? ==> (r.value.Leaf? <==> |freq| == 1)
  {
    var pool := InitialPool(freq);
    if |pool| == 0 {
      return Failure(EmptyInput);
    }

    ghost var leaves := Gather(pool, Leaves);
    ghost var bag := Gather(pool, Bag);
    while |pool| > 1
      invariant |pool| >= 1
      invariant AllWellWeighted(pool)
      invariant Gather(pool, Leaves) == leaves
      invariant Gather(pool, Bag) == bag
      decreases |pool|
    {
      var merged, a, b := MergeLightest(pool);
      MergeKeepsPool(pool, merged, a, b, Leaves);
      MergeKeepsPool(pool, merged, a, b, Bag);
      MergeKeepsWeights(pool, merged, a, b);
      pool := merged;
    }

    var root := pool[0];
    assert pool == [root];
    assert Gather(pool, Leaves) == Leaves(root) && Gather(pool, Bag) == Bag(root) by {
      assert pool[..0] == [];
    }
    LeavesOutnumberInternals(root);
    assert |multiset(freq.Keys)| == |freq.Keys| == |freq|;
    r := Success(root);
  }
}
