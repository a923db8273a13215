/**
  The code table: a depth-first walk of the tree that appends `false` ('0')
  for a step left and `true` ('1') for a step right, and records the path at
  every leaf it reaches.
 */
module CodeTable {
  import opened HuffmanTree

  /** The subtree reached by following `p` from `t`; a step out of a leaf is malformed. */
  function Descend(t: Tree, p: seq<bool>): (r: Result<Tree>)
    ensures r.Failure? ==> r.error == MalformedCode
    ensures r.Success? ==> Leaves(r.value) <= Leaves(t)
    decreases |p|
  {
    if p == [] then Success(t)
    else if t.Leaf? then Failure(MalformedCode)
    else Descend(Child(t, p[0]), p[1..])
  }

  /** The root-to-leaf path of symbol `c` (through the left subtree when `c` labels leaves on both sides). */
  function Path(t: Tree, c: char): (p: seq<bool>)
    requires c in Leaves(t)
    ensures t.Node? <==> |p| >= 1
  {
    match t
    case Leaf(_, _) => []
    case Node(l, r, _) =>
      if c in Leaves(l) then [false] + Path(l, c) else [true] + Path(r, c)
  }

  /** Following the path of `c` from the root ends at a leaf labelled `c`. */
  lemma {:induction false} PathLeadsToLeaf(t: Tree, c: char)
    requires c in Leaves(t)
    ensures Descend(t, Path(t, c)).Success?
    ensures Descend(t, Path(t, c)).value.Leaf? && Descend(t, Path(t, c)).value.sym == c
  {
    match t
    case Leaf(_, _) =>
    case Node(l, r, _) =>
      var bit := c !in Leaves(l);
      PathLeadsToLeaf(Child(t, bit), c);
      assert Path(t, c)[1..] == Path(Child(t, bit), c);
  }

  /** One more step from the subtree a path reaches is the path extended by that step. */
  lemma {:induction false} DescendStep(t: Tree, p: seq<bool>, bit: bool)
    requires Descend(t, p).Success? && Descend(t, p).value.Node?
    ensures Descend(t, p + [bit]) == Success(Child(Descend(t, p).value, bit))
    decreases |p|
  {
    if p == [] {
      assert [] + [bit] == [bit];
      assert [bit][1..] == [];
    } else {
      assert (p + [bit])[0] == p[0];
      assert (p + [bit])[1..] == p[1..] + [bit];
      DescendStep(Child(t, p[0]), p[1..], bit);
    }
  }

  /** A non-empty path reaches a proper subtree, never the tree itself. */
  lemma {:induction false} DescendSmaller(t: Tree, p: seq<bool>)
    requires Descend(t, p).Success? && p != []
    ensures Descend(t, p).value < t
    decreases |p|
  {
    var next := Child(t, p[0]);
    if p[1..] != [] {
      DescendSmaller(next, p[1..]);
    }
  }

  /** In a tree with distinct leaves, the only path that reaches a leaf is that leaf's symbol's path. */
  lemma {:induction false} DescendToLeafIsPath(t: Tree, p: seq<bool>, c: char, w: nat)
    requires DistinctLeaves(t)
    requires Descend(t, p) == Success(Leaf(c, w))
    ensures c in Leaves(t) && Path(t, c) == p
    decreases |p|
  {
    assert c in Leaves(Leaf(c, w));
    if p != [] {
      SubtreesDistinct(t);
      var next := Child(t, p[0]);
      DescendToLeafIsPath(next, p[1..], c, w);
      assert [p[0]] + p[1..] == p;
    }
  }

  /**
    code.cpp's `buildCodes`: the map filled by a walk starting with path `code`.
    A leaf labelled with the internal-node character is not recorded, and a
    later (right-hand) leaf overwrites an earlier one with the same symbol.
   */
  function BuildCodes(t: Tree, code: seq<bool>): (table: map<char, seq<bool>>)
    ensures forall c :: c in table <==> c in Leaves(t) && c != NUL
  {
    match t
    case Leaf(c, _) => if c != NUL then map[c := code] else map[]
    case Node(l, r, _) => BuildCodes(l, code + [false]) + BuildCodes(r, code + [true])
  }

  /** The table `encode` derives: the walk from the root with the empty path. */
  function Codes(t: Tree): map<char, seq<bool>> {
    BuildCodes(t, [])
  }

  /** `p` is a prefix of `q`. */
  predicate IsPrefix(p: seq<bool>, q: seq<bool>) {
    |p| <= |q| && q[..|p|] == p
  }

  /** No code of the table is a prefix of another symbol's code. */
  predicate PrefixFree(table: map<char, seq<bool>>) {
    forall a, b :: a in table && b in table && a != b ==> !IsPrefix(table[a], table[b])
  }

  /** In a tree with distinct leaves, the walk records a leaf's path after the starting path. */
  lemma {:induction false} BuildCodesRecordsPath(t: Tree, code: seq<bool>, c: char)
    requires DistinctLeaves(t)
    requires c in BuildCodes(t, code)
    ensures BuildCodes(t, code)[c] == code + Path(t, c)
  {
    match t
    case Leaf(_, _) =>
      assert code + [] == code;
    case Node(l, r, _) =>
      SubtreesDistinct(t);
      var bit := c !in Leaves(l);
      var sub := Child(t, bit);
      var code' := code + [bit];
      assert c in BuildCodes(sub, code') && BuildCodes(t, code)[c] == BuildCodes(sub, code')[c];
      assert Path(t, c) == [bit] + Path(sub, c);
      BuildCodesRecordsPath(sub, code', c);
      AppendDigit(code, bit, Path(sub, c));
  }

  lemma AppendDigit(code: seq<bool>, bit: bool, rest: seq<bool>)
    ensures (code + [bit]) + rest == code + ([bit] + rest)
  {
  }

  /** The table holds exactly the non-sentinel leaf symbols, each mapped to its root-to-leaf path. */
  lemma CodesArePaths(t: Tree)
    requires DistinctLeaves(t)
    ensures forall c :: c in Codes(t) <==> c in Leaves(t) && c != NUL
    ensures forall c :: c in Codes(t) ==> Codes(t)[c] == Path(t, c)
  {
    forall c | c in Codes(t)
      ensures Codes(t)[c] == Path(t, c)
    {
      BuildCodesRecordsPath(t, [], c);
      assert [] + Path(t, c) == Path(t, c);
    }
  }

  /** Sharing a first digit does not change whether one path is a prefix of another. */
  lemma PrefixTail(x: bool, p: seq<bool>, q: seq<bool>)
    ensures IsPrefix([x] + p, [x] + q) <==> IsPrefix(p, q)
  {
    if IsPrefix([x] + p, [x] + q) {
      assert ([x] + q)[1..|p| + 1] == q[..|p|];
    }
    if IsPrefix(p, q) {
      assert ([x] + q)[..|p| + 1] == [x] + q[..|p|];
    }
  }

  /** The paths to two different leaf symbols are never prefixes of one another. */
  lemma {:induction false} PathsPrefixFree(t: Tree, a: char, b: char)
    requires DistinctLeaves(t)
    requires a in Leaves(t) && b in Leaves(t) && a != b
    ensures !IsPrefix(Path(t, a), Path(t, b))
  {
    match t
    case Leaf(_, _) =>
    case Node(l, r, _) =>
      SubtreesDistinct(t);
      if a in Leaves(l) && b in Leaves(l) {
        PathsPrefixFree(l, a, b);
        PrefixTail(false, Path(l, a), Path(l, b));
      } else if a !in Leaves(l) && b !in Leaves(l) {
        PathsPrefixFree(r, a, b);
        PrefixTail(true, Path(r, a), Path(r, b));
      } else {
        assert Path(t, a)[0] != Path(t, b)[0];
      }
  }

  /** The derived table is prefix-free. */
  lemma CodesPrefixFree(t: Tree)
    requires DistinctLeaves(t)
    ensures PrefixFree(Codes(t))
  {
    CodesArePaths(t);
    forall a, b | a in Codes(t) && b in Codes(t) && a != b
      ensures !IsPrefix(Codes(t)[a], Codes(t)[b])
    {
      PathsPrefixFree(t, a, b);
    }
  }

  /** With two or more leaves every code has at least one digit; a lone leaf gets the empty code. */
  lemma CodeLengths(t: Tree)
    requires DistinctLeaves(t)
    ensures t.Node? ==> forall c :: c in Codes(t) ==> |Codes(t)[c]| >= 1
    ensures t.Leaf? && t.sym != NUL ==> Codes(t) == map[t.sym := []]
  {
    CodesArePaths(t);
  }
}
