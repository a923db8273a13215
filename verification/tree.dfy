/**
  The Huffman tree, its weights and the error outcomes of the codec.

  A node of the source carries a character, a frequency and two child
  pointers; an internal node is marked by the character '\0' and always has
  both children, a leaf has none. Here the two kinds are two constructors,
  so "exactly two children" holds by construction.
 */
module HuffmanTree {

  /** The character the source stores in every internal node. */
  const NUL: char := '\0'

  /** The failures that the source leaves undefined, made explicit. */
  datatype Error =
    | EmptyInput              // no symbol to build a tree from
    | UnknownSymbol(sym: char) // encode asked for a symbol without a code
    | MalformedCode           // a step from a leaf, where the source follows a null child
    | TruncatedInput          // the bits ended with the cursor away from the root

  datatype Result<T> = Success(value: T) | Failure(error: Error)

  datatype Tree =
    | Leaf(sym: char, weight: nat)
    | Node(left: Tree, right: Tree, weight: nat)

  /** The child the decoder moves to: '0' (false) goes left, anything else right. */
  function Child(t: Tree, bit: bool): (c: Tree)
    requires t.Node?
    ensures c < t
  {
    if bit then t.right else t.left
  }

  /** Every internal node weighs what its two children weigh together. */
  predicate WellWeighted(t: Tree) {
    match t
    case Leaf(_, _) => true
    case Node(l, r, w) => w == l.weight + r.weight && WellWeighted(l) && WellWeighted(r)
  }

  /** The leaf symbols of a tree, with multiplicity. */
  function Leaves(t: Tree): (m: multiset<char>)
    ensures |m| >= 1
  {
    match t
    case Leaf(c, _) => multiset{c}
    case Node(l, r, _) => Leaves(l) + Leaves(r)
  }

  /** No symbol labels two leaves. */
  predicate DistinctLeaves(t: Tree) {
    forall c :: Leaves(t)[c] <= 1
  }

  /** Both subtrees of a tree with distinct leaves have distinct leaves, and share no symbol. */
  lemma SubtreesDistinct(t: Tree)
    requires t.Node? && DistinctLeaves(t)
    ensures DistinctLeaves(t.left) && DistinctLeaves(t.right)
    ensures forall c :: c in Leaves(t.left) ==> c !in Leaves(t.right)
  {
    forall c
      ensures Leaves(t.left)[c] <= 1 && Leaves(t.right)[c] <= 1
      ensures c in Leaves(t.left) ==> c !in Leaves(t.right)
    {
      assert Leaves(t)[c] == Leaves(t.left)[c] + Leaves(t.right)[c];
    }
  }

  /** `n` copies of `c`. */
  function Copies(c: char, n: nat): (m: multiset<char>)
    ensures |m| == n
    ensures forall x :: m[x] == if x == c then n else 0
  {
    if n == 0 then multiset{} else Copies(c, n - 1) + multiset{c}
  }

  /** The occurrences a tree stands for: each leaf symbol as many times as its weight. */
  function Bag(t: Tree): multiset<char> {
    match t
    case Leaf(c, w) => Copies(c, w)
    case Node(l, r, _) => Bag(l) + Bag(r)
  }

  /** The number of internal nodes, i.e. of merges that built the tree. */
  function Internals(t: Tree): nat {
    match t
    case Leaf(_, _) => 0
    case Node(l, r, _) => Internals(l) + Internals(r) + 1
  }

  /** Weight conservation: a tree's weight counts exactly the occurrences it stands for. */
  lemma {:induction false} WeightIsBagSize(t: Tree)
    requires WellWeighted(t)
    ensures t.weight == |Bag(t)|
  {
    match t
    case Leaf(_, _) =>
    case Node(l, r, _) =>
      WeightIsBagSize(l);
      WeightIsBagSize(r);
  }

  /** A tree whose internal nodes all have two children has one more leaf than internal nodes. */
  lemma {:induction false} LeavesOutnumberInternals(t: Tree)
    ensures |Leaves(t)| == Internals(t) + 1
  {
    match t
    case Leaf(_, _) =>
    case Node(l, r, _) =>
      LeavesOutnumberInternals(l);
      LeavesOutnumberInternals(r);
  }
}
