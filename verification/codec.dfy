/**
  Encoding through the code table and decoding by walking the tree.

  Encoding looks every input symbol up in the table derived from the tree
  and concatenates the codes in input order. Decoding is a cursor state
  machine: starting at the root, a `false` bit moves it left and a `true` bit
  right; on reaching a leaf the leaf's symbol is emitted and the cursor goes
  back to the root.
 */
module Codec {
  import opened HuffmanTree
  import opened CodeTable
  import opened Tally

  /** `out` followed by whatever `r` produced; a failure stays a failure. */
  function Emit(out: seq<char>, r: Result<seq<char>>): Result<seq<char>> {
    match r
    case Success(v) => Success(out + v)
    case Failure(e) => Failure(e)
  }

  /**
    The codes of the symbols of `s`, concatenated in input order. A symbol
    without a code fails, where the source's `operator[]` would silently use
    an empty code.
   */
  function EncodeWith(table: map<char, seq<bool>>, s: seq<char>): (r: Result<seq<bool>>)
    ensures r.Success? <==> forall i :: 0 <= i < |s| ==> s[i] in table
    ensures r.Failure? ==> r.error.UnknownSymbol? && r.error.sym in s && r.error.sym !in table
  {
    if s == [] then Success([])
    else if s[0] !in table then Failure(UnknownSymbol(s[0]))
    else
      match EncodeWith(table, s[1..])
      case Success(rest) => Success(table[s[0]] + rest)
      case Failure(e) => Failure(e)
  }

  /** code.cpp's `encode`: derive the table from the tree, then encode with it. */
  function Encode(t: Tree, s: seq<char>): Result<seq<bool>> {
    EncodeWith(Codes(t), s)
  }

  /**
    The decoder from cursor `cur`. A step from a leaf is a step to a missing
    child (MalformedCode); bits that run out away from the root leave a
    partial code (TruncatedInput). A leaf labelled with the internal-node
    character is not recognised as a leaf, as in the source.
   */
  function Run(root: Tree, cur: Tree, bits: seq<bool>): (r: Result<seq<char>>)
    ensures r.Success? ==> |r.value| <= |bits|
    ensures r.Failure? ==> r.error == MalformedCode || r.error == TruncatedInput
    decreases |bits|
  {
    if bits == [] then
      if cur == root then Success([]) else Failure(TruncatedInput)
    else if cur.Leaf? then Failure(MalformedCode)
    else
      var next := Child(cur, bits[0]);
      if next.Leaf? && next.sym != NUL then Emit([next.sym], Run(root, root, bits[1..]))
      else Run(root, next, bits[1..])
  }

  /** code.cpp's `decode`: the state machine started at the root. */
  function Decode(root: Tree, bits: seq<bool>): (r: Result<seq<char>>)
    ensures r.Success? ==> |r.value| <= |bits|
    ensures r.Failure? ==> r.error == MalformedCode || r.error == TruncatedInput
    ensures bits == [] ==> r == Success([])
  {
    Run(root, root, bits)
  }

  /** Every character the decoder emits is the symbol of a leaf of the tree, never '\0'. */
  lemma {:induction false} RunEmitsLeaves(root: Tree, cur: Tree, bits: seq<bool>)
    requires Run(root, cur, bits).Success?
    ensures forall i :: 0 <= i < |Run(root, cur, bits).value| ==>
      Run(root, cur, bits).value[i] != NUL &&
      (Run(root, cur, bits).value[i] in Leaves(cur) || Run(root, cur, bits).value[i] in Leaves(root))
    decreases |bits|
  {
    if bits != [] {
      var next := Child(cur, bits[0]);
      assert Leaves(next) <= Leaves(cur);
      if next.Leaf? && next.sym != NUL {
        RunEmitsLeaves(root, root, bits[1..]);
        assert next.sym in Leaves(next);
      } else {
        RunEmitsLeaves(root, next, bits[1..]);
      }
    }
  }

  /** A successful decode yields only symbols of the tree's leaves, and never '\0'. */
  lemma DecodeEmitsLeaves(root: Tree, bits: seq<bool>)
    requires Decode(root, bits).Success?
    ensures forall i :: 0 <= i < |Decode(root, bits).value| ==>
      Decode(root, bits).value[i] in Leaves(root) && Decode(root, bits).value[i] != NUL
  {
    RunEmitsLeaves(root, root, bits);
  }

  lemma EmitNothing(r: Result<seq<char>>)
    ensures Emit([], r) == r
  {
    if r.Success? {
      assert [] + r.value == r.value;
    }
  }

  lemma EmitEmit(x: seq<char>, y: seq<char>, r: Result<seq<char>>)
    ensures Emit(x, Emit(y, r)) == Emit(x + y, r)
  {
    if r.Success? {
      assert x + (y + r.value) == (x + y) + r.value;
    }
  }

  /** The loop of code.cpp's `decode`, with its cursor, computes the decoder above. */
  method DecodeCursor(root: Tree, bits: seq<bool>) returns (r: Result<seq<char>>)
    ensures r == Decode(root, bits)
  {
    var out: seq<char> := [];
    var cur := root;
    var i := 0;
    assert bits[0..] == bits;
    EmitNothing(Decode(root, bits));
    while i < |bits|
      invariant 0 <= i <= |bits|
      invariant Decode(root, bits) == Emit(out, Run(root, cur, bits[i..]))
    {
      assert bits[i..][1..] == bits[i + 1..];
      if cur.Leaf? {
        return Failure(MalformedCode);
      }
      cur := Child(cur, bits[i]);
      if cur.Leaf? && cur.sym != NUL {
        EmitEmit(out, [cur.sym], Run(root, root, bits[i + 1..]));
        out := out + [cur.sym];
        cur := root;
      }
      i := i + 1;
    }
    assert out + [] == out;
    if cur != root {
      return Failure(TruncatedInput);
    }
    return Success(out);
  }

  /** The first bit and the remaining bits of a bit string that starts with `bit`. */
  lemma HeadTail(bit: bool, rest: seq<bool>)
    ensures ([bit] + rest)[0] == bit && ([bit] + rest)[1..] == rest
  {
  }

  lemma Associate(x: seq<bool>, y: seq<bool>, z: seq<bool>)
    ensures (x + y) + z == x + (y + z)
  {
  }

  lemma PrefixCons(bit: bool, q: seq<bool>, k: nat)
    requires 0 < k <= |q| + 1
    ensures ([bit] + q)[..k] == [bit] + q[..k - 1]
  {
  }

  /** Reading a leaf's path from a cursor above it emits that leaf's symbol and returns the cursor to the root. */
  lemma {:induction false} RunFollowsPath(root: Tree, cur: Tree, c: char, rest: seq<bool>)
    requires cur.Node? && c in Leaves(cur) && c != NUL
    ensures Run(root, cur, Path(cur, c) + rest) == Emit([c], Run(root, root, rest))
  {
    var bit := c !in Leaves(cur.left);
    var next := Child(cur, bit);
    var tail := Path(next, c) + rest;
    assert Path(cur, c) == [bit] + Path(next, c);
    Associate([bit], Path(next, c), rest);
    HeadTail(bit, tail);
    if next.Leaf? {
      assert tail == rest;
    } else {
      RunFollowsPath(root, next, c, rest);
    }
  }

  /** Round trip: decoding what a tree with two or more distinct leaves encoded gives back the input. */
  lemma {:induction false} RoundTrip(t: Tree, s: seq<char>)
    requires t.Node? && DistinctLeaves(t)
    requires Encode(t, s).Success?
    ensures Decode(t, Encode(t, s).value) == Success(s)
  {
    if s != [] {
      CodesArePaths(t);
      var c := s[0];
      var rest := Encode(t, s[1..]).value;
      assert Encode(t, s).value == Path(t, c) + rest;
      RunFollowsPath(t, t, c, rest);
      RoundTrip(t, s[1..]);
      assert [c] + s[1..] == s;
    }
  }

  /** `table` maps every leaf symbol other than '\0' to its root-to-leaf path, as the derived table does. */
  predicate MapsToPaths(root: Tree, table: map<char, seq<bool>>) {
    forall c :: c in Leaves(root) && c != NUL ==> c in table && table[c] == Path(root, c)
  }

  /** A symbol whose leaf `code` reaches, followed by an encodable rest, encodes to `code` followed by the rest's bits. */
  lemma EncodeReachedLeaf(root: Tree, table: map<char, seq<bool>>, code: seq<bool>, leaf: Tree, rest: seq<char>, tail: seq<bool>)
    requires DistinctLeaves(root) && MapsToPaths(root, table)
    requires leaf.Leaf? && leaf.sym != NUL && Descend(root, code) == Success(leaf)
    requires EncodeWith(table, rest) == Success(tail)
    ensures EncodeWith(table, [leaf.sym] + rest) == Success(code + tail)
  {
    DescendToLeafIsPath(root, code, leaf.sym, leaf.weight);
    assert ([leaf.sym] + rest)[0] == leaf.sym && ([leaf.sym] + rest)[1..] == rest;
  }

  /** A step onto a leaf emits its symbol, whose code is the path taken so far. */
  lemma RunEmitStep(root: Tree, table: map<char, seq<bool>>, cur: Tree, pre: seq<bool>, bits: seq<bool>)
    requires DistinctLeaves(root) && MapsToPaths(root, table)
    requires bits != [] && cur.Node? && Descend(root, pre) == Success(cur)
    requires Child(cur, bits[0]).Leaf? && Child(cur, bits[0]).sym != NUL
    requires Run(root, root, bits[1..]).Success?
    requires EncodeWith(table, Run(root, root, bits[1..]).value) == Success(bits[1..])
    ensures EncodeWith(table, Run(root, cur, bits).value) == Success(pre + bits)
  {
    var next := Child(cur, bits[0]);
    DescendStep(root, pre, bits[0]);
    AppendDigit(pre, bits[0], bits[1..]);
    assert [bits[0]] + bits[1..] == bits;
    EncodeReachedLeaf(root, table, pre + [bits[0]], next, Run(root, root, bits[1..]).value, bits[1..]);
  }

  /** A step to an internal node (or a '\0' leaf) emits nothing: the bits read so far just grow. */
  lemma RunInnerStep(root: Tree, table: map<char, seq<bool>>, cur: Tree, pre: seq<bool>, bits: seq<bool>)
    requires bits != [] && cur.Node?
    requires !(Child(cur, bits[0]).Leaf? && Child(cur, bits[0]).sym != NUL)
    requires Run(root, Child(cur, bits[0]), bits[1..]).Success?
    requires EncodeWith(table, Run(root, Child(cur, bits[0]), bits[1..]).value) == Success((pre + [bits[0]]) + bits[1..])
    ensures EncodeWith(table, Run(root, cur, bits).value) == Success(pre + bits)
  {
    AppendDigit(pre, bits[0], bits[1..]);
    assert [bits[0]] + bits[1..] == bits;
  }

  /** Bits that end a successful decode leave the cursor at the root, reached by the empty path. */
  lemma RunEndsAtRoot(root: Tree, cur: Tree, pre: seq<bool>)
    requires Descend(root, pre) == Success(cur)
    requires Run(root, cur, []).Success?
    ensures pre == [] && Run(root, cur, []) == Success([])
  {
    if pre != [] {
      DescendSmaller(root, pre);
    }
  }

  /**
    The converse of the round trip, from any cursor: if the cursor sits where
    `pre` leads from the root and the bits that follow decode, the decoded
    symbols encode to exactly `pre` followed by those bits.
   */
  lemma {:induction false} RunIsEncoding(root: Tree, table: map<char, seq<bool>>, cur: Tree, pre: seq<bool>, bits: seq<bool>)
    requires DistinctLeaves(root) && MapsToPaths(root, table)
    requires Descend(root, pre) == Success(cur)
    requires Run(root, cur, bits).Success?
    ensures EncodeWith(table, Run(root, cur, bits).value) == Success(pre + bits)
    decreases |bits|
  {
    if bits == [] {
      RunEndsAtRoot(root, cur, pre);
      assert pre + bits == [];
    } else {
      var next := Child(cur, bits[0]);
      DescendStep(root, pre, bits[0]);
      if next.Leaf? && next.sym != NUL {
        RunIsEncoding(root, table, root, [], bits[1..]);
        assert [] + bits[1..] == bits[1..];
        RunEmitStep(root, table, cur, pre, bits);
      } else {
        RunIsEncoding(root, table, next, pre + [bits[0]], bits[1..]);
        RunInnerStep(root, table, cur, pre, bits);
      }
    }
  }

  /** Decoding succeeds only on an encoding: whatever decodes, encodes back to the same bits. */
  lemma DecodeIsEncoding(t: Tree, bits: seq<bool>)
    requires DistinctLeaves(t)
    requires Decode(t, bits).Success?
    ensures Encode(t, Decode(t, bits).value) == Success(bits)
  {
    CodesArePaths(t);
    RunIsEncoding(t, Codes(t), t, [], bits);
    assert [] + bits == bits;
  }

  /**
    Bits that stop partway along a symbol's path leave the cursor inside the
    tree: the partial code is TruncatedInput, not a shorter output.
   */
  lemma {:induction false} RunStopsMidPath(root: Tree, cur: Tree, c: char, k: nat)
    requires cur == root || cur < root
    requires c in Leaves(cur)
    requires 0 < k < |Path(cur, c)|
    ensures Run(root, cur, Path(cur, c)[..k]) == Failure(TruncatedInput)
    decreases k
  {
    var bit := c !in Leaves(cur.left);
    var next := Child(cur, bit);
    assert Path(cur, c) == [bit] + Path(next, c);
    PrefixCons(bit, Path(next, c), k);
    HeadTail(bit, Path(next, c)[..k - 1]);
    if k > 1 {
      RunStopsMidPath(root, next, c, k - 1);
    }
  }

  /** A proper non-empty prefix of a code decodes to TruncatedInput. */
  lemma TruncatedCode(t: Tree, c: char, k: nat)
    requires c in Leaves(t)
    requires 0 < k < |Path(t, c)|
    ensures Decode(t, Path(t, c)[..k]) == Failure(TruncatedInput)
  {
    RunStopsMidPath(t, t, c, k);
  }

  /** Encoding distributes over concatenation of inputs. */
  lemma {:induction false} EncodeAppend(table: map<char, seq<bool>>, s1: seq<char>, s2: seq<char>)
    requires EncodeWith(table, s1).Success? && EncodeWith(table, s2).Success?
    ensures EncodeWith(table, s1 + s2) == Success(EncodeWith(table, s1).value + EncodeWith(table, s2).value)
  {
    if s1 == [] {
      assert s1 + s2 == s2;
      assert [] + EncodeWith(table, s2).value == EncodeWith(table, s2).value;
    } else {
      assert (s1 + s2)[1..] == s1[1..] + s2;
      EncodeAppend(table, s1[1..], s2);
      var a, b, c := table[s1[0]], EncodeWith(table, s1[1..]).value, EncodeWith(table, s2).value;
      assert a + (b + c) == (a + b) + c;
    }
  }

  /**
    Once a bit string decodes completely, the cursor is back at the root:
    whatever follows decodes on its own.
   */
  lemma {:induction false} DecodeAppend(root: Tree, cur: Tree, b1: seq<bool>, b2: seq<bool>)
    requires Run(root, cur, b1).Success?
    ensures Run(root, cur, b1 + b2) == Emit(Run(root, cur, b1).value, Run(root, root, b2))
    decreases |b1|
  {
    if b1 == [] {
      assert b1 + b2 == b2;
      EmitNothing(Run(root, root, b2));
    } else {
      assert (b1 + b2)[0] == b1[0];
      assert (b1 + b2)[1..] == b1[1..] + b2;
      var next := Child(cur, b1[0]);
      if next.Leaf? && next.sym != NUL {
        DecodeAppend(root, root, b1[1..], b2);
        EmitEmit([next.sym], Run(root, root, b1[1..]).value, Run(root, root, b2));
      } else {
        DecodeAppend(root, next, b1[1..], b2);
      }
    }
  }

  /** The per-symbol code length of a table (zero for a symbol without a code). */
  function CodeLength(table: map<char, seq<bool>>): char -> nat {
    c => if c in table then |table[c]| else 0
  }

  lemma {:induction false} EncodedLengthPerPosition(table: map<char, seq<bool>>, s: seq<char>)
    requires EncodeWith(table, s).Success?
    ensures |EncodeWith(table, s).value| == PerPosition(s, CodeLength(table))
  {
    if s != [] {
      EncodedLengthPerPosition(table, s[1..]);
    }
  }

  /** The encoded length is the sum over the symbols of frequency times code length. */
  lemma EncodedLength(t: Tree, s: seq<char>, order: seq<char>)
    requires Encode(t, s).Success?
    requires Enumerates(order, s)
    ensures |Encode(t, s).value| == PerSymbol(s, order, CodeLength(Codes(t)))
  {
    EncodedLengthPerPosition(Codes(t), s);
    RegroupBySymbol(s, order, CodeLength(Codes(t)));
  }

  /**
    The degenerate tree of a single distinct symbol: its one code is empty, so
    every input over that symbol encodes to nothing and decodes to nothing,
    and any bit at all steps to a missing child.
   */
  lemma {:induction false} SingleLeafCodec(c: char, w: nat, s: seq<char>, bits: seq<bool>)
    requires c != NUL
    requires forall i :: 0 <= i < |s| ==> s[i] == c
    ensures Encode(Leaf(c, w), s) == Success([])
    ensures Decode(Leaf(c, w), []) == Success([])
    ensures bits != [] ==> Decode(Leaf(c, w), bits) == Failure(MalformedCode)
  {
    if s != [] {
      SingleLeafCodec(c, w, s[1..], bits);
      assert Codes(Leaf(c, w)) == map[c := []];
      assert [] + Encode(Leaf(c, w), s[1..]).value == [];
    }
  }
}
