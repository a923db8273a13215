/**
  The codec as its class presents it: the constructor counts the input's
  characters and builds the tree, and `encode`/`decode` exchange the input
  for a string of '0' and '1' characters (one character per bit, unpacked).
 */
module HuffmanCode {
  import opened HuffmanTree
  import opened CodeTable
  import opened Codec
  import Frequency
  import Builder

  /** The text form of a bit string: '0' for `false` (left), '1' for `true` (right). */
  function RenderBits(bits: seq<bool>): (text: seq<char>)
    ensures |text| == |bits|
  {
    seq(|bits|, i requires 0 <= i < |bits| => if bits[i] then '1' else '0')
  }

  /** The decoder's reading of a text: '0' goes left, every other character right. */
  function ParseBits(text: seq<char>): (bits: seq<bool>)
    ensures |bits| == |text|
  {
    seq(|text|, i requires 0 <= i < |text| => text[i] != '0')
  }

  /** Rendering then parsing gives the bits back, and a rendering holds only '0' and '1'. */
  lemma ParseRender(bits: seq<bool>)
    ensures ParseBits(RenderBits(bits)) == bits
    ensures forall i :: 0 <= i < |bits| ==> RenderBits(bits)[i] == '0' || RenderBits(bits)[i] == '1'
  {
  }

  /** code.cpp's `encode`, returning the bits as text. */
  function EncodeString(t: Tree, s: seq<char>): Result<seq<char>> {
    match Encode(t, s)
    case Success(bits) => Success(RenderBits(bits))
    case Failure(e) => Failure(e)
  }

  /** code.cpp's `decode`, reading the bits from text. */
  function DecodeString(t: Tree, text: seq<char>): Result<seq<char>> {
    Decode(t, ParseBits(text))
  }

  /** Two positions of `s` hold different characters. */
  predicate TwoDistinct(s: seq<char>) {
    exists i, j :: 0 <= i < |s| && 0 <= j < |s| && s[i] != s[j]
  }

  /** A set has two or more elements exactly when it holds two different ones. */
  lemma TwoElements(keys: set<char>)
    ensures |keys| >= 2 <==> exists a, b :: a in keys && b in keys && a != b
  {
    if |keys| >= 2 {
      var a :| a in keys;
      assert |keys - {a}| == |keys| - 1;
      var b :| b in keys - {a};
    }
    if a, b :| a in keys && b in keys && a != b {
      assert {a, b} <= keys;
      assert |keys - {a}| == |keys| - 1;
      assert b in keys - {a};
    }
  }

  /**
    The constructor: count the characters of `s`, then build the tree. The
    source reads `top()` of an empty heap for empty input; here that is
    EmptyInput.
   */
  method Build(s: seq<char>) returns (r: Result<Tree>)
    ensures r.Failure? <==> s == []
    ensures r.Failure? ==> r.error == EmptyInput
    ensures r.Success? ==> WellWeighted(r.value) && DistinctLeaves(r.value)
    ensures r.Success? ==> forall c :: c in Leaves(r.value) <==> c in s
    ensures r.Success? ==> Bag(r.value) == multiset(s) && r.value.weight == |s|
    ensures r.Success? ==> (r.value.Node? <==> TwoDistinct(s))
    ensures r.Success? && TwoDistinct(s) && NUL !in s ==>
      EncodeString(r.value, s).Success? && DecodeString(r.value, EncodeString(r.value, s).value) == Success(s)
    ensures r.Success? && !TwoDistinct(s) && NUL !in s ==> EncodeString(r.value, s) == Success([])
  {
    var freq := Frequency.CountFrequencies(s);
    r := Builder.BuildHuffmanTree(freq);
    if s == [] {
      assert freq == map[];
      return;
    }
    assert s[0] in freq;
    var root := r.value;
    assert Bag(root) == multiset(s);
    WeightIsBagSize(root);

    TwoElements(freq.Keys);
    if TwoDistinct(s) {
      var i, j :| 0 <= i < |s| && 0 <= j < |s| && s[i] != s[j];
      assert s[i] in freq.Keys && s[j] in freq.Keys;
    }
    if |freq.Keys| >= 2 {
      var a, b :| a in freq.Keys && b in freq.Keys && a != b;
      var i :| 0 <= i < |s| && s[i] == a;
      var j :| 0 <= j < |s| && s[j] == b;
    }

    if NUL !in s {
      BuiltTreeCodec(root, s);
    }
  }

  /**
    The codec over a tree whose leaves are exactly the characters of `s`:
    with two or more distinct characters the text round trip holds, and with
    one the encoding is empty.
   */
  lemma BuiltTreeCodec(root: Tree, s: seq<char>)
    requires s != [] && NUL !in s && DistinctLeaves(root)
    requires forall c :: c in Leaves(root) <==> c in s
    requires root.Node? <==> TwoDistinct(s)
    ensures TwoDistinct(s) ==>
      EncodeString(root, s).Success? && DecodeString(root, EncodeString(root, s).value) == Success(s)
    ensures !TwoDistinct(s) ==> EncodeString(root, s) == Success([])
  {
    CodesArePaths(root);
    assert Encode(root, s).Success?;
    if TwoDistinct(s) {
      RoundTrip(root, s);
      ParseRender(Encode(root, s).value);
    } else {
      assert root == Leaf(s[0], root.weight) by {
        assert root.Leaf?;
        assert s[0] in Leaves(root);
      }
      forall k | 0 <= k < |s|
        ensures s[k] == s[0]
      {
        if s[k] != s[0] {
          assert TwoDistinct(s);
        }
      }
      SingleLeafCodec(s[0], root.weight, s, []);
    }
  }

  /**
    A tree the construction can build for "aabbbcc" (a:2, b:3, c:2): the
    first merge pops a and c, the two lightest, and the second pops b and
    their parent, the first popped tree becoming the left child each time.
   */
  function AabbbccTree(): Tree {
    Node(Leaf('b', 3), Node(Leaf('a', 2), Leaf('c', 2), 4), 7)
  }

  /** The table of that tree, written out. */
  function AabbbccTable(): map<char, seq<bool>> {
    map['b' := [false], 'a' := [true, false], 'c' := [true, true]]
  }

  /** The walk below the root's right child records 'a' as "10" and 'c' as "11". */
  lemma AcCodes()
    ensures BuildCodes(Node(Leaf('a', 2), Leaf('c', 2), 4), [true]) == map['a' := [true, false], 'c' := [true, true]]
  {
    assert [true] + [false] == [true, false] && [true] + [true] == [true, true];
  }

  /** Its table gives 'b' the code "0", 'a' "10" and 'c' "11". */
  lemma AabbbccCodes()
    ensures Codes(AabbbccTree()) == AabbbccTable()
  {
    assert [] + [false] == [false] && [] + [true] == [true];
    AcCodes();
    assert BuildCodes(Leaf('b', 3), [false]) == map['b' := [false]];
  }

  lemma EncodeCons(table: map<char, seq<bool>>, c: char, s: seq<char>, bits: seq<bool>)
    requires c in table && EncodeWith(table, s) == Success(bits)
    ensures EncodeWith(table, [c] + s) == Success(table[c] + bits)
  {
    assert ([c] + s)[1..] == s;
  }

  /** "bbbcc" under the written-out table: three 0s, then 11 twice. */
  lemma BbbccBits()
    ensures EncodeWith(AabbbccTable(), ['b', 'b', 'b', 'c', 'c']) == Success([false, false, false, true, true, true, true])
  {
    var table := AabbbccTable();
    var c, b := [true, true], [false];
    assert EncodeWith(table, []) == Success([]);
    EncodeCons(table, 'c', [], []);
    assert ['c'] + [] == ['c'] && c + [] == c;
    EncodeCons(table, 'c', ['c'], c);
    assert ['c'] + ['c'] == ['c', 'c'] && c + c == [true, true, true, true];
    EncodeCons(table, 'b', ['c', 'c'], c + c);
    assert ['b'] + ['c', 'c'] == ['b', 'c', 'c'] && b + (c + c) == [false, true, true, true, true];
    EncodeCons(table, 'b', ['b', 'c', 'c'], b + (c + c));
    assert ['b'] + ['b', 'c', 'c'] == ['b', 'b', 'c', 'c'] && b + (b + (c + c)) == [false, false, true, true, true, true];
    EncodeCons(table, 'b', ['b', 'b', 'c', 'c'], b + (b + (c + c)));
    assert ['b'] + ['b', 'b', 'c', 'c'] == ['b', 'b', 'b', 'c', 'c'];
    assert b + (b + (b + (c + c))) == [false, false, false, true, true, true, true];
  }

  /** "aabbbcc" under the written-out table: 10 twice, then the bits of "bbbcc". */
  lemma AabbbccBits()
    ensures EncodeWith(AabbbccTable(), "aabbbcc") == Success([true, false, true, false, false, false, false, true, true, true, true])
  {
    var table := AabbbccTable();
    BbbccBits();
    var rest := [false, false, false, true, true, true, true];
    EncodeCons(table, 'a', ['b', 'b', 'b', 'c', 'c'], rest);
    assert ['a'] + ['b', 'b', 'b', 'c', 'c'] == ['a', 'b', 'b', 'b', 'c', 'c'];
    EncodeCons(table, 'a', ['a', 'b', 'b', 'b', 'c', 'c'], [true, false] + rest);
    assert "aabbbcc" == ['a'] + ['a', 'b', 'b', 'b', 'c', 'c'];
    assert [true, false] + ([true, false] + rest) == [true, false, true, false, false, false, false, true, true, true, true];
  }

  lemma AabbbccText(bits: seq<bool>)
    requires bits == [true, false, true, false, false, false, false, true, true, true, true]
    ensures RenderBits(bits) == "10100001111" && ParseBits("10100001111") == bits
  {
    var text := "10100001111";
    assert text == ['1', '0', '1', '0', '0', '0', '0', '1', '1', '1', '1'];
    forall i | 0 <= i < 11
      ensures RenderBits(bits)[i] == text[i] && ParseBits(text)[i] == bits[i]
    {
    }
  }

  /** "aabbbcc" encodes to the eleven bits 10100001111, which decode back to it. */
  lemma AabbbccExample()
    ensures EncodeString(AabbbccTree(), "aabbbcc") == Success("10100001111")
    ensures DecodeString(AabbbccTree(), "10100001111") == Success("aabbbcc")
  {
    var t := AabbbccTree();
    var bits := [true, false, true, false, false, false, false, true, true, true, true];
    AabbbccCodes();
    AabbbccBits();
    assert Encode(t, "aabbbcc") == Success(bits);
    AabbbccText(bits);
    RoundTrip(t, "aabbbcc");
  }
}
