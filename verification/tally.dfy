/**
  Sums over an input sequence, taken either position by position or symbol by
  symbol (frequency times a per-symbol amount). Both the frequency table and
  the encoded length are sums of this kind.
 */
module Tally {

  /** `order` lists every symbol of `s`, each exactly once (the iteration order of a hash map). */
  predicate Enumerates(order: seq<char>, s: seq<char>) {
    && (forall i :: 0 <= i < |s| ==> s[i] in order)
    && (forall c :: multiset(order)[c] <= 1)
  }

  /** The sum of `len(s[i])` over the positions of `s`. */
  function PerPosition(s: seq<char>, len: char -> nat): nat {
    if s == [] then 0 else len(s[0]) + PerPosition(s[1..], len)
  }

  /** The sum over the symbols `c` of `order` of (occurrences of `c` in `s`) * `len(c)`. */
  function PerSymbol(s: seq<char>, order: seq<char>, len: char -> nat): nat {
    if order == [] then 0
    else multiset(s)[order[0]] * len(order[0]) + PerSymbol(s, order[1..], len)
  }

  /** One more occurrence of `x` adds `len(x)` once for each time `x` is listed. */
  lemma {:induction false} PerSymbolCons(x: char, t: seq<char>, order: seq<char>, len: char -> nat)
    ensures PerSymbol([x] + t, order, len) == PerSymbol(t, order, len) + multiset(order)[x] * len(x)
  {
    if order != [] {
      var c := order[0];
      var d := if x == c then 1 else 0;
      PerSymbolCons(x, t, order[1..], len);
      assert multiset(order)[x] == d + multiset(order[1..])[x] by {
        assert order == [c] + order[1..];
      }
      assert multiset([x] + t)[c] == multiset(t)[c] + d;
      Distribute(multiset(t)[c], d, len(c));
      Distribute(d, multiset(order[1..])[x], len(x));
      assert d * len(c) == d * len(x);
    }
  }

  lemma Distribute(a: nat, b: nat, k: nat)
    ensures (a + b) * k == a * k + b * k
  {
  }

  /** Regrouping a positional sum by distinct symbols does not change it. */
  lemma {:induction false} RegroupBySymbol(s: seq<char>, order: seq<char>, len: char -> nat)
    requires Enumerates(order, s)
    ensures PerSymbol(s, order, len) == PerPosition(s, len)
  {
    if s == [] {
      EmptyPerSymbol(order, len);
    } else {
      assert s == [s[0]] + s[1..];
      assert Enumerates(order, s[1..]) by {
        forall i | 0 <= i < |s[1..]| ensures s[1..][i] in order {
          assert s[1..][i] == s[i + 1];
        }
      }
      RegroupBySymbol(s[1..], order, len);
      PerSymbolCons(s[0], s[1..], order, len);
      assert s[0] in multiset(order);
    }
  }

  /** With no occurrences there is nothing to add up. */
  lemma {:induction false} EmptyPerSymbol(order: seq<char>, len: char -> nat)
    ensures PerSymbol([], order, len) == 0
  {
    if order != [] {
      EmptyPerSymbol(order[1..], len);
    }
  }
}
