/**
  The frequency counter of the codec's constructor: one pass over the input,
  incrementing the count of each character in a hash map.
 */
module Frequency {
  import opened Tally

  /** The occurrence count of every character of `s`; absent characters have no entry. */
  method CountFrequencies(s: seq<char>) returns (freq: map<char, nat>)
    ensures forall c :: c in freq <==> c in s
    ensures forall c :: c in freq ==> freq[c] == multiset(s)[c] && freq[c] >= 1
  {
    freq := map[];
    var i := 0;
    while i < |s|
      invariant 0 <= i <= |s|
      invariant forall c :: c in freq <==> c in s[..i]
      invariant forall c :: c in freq ==> freq[c] == multiset(s[..i])[c] && freq[c] >= 1
    {
      var ch := s[i];
      // `operator[]` inserts a zero count for a new key before the increment
      freq := freq[ch := (if ch in freq then freq[ch] else 0) + 1];
      assert s[..i + 1] == s[..i] + [ch];
      i := i + 1;
    }
    assert s[..|s|] == s;
  }

  /** The sum of the counts of the symbols listed in `order`. */
  function TotalCount(freq: map<char, nat>, order: seq<char>): nat
    requires forall i :: 0 <= i < |order| ==> order[i] in freq
  {
    if order == [] then 0 else freq[order[0]] + TotalCount(freq, order[1..])
  }

  /** The counts of a frequency table for `s`, in any iteration order, sum to the input length. */
  lemma {:induction false} CountsSumToLength(s: seq<char>, freq: map<char, nat>, order: seq<char>)
    requires forall c :: c in freq <==> c in s
    requires forall c :: c in freq ==> freq[c] == multiset(s)[c]
    requires forall c :: c in order <==> c in freq
    requires forall c :: multiset(order)[c] <= 1
    ensures TotalCount(freq, order) == |s|
  {
    var one := (c: char) => 1;
    TotalIsPerSymbol(s, freq, order, one);
    RegroupBySymbol(s, order, one);
    PerPositionOfOne(s, one);
  }

  lemma {:induction false} TotalIsPerSymbol(s: seq<char>, freq: map<char, nat>, order: seq<char>, one: char -> nat)
    requires forall c :: one(c) == 1
    requires forall c :: c in freq ==> freq[c] == multiset(s)[c]
    requires forall i :: 0 <= i < |order| ==> order[i] in freq
    ensures TotalCount(freq, order) == PerSymbol(s, order, one)
  {
    if order != [] {
      TotalIsPerSymbol(s, freq, order[1..], one);
    }
  }

  lemma {:induction false} PerPositionOfOne(s: seq<char>, one: char -> nat)
    requires forall c :: one(c) == 1
    ensures PerPosition(s, one) == |s|
  {
    if s != [] {
      PerPositionOfOne(s[1..], one);
    }
  }
}
