/** Value-level operations on the sequence of entries an information vector
    stores: removing the entry at a position, and finding the first position
    that holds a given reference. The class in information_vector.dfy states
    its contracts in terms of these functions. */
module EntrySeqs {

  /** The sequence `s` with the element at position `i` taken out; the
      elements above `i` move down by one. */
  function Excise<T>(s: seq<T>, i: nat): (r: seq<T>)
    requires i < |s|
    ensures |r| == |s| - 1
    ensures forall k :: 0 <= k < i ==> r[k] == s[k]
    ensures forall k :: i <= k < |r| ==> r[k] == s[k + 1]
  {
    s[..i] + s[i + 1..]
  }

  /** The first position of `s` that holds `x`. */
  function IndexOf<T(==)>(s: seq<T>, x: T): (i: nat)
    requires x in s
    ensures i < |s| && s[i] == x
    ensures x !in s[..i]
  {
    if s[0] == x then 0
    else
      assert x in s[1..] by { var k :| 0 <= k < |s| && s[k] == x; assert s[1..][k - 1] == x; }
      var j := IndexOf(s[1..], x);
      assert s[..j + 1] == [s[0]] + s[1..][..j];
      j + 1
  }

  /** A position holding `x` with no earlier occurrence is the one IndexOf finds. */
  lemma IndexOfUnique<T>(s: seq<T>, x: T, i: nat)
    requires i < |s| && s[i] == x && x !in s[..i]
    ensures IndexOf(s, x) == i
  {
  }

  /** Excising position `i` removes exactly one copy of `s[i]` and leaves the
      multiplicity of every other element alone. */
  lemma ExciseMultiset<T>(s: seq<T>, i: nat)
    requires i < |s|
    ensures multiset(Excise(s, i)) == multiset(s) - multiset{s[i]}
  {
    calc {
      multiset(s);
      { assert s == s[..i] + [s[i]] + s[i + 1..]; }
      multiset(s[..i]) + multiset{s[i]} + multiset(s[i + 1..]);
      multiset(s[..i] + s[i + 1..]) + multiset{s[i]};
    }
  }

  /** Excising an element that occurs only once leaves no copy of it behind. */
  lemma ExciseSoleOccurrence<T>(s: seq<T>, x: T)
    requires multiset(s)[x] == 1
    ensures x !in Excise(s, IndexOf(s, x))
  {
    ExciseMultiset(s, IndexOf(s, x));
  }

  /** Removing the last position undoes appending an element. */
  lemma ExciseAppended<T>(s: seq<T>, x: T)
    ensures Excise(s + [x], |s|) == s
  {
  }
}
