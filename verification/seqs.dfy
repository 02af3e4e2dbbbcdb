/** Positions in sequences: finding, removing, inserting and moving one element. */
module Seqs {

  /** No element occurs twice. */
  ghost predicate Distinct<X>(s: seq<X>) {
    forall i, j :: 0 <= i < j < |s| ==> s[i] != s[j]
  }

  /** The position of the first occurrence of `x`. */
  function IndexOf<X(==)>(s: seq<X>, x: X): (i: nat)
    requires x in s
    ensures i < |s| && s[i] == x
    ensures forall j :: 0 <= j < i ==> s[j] != x
  {
    if s[0] == x then 0 else IndexOf(s[1..], x) + 1
  }

  /** `s` without its element at position `i`. */
  function RemoveAt<X>(s: seq<X>, i: nat): seq<X>
    requires i < |s|
  {
    s[..i] + s[i + 1..]
  }

  /** `s` with `x` placed at position `i`, the elements from `i` on moving one place back. */
  function InsertAt<X>(s: seq<X>, i: nat, x: X): seq<X>
    requires i <= |s|
  {
    s[..i] + [x] + s[i..]
  }

  /** `s` with its element at position `i` moved to the front. */
  function MoveToFront<X>(s: seq<X>, i: nat): seq<X>
    requires i < |s|
  {
    [s[i]] + RemoveAt(s, i)
  }

  /** In a sequence without repetitions an element occurs at one position only. */
  lemma IndexOfDistinct<X>(s: seq<X>, i: nat)
    requires Distinct(s) && i < |s|
    ensures IndexOf(s, s[i]) == i
  {
  }

  /** Removing the element at `i` keeps every other element, in order, and no repetition appears. */
  lemma RemoveAtElements<X>(s: seq<X>, i: nat)
    requires Distinct(s) && i < |s|
    ensures var r := RemoveAt(s, i);
      |r| == |s| - 1 && Distinct(r) && s[i] !in r &&
      forall x :: x in r <==> x in s && x != s[i]
  {
    var r := RemoveAt(s, i);
    forall a, b | 0 <= a < b < |r| ensures r[a] != r[b] {
      var a', b' := if a < i then a else a + 1, if b < i then b else b + 1;
      assert r[a] == s[a'] && r[b] == s[b'];
    }
    forall x ensures x in r <==> x in s && x != s[i] {
      if x in r {
        var k :| 0 <= k < |r| && r[k] == x;
        assert r[k] == s[if k < i then k else k + 1];
      }
      if x in s && x != s[i] {
        var k :| 0 <= k < |s| && s[k] == x;
        assert k != i;
        assert x == r[if k < i then k else k - 1];
      }
    }
  }

  /**
   * Removing what was just inserted gives the sequence back: when `x` was absent, it is found
   * where it was put, and removing it there undoes the insertion.
   */
  lemma RemoveInsertAt<X>(s: seq<X>, i: nat, x: X)
    requires i <= |s| && x !in s
    ensures x in InsertAt(s, i, x) && IndexOf(InsertAt(s, i, x), x) == i
    ensures RemoveAt(InsertAt(s, i, x), i) == s
  {
    var t := InsertAt(s, i, x);
    assert t[i] == x;
    forall j | 0 <= j < i ensures t[j] != x {
      assert t[j] == s[j];
    }
    assert t[..i] == s[..i] && t[i + 1..] == s[i..];
  }

  /** Moving an element to the front neither adds, drops nor repeats an element. */
  lemma MoveToFrontElements<X>(s: seq<X>, i: nat)
    requires Distinct(s) && i < |s|
    ensures var r := MoveToFront(s, i);
      |r| == |s| && Distinct(r) && r[0] == s[i] &&
      forall x :: x in r <==> x in s
  {
    RemoveAtElements(s, i);
  }

  /** Where each element of `s` ends up when the element at `i` moves to the front. */
  lemma MoveToFrontAt<X>(s: seq<X>, i: nat, a: nat)
    requires i < |s| && a < |s|
    ensures |MoveToFront(s, i)| == |s|
    ensures MoveToFront(s, i)[a] == s[if a == 0 then i else if a <= i then a - 1 else a]
  {
  }

  /** Moving an element to the front only reorders the sequence. */
  lemma MoveToFrontSameMultiset<X>(s: seq<X>, i: nat)
    requires i < |s|
    ensures multiset(MoveToFront(s, i)) == multiset(s)
  {
    assert s == s[..i] + [s[i]] + s[i + 1..];
  }

  /** Moving the front element to the front changes nothing. */
  lemma MoveToFrontFirst<X>(s: seq<X>)
    requires s != []
    ensures MoveToFront(s, 0) == s
  {
  }
}
