/**
 * The parts of Ruby's Array that the list store relies on, as functions on
 * sequences: `select`/`partition` (Keep), `index` (FirstIndex), the position
 * that `[]` and `delete_at` use for an integer index (ResolveIndex), and
 * `delete_at` itself (DeleteAt).
 */
module Sequences {
  import opened Wrappers

  /**
   * The elements x of s with p(x) == b, in their original order. With b true
   * this is `s.select(&p)`; `s.partition(&p)` is the pair (Keep(s, p, true),
   * Keep(s, p, false)).
   */
  function Keep<T>(s: seq<T>, p: T -> bool, b: bool): (r: seq<T>)
    ensures |r| <= |s|
    ensures forall k :: 0 <= k < |r| ==> p(r[k]) == b
    ensures forall x :: x in r ==> x in s
    decreases |s|
  {
    if s == [] then []
    else Keep(s[..|s| - 1], p, b) + (if p(s[|s| - 1]) == b then [s[|s| - 1]] else [])
  }

  /** The positions i of s with p(s[i]) == b, ascending: where Keep takes its elements from. */
  ghost function Positions<T>(s: seq<T>, p: T -> bool, b: bool): seq<nat>
    decreases |s|
  {
    if s == [] then []
    else Positions(s[..|s| - 1], p, b) + (if p(s[|s| - 1]) == b then [|s| - 1] else [])
  }

  ghost predicate StrictlyIncreasing(xs: seq<nat>)
  {
    forall i, j :: 0 <= i < j < |xs| ==> xs[i] < xs[j]
  }

  /**
   * Keep is a stable filter: it takes exactly the elements at the ascending
   * positions Positions(s, p, b), and every position whose element has
   * p(s[i]) == b is among them.
   */
  lemma {:induction false} KeepAtPositions<T>(s: seq<T>, p: T -> bool, b: bool)
    ensures |Positions(s, p, b)| == |Keep(s, p, b)|
    ensures forall k :: 0 <= k < |Keep(s, p, b)| ==>
              Positions(s, p, b)[k] < |s| && s[Positions(s, p, b)[k]] == Keep(s, p, b)[k]
    ensures StrictlyIncreasing(Positions(s, p, b))
    ensures forall i :: 0 <= i < |s| && p(s[i]) == b ==> i in Positions(s, p, b)
    decreases |s|
  {
    if s != [] {
      var n := |s| - 1;
      var init := s[..n];
      KeepAtPositions(init, p, b);
      var pos, kept := Positions(init, p, b), Keep(init, p, b);
      assert Positions(s, p, b) == pos + (if p(s[n]) == b then [n] else []);
      assert Keep(s, p, b) == kept + (if p(s[n]) == b then [s[n]] else []);
      forall k | 0 <= k < |pos|
        ensures pos[k] < n && s[pos[k]] == kept[k]
      {
        assert init[pos[k]] == kept[k];
      }
      forall i | 0 <= i < |s| && p(s[i]) == b
        ensures i in Positions(s, p, b)
      {
        if i < n {
          assert init[i] == s[i];
        }
      }
    }
  }

  /** Splitting by p loses and duplicates nothing: the two halves of a partition make up s. */
  lemma {:induction false} KeepSplit<T>(s: seq<T>, p: T -> bool)
    ensures |Keep(s, p, false)| + |Keep(s, p, true)| == |s|
    ensures multiset(Keep(s, p, false)) + multiset(Keep(s, p, true)) == multiset(s)
    decreases |s|
  {
    if s != [] {
      var n := |s| - 1;
      var init := s[..n];
      KeepSplit(init, p);
      assert s == init + [s[n]];
      assert multiset(s) == multiset(init) + multiset{s[n]};
      if p(s[n]) {
        assert Keep(s, p, false) == Keep(init, p, false);
        assert Keep(s, p, true) == Keep(init, p, true) + [s[n]];
      } else {
        assert Keep(s, p, false) == Keep(init, p, false) + [s[n]];
        assert Keep(s, p, true) == Keep(init, p, true);
      }
    }
  }

  /**
   * Ruby's `Array#index(x)`: the first position holding an element equal to x.
   * The store only asks for elements of s, so the `nil` of an absent element
   * does not arise.
   */
  function FirstIndex<T(==)>(s: seq<T>, x: T): (i: nat)
    requires x in s
    ensures i < |s| && s[i] == x
    ensures forall j :: 0 <= j < i ==> s[j] != x
  {
    if s[0] == x then 0 else 1 + FirstIndex(s[1..], x)
  }

  /** In a sequence without repeated elements, the first position of s[i] is i. */
  lemma FirstIndexOfDistinct<T>(s: seq<T>, i: nat)
    requires forall a, b :: 0 <= a < b < |s| ==> s[a] != s[b]
    requires i < |s|
    ensures FirstIndex(s, s[i]) == i
  {
  }

  /**
   * The position an integer index i denotes in an array of length n under
   * Ruby's rules for `Array#[]` and `Array#delete_at`: 0..n-1 count from the
   * front, -n..-1 from the end, anything else denotes no element.
   */
  function ResolveIndex(n: nat, i: int): (r: Option<nat>)
    ensures r.Some? <==> -(n as int) <= i < n
    ensures r.Some? ==> r.value < n && r.value == (if i >= 0 then i else n + i)
  {
    if 0 <= i < n then Some(i) else if -(n as int) <= i < 0 then Some(n + i) else None
  }

  /**
   * Ruby's `Array#delete_at(i)`: removes the element at the position i denotes,
   * shifting later elements down by one; an index that denotes no element
   * leaves the array as it is.
   */
  function DeleteAt<T>(s: seq<T>, i: int): (r: seq<T>)
    ensures ResolveIndex(|s|, i).None? ==> r == s
    ensures ResolveIndex(|s|, i).Some? ==>
              var k := ResolveIndex(|s|, i).value;
              && |r| == |s| - 1
              && (forall j :: 0 <= j < k ==> r[j] == s[j])
              && (forall j :: k <= j < |r| ==> r[j] == s[j + 1])
              && multiset(r) + multiset{s[k]} == multiset(s)
  {
    match ResolveIndex(|s|, i)
    case None => s
    case Some(k) =>
      assert s == s[..k] + [s[k]] + s[k + 1..];
      s[..k] + s[k + 1..]
  }
}
