/** Mapping a function over a sequence, and the facts about it the rest of
    the model relies on. The function is a parameter, so none of these
    proofs depends on what it computes. */
module Seqs {

  /** `s.iter().map(f).collect()` */
  function Map<A, B>(s: seq<A>, f: A -> B): (r: seq<B>)
    ensures |r| == |s|
    ensures forall k :: 0 <= k < |s| ==> r[k] == f(s[k])
  {
    seq(|s|, k requires 0 <= k < |s| => f(s[k]))
  }

  /** Mapping commutes with concatenation. */
  lemma MapAppend<A, B>(a: seq<A>, b: seq<A>, f: A -> B)
    ensures Map(a + b, f) == Map(a, f) + Map(b, f)
  {
  }

  lemma MapSingle<A, B>(x: A, f: A -> B)
    ensures Map([x], f) == [f(x)]
  {
  }

  /** The mapped sequence holds exactly the images of the elements. */
  lemma MapMembers<A, B>(s: seq<A>, f: A -> B)
    ensures forall y :: y in Map(s, f) <==> exists k :: 0 <= k < |s| && f(s[k]) == y
  {
    var r := Map(s, f);
    forall y | y in r
      ensures exists k :: 0 <= k < |s| && f(s[k]) == y
    {
      var k :| 0 <= k < |r| && r[k] == y;
      assert f(s[k]) == y;
    }
    forall y | exists k :: 0 <= k < |s| && f(s[k]) == y
      ensures y in r
    {
      var k :| 0 <= k < |s| && f(s[k]) == y;
      assert r[k] == y;
    }
  }

  /** Images of a subset form a subset. */
  lemma MapSubset<A, B>(a: seq<A>, b: seq<A>, f: A -> B)
    requires forall x :: x in a ==> x in b
    ensures forall y :: y in Map(a, f) ==> y in Map(b, f)
  {
    var ra, rb := Map(a, f), Map(b, f);
    forall y | y in ra
      ensures y in rb
    {
      var k :| 0 <= k < |ra| && ra[k] == y;
      assert a[k] in b;
      var j :| 0 <= j < |b| && b[j] == a[k];
      assert rb[j] == y;
    }
  }

  /** Deleting the element at index `i`. */
  lemma RemoveAt<T>(s: seq<T>, i: nat)
    requires i < |s|
    ensures s == s[..i] + [s[i]] + s[i + 1..]
    ensures multiset(s[..i] + s[i + 1..]) == multiset(s) - multiset{s[i]}
  {
    assert s == s[..i] + [s[i]] + s[i + 1..];
    assert multiset(s) == multiset(s[..i]) + multiset{s[i]} + multiset(s[i + 1..]);
  }

  /** The images around a deleted element. */
  lemma MapRemoveAt<A, B>(s: seq<A>, i: nat, f: A -> B)
    requires i < |s|
    ensures Map(s, f) == Map(s[..i], f) + [f(s[i])] + Map(s[i + 1..], f)
    ensures Map(s[..i] + s[i + 1..], f) == Map(s[..i], f) + Map(s[i + 1..], f)
  {
    assert s == s[..i] + [s[i]] + s[i + 1..];
    MapAppend(s[..i] + [s[i]], s[i + 1..], f);
    MapAppend(s[..i], [s[i]], f);
    MapAppend(s[..i], s[i + 1..], f);
  }

  /** Putting a deleted run back where it was. */
  lemma MultisetSplice<T>(left: seq<T>, mid: seq<T>, right: seq<T>, none: seq<T>, m: seq<T>)
    requires multiset(m) == multiset(left + right) && |none| == 0
    ensures multiset(left + mid + right) == multiset(none + mid + m)
  {
    assert none + mid + m == mid + m;
    calc {
      multiset(left + mid + right);
      multiset(left) + multiset(mid) + multiset(right);
      multiset(mid) + multiset(left + right);
      multiset(mid + m);
    }
  }

  /** Mapping a permutation gives a permutation of the images. */
  lemma {:induction false} MapPermutation<A, B>(a: seq<A>, b: seq<A>, f: A -> B)
    requires multiset(a) == multiset(b)
    ensures multiset(Map(a, f)) == multiset(Map(b, f))
    decreases |a|
  {
    if a == [] {
      assert |b| == |multiset(b)| == 0;
    } else {
      var x := a[0];
      assert x in multiset(b);
      var i :| 0 <= i < |b| && b[i] == x;
      RemoveAt(b, i);
      RemoveAt(a, 0);
      var b' := b[..i] + b[i + 1..];
      MapPermutation(a[1..], b', f);
      MapRemoveAt(b, i, f);
      MapRemoveAt(a, 0, f);
      MultisetSplice(Map(b[..i], f), [f(x)], Map(b[i + 1..], f), Map(a[..0], f), Map(a[1..], f));
    }
  }
}
