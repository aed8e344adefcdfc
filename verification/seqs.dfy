/** The Kotlin collection operations the provider chains: `mapNotNull`,
    `reversed` and `firstOrNull { … }`. */
module Seqs {

  import opened Wrappers

  /** Kotlin's `mapNotNull`: apply `f` to every element in order and keep the
      non-null results. */
  function MapNotNull<A, B>(f: A -> Option<B>, s: seq<A>): (r: seq<B>)
    ensures |r| <= |s|
    ensures forall k :: 0 <= k < |r| ==> exists i :: 0 <= i < |s| && f(s[i]) == Some(r[k])
    ensures forall i :: 0 <= i < |s| && f(s[i]).Some? ==> f(s[i]).value in r
  {
    if |s| == 0 then []
    else match f(s[0])
      case Some(y) => [y] + MapNotNull(f, s[1..])
      case None => MapNotNull(f, s[1..])
  }

  /** `mapNotNull` distributes over concatenation: results keep the order of
      the elements they came from. */
  lemma {:induction false} MapNotNullAppend<A, B>(f: A -> Option<B>, a: seq<A>, b: seq<A>)
    ensures MapNotNull(f, a + b) == MapNotNull(f, a) + MapNotNull(f, b)
  {
    if |a| > 0 {
      assert (a + b)[0] == a[0];
      assert (a + b)[1..] == a[1..] + b;
      MapNotNullAppend(f, a[1..], b);
    } else {
      assert a + b == b;
    }
  }

  /** When every element maps to a value, `mapNotNull` keeps them all. */
  lemma {:induction false} MapNotNullTotal<A, B>(f: A -> Option<B>, s: seq<A>)
    requires forall k :: 0 <= k < |s| ==> f(s[k]).Some?
    ensures |MapNotNull(f, s)| == |s|
    ensures forall k :: 0 <= k < |s| ==> MapNotNull(f, s)[k] == f(s[k]).value
  {
    if |s| > 0 {
      MapNotNullTotal(f, s[1..]);
    }
  }

  /** Processing the elements in any order yields the same multiset of
      results: the outcome of `mapNotNull` does not depend on the order in
      which the elements are visited. */
  lemma {:induction false} MapNotNullPermutation<A, B>(f: A -> Option<B>, s: seq<A>, t: seq<A>)
    requires multiset(s) == multiset(t)
    ensures multiset(MapNotNull(f, s)) == multiset(MapNotNull(f, t))
    decreases |s|
  {
    if |s| > 0 {
      var i := MemberIndex(t, s[0]);
      RemoveMatching(s, t, i);
      MapNotNullPermutation(f, s[1..], t[..i] + t[i + 1..]);
      PermutationStep(f, s, t, i);
    } else {
      assert |t| == |multiset(t)| == |multiset(s)| == 0;
    }
  }

  /** Taking the head of `s` out of `t` at index `i` keeps the multiset of
      results in step. */
  lemma PermutationStep<A, B>(f: A -> Option<B>, s: seq<A>, t: seq<A>, i: nat)
    requires 0 < |s| && i < |t| && t[i] == s[0]
    requires multiset(MapNotNull(f, s[1..])) == multiset(MapNotNull(f, t[..i] + t[i + 1..]))
    ensures multiset(MapNotNull(f, s)) == multiset(MapNotNull(f, t))
  {
    var x := s[0];
    assert s == [x] + s[1..];
    MapNotNullMultisetAppend(f, [x], s[1..]);
    SplitAt(t, i);
    MiddleOut(f, t[..i], x, t[i + 1..]);
  }

  /** The results of `pre + [x] + post` are those of `x` and of `pre + post`. */
  lemma MiddleOut<A, B>(f: A -> Option<B>, pre: seq<A>, x: A, post: seq<A>)
    ensures multiset(MapNotNull(f, pre + [x] + post))
            == multiset(MapNotNull(f, [x])) + multiset(MapNotNull(f, pre + post))
  {
    assert pre + [x] + post == pre + ([x] + post);
    MapNotNullMultisetAppend(f, pre, [x] + post);
    MapNotNullMultisetAppend(f, [x], post);
    MapNotNullMultisetAppend(f, pre, post);
  }

  lemma MapNotNullMultisetAppend<A, B>(f: A -> Option<B>, a: seq<A>, b: seq<A>)
    ensures multiset(MapNotNull(f, a + b)) == multiset(MapNotNull(f, a)) + multiset(MapNotNull(f, b))
  {
    MapNotNullAppend(f, a, b);
  }

  lemma MemberIndex<T>(t: seq<T>, x: T) returns (i: nat)
    requires x in multiset(t)
    ensures i < |t| && t[i] == x
  {
    assert x in t;
    i :| 0 <= i < |t| && t[i] == x;
  }

  /** Removing the head of `s` and an equal element of `t` keeps two
      permutations of each other in step. */
  lemma RemoveMatching<T>(s: seq<T>, t: seq<T>, i: nat)
    requires multiset(s) == multiset(t)
    requires 0 < |s| && i < |t| && t[i] == s[0]
    ensures multiset(s[1..]) == multiset(t[..i] + t[i + 1..])
  {
    MultisetRemoveAt(t, i);
    MultisetTail(s);
  }

  lemma MultisetTail<T>(s: seq<T>)
    requires 0 < |s|
    ensures multiset(s[1..]) == multiset(s) - multiset{s[0]}
  {
    assert s == [s[0]] + s[1..];
  }

  lemma MultisetRemoveAt<T>(t: seq<T>, i: nat)
    requires i < |t|
    ensures multiset(t[..i] + t[i + 1..]) == multiset(t) - multiset{t[i]}
  {
    SplitAt(t, i);
  }

  lemma SplitAt<T>(t: seq<T>, i: nat)
    requires i < |t|
    ensures t == t[..i] + [t[i]] + t[i + 1..]
  {
  }

  /** Kotlin's `reversed()`. */
  function Reverse<T>(s: seq<T>): (r: seq<T>)
    ensures |r| == |s|
    ensures forall k :: 0 <= k < |s| ==> r[k] == s[|s| - 1 - k]
  {
    if |s| == 0 then [] else Reverse(s[1..]) + [s[0]]
  }

  /** The reversed results of `mapNotNull` still each come from an element,
      and still hold the result of every element that has one. */
  lemma MapNotNullReversed<A, B>(f: A -> Option<B>, s: seq<A>)
    ensures var r := Reverse(MapNotNull(f, s));
            forall k :: 0 <= k < |r| ==> exists i :: 0 <= i < |s| && f(s[i]) == Some(r[k])
    ensures forall i :: 0 <= i < |s| && f(s[i]).Some? ==> f(s[i]).value in Reverse(MapNotNull(f, s))
  {
    var kept := MapNotNull(f, s);
    forall k | 0 <= k < |kept|
      ensures exists i :: 0 <= i < |s| && f(s[i]) == Some(Reverse(kept)[k])
    {
      ReverseAt(kept, k);
    }
    forall i | 0 <= i < |s| && f(s[i]).Some?
      ensures f(s[i]).value in Reverse(kept)
    {
      var k :| 0 <= k < |kept| && kept[k] == f(s[i]).value;
      ReverseAt(kept, |kept| - 1 - k);
    }
  }

  /** The element at index `k` of a reversal, named for a proof. */
  lemma ReverseAt<T>(s: seq<T>, k: nat)
    requires k < |s|
    ensures Reverse(s)[k] == s[|s| - 1 - k] && s[|s| - 1 - k] in Reverse(s)
  {
  }

  /** Reversing twice restores the sequence. */
  lemma ReverseReverse<T>(s: seq<T>)
    ensures Reverse(Reverse(s)) == s
  {
  }

  /** Reversing a concatenation reverses the order of the parts. */
  lemma ReverseAppend<T>(a: seq<T>, b: seq<T>)
    ensures Reverse(a + b) == Reverse(b) + Reverse(a)
  {
    var l, r := Reverse(a + b), Reverse(b) + Reverse(a);
    forall k | 0 <= k < |l|
      ensures l[k] == r[k]
    {
      if k < |b| {
        assert r[k] == Reverse(b)[k];
      } else {
        assert r[k] == Reverse(a)[k - |b|];
      }
    }
  }

  /** Index of the first element satisfying `p`, as `firstOrNull { p(it) }`
      finds it. */
  function FirstIndex<T>(p: T -> bool, s: seq<T>): (r: Option<nat>)
    ensures r.Some? ==> r.value < |s| && p(s[r.value])
    ensures r.Some? ==> forall k :: 0 <= k < r.value ==> !p(s[k])
    ensures r.None? ==> forall k :: 0 <= k < |s| ==> !p(s[k])
  {
    if |s| == 0 then None
    else if p(s[0]) then Some(0)
    else match FirstIndex(p, s[1..])
      case None => None
      case Some(i) => Some(i + 1)
  }
}
