/** Order-keeping relations between sequences, used to state "keeps source order". */
module Seqs {

  /** `a` is `b` with some elements left out, the rest in the same order. */
  predicate IsSubseq<T(==)>(a: seq<T>, b: seq<T>)
    decreases |b|
  {
    if a == [] then true
    else if b == [] then false
    else
      || (a[|a| - 1] == b[|b| - 1] && IsSubseq(a[..|a| - 1], b[..|b| - 1]))
      || IsSubseq(a, b[..|b| - 1])
  }

  lemma SubseqAppendBoth<T>(a: seq<T>, b: seq<T>, x: T)
    requires IsSubseq(a, b)
    ensures IsSubseq(a + [x], b + [x])
  {
    assert (a + [x])[..|a|] == a;
    assert (b + [x])[..|b|] == b;
  }

  lemma SubseqAppendRight<T>(a: seq<T>, b: seq<T>, x: T)
    requires IsSubseq(a, b)
    ensures IsSubseq(a, b + [x])
  {
    assert (b + [x])[..|b|] == b;
  }

  lemma {:induction false} SubseqDropLast<T>(a: seq<T>, b: seq<T>, x: T)
    requires IsSubseq(a + [x], b)
    ensures IsSubseq(a, b)
    decreases |b|
  {
    var ax := a + [x];
    assert ax[..|ax| - 1] == a;
    if a != [] {
      var b' := b[..|b| - 1];
      if IsSubseq(ax, b') {
        SubseqDropLast(a, b', x);
        SubseqAppendRight(a, b', b[|b| - 1]);
        assert b' + [b[|b| - 1]] == b;
      } else {
        SubseqAppendRight(a, b', b[|b| - 1]);
        assert b' + [b[|b| - 1]] == b;
      }
    }
  }

  lemma {:induction false} SubseqLength<T>(a: seq<T>, b: seq<T>)
    requires IsSubseq(a, b)
    ensures |a| <= |b|
    decreases |b|
  {
    if a != [] {
      if a[|a| - 1] == b[|b| - 1] && IsSubseq(a[..|a| - 1], b[..|b| - 1]) {
        SubseqLength(a[..|a| - 1], b[..|b| - 1]);
      } else {
        SubseqLength(a, b[..|b| - 1]);
      }
    }
  }

  lemma {:induction false} SubseqReflexive<T>(a: seq<T>)
    ensures IsSubseq(a, a)
  {
    if a != [] {
      SubseqReflexive(a[..|a| - 1]);
    }
  }

  /** Order-keeping selections from two sequences combine into one from their concatenation. */
  lemma {:induction false} SubseqConcat<T>(a: seq<T>, b: seq<T>, c: seq<T>, d: seq<T>)
    requires IsSubseq(a, b) && IsSubseq(c, d)
    ensures IsSubseq(a + c, b + d)
    decreases |d|
  {
    if d == [] {
      assert c == [];
      assert a + c == a && b + d == b;
    } else {
      var d' := d[..|d| - 1];
      var x := d[|d| - 1];
      assert (b + d') + [x] == b + d;
      if c != [] && c[|c| - 1] == x && IsSubseq(c[..|c| - 1], d') {
        var c' := c[..|c| - 1];
        SubseqConcat(a, b, c', d');
        SubseqAppendBoth(a + c', b + d', x);
        assert (a + c') + [x] == a + c;
      } else {
        assert IsSubseq(c, d');
        SubseqConcat(a, b, c, d');
        SubseqAppendRight(a + c, b + d', x);
      }
    }
  }

  /** Keeping or dropping a single element keeps order. */
  lemma SubseqOfSingleton<T>(a: seq<T>, x: T)
    requires a == [] || a == [x]
    ensures IsSubseq(a, [x])
  {
    if a == [x] {
      assert a[..0] == [x][..0];
    }
  }

  /** Applies `f` to every element. */
  function MapSeq<A, B>(s: seq<A>, f: A -> B): (r: seq<B>)
    ensures |r| == |s|
    ensures forall i :: 0 <= i < |s| ==> r[i] == f(s[i])
  {
    seq(|s|, i requires 0 <= i < |s| => f(s[i]))
  }

  /** Taking out the element at `k` takes one copy of it out of the multiset. */
  lemma RemoveAtMultiset<T>(t: seq<T>, k: nat)
    requires k < |t|
    ensures multiset(t[..k] + t[k + 1..]) == multiset(t) - multiset{t[k]}
  {
    assert t == t[..k] + [t[k]] + t[k + 1..];
    assert multiset(t) == multiset(t[..k]) + multiset{t[k]} + multiset(t[k + 1..]);
  }

  /** Taking out the element at `k` before mapping takes its image out of the mapped multiset. */
  lemma MapRemoveAt<A, B>(s: seq<A>, k: nat, f: A -> B)
    requires k < |s|
    ensures multiset(MapSeq(s, f)) == multiset(MapSeq(s[..k] + s[k + 1..], f)) + multiset{f(s[k])}
  {
    var m := MapSeq(s, f);
    RemoveAtMultiset(m, k);
    assert m[..k] + m[k + 1..] == MapSeq(s[..k] + s[k + 1..], f);
  }

  /** Mapping two sequences with the same elements, in any order, gives sequences with the same elements. */
  lemma {:induction false} MapKeepsMultiset<A, B>(s: seq<A>, t: seq<A>, f: A -> B)
    requires multiset(s) == multiset(t)
    ensures multiset(MapSeq(s, f)) == multiset(MapSeq(t, f))
    decreases |s|
  {
    if s == [] {
      assert |t| == |multiset(t)| == 0;
    } else {
      var n := |s| - 1;
      var x := s[n];
      assert x in multiset(t);
      var k :| 0 <= k < |t| && t[k] == x;
      var s', t' := s[..n], t[..k] + t[k + 1..];
      RemoveAtMultiset(s, n);
      assert s[..n] + s[n + 1..] == s';
      RemoveAtMultiset(t, k);
      MapKeepsMultiset(s', t', f);
      MapRemoveAt(s, n, f);
      MapRemoveAt(t, k, f);
    }
  }
}
