/** Filtering-and-mapping a sequence, and the fact that the multiset of its
    results depends only on the multiset of its inputs. */
module Sequences {
  import opened Options

  /** The values `f` yields for the elements of `xs`, in order; elements for
      which it yields `None` are dropped. */
  function MapSome<A, B>(xs: seq<A>, f: A -> Option<B>): (ys: seq<B>)
    ensures |ys| <= |xs|
  {
    if xs == [] then []
    else
      ToSeq(f(xs[0])) + MapSome(xs[1..], f)
  }

  lemma {:induction false} MapSomeConcat<A, B>(a: seq<A>, b: seq<A>, f: A -> Option<B>)
    ensures MapSome(a + b, f) == MapSome(a, f) + MapSome(b, f)
    decreases |a|
  {
    if a != [] {
      assert (a + b)[0] == a[0];
      assert (a + b)[1..] == a[1..] + b;
      MapSomeConcat(a[1..], b, f);
      assert MapSome(a + b, f) == ToSeq(f(a[0])) + (MapSome(a[1..], f) + MapSome(b, f));
    } else {
      assert a + b == b;
    }
  }

  /** When `f` never drops an element, the result lines up with the input. */
  lemma {:induction false} MapSomeTotal<A, B>(xs: seq<A>, f: A -> Option<B>)
    requires forall x :: f(x).Some?
    ensures |MapSome(xs, f)| == |xs|
    ensures forall i :: 0 <= i < |xs| ==> MapSome(xs, f)[i] == f(xs[i]).value
    decreases |xs|
  {
    if xs != [] {
      var rest := MapSome(xs[1..], f);
      MapSomeTotal(xs[1..], f);
      assert MapSome(xs, f) == [f(xs[0]).value] + rest;
      forall i | 1 <= i < |xs|
        ensures MapSome(xs, f)[i] == f(xs[i]).value
      {
        assert xs[i] == xs[1..][i - 1];
      }
    }
  }

  /** Mapping commutes with moving one element to the front. */
  lemma {:induction false} MapSomeRemoveAt<A, B>(b: seq<A>, i: nat, f: A -> Option<B>)
    requires i < |b|
    ensures multiset(MapSome(b, f))
         == multiset(ToSeq(f(b[i]))) + multiset(MapSome(b[..i] + b[i + 1..], f))
    decreases i
  {
    if i == 0 {
      assert b[..i] + b[i + 1..] == b[1..];
      assert MapSome(b, f) == ToSeq(f(b[0])) + MapSome(b[1..], f);
    } else {
      var t := b[1..];
      var rest := t[..i - 1] + t[i..];
      var head := ToSeq(f(b[0]));
      assert b[..i] + b[i + 1..] == [b[0]] + rest;
      assert t[i - 1] == b[i];
      MapSomeRemoveAt(t, i - 1, f);
      MapSomeCons(b[0], rest, f);
      assert MapSome(b, f) == head + MapSome(t, f);
      MultisetMiddleFirst(head, ToSeq(f(b[i])), MapSome(rest, f));
    }
  }

  lemma MapSomeCons<A, B>(x: A, xs: seq<A>, f: A -> Option<B>)
    ensures MapSome([x] + xs, f) == ToSeq(f(x)) + MapSome(xs, f)
  {
    assert ([x] + xs)[1..] == xs;
  }

  lemma MultisetMiddleFirst<T>(p: seq<T>, m: seq<T>, q: seq<T>)
    ensures multiset(p) + (multiset(m) + multiset(q)) == multiset(m) + multiset(p + q)
  {
    assert multiset(p + q) == multiset(p) + multiset(q);
  }

  /** Taking the same element out of two permutations of each other leaves
      two permutations of each other. */
  lemma RemoveMatching<A>(a: seq<A>, b: seq<A>, i: nat)
    requires multiset(a) == multiset(b) && |a| > 0 && i < |b| && b[i] == a[0]
    ensures multiset(a[1..]) == multiset(b[..i] + b[i + 1..])
  {
    var b' := b[..i] + b[i + 1..];
    assert multiset(a) == multiset{a[0]} + multiset(a[1..]) by {
      assert a == [a[0]] + a[1..];
    }
    assert multiset(b) == multiset{a[0]} + multiset(b') by {
      assert b == b[..i] + [b[i]] + b[i + 1..];
    }
    var p, q := multiset(a[1..]), multiset(b');
    assert p == (multiset{a[0]} + p) - multiset{a[0]};
    assert q == (multiset{a[0]} + q) - multiset{a[0]};
  }

  /** A position at which `x` occurs in `s`. */
  lemma IndexOf<T>(s: seq<T>, x: T) returns (i: nat)
    requires x in multiset(s)
    ensures i < |s| && s[i] == x
  {
    assert x in s;
    i :| i < |s| && s[i] == x;
  }

  /** Reordering the input only reorders the output. */
  lemma {:induction false} MapSomePermutation<A, B>(a: seq<A>, b: seq<A>, f: A -> Option<B>)
    requires multiset(a) == multiset(b)
    ensures multiset(MapSome(a, f)) == multiset(MapSome(b, f))
    decreases |a|
  {
    if a == [] {
      assert b == [] by {
        assert |b| == |multiset(b)| == 0;
      }
    } else {
      var x := a[0];
      var i := IndexOf(b, x);
      var b' := b[..i] + b[i + 1..];
      RemoveMatching(a, b, i);
      var ma, mb := MapSome(a[1..], f), MapSome(b', f);
      assert multiset(ma) == multiset(mb) by {
        MapSomePermutation(a[1..], b', f);
      }
      assert multiset(MapSome(a, f)) == multiset(ToSeq(f(x))) + multiset(ma) by {
        MapSomeRemoveAt(a, 0, f);
        assert a[..0] + a[1..] == a[1..];
      }
      assert multiset(MapSome(b, f)) == multiset(ToSeq(f(x))) + multiset(mb) by {
        MapSomeRemoveAt(b, i, f);
      }
    }
  }
}
