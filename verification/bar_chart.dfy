/** The ordering behind the usage bar chart: the rows sorted by size, largest
    first. The order among rows of equal size is left open, as it is for
    the unstable sort the chart uses. */
module BarChart {
  import opened Options
  import opened Sequences
  import opened Scan

  /** Sizes never increase from one row to any later one. */
  predicate NonIncreasing(rs: seq<Record>)
  {
    forall i, j :: 0 <= i < j < |rs| ==> rs[i].size >= rs[j].size
  }

  /** Every row of `out` is at most `bound` when every row it was built
      from is. */
  lemma BoundedByMultiset(out: seq<Record>, rs: seq<Record>, r: Record, bound: nat)
    requires multiset(out) == multiset(rs) + multiset{r}
    requires r.size <= bound && forall k :: 0 <= k < |rs| ==> rs[k].size <= bound
    ensures forall k :: 0 <= k < |out| ==> out[k].size <= bound
  {
    forall k | 0 <= k < |out|
      ensures out[k].size <= bound
    {
      assert out[k] in multiset(out);
      if out[k] != r {
        assert out[k] in multiset(rs);
      }
    }
  }

  /** A row no smaller than any row of a non-increasing sequence can head
      it. */
  lemma ConsNonIncreasing(x: Record, rest: seq<Record>)
    requires NonIncreasing(rest)
    requires forall k :: 0 <= k < |rest| ==> rest[k].size <= x.size
    ensures NonIncreasing([x] + rest)
  {
    forall i, j | 0 <= i < j < |[x] + rest|
      ensures ([x] + rest)[i].size >= ([x] + rest)[j].size
    {
      assert ([x] + rest)[j] == rest[j - 1];
      if i > 0 {
        assert ([x] + rest)[i] == rest[i - 1];
      }
    }
  }

  /** `r` placed in the non-increasing `rs` before the first row it is at
      least as large as. */
  function Insert(r: Record, rs: seq<Record>): (out: seq<Record>)
    requires NonIncreasing(rs)
    ensures NonIncreasing(out)
    ensures multiset(out) == multiset(rs) + multiset{r}
  {
    if rs == [] || r.size >= rs[0].size then
      ConsNonIncreasing(r, rs);
      [r] + rs
    else
      var tail := rs[1..];
      assert rs == [rs[0]] + tail;
      var rest := Insert(r, tail);
      BoundedByMultiset(rest, tail, r, rs[0].size);
      ConsNonIncreasing(rs[0], rest);
      [rs[0]] + rest
  }

  /** `sort_values(by="Size_MB", ascending=False)`: the same rows, largest
      first. */
  function SortBySizeDescending(rs: seq<Record>): (out: seq<Record>)
    ensures NonIncreasing(out)
    ensures multiset(out) == multiset(rs)
  {
    if rs == [] then []
    else
      assert rs == [rs[0]] + rs[1..];
      Insert(rs[0], SortBySizeDescending(rs[1..]))
  }

  /** The size of a row, as a cell that is never missing. */
  function SizeCell(r: Record): Option<nat>
  {
    Some(r.size)
  }

  /** The bar lengths, top to bottom. */
  function BarLengths(rs: seq<Record>): seq<nat>
  {
    MapSome(rs, SizeCell)
  }

  /** The head of a non-increasing sequence is its largest element. */
  lemma HeadIsLargest(s: seq<nat>, x: nat)
    requires |s| > 0 && NonIncreasingNats(s)
    requires x in multiset(s)
    ensures x <= s[0]
  {
    var i :| 0 <= i < |s| && s[i] == x;
  }

  predicate NonIncreasingNats(s: seq<nat>)
  {
    forall i, j :: 0 <= i < j < |s| ==> s[i] >= s[j]
  }

  lemma TailNonIncreasing(s: seq<nat>)
    requires |s| > 0 && NonIncreasingNats(s)
    ensures NonIncreasingNats(s[1..])
  {
    forall i, j | 0 <= i < j < |s[1..]|
      ensures s[1..][i] >= s[1..][j]
    {
      assert s[1..][i] == s[i + 1] && s[1..][j] == s[j + 1];
    }
  }

  lemma TailMultiset(s: seq<nat>)
    requires |s| > 0
    ensures multiset(s[1..]) == multiset(s) - multiset{s[0]}
  {
    assert s == [s[0]] + s[1..];
  }

  lemma {:induction false} NonIncreasingNatsEqual(a: seq<nat>, b: seq<nat>)
    requires multiset(a) == multiset(b)
    requires NonIncreasingNats(a) && NonIncreasingNats(b)
    ensures a == b
    decreases |a|
  {
    assert |a| == |b| by {
      assert |a| == |multiset(a)| && |b| == |multiset(b)|;
    }
    if a != [] {
      assert a[0] == b[0] by {
        assert a[0] in multiset(a) && b[0] in multiset(b);
        HeadIsLargest(b, a[0]);
        HeadIsLargest(a, b[0]);
      }
      assert multiset(a[1..]) == multiset(b[1..]) by {
        TailMultiset(a);
        TailMultiset(b);
      }
      TailNonIncreasing(a);
      TailNonIncreasing(b);
      NonIncreasingNatsEqual(a[1..], b[1..]);
      assert a == [a[0]] + a[1..] && b == [b[0]] + b[1..];
    }
  }

  /** Any two largest-first orderings of the same rows draw the same bar
      lengths in the same order: only rows of equal size can trade places,
      so the unstable sort leaves nothing visible to chance but labels. */
  lemma SortedBarsDetermined(a: seq<Record>, b: seq<Record>)
    requires multiset(a) == multiset(b)
    requires NonIncreasing(a) && NonIncreasing(b)
    ensures BarLengths(a) == BarLengths(b)
  {
    MapSomePermutation(a, b, SizeCell);
    MapSomeTotal(a, SizeCell);
    MapSomeTotal(b, SizeCell);
    assert NonIncreasingNats(BarLengths(a)) && NonIncreasingNats(BarLengths(b));
    NonIncreasingNatsEqual(BarLengths(a), BarLengths(b));
  }
}
