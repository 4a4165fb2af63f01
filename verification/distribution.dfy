/** The counting behind the file-type pie chart: keep the `File` rows, extract
    each path's extension, drop rows without one, and count each distinct
    extension. */
module Distribution {
  import opened Options
  import opened Sequences
  import opened Extension
  import opened Scan

  /** One cell of the extracted column: the extension of a `File` row, or
      nothing for a row that is filtered out or does not match. */
  function ExtensionCell(r: Record): Option<string>
  {
    if r.kind == FileKind then ExtensionOf(r.path) else None
  }

  /** The extracted column with its missing cells dropped, in row order. */
  function FileExtensions(rs: seq<Record>): seq<string>
  {
    MapSome(rs, ExtensionCell)
  }

  /** `value_counts`: how often each distinct value occurs in `xs`. Every
      value that occurs gets an entry, and no other. */
  function ValueCounts(xs: seq<string>): (m: map<string, nat>)
    ensures forall e :: e in m <==> e in xs
    ensures forall e :: e in m ==> m[e] == multiset(xs)[e] && m[e] > 0
  {
    if xs == [] then map[]
    else
      var init := xs[..|xs| - 1];
      var x := xs[|xs| - 1];
      assert xs == init + [x];
      var m := ValueCounts(init);
      m[x := (if x in m then m[x] else 0) + 1]
  }

  /** The per-extension counts the pie chart draws. */
  function TypeCounts(rs: seq<Record>): map<string, nat>
  {
    ValueCounts(FileExtensions(rs))
  }

  // ---------------------------------------------------------------------
  // Reference counts

  /** The number of `File` rows of `rs` whose path has extension `e`. */
  function CountFilesWith(rs: seq<Record>, e: string): nat
  {
    if rs == [] then 0
    else (if rs[0].kind == FileKind && ExtensionOf(rs[0].path) == Some(e) then 1 else 0)
         + CountFilesWith(rs[1..], e)
  }

  /** The number of `File` rows of `rs` whose path has an extension. */
  function CountMatchedFiles(rs: seq<Record>): nat
  {
    if rs == [] then 0
    else (if rs[0].kind == FileKind && ExtensionOf(rs[0].path).Some? then 1 else 0)
         + CountMatchedFiles(rs[1..])
  }

  /** Some key of a non-empty map. */
  ghost function Pick(m: map<string, nat>): (k: string)
    requires |m| > 0
    ensures k in m
  {
    assert exists k :: k in m by {
      var k :| k in m.Keys;
    }
    var k :| k in m;
    k
  }

  /** The total of the values of `m`. */
  ghost function SumValues(m: map<string, nat>): nat
    decreases |m|
  {
    if |m| == 0 then 0 else m[Pick(m)] + SumValues(m - {Pick(m)})
  }

  lemma {:induction false} FileExtensionsCount(rs: seq<Record>, e: string)
    ensures multiset(FileExtensions(rs))[e] == CountFilesWith(rs, e)
    decreases |rs|
  {
    if rs != [] {
      FileExtensionsCount(rs[1..], e);
      assert FileExtensions(rs) == ToSeq(ExtensionCell(rs[0])) + FileExtensions(rs[1..]);
    }
  }

  lemma {:induction false} FileExtensionsLength(rs: seq<Record>)
    ensures |FileExtensions(rs)| == CountMatchedFiles(rs)
    decreases |rs|
  {
    if rs != [] {
      FileExtensionsLength(rs[1..]);
      assert FileExtensions(rs) == ToSeq(ExtensionCell(rs[0])) + FileExtensions(rs[1..]);
    }
  }

  /** Removing any one key takes exactly its value off the total, whichever
      key the definition happens to pick first. */
  lemma {:induction false} SumValuesRemove(m: map<string, nat>, k: string)
    requires k in m
    ensures SumValues(m) == m[k] + SumValues(m - {k})
    decreases |m|
  {
    var j := Pick(m);
    if j != k {
      SumValuesRemove(m - {j}, k);
      SumValuesRemove(m - {k}, j);
      assert m - {j} - {k} == m - {k} - {j};
    }
  }

  /** A map that records each element's multiplicity in `ms` sums to the
      size of `ms`. */
  lemma {:induction false} SumValuesOfCounts(m: map<string, nat>, ms: multiset<string>)
    requires forall e :: e in m ==> m[e] == ms[e]
    requires forall e :: e !in m ==> ms[e] == 0
    ensures SumValues(m) == |ms|
    decreases |m|
  {
    if |m| == 0 {
      assert ms == multiset{};
    } else {
      var k :| k in m;
      SumValuesRemove(m, k);
      var rest := ms[k := 0];
      assert ms == rest + multiset{}[k := ms[k]];
      SumValuesOfCounts(m - {k}, rest);
    }
  }

  // ---------------------------------------------------------------------
  // What the pie chart counts

  /** The chart has a slice for exactly the extensions some `File` row has,
      and each slice counts exactly the `File` rows with that extension;
      every count is positive. */
  lemma TypeCountsAreFileCounts(rs: seq<Record>)
    ensures forall e :: e in TypeCounts(rs) <==> CountFilesWith(rs, e) > 0
    ensures forall e :: e in TypeCounts(rs) ==> TypeCounts(rs)[e] == CountFilesWith(rs, e) > 0
  {
    forall e
      ensures e in TypeCounts(rs) <==> CountFilesWith(rs, e) > 0
      ensures e in TypeCounts(rs) ==> TypeCounts(rs)[e] == CountFilesWith(rs, e)
    {
      FileExtensionsCount(rs, e);
    }
  }

  /** The counts add up to the number of `File` rows whose path has an
      extension. */
  lemma TypeCountsTotal(rs: seq<Record>)
    ensures SumValues(TypeCounts(rs)) == CountMatchedFiles(rs)
  {
    var xs := FileExtensions(rs);
    forall e | e !in TypeCounts(rs)
      ensures multiset(xs)[e] == 0
    {
    }
    SumValuesOfCounts(TypeCounts(rs), multiset(xs));
    FileExtensionsLength(rs);
  }

  /** Counting sees only how often each value occurs. */
  lemma ValueCountsOfMultiset(xs: seq<string>, ys: seq<string>)
    requires multiset(xs) == multiset(ys)
    ensures ValueCounts(xs) == ValueCounts(ys)
  {
    var m, n := ValueCounts(xs), ValueCounts(ys);
    assert forall e :: e in xs <==> e in multiset(xs);
    assert forall e :: e in ys <==> e in multiset(ys);
    assert m.Keys == n.Keys;
  }

  /** The counts do not depend on the order of the rows. */
  lemma TypeCountsIgnoreOrder(a: seq<Record>, b: seq<Record>)
    requires multiset(a) == multiset(b)
    ensures TypeCounts(a) == TypeCounts(b)
  {
    MapSomePermutation(a, b, ExtensionCell);
    ValueCountsOfMultiset(FileExtensions(a), FileExtensions(b));
  }

  /** A `Directory` row, wherever it sits, changes no count. */
  lemma DirectoryRowsIgnored(a: seq<Record>, d: Record, b: seq<Record>)
    requires d.kind == DirectoryKind
    ensures TypeCounts(a + [d] + b) == TypeCounts(a + b)
  {
    var c := ExtensionCell;
    var p, q := MapSome(a, c), MapSome(b, c);
    assert MapSome([d], c) == [] by {
      assert [d][1..] == [];
      assert MapSome([d], c) == ToSeq(c(d)) + MapSome([], c);
    }
    assert MapSome(a + [d], c) == p by {
      MapSomeConcat(a, [d], c);
      assert p + [] == p;
    }
    assert FileExtensions(a + [d] + b) == p + q by {
      MapSomeConcat(a + [d], b, c);
    }
    assert FileExtensions(a + b) == p + q by {
      MapSomeConcat(a, b, c);
    }
  }

  /** The cells of five rows of which only the first three have one. */
  lemma ThreeOfFive<A, B>(r0: A, r1: A, r2: A, r3: A, r4: A, a: B, b: B, c: B, f: A -> Option<B>)
    requires f(r0) == Some(a) && f(r1) == Some(b) && f(r2) == Some(c)
    requires f(r3) == None && f(r4) == None
    ensures MapSome([r0, r1, r2, r3, r4], f) == [a, b, c]
  {
    var rest := [r3, r4];
    assert MapSome(rest, f) == [] by {
      MapSomeCons(r4, [], f);
      assert [r4] + [] == [r4];
      MapSomeCons(r3, [r4], f);
      assert [r3] + [r4] == rest;
    }
    MapSomeCons(r2, rest, f);
    MapSomeCons(r1, [r2] + rest, f);
    MapSomeCons(r0, [r1] + ([r2] + rest), f);
    assert [r0] + ([r1] + ([r2] + rest)) == [r0, r1, r2, r3, r4];
  }

  lemma ExampleValueCounts(t: string, m: string)
    requires t != m
    ensures ValueCounts([t, t, m]) == map[t := 2, m := 1]
  {
    var xs := [t, t, m];
    var vc := ValueCounts(xs);
    assert multiset(xs) == multiset{t, t, m};
    assert vc.Keys == {t, m};
  }

  /** Two files with extension `t` (such as `x.txt` and `y.txt`) and one
      with extension `m` (such as `z.md`) give the counts 2 and 1; a file
      whose path has no '.' (such as `README`) and a directory row
      contribute to neither. */
  lemma ExampleCounts(r0: Record, r1: Record, r2: Record, r3: Record, r4: Record, t: string, m: string)
    requires r0.kind == FileKind && ExtensionOf(r0.path) == Some(t)
    requires r1.kind == FileKind && ExtensionOf(r1.path) == Some(t)
    requires r2.kind == FileKind && ExtensionOf(r2.path) == Some(m)
    requires r3.kind == FileKind && '.' !in r3.path
    requires r4.kind == DirectoryKind
    requires t != m
    ensures TypeCounts([r0, r1, r2, r3, r4]) == map[t := 2, m := 1]
  {
    ThreeOfFive(r0, r1, r2, r3, r4, t, t, m, ExtensionCell);
    ExampleValueCounts(t, m);
  }
}
