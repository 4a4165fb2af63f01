/** What `collect_data` promises about the records it emits: which entries
    get one, what each one holds, and that no path is reported twice. */
module ScanLemmas {
  import opened Options
  import opened FileTree
  import opened Scan

  /** `p` starts with `pre`. */
  predicate HasPrefix(p: string, pre: string)
  {
    |pre| <= |p| && p[..|pre|] == pre
  }

  /** `p` names something strictly inside the directory whose joined prefix
      is `pre`. */
  predicate StrictlyUnder(p: string, pre: string)
  {
    HasPrefix(p, pre) && |p| > |pre|
  }

  /** No two records of `rs` report the same path. */
  predicate UniquePaths(rs: seq<Record>)
  {
    forall i, j :: 0 <= i < j < |rs| ==> rs[i].path != rs[j].path
  }

  // ---------------------------------------------------------------------
  // Locating records in the emitted sequences

  lemma {:induction false} EmitSource(path: string, cs: seq<Node>, wantDirs: bool, r: Record) returns (i: nat)
    requires r in Emit(path, cs, wantDirs)
    ensures i < |cs| && cs[i].Dir? == wantDirs
    ensures RecordOf(Join(path, cs[i].name), cs[i]) == Some(r)
    decreases cs
  {
    var head := if cs[0].Dir? == wantDirs then ToSeq(RecordOf(Join(path, cs[0].name), cs[0])) else [];
    assert Emit(path, cs, wantDirs) == head + Emit(path, cs[1..], wantDirs);
    if r in head {
      i := 0;
    } else {
      var k := EmitSource(path, cs[1..], wantDirs, r);
      assert cs[1..][k] == cs[k + 1];
      i := k + 1;
    }
  }

  lemma {:induction false} EmitContains(path: string, cs: seq<Node>, wantDirs: bool, i: nat)
    requires i < |cs| && cs[i].Dir? == wantDirs
    requires RecordOf(Join(path, cs[i].name), cs[i]).Some?
    ensures RecordOf(Join(path, cs[i].name), cs[i]).value in Emit(path, cs, wantDirs)
    decreases i
  {
    var head := if cs[0].Dir? == wantDirs then ToSeq(RecordOf(Join(path, cs[0].name), cs[0])) else [];
    assert Emit(path, cs, wantDirs) == head + Emit(path, cs[1..], wantDirs);
    if i > 0 {
      assert cs[1..][i - 1] == cs[i];
      EmitContains(path, cs[1..], wantDirs, i - 1);
    }
  }

  lemma {:induction false} DescendSource(path: string, cs: seq<Node>, r: Record) returns (i: nat)
    requires r in Descend(path, cs)
    ensures i < |cs| && r in Collect(Join(path, cs[i].name), cs[i])
    decreases cs
  {
    if r in Collect(Join(path, cs[0].name), cs[0]) {
      i := 0;
    } else {
      var k := DescendSource(path, cs[1..], r);
      assert cs[1..][k] == cs[k + 1];
      i := k + 1;
    }
  }

  lemma {:induction false} DescendContains(path: string, cs: seq<Node>, i: nat, r: Record)
    requires i < |cs| && r in Collect(Join(path, cs[i].name), cs[i])
    ensures r in Descend(path, cs)
    decreases i
  {
    if i > 0 {
      assert cs[1..][i - 1] == cs[i];
      DescendContains(path, cs[1..], i - 1, r);
    }
  }

  // ---------------------------------------------------------------------
  // Which entries get a record

  /** Every entry the walk lists gets its record, provided that entry's own
      `try` block succeeds: a file whose size can be read, a directory that
      can be listed and whose regular files' sizes can all be read. */
  lemma {:induction false} CollectComplete(root: string, n: Node, names: seq<string>)
    requires |names| > 0 && Find(n, names).Some?
    requires RecordOf(PathOf(root, names), Find(n, names).value).Some?
    ensures RecordOf(PathOf(root, names), Find(n, names).value).value in Collect(root, n)
    decreases n
  {
    var cs := n.children;
    var c := ChildNamed(cs, names[0]).value;
    var i :| 0 <= i < |cs| && cs[i] == c;
    var r := RecordOf(PathOf(root, names), Find(n, names).value).value;
    if |names| == 1 {
      assert names[1..] == [];
      EmitContains(root, cs, c.Dir?, i);
    } else {
      CollectComplete(Join(root, names[0]), c, names[1..]);
      DescendContains(root, cs, i, r);
    }
  }

  /** Every record belongs to an entry listed by the walk, strictly below
      the root, and holds exactly what that entry's `try` block computed. */
  lemma {:induction false} CollectSound(root: string, n: Node, r: Record) returns (names: seq<string>)
    requires WellFormed(n) && r in Collect(root, n)
    ensures |names| > 0 && Find(n, names).Some?
    ensures RecordOf(PathOf(root, names), Find(n, names).value) == Some(r)
    decreases n
  {
    var cs := n.children;
    if r in Listing(root, cs) {
      var i: nat;
      if r in Emit(root, cs, true) {
        i := EmitSource(root, cs, true, r);
      } else {
        i := EmitSource(root, cs, false, r);
      }
      ChildNamedFindsEntry(cs, i);
      names := [cs[i].name];
      assert names[1..] == [];
    } else {
      var i := DescendSource(root, cs, r);
      var rest := CollectSound(Join(root, cs[i].name), cs[i], r);
      ChildNamedFindsEntry(cs, i);
      names := [cs[i].name] + rest;
      assert names[1..] == rest;
    }
  }

  // ---------------------------------------------------------------------
  // Where records lie and why no path repeats

  lemma ChildSep(path: string, name: string)
    requires ValidName(name)
    ensures Sep(Join(path, name)) == Sep(path) + name + "/"
  {
    var p := Join(path, name);
    assert p[|p| - 1] == name[|name| - 1];
    assert name[|name| - 1] in name;
  }

  lemma PrefixTrans(p: string, mid: string, pre: string)
    requires HasPrefix(p, mid) && HasPrefix(mid, pre)
    ensures HasPrefix(p, pre)
  {
    assert p[..|pre|] == p[..|mid|][..|pre|];
  }

  /** A record of the listing step is the joined path of one entry. */
  lemma ListingPath(path: string, cs: seq<Node>, r: Record) returns (i: nat)
    requires SiblingsWellFormed(cs) && r in Listing(path, cs)
    ensures i < |cs| && r.path == Sep(path) + cs[i].name
  {
    if r in Emit(path, cs, true) {
      i := EmitSource(path, cs, true, r);
    } else {
      i := EmitSource(path, cs, false, r);
    }
  }

  /** Every record's path lies strictly inside the walked root. */
  lemma {:induction false} CollectUnder(root: string, n: Node)
    requires WellFormed(n)
    ensures forall r :: r in Collect(root, n) ==> StrictlyUnder(r.path, Sep(root))
    decreases n, 1
  {
    forall r | r in Collect(root, n)
      ensures StrictlyUnder(r.path, Sep(root))
    {
      RecordUnder(root, n, r);
    }
  }

  lemma {:induction false} RecordUnder(root: string, n: Node, r: Record)
    requires WellFormed(n) && r in Collect(root, n)
    ensures StrictlyUnder(r.path, Sep(root))
    decreases n, 0
  {
    var cs := n.children;
    if r in Listing(root, cs) {
      var i := ListingPath(root, cs, r);
      assert r.path[..|Sep(root)|] == Sep(root);
    } else {
      var i := DescendSource(root, cs, r);
      CollectUnder(Join(root, cs[i].name), cs[i]);
      SubUnder(root, cs[i].name, r.path);
    }
  }

  /** A path strictly inside a sub-directory is strictly inside its parent. */
  lemma SubUnder(root: string, name: string, p: string)
    requires ValidName(name) && StrictlyUnder(p, Sep(Join(root, name)))
    ensures StrictlyUnder(p, Sep(root))
  {
    var sub := Join(root, name);
    ChildSep(root, name);
    assert HasPrefix(Sep(sub), Sep(root)) by {
      assert Sep(sub)[..|Sep(root)|] == Sep(root);
    }
    PrefixTrans(p, Sep(sub), Sep(root));
  }

  /** The walk root itself never gets a record. */
  lemma RootNeverRecorded(root: string, n: Node)
    requires WellFormed(n)
    ensures forall r :: r in Collect(root, n) ==> r.path != root
  {
    CollectUnder(root, n);
  }

  lemma UniqueConcat(a: seq<Record>, b: seq<Record>)
    requires UniquePaths(a) && UniquePaths(b)
    requires forall x, y :: x in a && y in b ==> x.path != y.path
    ensures UniquePaths(a + b)
  {
    forall i, j | 0 <= i < j < |a + b|
      ensures (a + b)[i].path != (a + b)[j].path
    {
      if j < |a| {
        assert (a + b)[i] == a[i] && (a + b)[j] == a[j];
      } else if i >= |a| {
        assert (a + b)[i] == b[i - |a|] && (a + b)[j] == b[j - |a|];
      } else {
        assert (a + b)[i] in a && (a + b)[j] in b;
      }
    }
  }

  lemma NamesApart(s: string, a: string, b: string)
    requires a != b
    ensures s + a != s + b
  {
    assert (s + a)[|s|..] == a && (s + b)[|s|..] == b;
  }

  /** A listed name, having no '/', is never inside a sibling directory. */
  lemma NameNotUnder(s: string, a: string, b: string, q: string)
    requires ValidName(a) && ValidName(b) && HasPrefix(q, s + b + "/")
    ensures s + a != q
  {
    var k := |s| + |b|;
    assert q[k] == (s + b + "/")[k] == '/';
    if |a| > |b| {
      assert (s + a)[k] == a[|b|];
      assert a[|b|] in a;
    }
  }

  /** Paths inside two differently named sibling directories differ. */
  lemma SiblingsApart(s: string, a: string, b: string, p: string, q: string)
    requires ValidName(a) && ValidName(b) && a != b
    requires HasPrefix(p, s + a + "/") && HasPrefix(q, s + b + "/")
    ensures p != q
  {
    if |a| < |b| {
      assert p[|s| + |a|] == (s + a + "/")[|s| + |a|] == '/';
      assert q[|s| + |a|] == (s + b + "/")[|s| + |a|] == b[|a|];
      assert b[|a|] in b;
    } else if |b| < |a| {
      assert q[|s| + |b|] == (s + b + "/")[|s| + |b|] == '/';
      assert p[|s| + |b|] == (s + a + "/")[|s| + |b|] == a[|b|];
      assert a[|b|] in a;
    } else {
      assert exists k :: 0 <= k < |a| && a[k] != b[k];
      var k :| 0 <= k < |a| && a[k] != b[k];
      assert p[|s| + k] == (s + a + "/")[|s| + k] == a[k];
      assert q[|s| + k] == (s + b + "/")[|s| + k] == b[k];
    }
  }

  lemma EmitPath(path: string, cs: seq<Node>, wantDirs: bool, r: Record) returns (i: nat)
    requires SiblingsWellFormed(cs) && r in Emit(path, cs, wantDirs)
    ensures i < |cs| && cs[i].Dir? == wantDirs && r.path == Sep(path) + cs[i].name
  {
    i := EmitSource(path, cs, wantDirs, r);
  }

  lemma {:induction false} EmitUnique(path: string, cs: seq<Node>, wantDirs: bool)
    requires SiblingsWellFormed(cs)
    ensures UniquePaths(Emit(path, cs, wantDirs))
    decreases cs
  {
    if cs != [] {
      SiblingsTail(cs);
      var head := if cs[0].Dir? == wantDirs then ToSeq(RecordOf(Join(path, cs[0].name), cs[0])) else [];
      var rest := Emit(path, cs[1..], wantDirs);
      EmitUnique(path, cs[1..], wantDirs);
      forall x, y | x in head && y in rest
        ensures x.path != y.path
      {
        var k := EmitPath(path, cs[1..], wantDirs, y);
        NamesApart(Sep(path), cs[0].name, cs[1..][k].name);
      }
      UniqueConcat(head, rest);
    }
  }

  lemma ListingUnique(path: string, cs: seq<Node>)
    requires SiblingsWellFormed(cs)
    ensures UniquePaths(Listing(path, cs))
  {
    EmitUnique(path, cs, true);
    EmitUnique(path, cs, false);
    forall x, y | x in Emit(path, cs, true) && y in Emit(path, cs, false)
      ensures x.path != y.path
    {
      var i := EmitPath(path, cs, true, x);
      var j := EmitPath(path, cs, false, y);
      NamesApart(Sep(path), cs[i].name, cs[j].name);
    }
    UniqueConcat(Emit(path, cs, true), Emit(path, cs, false));
  }

  /** A record of the walk below entry `cs[i]` lies inside that entry. */
  lemma DescendPath(path: string, cs: seq<Node>, r: Record) returns (i: nat)
    requires SiblingsWellFormed(cs) && forall k :: 0 <= k < |cs| ==> WellFormed(cs[k])
    requires r in Descend(path, cs)
    ensures i < |cs| && cs[i].Dir? && HasPrefix(r.path, Sep(path) + cs[i].name + "/")
  {
    i := DescendSource(path, cs, r);
    CollectUnder(Join(path, cs[i].name), cs[i]);
    ChildSep(path, cs[i].name);
  }

  /** No path is reported twice: each listed directory and file yields at
      most one record. */
  lemma {:induction false} CollectUnique(root: string, n: Node)
    requires WellFormed(n)
    ensures UniquePaths(Collect(root, n))
    decreases n, 1
  {
    if n.Dir? && n.ok {
      var cs := n.children;
      ListingUnique(root, cs);
      DescendUnique(root, cs);
      forall x, y | x in Listing(root, cs) && y in Descend(root, cs)
        ensures x.path != y.path
      {
        var i: nat;
        if x in Emit(root, cs, true) {
          i := EmitPath(root, cs, true, x);
        } else {
          i := EmitPath(root, cs, false, x);
        }
        var j := DescendPath(root, cs, y);
        NameNotUnder(Sep(root), cs[i].name, cs[j].name, y.path);
      }
      UniqueConcat(Listing(root, cs), Descend(root, cs));
    }
  }

  lemma {:induction false} DescendUnique(path: string, cs: seq<Node>)
    requires SiblingsWellFormed(cs) && forall k :: 0 <= k < |cs| ==> WellFormed(cs[k])
    ensures UniquePaths(Descend(path, cs))
    decreases cs, 0
  {
    if cs != [] {
      SiblingsTail(cs);
      assert forall k :: 0 <= k < |cs[1..]| ==> cs[1..][k] == cs[k + 1];
      var sub := Join(path, cs[0].name);
      var head := Collect(sub, cs[0]);
      var rest := Descend(path, cs[1..]);
      CollectUnique(sub, cs[0]);
      DescendUnique(path, cs[1..]);
      CollectUnder(sub, cs[0]);
      ChildSep(path, cs[0].name);
      forall x, y | x in head && y in rest
        ensures x.path != y.path
      {
        var k := DescendPath(path, cs[1..], y);
        SiblingsApart(Sep(path), cs[0].name, cs[1..][k].name, x.path, y.path);
      }
      UniqueConcat(head, rest);
    }
  }

  // ---------------------------------------------------------------------
  // Walk order and unlistable directories

  /** `r` is the record of one of the entries `cs` of the directory at
      `path`, one that the walk lists under `dirs` (`isDir`) or under `files`
      (not `isDir`). */
  predicate ListedEntry(r: Record, path: string, cs: seq<Node>, isDir: bool)
  {
    exists i :: 0 <= i < |cs| && cs[i].Dir? == isDir && RecordOf(Join(path, cs[i].name), cs[i]) == Some(r)
  }

  /** Every record of one half of a listing step belongs to an entry of that
      half. */
  lemma EmitListed(path: string, cs: seq<Node>, wantDirs: bool)
    ensures forall j :: 0 <= j < |Emit(path, cs, wantDirs)| ==> ListedEntry(Emit(path, cs, wantDirs)[j], path, cs, wantDirs)
  {
    forall j | 0 <= j < |Emit(path, cs, wantDirs)|
      ensures ListedEntry(Emit(path, cs, wantDirs)[j], path, cs, wantDirs)
    {
      var i := EmitSource(path, cs, wantDirs, Emit(path, cs, wantDirs)[j]);
    }
  }

  /** `p` lies inside the sub-directory `c` of the directory at `path`. */
  predicate InsideEntry(p: string, path: string, c: Node)
  {
    c.Dir? && HasPrefix(p, Sep(path) + c.name + "/")
  }

  /** `p` lies inside one of the sub-directories `cs` of the directory at
      `path`. */
  predicate InsideSomeEntry(p: string, path: string, cs: seq<Node>)
  {
    exists i :: 0 <= i < |cs| && InsideEntry(p, path, cs[i])
  }

  /** Every record of the walks below `cs` lies inside a sub-directory. */
  lemma DescendInside(path: string, cs: seq<Node>)
    requires SiblingsWellFormed(cs) && forall k :: 0 <= k < |cs| ==> WellFormed(cs[k])
    ensures forall j :: 0 <= j < |Descend(path, cs)| ==>
      InsideSomeEntry(Descend(path, cs)[j].path, path, cs)
  {
    forall j | 0 <= j < |Descend(path, cs)|
      ensures InsideSomeEntry(Descend(path, cs)[j].path, path, cs)
    {
      var r := Descend(path, cs)[j];
      var i := DescendPath(path, cs, r);
      assert InsideEntry(r.path, path, cs[i]);
    }
  }

  lemma ListedFirst(path: string, n: Node)
    requires n.Dir? && n.ok
    ensures forall j :: 0 <= j < |Emit(path, n.children, true)| ==> ListedEntry(Collect(path, n)[j], path, n.children, true)
    ensures forall j :: |Emit(path, n.children, true)| <= j < |Listing(path, n.children)| ==>
      ListedEntry(Collect(path, n)[j], path, n.children, false)
  {
    var cs := n.children;
    var dirs, files := Emit(path, cs, true), Emit(path, cs, false);
    var rs := Collect(path, n);
    assert rs == dirs + files + Descend(path, cs);
    EmitListed(path, cs, true);
    EmitListed(path, cs, false);
    forall j | 0 <= j < |dirs|
      ensures rs[j] == dirs[j]
    {
    }
    forall j | |dirs| <= j < |dirs| + |files|
      ensures rs[j] == files[j - |dirs|]
    {
    }
  }

  lemma DeeperAfter(path: string, n: Node)
    requires WellFormed(n) && n.Dir? && n.ok
    ensures forall j :: |Listing(path, n.children)| <= j < |Collect(path, n)| ==>
      InsideSomeEntry(Collect(path, n)[j].path, path, n.children)
  {
    var cs := n.children;
    var k, deeper := |Listing(path, cs)|, Descend(path, cs);
    var rs := Collect(path, n);
    DescendInside(path, cs);
    forall j | k <= j < |rs|
      ensures rs[j] == deeper[j - k]
    {
    }
  }

  /** One step of the walk on a listable directory reports its immediate
      sub-directories (the first `k0` records), then its immediate files (up
      to record `k`), and only after them anything deeper, each deeper record
      lying inside one of the sub-directories. */
  lemma WalkOrder(path: string, n: Node) returns (k0: nat, k: nat)
    requires WellFormed(n) && n.Dir? && n.ok
    ensures k0 <= k <= |Collect(path, n)|
    ensures forall j :: 0 <= j < k0 ==> ListedEntry(Collect(path, n)[j], path, n.children, true)
    ensures forall j :: k0 <= j < k ==> ListedEntry(Collect(path, n)[j], path, n.children, false)
    ensures forall j :: k <= j < |Collect(path, n)| ==>
      InsideSomeEntry(Collect(path, n)[j].path, path, n.children)
  {
    k0, k := |Emit(path, n.children, true)|, |Listing(path, n.children)|;
    ListedFirst(path, n);
    DeeperAfter(path, n);
  }

  /** The walk does not enter a directory it cannot list: no entry is
      reached below one, so (by `CollectSound`) no record comes from inside
      it. */
  lemma {:induction false} UnlistableNeverEntered(n: Node, names: seq<string>, more: seq<string>)
    requires Find(n, names).Some? && Find(n, names).value.Dir? && !Find(n, names).value.ok
    requires |more| > 0
    ensures Find(n, names + more).None?
    decreases names
  {
    if names == [] {
      assert names + more == more;
    } else {
      var c := ChildNamed(n.children, names[0]).value;
      assert (names + more)[0] == names[0];
      assert (names + more)[1..] == names[1..] + more;
      UnlistableNeverEntered(c, names[1..], more);
    }
  }

  // ---------------------------------------------------------------------
  // Directory sizes

  lemma {:induction false} FileBytesPointwise(cs: seq<Node>, ds: seq<Node>)
    requires |cs| == |ds|
    requires forall i :: 0 <= i < |cs| ==> Contribution(cs[i]) == Contribution(ds[i])
    ensures FileBytes(cs) == FileBytes(ds)
    decreases cs
  {
    if cs != [] {
      assert forall i :: 1 <= i < |cs| ==> cs[1..][i - 1] == cs[i] && ds[1..][i - 1] == ds[i];
      FileBytesPointwise(cs[1..], ds[1..]);
    }
  }

  /** A sub-directory contributes nothing to its parent's size: replacing it
      by any other directory, whatever that holds and whether or not it can
      be listed, leaves the parent's size, and whether it is computed at
      all, unchanged. Files below the immediate children never count. */
  lemma NestedContentsIgnored(d: Node, i: nat, sub: Node)
    requires d.Dir? && i < |d.children| && d.children[i].Dir? && sub.Dir?
    ensures DirSize(d.(children := d.children[i := sub])) == DirSize(d)
  {
    var cs := d.children;
    var ds := cs[i := sub];
    FileBytesPointwise(cs, ds);
    assert forall k :: 0 <= k < |cs| ==> (SizeFails(cs[k]) <==> SizeFails(ds[k]));
  }

  /** A directory holding a 2 MiB file, a 3 MiB file and a sub-directory with
      a further file is reported at 5 MiB. */
  lemma FiveMegabyteExample()
    ensures var mib := 1024 * 1024;
            DirSize(Dir("d", [File("a", 2 * mib, true, true),
                              File("b", 3 * mib, true, true),
                              Dir("s", [File("c", 7 * mib, true, true)], true)], true))
            == Some(5 * mib)
  {
  }
}
