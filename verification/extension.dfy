/** The extension the distribution chart extracts from a path with the
    regular expression `\.([^.]+)$`, as Python's `re.search` evaluates it:
    the leftmost match wins, `[^.]+` is greedy (and, being a negated class,
    also matches '/' and newlines), and `$` matches at the end of the text or
    just before a final newline. */
module Extension {
  import opened Options

  /** The position of the last '.' in `s`, if any. */
  function LastDot(s: string): (r: Option<nat>)
    ensures r.Some? ==> r.value < |s| && s[r.value] == '.' && '.' !in s[r.value + 1..]
    ensures r.None? <==> '.' !in s
  {
    if s == [] then None
    else if s[|s| - 1] == '.' then Some(|s| - 1)
    else
      var r := LastDot(s[..|s| - 1]);
      assert s == s[..|s| - 1] + [s[|s| - 1]];
      r
  }

  /** The extension of `path`: the text after its last '.', when that text
      is non-empty. A path without a '.' or ending in '.' has none. */
  function ExtensionOf(path: string): (r: Option<string>)
    ensures r.Some? <==> |path| > 0 && '.' in path && path[|path| - 1] != '.'
    ensures r.Some? ==> |r.value| > 0 && '.' !in r.value
    ensures r.Some? ==> |r.value| < |path| && path[|path| - |r.value| - 1] == '.' && path[|path| - |r.value|..] == r.value
  {
    match LastDot(path)
    case None => None
    case Some(k) =>
      if k + 1 < |path| then
        Some(path[k + 1..])
      else None
  }

  /** A '.' with no '.' after it is the last one. */
  lemma {:induction false} LastDotUnique(s: string, k: nat)
    requires k < |s| && s[k] == '.' && '.' !in s[k + 1..]
    ensures LastDot(s) == Some(k)
    decreases |s|
  {
    if k + 1 < |s| {
      assert s[|s| - 1] in s[k + 1..];
      var t := s[..|s| - 1];
      assert s[k + 1..] == t[k + 1..] + [s[|s| - 1]];
      LastDotUnique(t, k);
    }
  }

  /** The converse of `ExtensionOf`'s contract: any non-empty, dot-free text
      that follows a '.' at the very end of the path is its extension. */
  lemma ExtensionOfSplit(prefix: string, ext: string)
    requires |ext| > 0 && '.' !in ext
    ensures ExtensionOf(prefix + "." + ext) == Some(ext)
  {
    var path := prefix + "." + ext;
    assert path[|prefix|] == '.';
    assert path[|prefix| + 1..] == ext;
    LastDotUnique(path, |prefix|);
  }

  /** When the last path component contains a '.', nothing before it
      matters. */
  lemma ExtensionOfLastComponent(dir: string, name: string)
    requires '.' in name
    ensures ExtensionOf(dir + name) == ExtensionOf(name)
  {
    var k := LastDot(name).value;
    var path := dir + name;
    assert path[|dir| + k] == '.';
    assert path[|dir| + k + 1..] == name[k + 1..];
    LastDotUnique(path, |dir| + k);
  }

  /** A path whose file name has no '.' takes its "extension" from the last
      '.' of an enclosing directory name, separator and file name included. */
  lemma ExtensionThroughDirectory(dir: string, name: string)
    requires '.' in dir && '.' !in name
    ensures ExtensionOf(dir + "/" + name) == Some(dir[LastDot(dir).value + 1..] + "/" + name)
  {
    var k := LastDot(dir).value;
    var ext := dir[k + 1..] + "/" + name;
    assert dir == dir[..k] + "." + dir[k + 1..];
    assert dir + "/" + name == dir[..k] + "." + ext;
    ExtensionOfSplit(dir[..k], ext);
  }

  /** `d.x/README` yields `x/README`. */
  lemma DottedDirectoryExample()
    ensures ExtensionOf("d.x/README") == Some("x/README")
  {
    assert "d.x/README" == "d" + "." + "x/README";
    ExtensionOfSplit("d", "x/README");
  }

  // ---------------------------------------------------------------------
  // The regular expression itself

  /** `$` matches at position `j` of `s`. */
  predicate DollarAt(s: string, j: nat)
  {
    j == |s| || (j + 1 == |s| && s[j] == '\n')
  }

  /** `\.([^.]+)$` matches `s[k..j]`; its group is `s[k + 1..j]`. */
  predicate MatchAt(s: string, k: nat, j: nat)
  {
    && k + 1 < j <= |s|
    && s[k] == '.'
    && (forall m :: k < m < j ==> s[m] != '.')
    && DollarAt(s, j)
  }

  /** Any match starts at the last '.' and may be extended to the end of the
      text. */
  lemma MatchIsLastDot(s: string, k: nat, j: nat)
    requires MatchAt(s, k, j)
    ensures LastDot(s) == Some(k)
    ensures MatchAt(s, k, |s|)
  {
    assert forall m :: k < m < |s| ==> s[m] != '.';
    assert forall m :: k < m < |s| ==> s[m] == s[k + 1..][m - k - 1];
    LastDotUnique(s, k);
  }

  /** The greedy match is the whole tail after the last '.'. */
  lemma GreedyMatchIsExtension(s: string, k: nat, j: nat)
    requires MatchAt(s, k, j)
    requires forall j': nat :: MatchAt(s, k, j') ==> j' <= j
    ensures j == |s| && ExtensionOf(s) == Some(s[k + 1..j])
  {
    MatchIsLastDot(s, k, j);
    assert s[k + 1..j] == s[k + 1..];
  }

  /** Without a match there is no extension. */
  lemma NoMatchNoExtension(s: string)
    requires forall k: nat, j: nat :: !MatchAt(s, k, j)
    ensures ExtensionOf(s) == None
  {
    if ExtensionOf(s).Some? {
      var l := LastDot(s).value;
      assert forall m :: l < m < |s| ==> s[m] == s[l + 1..][m - l - 1];
      assert MatchAt(s, l, |s|);
    }
  }

  /** `re.search(r"\.([^.]+)$", s)` and its group 1, evaluated by trying each
      start position from the left and, at a '.', letting `[^.]+` take as
      much as it can before backtracking until `$` matches. */
  method SearchExtension(s: string) returns (r: Option<string>)
    ensures r.Some? <==> exists k: nat, j: nat :: MatchAt(s, k, j)
    ensures r.Some? ==> exists k: nat, j: nat ::
      && MatchAt(s, k, j) && r.value == s[k + 1..j]
      && (forall k': nat, j': nat :: MatchAt(s, k', j') ==> k <= k' && (k' == k ==> j' <= j))
    ensures r == ExtensionOf(s)
  {
    var k: nat := 0;
    while k < |s|
      invariant k <= |s|
      invariant forall k': nat, j': nat :: MatchAt(s, k', j') ==> k <= k'
    {
      if s[k] == '.' {
        var j0 := Greedy(s, k);
        var j := Backtrack(s, k, j0);
        if j > k + 1 {
          GreedyMatchIsExtension(s, k, j);
          r := Some(s[k + 1..j]);
          return;
        }
      }
      k := k + 1;
    }
    NoMatchNoExtension(s);
    r := None;
  }

  /** How far `[^.]+` reaches from the '.' at `k`: the first '.' after it, or
      the end of the text. */
  method Greedy(s: string, k: nat) returns (j: nat)
    requires k < |s|
    ensures k + 1 <= j <= |s|
    ensures forall m :: k < m < j ==> s[m] != '.'
    ensures j == |s| || s[j] == '.'
  {
    j := k + 1;
    while j < |s| && s[j] != '.'
      invariant k + 1 <= j <= |s|
      invariant forall m :: k < m < j ==> s[m] != '.'
    {
      j := j + 1;
    }
  }

  /** Backtracking from the greedy end `j0` one character at a time until `$`
      matches or `[^.]+` would match nothing: the longest match at `k`, if
      the result is past `k + 1`. */
  method Backtrack(s: string, k: nat, j0: nat) returns (j: nat)
    requires k < |s| && s[k] == '.' && k + 1 <= j0 <= |s|
    requires forall m :: k < m < j0 ==> s[m] != '.'
    requires j0 == |s| || s[j0] == '.'
    ensures k + 1 <= j <= j0
    ensures j > k + 1 ==> MatchAt(s, k, j)
    ensures forall j': nat :: j < j' ==> !MatchAt(s, k, j')
  {
    j := j0;
    while j > k + 1 && !DollarAt(s, j)
      invariant k + 1 <= j <= j0
      invariant forall j': nat :: j < j' ==> !MatchAt(s, k, j')
    {
      j := j - 1;
    }
  }
}
