/** The filesystem as the scanner sees it: an immutable tree whose nodes carry
    the outcome of every query the scanner makes about them, and POSIX path
    joining. */
module FileTree {
  import opened Options

  /** One directory entry.

      For a `File` (any entry the directory walk does not list as a
      sub-directory): `size` is its byte count, `regular` is the answer of
      `os.path.isfile`, and `ok` says whether `os.path.getsize` returns
      instead of raising.

      For a `Dir`: `children` are its entries in listing order, and `ok`
      says whether it can be listed (`os.listdir` and the walk's own
      listing both succeed or both fail). The tree is a fixed oracle: every
      query about one path gets the same answer during a scan.

      `isfile` and `getsize` both stat the same path, so a `File` with
      `regular` set and `ok` clear arises only when the entry changes between
      the two calls. The model keeps that case: it over-approximates a
      fixed filesystem, and every lemma about all trees covers it too. */
  datatype Node =
    | File(name: string, size: nat, regular: bool, ok: bool)
    | Dir(name: string, children: seq<Node>, ok: bool)

  /** A name a directory listing can return: non-empty and free of '/'. */
  predicate ValidName(s: string)
  {
    |s| > 0 && '/' !in s
  }

  /** The names under one directory are valid and pairwise distinct. */
  predicate SiblingsWellFormed(cs: seq<Node>)
  {
    && (forall i :: 0 <= i < |cs| ==> ValidName(cs[i].name))
    && (forall i, j :: 0 <= i < j < |cs| ==> cs[i].name != cs[j].name)
  }

  /** Every directory in the tree has valid, pairwise distinct entry names. */
  predicate WellFormed(n: Node)
    decreases n
  {
    match n
    case File(_, _, _, _) => true
    case Dir(_, cs, _) => SiblingsWellFormed(cs) && forall i :: 0 <= i < |cs| ==> WellFormed(cs[i])
  }

  lemma SiblingsTail(cs: seq<Node>)
    requires |cs| > 0 && SiblingsWellFormed(cs)
    ensures SiblingsWellFormed(cs[1..])
    ensures forall k :: 0 <= k < |cs[1..]| ==> cs[1..][k].name != cs[0].name
  {
    forall k | 0 <= k < |cs[1..]|
      ensures cs[1..][k].name != cs[0].name
    {
      assert cs[1..][k] == cs[k + 1];
    }
  }

  /** `dir` with a separator appended unless it is empty or already ends in
      one: the text `Join` puts in front of a relative name. */
  function Sep(dir: string): (s: string)
    ensures |dir| <= |s| <= |dir| + 1 && s[..|dir|] == dir
    ensures s == [] || s[|s| - 1] == '/'
    ensures (dir == [] || dir[|dir| - 1] == '/') ==> s == dir
  {
    if dir == [] || dir[|dir| - 1] == '/' then dir else dir + "/"
  }

  /** `os.path.join(dir, name)` on POSIX: an absolute `name` replaces `dir`;
      otherwise a separator is inserted only when `dir` is non-empty and does
      not end in one. */
  function Join(dir: string, name: string): (p: string)
    ensures ValidName(name) ==> p == Sep(dir) + name
    ensures ValidName(name) ==> |p| > |dir| && p[..|dir|] == dir
  {
    if |name| > 0 && name[0] == '/' then name else Sep(dir) + name
  }

  /** The path of the entry reached from `root` through `names`. */
  function PathOf(root: string, names: seq<string>): string
    decreases |names|
  {
    if names == [] then root else PathOf(Join(root, names[0]), names[1..])
  }

  /** The first entry of `cs` called `name`, as a lookup by name finds it. */
  function ChildNamed(cs: seq<Node>, name: string): (r: Option<Node>)
    ensures r.Some? ==> r.value in cs && r.value.name == name
    ensures r.None? <==> forall i :: 0 <= i < |cs| ==> cs[i].name != name
  {
    if cs == [] then None
    else if cs[0].name == name then Some(cs[0])
    else ChildNamed(cs[1..], name)
  }

  /** With distinct sibling names, looking up an entry's own name finds it. */
  lemma {:induction false} ChildNamedFindsEntry(cs: seq<Node>, i: nat)
    requires i < |cs| && SiblingsWellFormed(cs)
    ensures ChildNamed(cs, cs[i].name) == Some(cs[i])
    decreases i
  {
    if i > 0 {
      SiblingsTail(cs);
      assert cs[0].name != cs[i].name;
      assert cs[1..][i - 1] == cs[i];
      ChildNamedFindsEntry(cs[1..], i - 1);
    }
  }

  /** The entry reached from `n` through `names`, descending only through
      directories that can be listed, as the walk does. An empty `names`
      reaches `n` itself. */
  function Find(n: Node, names: seq<string>): Option<Node>
    decreases n
  {
    if names == [] then Some(n)
    else match n
      case File(_, _, _, _) => None
      case Dir(_, cs, ok) =>
        if !ok then None
        else match ChildNamed(cs, names[0])
          case None => None
          case Some(c) => Find(c, names[1..])
  }
}
