/** `collect_data`: the walk over the tree and the records it emits. Sizes are
    whole bytes; the source divides each by 1024 * 1024 to report megabytes. */
module Scan {
  import opened Options
  import opened FileTree

  datatype Kind = FileKind | DirectoryKind

  /** One row of the usage table: path, size in bytes, kind. */
  datatype Record = Record(path: string, size: nat, kind: Kind)

  /** What `isfile` and `getsize` contribute to a parent's sum, ignoring
      failures: the size of a regular file, nothing for anything else. */
  function Contribution(c: Node): nat
  {
    if c.File? && c.regular then c.size else 0
  }

  /** Declarative total of the immediate regular files among `cs`. */
  function FileBytes(cs: seq<Node>): nat
  {
    if cs == [] then 0 else Contribution(cs[0]) + FileBytes(cs[1..])
  }

  /** A `getsize` inside the sum raises: a regular file whose size cannot be
      read. */
  predicate SizeFails(c: Node)
  {
    c.File? && c.regular && !c.ok
  }

  /** The generator sum over the listing: entries `isfile` rejects are
      skipped, and the first `getsize` that raises aborts the whole sum. */
  function SumFiles(cs: seq<Node>): (r: Option<nat>)
    ensures r.None? <==> exists i :: 0 <= i < |cs| && SizeFails(cs[i])
    ensures r.Some? ==> r.value == FileBytes(cs)
  {
    if cs == [] then Some(0)
    else if SizeFails(cs[0]) then None
    else match SumFiles(cs[1..])
      case None =>
        var i :| 0 <= i < |cs[1..]| && SizeFails(cs[1..][i]);
        assert SizeFails(cs[i + 1]);
        None
      case Some(s) =>
        assert forall i :: 1 <= i < |cs| ==> cs[i] == cs[1..][i - 1];
        Some(Contribution(cs[0]) + s)
  }

  /** The size the `try` block at a sub-directory computes, or `None` when it
      raises: the listing fails, or some regular child's size cannot be read.
      Otherwise it is the total of the immediate regular files only. */
  function DirSize(d: Node): (r: Option<nat>)
    requires d.Dir?
    ensures r.Some? <==> d.ok && forall i :: 0 <= i < |d.children| ==> !SizeFails(d.children[i])
    ensures r.Some? ==> r.value == FileBytes(d.children)
  {
    if d.ok then SumFiles(d.children) else None
  }

  /** The record the scan emits for an entry listed at `path`, if its `try`
      block does not raise. */
  function RecordOf(path: string, c: Node): (r: Option<Record>)
    ensures r.Some? <==> ((c.File? && c.ok)
                          || (c.Dir? && c.ok && forall i :: 0 <= i < |c.children| ==> !SizeFails(c.children[i])))
    ensures r.Some? ==> && r.value.path == path
                        && r.value.kind == (if c.File? then FileKind else DirectoryKind)
                        && r.value.size == (if c.File? then c.size else FileBytes(c.children))
  {
    match c
    case File(_, size, _, ok) => if ok then Some(Record(path, size, FileKind)) else None
    case Dir(_, _, _) =>
      match DirSize(c)
      case None => None
      case Some(s) => Some(Record(path, s, DirectoryKind))
  }

  /** The records for the entries of `cs` the walk lists under `dirs`
      (`wantDirs`) or under `files` (not `wantDirs`), in listing order. */
  function Emit(path: string, cs: seq<Node>, wantDirs: bool): seq<Record>
  {
    if cs == [] then []
    else (if cs[0].Dir? == wantDirs then ToSeq(RecordOf(Join(path, cs[0].name), cs[0])) else [])
         + Emit(path, cs[1..], wantDirs)
  }

  /** What one step of the walk emits for the directory at `path`: first the
      sub-directory records, then the file records. */
  function Listing(path: string, cs: seq<Node>): seq<Record>
  {
    Emit(path, cs, true) + Emit(path, cs, false)
  }

  /** `collect_data(path)` on the tree `n` found at `path`: a top-down walk
      that emits the records of each listed directory and then descends into
      its sub-directories in order. A directory that cannot be listed is
      neither reported nor entered. */
  function Collect(path: string, n: Node): seq<Record>
    decreases n
  {
    match n
    case File(_, _, _, _) => []
    case Dir(_, cs, ok) => if ok then Listing(path, cs) + Descend(path, cs) else []
  }

  /** The walks of the entries `cs` of the directory at `path`, in order. */
  function Descend(path: string, cs: seq<Node>): seq<Record>
    decreases cs
  {
    if cs == [] then [] else Collect(Join(path, cs[0].name), cs[0]) + Descend(path, cs[1..])
  }
}
