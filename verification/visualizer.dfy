/** `visualize_directory_usage`: validate the target, scan it, and draw the
    two charts in order, or stop with exit status 1. */
module Visualizer {
  import opened Options
  import opened FileTree
  import opened Scan
  import opened Distribution
  import opened BarChart
  import ScanLemmas

  /** The title the usage chart is drawn with. */
  const UsageTitle: string := "Disk Usage for All Files and Directories"

  /** What a chart shows: the bar chart's rows top to bottom, or the pie
      chart's per-extension counts. */
  datatype Chart =
    | Bars(title: string, rows: seq<Record>)
    | Pie(slices: map<string, nat>)

  /** How a run ends: its exit status, whether the tree was scanned, and the
      charts drawn, in drawing order. */
  datatype Outcome = Outcome(exitCode: nat, scanned: bool, charts: seq<Chart>)

  /** `Path(directory).is_dir()`: something exists there and it is a
      directory (whether or not it can be listed). */
  predicate IsDirectory(target: Option<Node>)
  {
    target.Some? && target.value.Dir?
  }

  /** One run on the path `directory`, where `target` is what the filesystem
      holds at that path. A non-directory stops with status 1 before any
      scan; an empty scan stops with status 1 before any chart; otherwise
      the bar chart of all records, largest first, is drawn before the pie
      chart of the same records' extensions, and the run ends with status
      0. */
  function Visualize(directory: string, target: Option<Node>): (o: Outcome)
    ensures !IsDirectory(target) ==> o == Outcome(1, false, [])
    ensures IsDirectory(target) ==> o.scanned
    ensures o.exitCode == 0 || o.exitCode == 1
    ensures o.exitCode == 1 <==> !IsDirectory(target) || Collect(directory, target.value) == []
    ensures o.exitCode == 1 ==> o.charts == []
    ensures o.exitCode == 0 ==>
      && |o.charts| == 2 && o.charts[0].Bars? && o.charts[1].Pie?
      && o.charts[0].title == UsageTitle
      && multiset(o.charts[0].rows) == multiset(Collect(directory, target.value))
      && NonIncreasing(o.charts[0].rows)
      && o.charts[1].slices == TypeCounts(o.charts[0].rows)
  {
    if !IsDirectory(target) then Outcome(1, false, [])
    else
      var records := Collect(directory, target.value);
      if records == [] then Outcome(1, true, [])
      else
        var rows := SortBySizeDescending(records);
        TypeCountsIgnoreOrder(records, rows);
        Outcome(0, true, [Bars(UsageTitle, rows), Pie(TypeCounts(records))])
  }

  /** The charts are drawn exactly when the walk lists at least one entry
      whose own `try` block succeeds. */
  lemma ChartsIffSomeEntryReported(directory: string, n: Node)
    requires WellFormed(n)
    ensures Visualize(directory, Some(n)).exitCode == 0 <==>
      exists names :: |names| > 0 && Find(n, names).Some?
        && RecordOf(PathOf(directory, names), Find(n, names).value).Some?
  {
    if n.Dir? {
      var rs := Collect(directory, n);
      if rs != [] {
        assert rs[0] in rs;
        var names := ScanLemmas.CollectSound(directory, n, rs[0]);
      }
      forall names | |names| > 0 && Find(n, names).Some?
          && RecordOf(PathOf(directory, names), Find(n, names).value).Some?
        ensures rs != []
      {
        ScanLemmas.CollectComplete(directory, n, names);
      }
    } else {
      forall names | |names| > 0
        ensures Find(n, names).None?
      {
      }
    }
  }

  /** `is_dir` accepts a directory whatever its contents and whether or not
      it can be listed, and rejects a missing path and anything that is not a
      directory. A directory that cannot be listed is scanned, the walk
      yields nothing, and the run stops with status 1 and no chart. */
  lemma DirectoryCheck(directory: string, name: string, cs: seq<Node>)
    ensures IsDirectory(Some(Dir(name, cs, false))) && IsDirectory(Some(Dir(name, cs, true)))
    ensures forall size, regular, ok :: !IsDirectory(Some(File(name, size, regular, ok)))
    ensures !IsDirectory(None)
    ensures Visualize(directory, Some(Dir(name, cs, false))) == Outcome(1, true, [])
  {
  }

  /** An existing but empty directory stops with status 1 and no chart. */
  lemma EmptyDirectoryExample()
    ensures Visualize("/tmp/empty_dir", Some(Dir("empty_dir", [], true))) == Outcome(1, true, [])
  {
  }

  /** A regular file given as the target stops before the scan. */
  lemma RegularFileExample()
    ensures Visualize("notes.txt", Some(File("notes.txt", 10, true, true))) == Outcome(1, false, [])
  {
  }
}
