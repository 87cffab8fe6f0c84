/**
 * `printFilesInDirectoryParallel`: the recursive walk that sizes a directory tree, merges the
 * results of its subdirectories and files, sorts them by size and renders the indented report,
 * together with the three process-wide counters it bumps.
 *
 * The functions `Walk` and `Counters` say what one call returns and how much it adds to each
 * counter; the method `PrintFilesInDirectoryParallel` follows `printFilesInDirectoryParallel` in
 * `Main.java` step by step (the loop over subdirectories with the admission gate, the join, the size
 * and file loops, the sort and the rendering loop) and is proved to agree with them.
 *
 * Thread-pool submission is modelled by its outcome: an admitted subdirectory is walked by the
 * same recursive call, and its result joins the merge list after all inline results, in
 * submission order. What the gate sees of the pool (`getActiveCount()`) is the oracle `active`,
 * queried with the subdirectory's position in the tree.
 */
module Walker {
  import opened Longs
  import opened SizeFormat
  import opened FsTree
  import opened SizeSort

  /** The per-run settings: `--only-dirs`, `-max-depth`, `-parallel` and the pool's core size. */
  datatype Config = Config(onlyDirs: bool, maxDepth: int, parallel: bool, corePoolSize: int)

  /**
   * `executorService.getActiveCount()` as observed when the gate examines the subdirectory at the
   * given path (the indices, within each `directories` list, of the subdirectories leading to it).
   */
  type ActiveCount = seq<nat> -> nat

  /** The admission gate: submit to the pool when parallel mode is on and a worker looks idle. */
  predicate Admit(cfg: Config, activeCount: nat) {
    cfg.parallel && activeCount < cfg.corePoolSize
  }

  /**
   * `printFileDetails`: one report line. The indentation `String.join("", nCopies(depth, "  "))` is
   * built one level at a time: each level of depth puts two spaces in front of the line.
   */
  function PrintFileDetails(depth: nat, fileName: string, fileSize: Long): string
  {
    if depth == 0 then fileName + " " + FormatBytes(fileSize) + "\n"
    else "  " + PrintFileDetails(depth - 1, fileName, fileSize)
  }

  /**
   * A line is `2 * depth` spaces followed by the name, a space, the formatted size and a newline,
   * and one more level of depth adds exactly two leading spaces.
   */
  lemma {:induction false} PrintFileDetailsIsIndented(depth: nat, fileName: string, fileSize: Long)
    ensures var line := PrintFileDetails(depth, fileName, fileSize);
      && |line| >= 2 * depth
      && (forall i :: 0 <= i < 2 * depth ==> line[i] == ' ')
      && line[2 * depth..] == fileName + " " + FormatBytes(fileSize) + "\n"
    ensures PrintFileDetails(depth + 1, fileName, fileSize) == "  " + PrintFileDetails(depth, fileName, fileSize)
  {
    if depth > 0 {
      PrintFileDetailsIsIndented(depth - 1, fileName, fileSize);
      var line := PrintFileDetails(depth, fileName, fileSize);
      var shorter := PrintFileDetails(depth - 1, fileName, fileSize);
      assert line == "  " + shorter;
      forall i | 0 <= i < 2 * depth
        ensures line[i] == ' '
      {
        if i >= 2 {
          assert line[i] == shorter[i - 2];
        }
      }
      assert line[2 * depth..] == shorter[2 * (depth - 1)..];
    }
  }

  /** A subdirectory's entry in its parent's list: its header line at the parent's depth, then its own report. */
  function WithHeader(depth: nat, name: string, nested: FileSizeDetails): FileSizeDetails
  {
    FileSizeDetails(PrintFileDetails(depth, name, nested.size) + nested.content, nested.size)
  }

  /** The entries of `s` whose gate decision is `admitted`, in order. */
  function Selected(s: seq<FileSizeDetails>, gate: seq<bool>, admitted: bool): seq<FileSizeDetails>
    requires |gate| == |s|
  {
    if s == [] then []
    else
      Selected(s[..|s| - 1], gate[..|s| - 1], admitted)
      + (if gate[|s| - 1] == admitted then [s[|s| - 1]] else [])
  }

  function SumSizes(s: seq<FileSizeDetails>): int
  {
    if s == [] then 0 else SumSizes(s[..|s| - 1]) + s[|s| - 1].size
  }

  /** What `printer` holds after appending every entry's text. */
  function Concat(s: seq<FileSizeDetails>): string
  {
    if s == [] then "" else Concat(s[..|s| - 1]) + s[|s| - 1].content
  }

  /** The list entries of readable files, in listing order. */
  function FileLines(depth: nat, fs: seq<Entry>): (r: seq<FileSizeDetails>)
    requires forall i :: 0 <= i < |fs| ==> fs[i].File?
    ensures |r| == |fs|
  {
    if fs == [] then []
    else
      var f := fs[|fs| - 1];
      FileLines(depth, fs[..|fs| - 1]) + [FileSizeDetails(PrintFileDetails(depth, f.name, f.size), f.size)]
  }

  /** The gate's decision for each of the first `n` subdirectories of a directory, in listing order. */
  function GateDecisions(n: nat, path: seq<nat>, cfg: Config, active: ActiveCount): (g: seq<bool>)
    ensures |g| == n
  {
    if n == 0 then [] else GateDecisions(n - 1, path, cfg, active) + [Admit(cfg, active(path + [n - 1]))]
  }

  // ---------------------------------------------------------------------------------------------
  // What one call returns

  /** The result of `printFilesInDirectoryParallel(e, depth, ...)`. */
  function Walk(e: Entry, depth: nat, path: seq<nat>, cfg: Config, active: ActiveCount): FileSizeDetails
    decreases e, 2
  {
    if !e.Dir? then
      FileSizeDetails(e.name + "*EMPTY", 0)
    else if HasUnreadable(Files(e.children)) then
      FileSizeDetails(e.name + "*ERROR", 0)
    else
      FileSizeDetails(
        if depth <= cfg.maxDepth then Concat(SortBySizeDesc(MergeList(e, depth, path, cfg, active))) else "",
        DirectorySize(e))
  }

  /** The entry of subdirectory `i`: its header line at the parent's depth, then its nested report. */
  function SubdirEntry(e: Entry, depth: nat, path: seq<nat>, cfg: Config, active: ActiveCount, i: nat): FileSizeDetails
    requires e.Dir? && i < |Directories(e.children)|
    decreases e, 0, 0
  {
    var dirs := Directories(e.children);
    var d := dirs[i];
    DirectoryIsChild(e.children, i);
    WithHeader(depth, d.name, Walk(d, depth + 1, path + [i], cfg, active))
  }

  /** The entries of the first `n` subdirectories, in listing order (before the gate splits them). */
  function SubdirResults(e: Entry, depth: nat, path: seq<nat>, cfg: Config, active: ActiveCount, n: nat): (rs: seq<FileSizeDetails>)
    requires e.Dir? && n <= |Directories(e.children)|
    ensures |rs| == n
    decreases e, 0, n
  {
    if n == 0 then []
    else SubdirResults(e, depth, path, cfg, active, n - 1) + [SubdirEntry(e, depth, path, cfg, active, n - 1)]
  }

  /** `fileDetails` just before the sort: inline results, then async results, then file lines. */
  function MergeList(e: Entry, depth: nat, path: seq<nat>, cfg: Config, active: ActiveCount): seq<FileSizeDetails>
    requires e.Dir? && !HasUnreadable(Files(e.children))
    decreases e, 1
  {
    var n := |Directories(e.children)|;
    var subs := SubdirResults(e, depth, path, cfg, active, n);
    var gate := GateDecisions(n, path, cfg, active);
    var fs := Files(e.children);
    assert forall i :: 0 <= i < |fs| ==> fs[i].File? by {
      FilesAreChildren(e.children);
      forall i | 0 <= i < |fs| ensures fs[i].File? { assert fs[i] in fs; }
    }
    Selected(subs, gate, false) + Selected(subs, gate, true) + (if cfg.onlyDirs then [] else FileLines(depth, fs))
  }

  /** `directorySize`: every subdirectory's size and every readable file's, added with wrap-around. */
  function DirectorySize(e: Entry): Long
    requires e.Dir?
    decreases e, 1
  {
    Wrap(SubdirSizes(e, |Directories(e.children)|) + FileBytes(Files(e.children)))
  }

  /** The size a walk of `e` reports: 0 for a sentinel, else its `directorySize`. */
  function TreeSize(e: Entry): Long
    decreases e, 2
  {
    if !e.Dir? || HasUnreadable(Files(e.children)) then 0 else DirectorySize(e)
  }

  /** The sizes of the first `n` subdirectories, added without wrap-around. */
  function SubdirSizes(e: Entry, n: nat): int
    requires e.Dir? && n <= |Directories(e.children)|
    decreases e, 0, n
  {
    if n == 0 then 0
    else
      var d := Directories(e.children)[n - 1];
      DirectoryIsChild(e.children, n - 1);
      SubdirSizes(e, n - 1) + TreeSize(d)
  }

  // ---------------------------------------------------------------------------------------------
  // What one call adds to the counters

  datatype Tally = Tally(filesFound: nat, parallelAllowed: nat, parallelSkipped: nat)
  {
    function Plus(o: Tally): Tally {
      Tally(filesFound + o.filesFound, parallelAllowed + o.parallelAllowed, parallelSkipped + o.parallelSkipped)
    }
  }

  /** One gate decision: `parallelAllowed` or `parallelSkipped` goes up by one. */
  function GateTick(admitted: bool): Tally {
    Tally(0, if admitted then 1 else 0, if admitted then 0 else 1)
  }

  /** How much `printFilesInDirectoryParallel(e, ...)` adds to each counter, its subtree included. */
  function Counters(e: Entry, path: seq<nat>, cfg: Config, active: ActiveCount): Tally
    decreases e, 1
  {
    if !e.Dir? then Tally(0, 0, 0)
    else
      var n := |Directories(e.children)|;
      LoopTally(e, path, cfg, active, n).Plus(Tally(n + ReadBeforeFailure(Files(e.children)), 0, 0))
  }

  /** The counters' growth over the first `n` turns of the subdirectory loop. */
  function LoopTally(e: Entry, path: seq<nat>, cfg: Config, active: ActiveCount, n: nat): Tally
    requires e.Dir? && n <= |Directories(e.children)|
    decreases e, 0, n, 2
  {
    if n == 0 then Tally(0, 0, 0)
    else LoopTally(e, path, cfg, active, n - 1).Plus(SubdirTally(e, path, cfg, active, n - 1))
  }

  /** What turn `i` of the loop adds: one gate decision and the nested walk's own counts. */
  function SubdirTally(e: Entry, path: seq<nat>, cfg: Config, active: ActiveCount, i: nat): Tally
    requires e.Dir? && i < |Directories(e.children)|
    decreases e, 0, i, 1
  {
    GateTick(Admit(cfg, active(path + [i]))).Plus(SubdirCounters(e, path, cfg, active, i))
  }

  /** The nested walk's own counts for subdirectory `i`. */
  function SubdirCounters(e: Entry, path: seq<nat>, cfg: Config, active: ActiveCount, i: nat): Tally
    requires e.Dir? && i < |Directories(e.children)|
    decreases e, 0, i, 0
  {
    var d := Directories(e.children)[i];
    DirectoryIsChild(e.children, i);
    Counters(d, path + [i], cfg, active)
  }

  /** The static `AtomicLong` counters `filesFound`, `parallelAllowed` and `parallelSkipped`. */
  class Stats {
    var filesFound: nat
    var parallelAllowed: nat
    var parallelSkipped: nat

    constructor ()
      ensures filesFound == 0 && parallelAllowed == 0 && parallelSkipped == 0
    {
      filesFound, parallelAllowed, parallelSkipped := 0, 0, 0;
    }

    function Snapshot(): Tally
      reads this
    {
      Tally(filesFound, parallelAllowed, parallelSkipped)
    }

    method IncrementFilesFound()
      modifies this
      ensures filesFound == old(filesFound) + 1
      ensures parallelAllowed == old(parallelAllowed) && parallelSkipped == old(parallelSkipped)
    {
      filesFound := filesFound + 1;
    }

    method IncrementParallelAllowed()
      modifies this
      ensures parallelAllowed == old(parallelAllowed) + 1
      ensures filesFound == old(filesFound) && parallelSkipped == old(parallelSkipped)
    {
      parallelAllowed := parallelAllowed + 1;
    }

    method IncrementParallelSkipped()
      modifies this
      ensures parallelSkipped == old(parallelSkipped) + 1
      ensures filesFound == old(filesFound) && parallelAllowed == old(parallelAllowed)
    {
      parallelSkipped := parallelSkipped + 1;
    }
  }

  // ---------------------------------------------------------------------------------------------
  // Facts the method's proof uses

  lemma {:induction false} SelectedLengths(s: seq<FileSizeDetails>, gate: seq<bool>)
    requires |gate| == |s|
    ensures |Selected(s, gate, false)| + |Selected(s, gate, true)| == |s|
    decreases |s|
  {
    if s != [] {
      SelectedLengths(s[..|s| - 1], gate[..|s| - 1]);
    }
  }

  lemma {:induction false} SelectedSums(s: seq<FileSizeDetails>, gate: seq<bool>)
    requires |gate| == |s|
    ensures SumSizes(Selected(s, gate, false)) + SumSizes(Selected(s, gate, true)) == SumSizes(s)
    decreases |s|
  {
    if s != [] {
      var n := |s| - 1;
      SelectedSums(s[..n], gate[..n]);
      var kept := Selected(s[..n], gate[..n], gate[n]);
      SumSizesAppend(kept, [s[n]]);
      assert [s[n]][..0] == [];
      assert Selected(s, gate, gate[n]) == kept + [s[n]];
      assert Selected(s, gate, !gate[n]) == Selected(s[..n], gate[..n], !gate[n]) + [];
      if gate[n] {
        assert Selected(s, gate, false) == Selected(s[..n], gate[..n], false);
        assert SumSizes(Selected(s, gate, true)) == SumSizes(Selected(s[..n], gate[..n], true)) + s[n].size;
      } else {
        assert Selected(s, gate, true) == Selected(s[..n], gate[..n], true);
        assert SumSizes(Selected(s, gate, false)) == SumSizes(Selected(s[..n], gate[..n], false)) + s[n].size;
      }
    }
  }

  /** Splitting by the gate loses and duplicates no entry. */
  lemma {:induction false} SelectedPermutation(s: seq<FileSizeDetails>, gate: seq<bool>)
    requires |gate| == |s|
    ensures multiset(Selected(s, gate, false)) + multiset(Selected(s, gate, true)) == multiset(s)
    decreases |s|
  {
    if s != [] {
      var n := |s| - 1;
      SelectedPermutation(s[..n], gate[..n]);
      var last := [s[n]];
      OneMoreSplit(s, s[n], Selected(s[..n], gate[..n], false), Selected(s[..n], gate[..n], true),
                   if gate[n] then [] else last, if gate[n] then last else []);
    }
  }

  /** Appending the last entry of `s` to either side of a split of the rest splits `s`. */
  lemma {:induction false} OneMoreSplit(s: seq<FileSizeDetails>, x: FileSizeDetails, no: seq<FileSizeDetails>, yes: seq<FileSizeDetails>,
                     addedNo: seq<FileSizeDetails>, addedYes: seq<FileSizeDetails>)
    requires s != [] && x == s[|s| - 1]
    requires multiset(no) + multiset(yes) == multiset(s[..|s| - 1])
    requires (addedNo == [x] && addedYes == []) || (addedNo == [] && addedYes == [x])
    ensures multiset(no + addedNo) + multiset(yes + addedYes) == multiset(s)
  {
    assert s == s[..|s| - 1] + [x];
    assert multiset(s) == multiset(s[..|s| - 1]) + multiset{x};
  }

  lemma {:induction false} SelectedAppend(s: seq<FileSizeDetails>, gate: seq<bool>, x: FileSizeDetails, b: bool)
    requires |gate| == |s|
    ensures Selected(s + [x], gate + [b], b) == Selected(s, gate, b) + [x]
    ensures Selected(s + [x], gate + [b], !b) == Selected(s, gate, !b)
  {
    assert (s + [x])[..|s|] == s && (gate + [b])[..|s|] == gate;
  }

  lemma {:induction false} SumSizesAppend(a: seq<FileSizeDetails>, b: seq<FileSizeDetails>)
    ensures SumSizes(a + b) == SumSizes(a) + SumSizes(b)
    decreases |b|
  {
    if b == [] {
      assert a + b == a;
    } else {
      var n := |b| - 1;
      SumSizesAppend(a, b[..n]);
      assert (a + b)[..|a + b| - 1] == a + b[..n];
      assert (a + b)[|a + b| - 1] == b[n];
    }
  }

  /** One turn of the loop over subdirectory results: the running total and the text grow by one entry. */
  lemma {:induction false} AddedInOrder(s: seq<FileSizeDetails>, j: nat, total: Long)
    requires j < |s| && total == Wrap(SumSizes(s[..j]))
    ensures AddLong(total, s[j].size) == Wrap(SumSizes(s[..j + 1]))
    ensures Concat(s[..j + 1]) == Concat(s[..j]) + s[j].content
  {
    WrapAddLeft(SumSizes(s[..j]), s[j].size);
    assert s[..j + 1][..j] == s[..j];
  }

  /** One turn of the loop over files: the running total and the file list grow by one file. */
  lemma {:induction false} FileAddedInOrder(x: int, depth: nat, fs: seq<Entry>, k: nat, total: Long)
    requires k < |fs| && (forall m :: 0 <= m <= k ==> fs[m].File?)
    requires total == Wrap(x + FileBytes(fs[..k]))
    ensures AddLong(total, fs[k].size) == Wrap(x + FileBytes(fs[..k + 1]))
    ensures FileLines(depth, fs[..k + 1])
      == FileLines(depth, fs[..k]) + [FileSizeDetails(PrintFileDetails(depth, fs[k].name, fs[k].size), fs[k].size)]
  {
    WrapAddLeft(x + FileBytes(fs[..k]), fs[k].size);
    assert fs[..k + 1][..k] == fs[..k];
  }

  // ---------------------------------------------------------------------------------------------
  // The walk itself

  /**
   * `printFilesInDirectoryParallel(directory, depth, onlyDirs, maxDepth, executorService, parallel)`.
   * It returns the walk's result and adds the walk's counts to `stats`.
   */
  method PrintFilesInDirectoryParallel(directory: Entry, depth: nat, path: seq<nat>, cfg: Config,
                                       active: ActiveCount, stats: Stats)
    returns (r: FileSizeDetails)
    modifies stats
    ensures r == Walk(directory, depth, path, cfg, active)
    ensures stats.Snapshot() == old(stats.Snapshot()).Plus(Counters(directory, path, cfg, active))
    decreases directory, 5
  {
    if !directory.Dir? {
      return FileSizeDetails(directory.name + "*EMPTY", 0);
    }
    var fileDetails, directorySize, readAll := CollectEntries(directory, depth, path, cfg, active, stats);
    if !readAll {
      return FileSizeDetails(directory.name + "*ERROR", 0);
    }
    fileDetails := SortBySizeDesc(fileDetails);
    var printer := Render(fileDetails, depth <= cfg.maxDepth);
    return FileSizeDetails(printer, directorySize);
  }

  /**
   * Everything the walk of a listable directory does before the sort: the subdirectory phase, then
   * the loop over files. `readAll` is false when a file's size could not be read.
   */
  method CollectEntries(directory: Entry, depth: nat, path: seq<nat>, cfg: Config,
                        active: ActiveCount, stats: Stats)
    returns (fileDetails: seq<FileSizeDetails>, directorySize: Long, readAll: bool)
    requires directory.Dir?
    modifies stats
    ensures readAll <==> !HasUnreadable(Files(directory.children))
    ensures readAll ==> fileDetails == MergeList(directory, depth, path, cfg, active)
    ensures readAll ==> directorySize == DirectorySize(directory)
    ensures stats.Snapshot() == old(stats.Snapshot()).Plus(Counters(directory, path, cfg, active))
    decreases directory, 4
  {
    var files := Files(directory.children);
    ghost var start := stats.Snapshot();
    var dirResults, dirSize := CollectSubdirectories(directory, depth, path, cfg, active, stats);
    ghost var mid := stats.Snapshot();
    FilesAreChildren(directory.children);
    ghost var subdirBytes := SubdirSizes(directory, |Directories(directory.children)|);
    fileDetails, directorySize, readAll := AddFiles(files, depth, cfg.onlyDirs, dirResults, dirSize, subdirBytes, stats);
    AfterFiles(directory, files, depth, path, cfg, active, start, mid, stats.Snapshot(),
               dirResults, subdirBytes, fileDetails, directorySize, readAll);
  }

  /** The two phases together give the walk's merge list, size and counts. */
  lemma {:induction false} AfterFiles(e: Entry, files: seq<Entry>, depth: nat, path: seq<nat>, cfg: Config, active: ActiveCount,
                   start: Tally, mid: Tally, final: Tally, dirResults: seq<FileSizeDetails>, subdirBytes: int,
                   fileDetails: seq<FileSizeDetails>, size: Long, readAll: bool)
    requires e.Dir? && files == Files(e.children)
    requires var n := |Directories(e.children)|;
      var subs := SubdirResults(e, depth, path, cfg, active, n);
      var gate := GateDecisions(n, path, cfg, active);
      && dirResults == Selected(subs, gate, false) + Selected(subs, gate, true)
      && subdirBytes == SubdirSizes(e, n)
    requires var n := |Directories(e.children)|;
      mid == start.Plus(LoopTally(e, path, cfg, active, n)).Plus(Tally(n, 0, 0))
    requires
      && (readAll <==> !HasUnreadable(files))
      && (readAll ==> forall i :: 0 <= i < |files| ==> files[i].File?)
      && (readAll ==> fileDetails == dirResults + (if cfg.onlyDirs then [] else FileLines(depth, files)))
      && (readAll ==> size == Wrap(subdirBytes + FileBytes(files)))
      && final.filesFound == mid.filesFound + ReadBeforeFailure(files)
      && final.parallelAllowed == mid.parallelAllowed && final.parallelSkipped == mid.parallelSkipped
    ensures readAll <==> !HasUnreadable(Files(e.children))
    ensures readAll ==> fileDetails == MergeList(e, depth, path, cfg, active)
    ensures readAll ==> size == DirectorySize(e)
    ensures final == start.Plus(Counters(e, path, cfg, active))
  {
    CountersAfterFiles(e, path, cfg, active, start, mid, final);
    if readAll {
      MergeListAfterFiles(e, depth, path, cfg, active, dirResults, fileDetails);
      SizeAfterFiles(e, files, subdirBytes, size);
    }
  }

  /**
   * The subdirectory phase: the gated loop, the join of the pool's results after the inline ones,
   * and the loop that adds every subdirectory's size (counting each in `filesFound`).
   */
  method CollectSubdirectories(directory: Entry, depth: nat, path: seq<nat>, cfg: Config,
                               active: ActiveCount, stats: Stats)
    returns (dirResults: seq<FileSizeDetails>, directorySize: Long)
    requires directory.Dir?
    modifies stats
    ensures var n := |Directories(directory.children)|;
      var subs := SubdirResults(directory, depth, path, cfg, active, n);
      var gate := GateDecisions(n, path, cfg, active);
      && dirResults == Selected(subs, gate, false) + Selected(subs, gate, true)
      && directorySize == Wrap(SubdirSizes(directory, n))
    ensures var n := |Directories(directory.children)|;
      stats.Snapshot() == old(stats.Snapshot()).Plus(LoopTally(directory, path, cfg, active, n)).Plus(Tally(n, 0, 0))
    decreases directory, 3
  {
    ghost var n := |Directories(directory.children)|;
    ghost var subs := SubdirResults(directory, depth, path, cfg, active, n);
    ghost var gate := GateDecisions(n, path, cfg, active);
    var fileDetails, tasksResults := SubmitSubdirectories(directory, depth, path, cfg, active, stats);
    ghost var mid := stats.Snapshot();
    SelectedLengths(subs, gate);
    SelectedSums(subs, gate);
    SumSizesAppend(fileDetails, tasksResults);
    dirResults := JoinTasks(fileDetails, tasksResults);
    SubdirResultsSizes(directory, depth, path, cfg, active, n);
    assert |dirResults| == n && SumSizes(dirResults) == SubdirSizes(directory, n);
    directorySize := AddDirectoryResults(dirResults, stats);
    CountedOnce(mid, stats.Snapshot(), n);
  }

  lemma {:induction false} PlusAssoc(a: Tally, b: Tally, c: Tally)
    ensures a.Plus(b).Plus(c) == a.Plus(b.Plus(c))
  {
  }

  /** Bumping `filesFound` `k` times adds `Tally(k, 0, 0)`. */
  lemma {:induction false} CountedOnce(before: Tally, after: Tally, k: nat)
    requires after == Tally(before.filesFound + k, before.parallelAllowed, before.parallelSkipped)
    ensures after == before.Plus(Tally(k, 0, 0))
  {
  }

  /** The subdirectory phase's counts followed by the files read give the directory's `Counters`. */
  lemma {:induction false} CountersAfterFiles(e: Entry, path: seq<nat>, cfg: Config, active: ActiveCount, start: Tally, mid: Tally, final: Tally)
    requires e.Dir?
    requires mid == start.Plus(LoopTally(e, path, cfg, active, |Directories(e.children)|)).Plus(Tally(|Directories(e.children)|, 0, 0))
    requires final == Tally(mid.filesFound + ReadBeforeFailure(Files(e.children)), mid.parallelAllowed, mid.parallelSkipped)
    ensures final == start.Plus(Counters(e, path, cfg, active))
  {
  }

  /** The subdirectory results followed by the file lines are the merge list. */
  lemma {:induction false} MergeListAfterFiles(e: Entry, depth: nat, path: seq<nat>, cfg: Config, active: ActiveCount,
                            dirResults: seq<FileSizeDetails>, fileDetails: seq<FileSizeDetails>)
    requires e.Dir? && !HasUnreadable(Files(e.children))
    requires var n := |Directories(e.children)|;
      var subs := SubdirResults(e, depth, path, cfg, active, n);
      var gate := GateDecisions(n, path, cfg, active);
      dirResults == Selected(subs, gate, false) + Selected(subs, gate, true)
    requires forall i :: 0 <= i < |Files(e.children)| ==> Files(e.children)[i].File?
    requires fileDetails == dirResults + (if cfg.onlyDirs then [] else FileLines(depth, Files(e.children)))
    ensures fileDetails == MergeList(e, depth, path, cfg, active)
  {
  }

  /** The subdirectory total plus the file bytes, wrapped, is the directory's size. */
  lemma {:induction false} SizeAfterFiles(e: Entry, files: seq<Entry>, subdirBytes: int, size: Long)
    requires e.Dir? && files == Files(e.children) && subdirBytes == SubdirSizes(e, |Directories(e.children)|)
    requires size == Wrap(subdirBytes + FileBytes(files))
    ensures size == DirectorySize(e)
  {
    DirectorySizeParts(e);
  }

  /** `DirectorySize` unfolded once. */
  lemma {:induction false} DirectorySizeParts(e: Entry)
    requires e.Dir?
    ensures DirectorySize(e) == Wrap(SubdirSizes(e, |Directories(e.children)|) + FileBytes(Files(e.children)))
  {
  }

  /** The reported size of a walk is the tree's size, whatever the depth and the settings. */
  lemma {:induction false} WalkSizeIsTreeSize(e: Entry, depth: nat, path: seq<nat>, cfg: Config, active: ActiveCount)
    ensures Walk(e, depth, path, cfg, active).size == TreeSize(e)
  {
  }

  /** The subdirectory entries' sizes add up to `SubdirSizes`. */
  lemma {:induction false} SubdirResultsSizes(e: Entry, depth: nat, path: seq<nat>, cfg: Config, active: ActiveCount, n: nat)
    requires e.Dir? && n <= |Directories(e.children)|
    ensures SumSizes(SubdirResults(e, depth, path, cfg, active, n)) == SubdirSizes(e, n)
    decreases n
  {
    if n > 0 {
      SubdirResultsSizes(e, depth, path, cfg, active, n - 1);
      SubdirEntrySize(e, depth, path, cfg, active, n - 1);
      SumSizesSnoc(SubdirResults(e, depth, path, cfg, active, n - 1), SubdirEntry(e, depth, path, cfg, active, n - 1));
    }
  }

  /** Entry `i` of the subdirectory results is the entry of subdirectory `i`: listing order is kept. */
  lemma {:induction false} SubdirResultsInListingOrder(e: Entry, depth: nat, path: seq<nat>, cfg: Config, active: ActiveCount, n: nat)
    requires e.Dir? && n <= |Directories(e.children)|
    ensures forall i :: 0 <= i < n ==> SubdirResults(e, depth, path, cfg, active, n)[i] == SubdirEntry(e, depth, path, cfg, active, i)
    decreases n
  {
    if n > 0 {
      SubdirResultsInListingOrder(e, depth, path, cfg, active, n - 1);
      var prev := SubdirResults(e, depth, path, cfg, active, n - 1);
      var rs := SubdirResults(e, depth, path, cfg, active, n);
      assert rs == prev + [SubdirEntry(e, depth, path, cfg, active, n - 1)];
      forall i | 0 <= i < n ensures rs[i] == SubdirEntry(e, depth, path, cfg, active, i) {
        if i < n - 1 {
          assert rs[i] == prev[i];
        }
      }
    }
  }

  /** A subdirectory's entry carries the size of its tree. */
  lemma {:induction false} SubdirEntrySize(e: Entry, depth: nat, path: seq<nat>, cfg: Config, active: ActiveCount, i: nat)
    requires e.Dir? && i < |Directories(e.children)|
    ensures SubdirEntry(e, depth, path, cfg, active, i).size == TreeSize(Directories(e.children)[i])
  {
    WalkSizeIsTreeSize(Directories(e.children)[i], depth + 1, path + [i], cfg, active);
  }

  lemma {:induction false} SumSizesSnoc(a: seq<FileSizeDetails>, x: FileSizeDetails)
    ensures SumSizes(a + [x]) == SumSizes(a) + x.size
  {
    assert (a + [x])[..|a|] == a;
  }

  /**
   * The loop over subdirectories: the gate sends each one to the pool or walks it inline. Inline
   * results land in `fileDetails`, pool results in `tasksResults`, each in listing order.
   */
  method SubmitSubdirectories(directory: Entry, depth: nat, path: seq<nat>, cfg: Config,
                              active: ActiveCount, stats: Stats)
    returns (fileDetails: seq<FileSizeDetails>, tasksResults: seq<FileSizeDetails>)
    requires directory.Dir?
    modifies stats
    ensures var n := |Directories(directory.children)|;
      fileDetails == Selected(SubdirResults(directory, depth, path, cfg, active, n), GateDecisions(n, path, cfg, active), false)
    ensures var n := |Directories(directory.children)|;
      tasksResults == Selected(SubdirResults(directory, depth, path, cfg, active, n), GateDecisions(n, path, cfg, active), true)
    ensures stats.Snapshot()
      == old(stats.Snapshot()).Plus(LoopTally(directory, path, cfg, active, |Directories(directory.children)|))
    decreases directory, 2
  {
    var directories := Directories(directory.children);
    ghost var start := stats.Snapshot();
    fileDetails, tasksResults := [], [];
    var i := 0;
    while i < |directories|
      invariant 0 <= i <= |directories|
      invariant fileDetails
        == Selected(SubdirResults(directory, depth, path, cfg, active, i), GateDecisions(i, path, cfg, active), false)
      invariant tasksResults
        == Selected(SubdirResults(directory, depth, path, cfg, active, i), GateDecisions(i, path, cfg, active), true)
      invariant stats.Snapshot() == start.Plus(LoopTally(directory, path, cfg, active, i))
    {
      var submitted, result := VisitSubdirectory(directory, depth, path, cfg, active, stats, i);
      SelectedAppend(SubdirResults(directory, depth, path, cfg, active, i), GateDecisions(i, path, cfg, active),
                     result, submitted);
      if submitted {
        tasksResults := tasksResults + [result];
      } else {
        fileDetails := fileDetails + [result];
      }
      PlusAssoc(start, LoopTally(directory, path, cfg, active, i), SubdirTally(directory, path, cfg, active, i));
      i := i + 1;
    }
  }

  /**
   * One turn of the subdirectory loop: the gate's decision (bumping `parallelAllowed` or
   * `parallelSkipped`), the nested walk, and the subdirectory's entry with its header line.
   */
  method VisitSubdirectory(directory: Entry, depth: nat, path: seq<nat>, cfg: Config,
                           active: ActiveCount, stats: Stats, i: nat)
    returns (submitted: bool, result: FileSizeDetails)
    requires directory.Dir? && i < |Directories(directory.children)|
    modifies stats
    ensures submitted == Admit(cfg, active(path + [i]))
    ensures result == SubdirEntry(directory, depth, path, cfg, active, i)
    ensures stats.Snapshot() == old(stats.Snapshot()).Plus(SubdirTally(directory, path, cfg, active, i))
    decreases directory, 1
  {
    submitted := Admit(cfg, active(path + [i]));
    ghost var before := stats.Snapshot();
    if submitted {
      stats.IncrementParallelAllowed();
    } else {
      stats.IncrementParallelSkipped();
    }
    ghost var ticked := stats.Snapshot();
    result := SubdirectoryEntry(directory, depth, path, cfg, active, stats, i);
    TickThenNested(before, ticked, stats.Snapshot(), SubdirCounters(directory, path, cfg, active, i), submitted);
  }

  /**
   * The work done for one subdirectory, by the pool's task or inline: the nested walk, then the
   * entry made of the header line at this depth and the nested report.
   */
  method SubdirectoryEntry(directory: Entry, depth: nat, path: seq<nat>, cfg: Config,
                           active: ActiveCount, stats: Stats, i: nat)
    returns (result: FileSizeDetails)
    requires directory.Dir? && i < |Directories(directory.children)|
    modifies stats
    ensures result == SubdirEntry(directory, depth, path, cfg, active, i)
    ensures stats.Snapshot() == old(stats.Snapshot()).Plus(SubdirCounters(directory, path, cfg, active, i))
    decreases directory, 0
  {
    var subDirectory := Directories(directory.children)[i];
    DirectoryIsChild(directory.children, i);
    var nestedDir := PrintFilesInDirectoryParallel(subDirectory, depth + 1, path + [i], cfg, active, stats);
    var curDirContent := PrintFileDetails(depth, subDirectory.name, nestedDir.size) + nestedDir.content;
    result := FileSizeDetails(curDirContent, nestedDir.size);
  }

  /** The gate's tick followed by the nested walk's counts, as one addition. */
  lemma {:induction false} TickThenNested(before: Tally, ticked: Tally, after: Tally, nested: Tally, admitted: bool)
    requires ticked == if admitted then Tally(before.filesFound, before.parallelAllowed + 1, before.parallelSkipped)
                       else Tally(before.filesFound, before.parallelAllowed, before.parallelSkipped + 1)
    requires after == ticked.Plus(nested)
    ensures after == before.Plus(GateTick(admitted).Plus(nested))
  {
  }

  /** `tasksResults.forEach(task -> fileDetails.add(task.get()))`: pool results follow the inline ones. */
  method JoinTasks(fileDetails: seq<FileSizeDetails>, tasksResults: seq<FileSizeDetails>)
    returns (joined: seq<FileSizeDetails>)
    ensures joined == fileDetails + tasksResults
  {
    joined := fileDetails;
    for t := 0 to |tasksResults|
      invariant joined == fileDetails + tasksResults[..t]
    {
      assert tasksResults[..t + 1] == tasksResults[..t] + [tasksResults[t]];
      joined := joined + [tasksResults[t]];
    }
    assert tasksResults[..|tasksResults|] == tasksResults;
  }

  /** The loop that adds each subdirectory's size to `directorySize`, counting each in `filesFound`. */
  method AddDirectoryResults(dirResults: seq<FileSizeDetails>, stats: Stats) returns (directorySize: Long)
    modifies stats
    ensures directorySize == Wrap(SumSizes(dirResults))
    ensures stats.filesFound == old(stats.filesFound) + |dirResults|
    ensures stats.parallelAllowed == old(stats.parallelAllowed) && stats.parallelSkipped == old(stats.parallelSkipped)
  {
    directorySize := 0;
    assert dirResults[..0] == [];
    WrapIsCongruent(0);
    for j := 0 to |dirResults|
      invariant directorySize == Wrap(SumSizes(dirResults[..j]))
      invariant stats.filesFound == old(stats.filesFound) + j
      invariant stats.parallelAllowed == old(stats.parallelAllowed) && stats.parallelSkipped == old(stats.parallelSkipped)
    {
      AddedInOrder(dirResults, j, directorySize);
      directorySize := AddLong(directorySize, dirResults[j].size);
      stats.IncrementFilesFound();
    }
    assert dirResults[..|dirResults|] == dirResults;
  }

  /**
   * The loop over files: reads each size, lists the file unless `onlyDirs`, counts it and adds its
   * size. An unreadable size aborts the loop (`readAll` is false); the counts made so far stay.
   */
  method AddFiles(files: seq<Entry>, depth: nat, onlyDirs: bool, fileDetails: seq<FileSizeDetails>,
                  directorySize: Long, ghost base: int, stats: Stats)
    returns (details: seq<FileSizeDetails>, size: Long, readAll: bool)
    requires forall i :: 0 <= i < |files| ==> !IsDirectory(files[i])
    requires directorySize == Wrap(base)
    modifies stats
    ensures readAll <==> !HasUnreadable(files)
    ensures readAll ==> forall i :: 0 <= i < |files| ==> files[i].File?
    ensures readAll ==> details == fileDetails + (if onlyDirs then [] else FileLines(depth, files))
    ensures readAll ==> size == Wrap(base + FileBytes(files))
    ensures stats.filesFound == old(stats.filesFound) + ReadBeforeFailure(files)
    ensures stats.parallelAllowed == old(stats.parallelAllowed) && stats.parallelSkipped == old(stats.parallelSkipped)
  {
    details, size := fileDetails, directorySize;
    assert files[..0] == [];
    for k := 0 to |files|
      invariant forall m :: 0 <= m < k ==> files[m].File?
      invariant details == fileDetails + (if onlyDirs then [] else FileLines(depth, files[..k]))
      invariant size == Wrap(base + FileBytes(files[..k]))
      invariant stats.filesFound == old(stats.filesFound) + k
      invariant stats.parallelAllowed == old(stats.parallelAllowed) && stats.parallelSkipped == old(stats.parallelSkipped)
    {
      if files[k].UnreadableFile? {
        ReadStopsAtFailure(files, k);
        return details, size, false;
      }
      details, size := ReadFile(files, k, depth, onlyDirs, fileDetails, base, details, size);
      stats.IncrementFilesFound();
    }
    readAll := true;
    ReadEveryFile(files, depth, onlyDirs, fileDetails, base, details, size);
  }

  /** After the last turn of the loop over files, every file was read, listed and added. */
  lemma {:induction false} ReadEveryFile(files: seq<Entry>, depth: nat, onlyDirs: bool, fileDetails: seq<FileSizeDetails>,
                      base: int, details: seq<FileSizeDetails>, size: Long)
    requires forall m :: 0 <= m < |files| ==> files[m].File?
    requires details == fileDetails + (if onlyDirs then [] else FileLines(depth, files[..|files|]))
    requires size == Wrap(base + FileBytes(files[..|files|]))
    ensures !HasUnreadable(files) && ReadBeforeFailure(files) == |files|
    ensures details == fileDetails + (if onlyDirs then [] else FileLines(depth, files))
    ensures size == Wrap(base + FileBytes(files))
  {
    assert files[..|files|] == files;
    AllReadable(files);
  }

  /** One turn of the loop over files, for a file whose size can be read: list it unless `onlyDirs`, and add its size. */
  method ReadFile(files: seq<Entry>, k: nat, depth: nat, onlyDirs: bool, fileDetails: seq<FileSizeDetails>,
                  ghost base: int, details: seq<FileSizeDetails>, size: Long)
    returns (details': seq<FileSizeDetails>, size': Long)
    requires k < |files| && forall m :: 0 <= m <= k ==> files[m].File?
    requires details == fileDetails + (if onlyDirs then [] else FileLines(depth, files[..k]))
    requires size == Wrap(base + FileBytes(files[..k]))
    ensures details' == fileDetails + (if onlyDirs then [] else FileLines(depth, files[..k + 1]))
    ensures size' == Wrap(base + FileBytes(files[..k + 1]))
  {
    var file := files[k];
    FileAddedInOrder(base, depth, files, k, size);
    var curFileSize := file.size;
    var curFileDetails := PrintFileDetails(depth, file.name, curFileSize);
    details' := details;
    if !onlyDirs {
      details' := details + [FileSizeDetails(curFileDetails, curFileSize)];
    }
    size' := AddLong(size, curFileSize);
  }

  /** The loop that appends every entry's text to `printer`, or none when the depth is past the limit. */
  method Render(fileDetails: seq<FileSizeDetails>, withinDepth: bool) returns (printer: string)
    ensures printer == if withinDepth then Concat(fileDetails) else ""
  {
    printer := "";
    for m := 0 to |fileDetails|
      invariant printer == if withinDepth then Concat(fileDetails[..m]) else ""
    {
      assert fileDetails[..m + 1][..m] == fileDetails[..m];
      if withinDepth {
        printer := printer + fileDetails[m].content;
      }
    }
    assert fileDetails[..|fileDetails|] == fileDetails;
  }
}
