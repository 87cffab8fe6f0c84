/**
 * Properties of the walk that relate several calls or hold for whole trees: what the reported size
 * adds up to, what the counters count, what the settings and the admission gate can and cannot
 * change, and a worked example.
 */
module WalkerProperties {
  import opened Longs
  import opened SizeFormat
  import opened FsTree
  import opened SizeSort
  import opened Walker

  // ---------------------------------------------------------------------------------------------
  // Sizes

  /**
   * The exact byte total a walk of `e` accounts for: the readable files of every directory that can
   * be listed and has no unreadable file, with nothing counted for a subtree that ends in a sentinel.
   */
  function TotalBytes(e: Entry): nat
    decreases e, 1
  {
    if !e.Dir? || HasUnreadable(Files(e.children)) then 0
    else SubdirBytes(e, |Directories(e.children)|) + FileBytes(Files(e.children))
  }

  /** The exact totals of the first `n` subdirectories. */
  function SubdirBytes(e: Entry, n: nat): nat
    requires e.Dir? && n <= |Directories(e.children)|
    decreases e, 0, n
  {
    if n == 0 then 0
    else
      DirectoryIsChild(e.children, n - 1);
      SubdirBytes(e, n - 1) + TotalBytes(Directories(e.children)[n - 1])
  }

  /** Adding sizes that were each wrapped to 64 bits gives the exact total wrapped once. */
  lemma {:induction false} TreeSizeWrapsTotal(e: Entry)
    ensures TreeSize(e) == Wrap(TotalBytes(e))
    decreases e, 1
  {
    WrapIsCongruent(0);
    if e.Dir? && !HasUnreadable(Files(e.children)) {
      var n := |Directories(e.children)|;
      var f := FileBytes(Files(e.children));
      SubdirSizesCongruent(e, n);
      CongruentAdd(SubdirSizes(e, n), SubdirBytes(e, n), f, f);
      WrapCongruent(SubdirSizes(e, n) + f, SubdirBytes(e, n) + f);
    }
  }

  lemma {:induction false} SubdirSizesCongruent(e: Entry, n: nat)
    requires e.Dir? && n <= |Directories(e.children)|
    ensures Congruent(SubdirSizes(e, n), SubdirBytes(e, n))
    decreases e, 0, n
  {
    if n > 0 {
      var d := Directories(e.children)[n - 1];
      DirectoryIsChild(e.children, n - 1);
      SubdirSizesCongruent(e, n - 1);
      TreeSizeWrapsTotal(d);
      WrapIsCongruent(TotalBytes(d));
      CongruentSymmetric(TotalBytes(d), TreeSize(d));
      CongruentAdd(SubdirSizes(e, n - 1), SubdirBytes(e, n - 1), TreeSize(d), TotalBytes(d));
    }
  }

  /**
   * The size a walk reports is the exact byte total of the tree reduced to a `long`, whatever the
   * depth, the settings and the gate's decisions; it is the exact total whenever that fits.
   */
  lemma {:induction false} WalkSizeIsTotalBytes(e: Entry, depth: nat, path: seq<nat>, cfg: Config, active: ActiveCount)
    ensures Walk(e, depth, path, cfg, active).size == Wrap(TotalBytes(e))
    ensures TotalBytes(e) <= LONG_MAX ==> Walk(e, depth, path, cfg, active).size == TotalBytes(e)
  {
    WalkSizeIsTreeSize(e, depth, path, cfg, active);
    TreeSizeWrapsTotal(e);
    WrapIsCongruent(TotalBytes(e));
  }

  /** `--only-dirs`, `-max-depth`, the depth and the gate never change the reported size. */
  lemma {:induction false} SizeIgnoresSettings(e: Entry, depth1: nat, path1: seq<nat>, cfg1: Config, active1: ActiveCount,
                            depth2: nat, path2: seq<nat>, cfg2: Config, active2: ActiveCount)
    ensures Walk(e, depth1, path1, cfg1, active1).size == Walk(e, depth2, path2, cfg2, active2).size
  {
    WalkSizeIsTreeSize(e, depth1, path1, cfg1, active1);
    WalkSizeIsTreeSize(e, depth2, path2, cfg2, active2);
  }

  // ---------------------------------------------------------------------------------------------
  // The merge list and the sorted report

  /** The file lines of a directory that has no unreadable file. */
  lemma {:induction false} FilesOfListedDirectory(e: Entry)
    requires e.Dir? && !HasUnreadable(Files(e.children))
    ensures forall i :: 0 <= i < |Files(e.children)| ==> Files(e.children)[i].File?
  {
    FilesAreChildren(e.children);
    var fs := Files(e.children);
    forall i | 0 <= i < |fs|
      ensures fs[i].File?
    {
      assert !fs[i].UnreadableFile?;
    }
  }

  /**
   * The merge list holds one entry per subdirectory and, unless `onlyDirs`, one line per file, and
   * nothing else: the gate only decides where a subdirectory's entry is placed.
   */
  lemma {:induction false} MergeListEntries(e: Entry, depth: nat, path: seq<nat>, cfg: Config, active: ActiveCount)
    requires e.Dir? && !HasUnreadable(Files(e.children))
    ensures var n := |Directories(e.children)|;
      var fs := Files(e.children);
      && (forall i :: 0 <= i < |fs| ==> fs[i].File?)
      && |MergeList(e, depth, path, cfg, active)| == n + (if cfg.onlyDirs then 0 else |fs|)
      && multiset(MergeList(e, depth, path, cfg, active))
         == multiset(SubdirResults(e, depth, path, cfg, active, n))
            + multiset(if cfg.onlyDirs then [] else FileLines(depth, fs))
  {
    var n := |Directories(e.children)|;
    var subs := SubdirResults(e, depth, path, cfg, active, n);
    var gate := GateDecisions(n, path, cfg, active);
    FilesOfListedDirectory(e);
    SelectedPermutation(subs, gate);
    SelectedLengths(subs, gate);
  }

  /** With `-parallel` off the gate never admits: every decision is "inline". */
  lemma {:induction false} GateClosedWhenSequential(n: nat, path: seq<nat>, cfg: Config, active: ActiveCount)
    requires !cfg.parallel
    ensures forall i :: 0 <= i < n ==> !GateDecisions(n, path, cfg, active)[i]
  {
    if n > 0 {
      GateClosedWhenSequential(n - 1, path, cfg, active);
      var g := GateDecisions(n, path, cfg, active);
      assert g[..n - 1] == GateDecisions(n - 1, path, cfg, active);
    }
  }

  lemma {:induction false} SelectedAllInline(s: seq<FileSizeDetails>, gate: seq<bool>)
    requires |gate| == |s| && forall i :: 0 <= i < |gate| ==> !gate[i]
    ensures Selected(s, gate, false) == s && Selected(s, gate, true) == []
    decreases |s|
  {
    if s != [] {
      var n := |s| - 1;
      SelectedAllInline(s[..n], gate[..n]);
      assert s == s[..n] + [s[n]];
    }
  }

  /**
   * With `-parallel` off nothing goes to the pool, so the merge list is every subdirectory's entry
   * in listing order followed by the file lines in listing order.
   */
  lemma {:induction false} SequentialMergeOrder(e: Entry, depth: nat, path: seq<nat>, cfg: Config, active: ActiveCount)
    requires e.Dir? && !HasUnreadable(Files(e.children)) && !cfg.parallel
    ensures var n := |Directories(e.children)|;
      var fs := Files(e.children);
      && (forall i :: 0 <= i < |fs| ==> fs[i].File?)
      && MergeList(e, depth, path, cfg, active)
         == SubdirResults(e, depth, path, cfg, active, n) + (if cfg.onlyDirs then [] else FileLines(depth, fs))
  {
    var n := |Directories(e.children)|;
    FilesOfListedDirectory(e);
    GateClosedWhenSequential(n, path, cfg, active);
    SelectedAllInline(SubdirResults(e, depth, path, cfg, active, n), GateDecisions(n, path, cfg, active));
  }

  /** With `-parallel` off the walk does not depend on the pool at all: it is deterministic. */
  lemma {:induction false} SequentialWalkIsDeterministic(e: Entry, depth: nat, path: seq<nat>, cfg: Config,
                                                         active1: ActiveCount, active2: ActiveCount)
    requires !cfg.parallel
    ensures Walk(e, depth, path, cfg, active1) == Walk(e, depth, path, cfg, active2)
    decreases e, 1
  {
    if e.Dir? && !HasUnreadable(Files(e.children)) {
      var n := |Directories(e.children)|;
      SubdirResultsIgnorePool(e, depth, path, cfg, active1, active2, n);
      GateClosedWhenSequential(n, path, cfg, active1);
      GateClosedWhenSequential(n, path, cfg, active2);
      var g1, g2 := GateDecisions(n, path, cfg, active1), GateDecisions(n, path, cfg, active2);
      assert g1 == g2 by {
        forall i | 0 <= i < n
          ensures g1[i] == g2[i]
        {
        }
      }
      assert MergeList(e, depth, path, cfg, active1) == MergeList(e, depth, path, cfg, active2);
    }
  }

  lemma {:induction false} SubdirResultsIgnorePool(e: Entry, depth: nat, path: seq<nat>, cfg: Config,
                                                    active1: ActiveCount, active2: ActiveCount, n: nat)
    requires !cfg.parallel && e.Dir? && n <= |Directories(e.children)|
    ensures SubdirResults(e, depth, path, cfg, active1, n) == SubdirResults(e, depth, path, cfg, active2, n)
    decreases e, 0, n
  {
    if n > 0 {
      var d := Directories(e.children)[n - 1];
      DirectoryIsChild(e.children, n - 1);
      SubdirResultsIgnorePool(e, depth, path, cfg, active1, active2, n - 1);
      SequentialWalkIsDeterministic(d, depth + 1, path + [n - 1], cfg, active1, active2);
    }
  }

  /**
   * Whatever the gate decides, the sorted list is the same once no two entries share a size: the
   * gate only changes the order in which entries of equal size come out.
   */
  lemma {:induction false} GateOnlyReordersTies(subs: seq<FileSizeDetails>, gate1: seq<bool>, gate2: seq<bool>,
                             fileLines: seq<FileSizeDetails>)
    requires |gate1| == |subs| && |gate2| == |subs|
    requires DistinctSizes(subs + fileLines)
    ensures SortBySizeDesc(Selected(subs, gate1, false) + Selected(subs, gate1, true) + fileLines)
         == SortBySizeDesc(Selected(subs, gate2, false) + Selected(subs, gate2, true) + fileLines)
  {
    SelectedPermutation(subs, gate1);
    SelectedPermutation(subs, gate2);
    var m1 := Selected(subs, gate1, false) + Selected(subs, gate1, true) + fileLines;
    var m2 := Selected(subs, gate2, false) + Selected(subs, gate2, true) + fileLines;
    assert multiset(m1) == multiset(subs + fileLines);
    assert multiset(m2) == multiset(subs + fileLines);
    SortIgnoresOrderOfDistinctSizes(m1, m2, subs + fileLines);
  }

  /**
   * Within the depth limit the report is the merge list sorted largest first: non-increasing by
   * size, the same entries, and entries of equal size in merge-list order.
   */
  lemma {:induction false} ReportIsSortedMergeList(e: Entry, depth: nat, path: seq<nat>, cfg: Config, active: ActiveCount)
    requires e.Dir? && !HasUnreadable(Files(e.children)) && depth <= cfg.maxDepth
    ensures var merged := MergeList(e, depth, path, cfg, active);
      var sorted := SortBySizeDesc(merged);
      && Walk(e, depth, path, cfg, active).content == Concat(sorted)
      && Descending(sorted)
      && multiset(sorted) == multiset(merged)
      && forall v :: WithSize(sorted, v) == WithSize(merged, v)
  {
    var merged := MergeList(e, depth, path, cfg, active);
    SortBySizeDescSortsAndPermutes(merged);
    forall v
      ensures WithSize(SortBySizeDesc(merged), v) == WithSize(merged, v)
    {
      SortIsStable(merged, v);
    }
  }

  /** Past the depth limit a directory reports no text, but still its full size. */
  lemma {:induction false} DepthCutoff(e: Entry, depth: nat, path: seq<nat>, cfg: Config, active: ActiveCount)
    requires e.Dir? && !HasUnreadable(Files(e.children)) && depth > cfg.maxDepth
    ensures Walk(e, depth, path, cfg, active) == FileSizeDetails("", Wrap(TotalBytes(e)))
  {
    TreeSizeWrapsTotal(e);
  }

  /**
   * A subdirectory's entry is its header line, rendered at the parent's depth with the
   * subdirectory's total size, followed by the subdirectory's own report.
   */
  lemma {:induction false} SubdirectoryHeader(e: Entry, depth: nat, path: seq<nat>, cfg: Config, active: ActiveCount, i: nat)
    requires e.Dir? && i < |Directories(e.children)|
    ensures var d := Directories(e.children)[i];
      var entry := SubdirEntry(e, depth, path, cfg, active, i);
      var line := PrintFileDetails(depth, d.name, Wrap(TotalBytes(d)));
      && entry.content == line + Walk(d, depth + 1, path + [i], cfg, active).content
      && entry.size == Wrap(TotalBytes(d))
      && |line| >= 2 * depth
      && (forall k :: 0 <= k < 2 * depth ==> line[k] == ' ')
      && line[2 * depth..] == d.name + " " + FormatBytes(Wrap(TotalBytes(d))) + "\n"
  {
    var d := Directories(e.children)[i];
    WalkSizeIsTotalBytes(d, depth + 1, path + [i], cfg, active);
    PrintFileDetailsIsIndented(depth, d.name, Wrap(TotalBytes(d)));
  }

  /**
   * The three sentinels: an unlistable directory gives `name*EMPTY`, an unreadable file anywhere in
   * a directory's own files gives `name*ERROR` (dropping everything else it computed), both with
   * size 0 and no newline and at any depth; an empty directory gives no text and size 0.
   */
  lemma {:induction false} Sentinels(e: Entry, depth: nat, path: seq<nat>, cfg: Config, active: ActiveCount)
    ensures !e.Dir? ==> Walk(e, depth, path, cfg, active) == FileSizeDetails(e.name + "*EMPTY", 0)
    ensures e.Dir? && HasUnreadable(Files(e.children))
      ==> Walk(e, depth, path, cfg, active) == FileSizeDetails(e.name + "*ERROR", 0)
    ensures e.Dir? && e.children == [] ==> Walk(e, depth, path, cfg, active) == FileSizeDetails("", 0)
  {
    if e.Dir? && e.children == [] {
      assert Directories(e.children) == [] && Files(e.children) == [];
      assert MergeList(e, depth, path, cfg, active) == [];
      assert SortBySizeDesc([]) == [] && Concat([]) == "";
      WrapIsCongruent(0);
      assert DirectorySize(e) == 0;
    }
  }

  // ---------------------------------------------------------------------------------------------
  // Counters

  /** Subdirectories the walk of `e` meets: those of every directory it lists, at every level. */
  function DirectoriesBelow(e: Entry): nat
    decreases e, 1
  {
    if !e.Dir? then 0 else DirectoriesBelowFirst(e, |Directories(e.children)|)
  }

  /** The first `n` subdirectories of `e`, each with the subdirectories below it. */
  function DirectoriesBelowFirst(e: Entry, n: nat): nat
    requires e.Dir? && n <= |Directories(e.children)|
    decreases e, 0, n
  {
    if n == 0 then 0
    else
      DirectoryIsChild(e.children, n - 1);
      DirectoriesBelowFirst(e, n - 1) + 1 + DirectoriesBelow(Directories(e.children)[n - 1])
  }

  /** Files whose size the walk of `e` reads: in each listed directory, those before the first unreadable one. */
  function FilesReadBelow(e: Entry): nat
    decreases e, 1
  {
    if !e.Dir? then 0
    else FilesReadBelowFirst(e, |Directories(e.children)|) + ReadBeforeFailure(Files(e.children))
  }

  function FilesReadBelowFirst(e: Entry, n: nat): nat
    requires e.Dir? && n <= |Directories(e.children)|
    decreases e, 0, n
  {
    if n == 0 then 0
    else
      DirectoryIsChild(e.children, n - 1);
      FilesReadBelowFirst(e, n - 1) + FilesReadBelow(Directories(e.children)[n - 1])
  }

  /**
   * Every subdirectory met bumps exactly one of `parallelAllowed` and `parallelSkipped`;
   * `filesFound` counts every subdirectory result and every file whose size was read, so neither
   * depends on `--only-dirs` or `-max-depth`; with `-parallel` off nothing is ever allowed.
   */
  lemma {:induction false} CountersCountEntries(e: Entry, path: seq<nat>, cfg: Config, active: ActiveCount)
    ensures var t := Counters(e, path, cfg, active);
      && t.parallelAllowed + t.parallelSkipped == DirectoriesBelow(e)
      && t.filesFound == DirectoriesBelow(e) + FilesReadBelow(e)
      && (!cfg.parallel ==> t.parallelAllowed == 0)
    decreases e, 1
  {
    if e.Dir? {
      LoopCountsEntries(e, path, cfg, active, |Directories(e.children)|);
    }
  }

  lemma {:induction false} LoopCountsEntries(e: Entry, path: seq<nat>, cfg: Config, active: ActiveCount, n: nat)
    requires e.Dir? && n <= |Directories(e.children)|
    ensures var t := LoopTally(e, path, cfg, active, n);
      && t.parallelAllowed + t.parallelSkipped == DirectoriesBelowFirst(e, n)
      && t.filesFound + n == DirectoriesBelowFirst(e, n) + FilesReadBelowFirst(e, n)
      && (!cfg.parallel ==> t.parallelAllowed == 0)
    decreases e, 0, n
  {
    if n > 0 {
      var d := Directories(e.children)[n - 1];
      DirectoryIsChild(e.children, n - 1);
      LoopCountsEntries(e, path, cfg, active, n - 1);
      CountersCountEntries(d, path + [n - 1], cfg, active);
      assert SubdirTally(e, path, cfg, active, n - 1)
        == GateTick(Admit(cfg, active(path + [n - 1]))).Plus(Counters(d, path + [n - 1], cfg, active));
    }
  }

  // ---------------------------------------------------------------------------------------------
  // A worked example: files `a` (500 bytes) and `b` (2000 bytes) and an empty directory `c`

  const EXAMPLE_A: Entry := File("a", 500)
  const EXAMPLE_B: Entry := File("b", 2000)
  const EXAMPLE_C: Entry := Dir("c", [])
  const EXAMPLE: Entry := Dir(".", [EXAMPLE_A, EXAMPLE_B, EXAMPLE_C])

  /**
   * Listed with the files shown and within the depth limit, the example reports `b`, then `a`, then
   * `c` with its header line, largest first, and 2500 bytes in all, whatever the gate decides.
   */
  lemma {:induction false} ExampleReport(path: seq<nat>, cfg: Config, active: ActiveCount)
    requires !cfg.onlyDirs && 0 <= cfg.maxDepth
    ensures Walk(EXAMPLE, 0, path, cfg, active) == FileSizeDetails("b 2.0 KiB\na 500 B\nc 0 B\n", 2500)
  {
    var lineA := FileSizeDetails("a 500 B\n", 500);
    var lineB := FileSizeDetails("b 2.0 KiB\n", 2000);
    var lineC := FileSizeDetails("c 0 B\n", 0);
    ExampleMergeList(path, cfg, active);
    ListedWithinDepth(EXAMPLE, 0, path, cfg, active);
    ExampleSort(lineC, lineA, lineB);
    ExampleConcat(lineB, lineA, lineC);
    ExampleSize();
  }

  /** The walk of a listed directory within the depth limit, before its parts are computed. */
  lemma {:induction false} ListedWithinDepth(e: Entry, depth: nat, path: seq<nat>, cfg: Config, active: ActiveCount)
    requires e.Dir? && !HasUnreadable(Files(e.children)) && depth <= cfg.maxDepth
    ensures Walk(e, depth, path, cfg, active)
      == FileSizeDetails(Concat(SortBySizeDesc(MergeList(e, depth, path, cfg, active))), DirectorySize(e))
  {
  }

  lemma {:induction false} ExampleConcat(x: FileSizeDetails, y: FileSizeDetails, z: FileSizeDetails)
    requires x.content == "b 2.0 KiB\n" && y.content == "a 500 B\n" && z.content == "c 0 B\n"
    ensures Concat([x, y, z]) == "b 2.0 KiB\na 500 B\nc 0 B\n"
  {
    assert [x][..0] == [];
    assert Concat([x]) == x.content;
    assert [x, y][..1] == [x];
    assert Concat([x, y]) == x.content + y.content;
    assert [x, y, z][..2] == [x, y];
    assert Concat([x, y, z]) == x.content + y.content + z.content;
  }

  lemma ExamplePartition()
    ensures Directories(EXAMPLE.children) == [EXAMPLE_C]
    ensures Files(EXAMPLE.children) == [EXAMPLE_A, EXAMPLE_B]
    ensures !HasUnreadable(Files(EXAMPLE.children))
  {
    ExampleDirectories();
    ExampleFiles();
    var fs := Files(EXAMPLE.children);
    assert forall i :: 0 <= i < |fs| ==> !fs[i].UnreadableFile?;
  }

  lemma ExampleDirectories()
    ensures Directories(EXAMPLE.children) == [EXAMPLE_C]
  {
    assert [EXAMPLE_A][..0] == [];
    assert Directories([EXAMPLE_A]) == [];
    assert [EXAMPLE_A, EXAMPLE_B][..1] == [EXAMPLE_A];
    assert Directories([EXAMPLE_A, EXAMPLE_B]) == [];
    assert EXAMPLE.children[..2] == [EXAMPLE_A, EXAMPLE_B];
  }

  lemma ExampleFiles()
    ensures Files(EXAMPLE.children) == [EXAMPLE_A, EXAMPLE_B]
  {
    assert [EXAMPLE_A][..0] == [];
    assert Files([EXAMPLE_A]) == [EXAMPLE_A];
    assert [EXAMPLE_A, EXAMPLE_B][..1] == [EXAMPLE_A];
    assert Files([EXAMPLE_A, EXAMPLE_B]) == [EXAMPLE_A, EXAMPLE_B];
    assert EXAMPLE.children[..2] == [EXAMPLE_A, EXAMPLE_B];
  }

  lemma ExampleFormats()
    ensures FormatBytes(500) == "500 B"
    ensures FormatBytes(2000) == "2.0 KiB"
    ensures FormatBytes(0) == "0 B"
  {
    assert Decimal.NatToString(500) == "500" by {
      assert Decimal.NatToString(5) == "5";
      assert Decimal.NatToString(50) == "50";
    }
    ThresholdValues();
    assert UnitFrom(2000, 0) == 0 && Tenths(2000) == 20;
    assert Decimal.NatToString(2) == "2";
    assert Decimal.NatToString(0) == "0";
  }

  lemma ExampleFileLines()
    ensures FileLines(0, [EXAMPLE_A, EXAMPLE_B])
      == [FileSizeDetails("a 500 B\n", 500), FileSizeDetails("b 2.0 KiB\n", 2000)]
  {
    ExampleFormats();
    assert [EXAMPLE_A, EXAMPLE_B][..1] == [EXAMPLE_A];
    assert PrintFileDetails(0, "a", 500) == "a 500 B\n";
    assert PrintFileDetails(0, "b", 2000) == "b 2.0 KiB\n";
  }

  lemma {:induction false} ExampleSubdirectory(path: seq<nat>, cfg: Config, active: ActiveCount)
    ensures SubdirResults(EXAMPLE, 0, path, cfg, active, 1) == [FileSizeDetails("c 0 B\n", 0)]
  {
    ExamplePartition();
    ExampleFormats();
    Sentinels(EXAMPLE_C, 1, path + [0], cfg, active);
    assert PrintFileDetails(0, "c", 0) == "c 0 B\n";
    assert SubdirEntry(EXAMPLE, 0, path, cfg, active, 0) == FileSizeDetails("c 0 B\n", 0);
  }

  lemma {:induction false} ExampleMergeList(path: seq<nat>, cfg: Config, active: ActiveCount)
    requires !cfg.onlyDirs
    ensures !HasUnreadable(Files(EXAMPLE.children))
    ensures MergeList(EXAMPLE, 0, path, cfg, active)
      == [FileSizeDetails("c 0 B\n", 0), FileSizeDetails("a 500 B\n", 500), FileSizeDetails("b 2.0 KiB\n", 2000)]
  {
    ExamplePartition();
    ExampleSubdirectory(path, cfg, active);
    OneSubdirectoryFirst(EXAMPLE, 0, path, cfg, active, FileSizeDetails("c 0 B\n", 0));
    ExampleFileLines();
  }

  /** With a single subdirectory, the merge list is its entry followed by the file lines. */
  lemma {:induction false} OneSubdirectoryFirst(e: Entry, depth: nat, path: seq<nat>, cfg: Config, active: ActiveCount, sub: FileSizeDetails)
    requires e.Dir? && !HasUnreadable(Files(e.children)) && !cfg.onlyDirs
    requires |Directories(e.children)| == 1 && SubdirResults(e, depth, path, cfg, active, 1) == [sub]
    ensures var fs := Files(e.children);
      (forall i :: 0 <= i < |fs| ==> fs[i].File?)
      && MergeList(e, depth, path, cfg, active) == [sub] + FileLines(depth, fs)
  {
    var fs := Files(e.children);
    FilesAreChildren(e.children);
    assert forall i :: 0 <= i < |fs| ==> fs[i].File? by {
      forall i | 0 <= i < |fs| ensures fs[i].File? { assert fs[i] in fs; }
    }
    var gate := GateDecisions(1, path, cfg, active);
    SelectedAppend([], [], sub, gate[0]);
    assert [sub] == [] + [sub] && gate == [] + [gate[0]];
    assert Selected([sub], gate, false) + Selected([sub], gate, true) == [sub];
  }

  lemma {:induction false} ExampleSort(lineC: FileSizeDetails, lineA: FileSizeDetails, lineB: FileSizeDetails)
    requires lineC.size < lineA.size < lineB.size
    ensures SortBySizeDesc([lineC, lineA, lineB]) == [lineB, lineA, lineC]
  {
    assert [lineB][1..] == [];
    assert SortBySizeDesc([lineB]) == [lineB];
    assert Insert(lineA, [lineB]) == [lineB, lineA];
    assert [lineA, lineB][1..] == [lineB];
    assert SortBySizeDesc([lineA, lineB]) == [lineB, lineA];
    assert [lineA][1..] == [];
    assert Insert(lineC, [lineA]) == [lineA, lineC];
    assert [lineB, lineA][1..] == [lineA];
    assert Insert(lineC, [lineB, lineA]) == [lineB, lineA, lineC];
    assert [lineC, lineA, lineB][1..] == [lineA, lineB];
  }

  lemma ExampleSize()
    ensures DirectorySize(EXAMPLE) == 2500
  {
    ExamplePartition();
    Sentinels(EXAMPLE_C, 0, [], Config(false, 0, false, 0), _ => 0);
    WalkSizeIsTreeSize(EXAMPLE_C, 0, [], Config(false, 0, false, 0), _ => 0);
    assert SubdirSizes(EXAMPLE, 1) == 0;
    assert [EXAMPLE_A, EXAMPLE_B][..1] == [EXAMPLE_A];
    assert FileBytes([EXAMPLE_A, EXAMPLE_B]) == 2500;
    WrapIsCongruent(2500);
  }
}
