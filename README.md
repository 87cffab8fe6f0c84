# svalka: a verified model of the parallel disk-usage walker

The program walks a directory tree and prints an indented report. Each directory lists its
subdirectories and files, largest first, with a human-readable size (`2.0 KiB`, `500 B`). It also
totals the bytes of the whole tree. Subdirectories may be handed to a fixed thread pool. A gate sends
one to the pool when `-parallel` is on and the pool reports fewer active threads than its core size;
otherwise the subdirectory is walked inline. Three process-wide counters record what happened:
`filesFound`, `parallelAllowed` and `parallelSkipped`.

The model has seven modules:

- `Longs`: Java `long` arithmetic, including the wrap-around of `AtomicLong.addAndGet`.
- `Decimal`: `Long.toString`.
- `SizeFormat`: `humanReadableByteCountBin`, the shifting loop, the unit thresholds and `%.1f` rounding.
- `FsTree`: the file system as an immutable tree of entries. A `File` has a readable size. An
  `UnreadableFile` makes `Files.size` throw. A `Dir` can be listed. An `Unlistable` entry makes
  `listFiles` return `null`.
- `SizeSort`: the record `FileSizeDetails` (Main.java:167-177) as a datatype of its `content` and
  `size`, and the stable sort by size, descending. The record's `toString` is its `content`, which
  is what the rendering loop appends.
- `Walker`: `printFilesInDirectoryParallel` and `printFileDetails`, plus the `Stats` class that holds
  the three counters. The functions `Walk` and `Counters` state what one call returns and what it
  adds to the counters. The method `PrintFilesInDirectoryParallel` follows `printFilesInDirectoryParallel` loop by loop:
  the gated subdirectory loop, the join, the loop over subdirectory sizes, the loop over files, the
  sort and the rendering loop. Its contract proves it agrees with `Walk` and `Counters`.
- `WalkerProperties`: properties of whole walks. These cover the reported size as `TotalBytes` reduced
  to a `long`. `TotalBytes` adds up the sizes of the readable files, leaving out every directory
  that ends in `*ERROR` together with its whole subtree. They also cover what each counter counts, what the settings and the gate can change,
  the three sentinels, and a worked example (files of 500 and 2000 bytes beside an empty directory).

The thread pool is modelled by the outcome of its tasks. An admitted subdirectory is walked by the
same recursive call, and its entry joins the merge list after every inline entry, in submission
order. That is the order in which `tasksResults` is joined. The gate's view of the pool
(`getActiveCount()`) is a parameter `active`, a function from the subdirectory's position in the
tree to the count observed there. All contracts hold for every such function.

Entries of equal size do not keep listing order. The code builds the merge list as the inline
subdirectory entries, then the pool entries, then the file lines, and the stable sort keeps that
order among ties (`MergeList`, `ReportIsSortedMergeList`). `GateOnlyReordersTies` shows that in one
directory whose entries all differ in size, the gate does not change the sorted list.

## Model

| member | source | states |
|---|---|---|
| Longs.WrapIsCongruent | src/main/java/ru/baldenna/Main.java:62 | Reducing an integer to a `long` keeps its value modulo 2^64, and leaves values in range unchanged |
| Longs.AddLongIsModularSum | src/main/java/ru/baldenna/Main.java:105 | `addAndGet` on `long` is addition modulo 2^64; it is exact when the sum fits, and a positive overflow subtracts 2^64 |
| Longs.CongruentLongsEqual | src/main/java/ru/baldenna/Main.java:62 | Two `long` values with the same residue modulo 2^64 are equal |
| Longs.WrapCongruent | src/main/java/ru/baldenna/Main.java:125 | Wrapping depends only on the residue modulo 2^64 |
| Longs.WrapAddLeft | src/main/java/ru/baldenna/Main.java:125 | Adding to an already wrapped total and wrapping gives the same as wrapping the exact sum |
| Decimal.NatToStringIsNumeral | src/main/java/ru/baldenna/Main.java:155 | The decimal numeral of a count is non-empty and all digits, with a leading zero only for 0 |
| Decimal.ParseNatToString | src/main/java/ru/baldenna/Main.java:155 | Reading a rendered numeral back gives the number: the rendering is injective |
| Decimal.LongToStringRoundTrip | src/main/java/ru/baldenna/Main.java:155 | `Long.toString` starts with '-' exactly for negative values, and its digits read back as the magnitude |
| FsTree.Files | src/main/java/ru/baldenna/Main.java:70 | The `files` list; `FilesAreChildren`, `PartitionIsComplete` and `ReadBeforeFailure` characterise it |
| FsTree.Directories | src/main/java/ru/baldenna/Main.java:71 | The `directories` list; `DirectoryIsChild` and `PartitionIsComplete` characterise it |
| FsTree.PartitionIsComplete | src/main/java/ru/baldenna/Main.java:70-71 | The `files` and `directories` lists together hold every listed entry exactly once |
| FsTree.DirectoryIsChild | src/main/java/ru/baldenna/Main.java:71 | Each entry of `directories` is a listed entry for which `isDirectory` holds |
| FsTree.FilesAreChildren | src/main/java/ru/baldenna/Main.java:70 | Each entry of `files` is a listed entry for which `isDirectory` fails |
| FsTree.ReadBeforeFailure | src/main/java/ru/baldenna/Main.java:111-126 | The number of file sizes read is at most the number of files, and equals it when every size is readable |
| FsTree.ReadStopsAtFailure | src/main/java/ru/baldenna/Main.java:115 | When the first unreadable file is at position k, exactly k sizes are read, and the directory counts as having an unreadable file |
| FsTree.AllReadable | src/main/java/ru/baldenna/Main.java:111-126 | When every size can be read, all of them are read and there is no failure |
| SizeFormat.RenderScaled | src/main/java/ru/baldenna/Main.java:164 | The `"%.1f %ciB"` text of a shifted value; `TenthsRoundsHalfUp`, `RenderScaledEnding` and `NegativeMirrorsPositive` characterise it |
| SizeFormat.FormatBytes | src/main/java/ru/baldenna/Main.java:152-165 | The text of `humanReadableByteCountBin`; `HumanReadableByteCountBin`, `UnitIsSmallestFitting`, `ScaledMagnitudeBounds`, `UnitSuffix`, `NegativeMirrorsPositive` and `ExtremeValues` characterise it |
| SizeFormat.AbsBytes | src/main/java/ru/baldenna/Main.java:153 | `absB` is the magnitude of `bytes`, except that `Long.MIN_VALUE` maps to `Long.MAX_VALUE`, so it always fits in a `long` |
| SizeFormat.HumanReadableByteCountBin | src/main/java/ru/baldenna/Main.java:152-165 | The method, written with the `for` loop of `humanReadableByteCountBin`, returns the text `FormatBytes` specifies |
| SizeFormat.ShiftToUnit | src/main/java/ru/baldenna/Main.java:157-162 | The shifting loop ends on the unit `UnitFrom` picks, with `value` shifted right by 10 once per unit step |
| SizeFormat.UnitFromIsFirstFit | src/main/java/ru/baldenna/Main.java:159 | The loop stops at the first unit whose threshold `0xfffccccccccccccL >> i` is not exceeded; every earlier threshold is exceeded |
| SizeFormat.TenthsRoundsHalfUp | src/main/java/ru/baldenna/Main.java:164 | The printed tenths are `value / 1024` rounded to the nearest tenth, ties upward, as `%.1f` does |
| SizeFormat.ThresholdValues | src/main/java/ru/baldenna/Main.java:159 | The five thresholds have their exact values, and `Long.MAX_VALUE` shifted five times is 8191 |
| SizeFormat.ScaledMagnitudeBounds | src/main/java/ru/baldenna/Main.java:157-164 | From 1024 bytes on, the shifted value lies between 1023 and 0xfffcc, so the printed number runs from 1.0 to 1023.9 and never shows 1024.0 |
| SizeFormat.ThresholdIsExact | src/main/java/ru/baldenna/Main.java:159 | Not exceeding threshold k holds exactly when the exact magnitude in unit k rounds below 1024.0 (both directions) |
| SizeFormat.UnitIsSmallestFitting | src/main/java/ru/baldenna/Main.java:158-162 | The chosen unit is the smallest one in which the exact magnitude rounds below 1024.0, with EiB as the fallback. The printed number comes from the truncating shift, so it can differ from that exact magnitude |
| SizeFormat.NegativeMirrorsPositive | src/main/java/ru/baldenna/Main.java:153-164 | A negative count renders as its magnitude's text with a leading minus sign |
| SizeFormat.UnitSuffix | src/main/java/ru/baldenna/Main.java:154-164 | Below 1024 bytes the text ends in " B"; from there on it ends in " ", a unit from K to E, and "iB" |
| SizeFormat.PlainUnitSuffix | src/main/java/ru/baldenna/Main.java:154-156 | Below 1024 bytes the text ends in " B" |
| SizeFormat.ScaledUnitSuffix | src/main/java/ru/baldenna/Main.java:157-164 | From 1024 bytes on, the text ends in a space, a unit letter from "KMGTPE" and "iB" |
| SizeFormat.RenderScaledEnding | src/main/java/ru/baldenna/Main.java:164 | The `"%.1f %ciB"` text ends in a space, the unit character and "iB" |
| SizeFormat.ExtremeValues | src/main/java/ru/baldenna/Main.java:153 | `Long.MIN_VALUE` renders without overflow as "-8.0 EiB", and `Long.MAX_VALUE` as "8.0 EiB" |
| SizeFormat.ExampleZero | src/main/java/ru/baldenna/Main.java:154-155 | 0 bytes render as "0 B" |
| SizeFormat.ExampleKibibyte | src/main/java/ru/baldenna/Main.java:157-164 | 1024 bytes render as "1.0 KiB" |
| SizeFormat.ExampleMebibyte | src/main/java/ru/baldenna/Main.java:157-164 | 1048576 bytes render as "1.0 MiB" |
| SizeFormat.ExampleNegative | src/main/java/ru/baldenna/Main.java:163-164 | -2048 bytes render as "-2.0 KiB" |
| SizeSort.SortBySizeDesc | src/main/java/ru/baldenna/Main.java:128 | `fileDetails.sort` by size, reversed; `SortBySizeDescSortsAndPermutes`, `SortIsStable` and `StableSortIsUnique` characterise it |
| SizeSort.WithSizeMembers | src/main/java/ru/baldenna/Main.java:128 | The entries of one size class are exactly the entries of the list with that size |
| SizeSort.InsertPermutes | src/main/java/ru/baldenna/Main.java:128 | One insertion step adds exactly the inserted entry |
| SizeSort.InsertDescending | src/main/java/ru/baldenna/Main.java:128 | Inserting into a non-increasing list keeps it non-increasing |
| SizeSort.InsertKeepsOtherSizes | src/main/java/ru/baldenna/Main.java:128 | Inserting places the entry in front of the entries of its own size already in the list and leaves every other size class unchanged |
| SizeSort.SortBySizeDescSortsAndPermutes | src/main/java/ru/baldenna/Main.java:128 | The sorted list is non-increasing by size and is a permutation of the input |
| SizeSort.SortIsStable | src/main/java/ru/baldenna/Main.java:128 | For every size, the sorted list keeps the entries of that size in their input order |
| SizeSort.DescendingDeterminedBySizeClasses | src/main/java/ru/baldenna/Main.java:128 | Two non-increasing lists with the same entries of every size, in the same order, are equal |
| SizeSort.StableSortIsUnique | src/main/java/ru/baldenna/Main.java:128 | Any stable descending sort of the list, such as `List.sort` with the reversed size comparator, gives the same list |
| SizeSort.SortIgnoresOrderOfDistinctSizes | src/main/java/ru/baldenna/Main.java:128 | When no two entries share a size, the sorted list depends only on which entries there are, not on their order |
| Walker.Admit | src/main/java/ru/baldenna/Main.java:77 | The gate: admits exactly when `-parallel` is on and the pool reports fewer active threads than its core size; `GateClosedWhenSequential` and `SubmitSubdirectories` use it |
| Walker.PrintFileDetails | src/main/java/ru/baldenna/Main.java:143-149 | `printFileDetails`; `PrintFileDetailsIsIndented` and `SubdirectoryHeader` characterise it |
| Walker.Walk | src/main/java/ru/baldenna/Main.java:60-140 | What `printFilesInDirectoryParallel` returns; `PrintFilesInDirectoryParallel`, `WalkSizeIsTotalBytes`, `ReportIsSortedMergeList`, `DepthCutoff`, `Sentinels` and `ExampleReport` characterise it |
| Walker.Counters | src/main/java/ru/baldenna/Main.java:77-122 | What one call adds to the three counters; `PrintFilesInDirectoryParallel` and `CountersCountEntries` characterise it |
| Walker.PrintFileDetailsIsIndented | src/main/java/ru/baldenna/Main.java:143-149 | A line at depth d is 2·d spaces (`nCopies(depth, "  ")` joined), then the name, a space, the formatted size and a newline; one more level adds exactly two leading spaces |
| Walker.FileLines | src/main/java/ru/baldenna/Main.java:116-119 | There is one list entry per readable file |
| Walker.GateDecisions | src/main/java/ru/baldenna/Main.java:77 | There is one gate decision per subdirectory |
| Walker.SubdirResults | src/main/java/ru/baldenna/Main.java:74-93 | There is one entry per subdirectory |
| Walker.SubdirResultsInListingOrder | src/main/java/ru/baldenna/Main.java:74-93 | Entry i is subdirectory i's entry: the results keep listing order |
| Walker.Stats.constructor | src/main/java/ru/baldenna/Main.java:18-20 | The three counters start at zero |
| Walker.Stats.IncrementFilesFound | src/main/java/ru/baldenna/Main.java:122 | `filesFound` goes up by one and the other counters stay the same |
| Walker.Stats.IncrementParallelAllowed | src/main/java/ru/baldenna/Main.java:78 | `parallelAllowed` goes up by one and the other counters stay the same |
| Walker.Stats.IncrementParallelSkipped | src/main/java/ru/baldenna/Main.java:87 | `parallelSkipped` goes up by one and the other counters stay the same |
| Walker.PrintFilesInDirectoryParallel | src/main/java/ru/baldenna/Main.java:60-140 | The method returns `Walk`'s result: the `*EMPTY` or `*ERROR` sentinel, or the rendered sorted merge list with the directory size. It adds exactly `Counters` to the three counters, even on the error path |
| Walker.CollectEntries | src/main/java/ru/baldenna/Main.java:62-126 | Before the sort: `readAll` is false exactly when some file is unreadable. Otherwise `fileDetails` is the merge list and `directorySize` the directory size. The counters grow by `Counters` in every case |
| Walker.CollectSubdirectories | src/main/java/ru/baldenna/Main.java:73-109 | The joined list is the inline entries followed by the pool entries. The size is the wrapped sum of the subtree sizes. Each gate decision and each subdirectory result is counted once |
| Walker.SubmitSubdirectories | src/main/java/ru/baldenna/Main.java:74-93 | Entries the gate refuses land in `fileDetails`, admitted ones in `tasksResults`, each in listing order. The counters grow by the loop's tally |
| Walker.VisitSubdirectory | src/main/java/ru/baldenna/Main.java:75-92 | One turn of the loop: the decision is the gate's. The entry is the subdirectory's header line plus its report. The tally is one gate tick plus the nested walk's counts |
| Walker.SubdirectoryEntry | src/main/java/ru/baldenna/Main.java:88-91 | The nested walk, then the header line at the parent's depth with the nested size, followed by the nested report |
| Walker.JoinTasks | src/main/java/ru/baldenna/Main.java:95-102 | Pool results are appended after the inline entries, in submission order |
| Walker.AddDirectoryResults | src/main/java/ru/baldenna/Main.java:104-109 | `directorySize` is the wrapped sum of the entries' sizes, and `filesFound` grows by the number of entries |
| Walker.AddFiles | src/main/java/ru/baldenna/Main.java:111-126 | The loop reads files until the first unreadable one and counts each file it reads. When all are read, every line is appended unless `onlyDirs`, and every size is added with wrap-around |
| Walker.ReadFile | src/main/java/ru/baldenna/Main.java:112-125 | One readable file: its line is appended unless `onlyDirs`, and its size is added to the running total |
| Walker.ReadEveryFile | src/main/java/ru/baldenna/Main.java:111-126 | After the last turn every file was read, listed and added, and none was unreadable |
| Walker.Render | src/main/java/ru/baldenna/Main.java:130-134 | `printer` is the concatenation of every entry's text within the depth limit, and empty past it |
| Walker.SelectedLengths | src/main/java/ru/baldenna/Main.java:74-93 | The gate's two sides hold as many entries as there are subdirectories |
| Walker.SelectedSums | src/main/java/ru/baldenna/Main.java:104-105 | The sizes on the gate's two sides add up to the sizes of all entries |
| Walker.SelectedPermutation | src/main/java/ru/baldenna/Main.java:74-102 | Splitting by the gate loses and duplicates no entry |
| Walker.SelectedAppend | src/main/java/ru/baldenna/Main.java:85-91 | A new subdirectory's entry goes to the end of its own side only |
| Walker.AddedInOrder | src/main/java/ru/baldenna/Main.java:104-105 | One turn of the size loop adds the next entry's size with wrap-around |
| Walker.FileAddedInOrder | src/main/java/ru/baldenna/Main.java:116-125 | One turn of the file loop adds the file's line and its size with wrap-around |
| Walker.SubdirResultsSizes | src/main/java/ru/baldenna/Main.java:80-91 | The subdirectory entries' sizes add up to the subtree sizes |
| WalkerProperties.TreeSizeWrapsTotal | src/main/java/ru/baldenna/Main.java:105 | Summing sizes that were each wrapped to 64 bits gives `TotalBytes` (the readable files outside any directory that ends in `*ERROR`), wrapped once |
| WalkerProperties.SubdirSizesCongruent | src/main/java/ru/baldenna/Main.java:105 | The subtree sizes agree with the exact subtree totals modulo 2^64 |
| WalkerProperties.WalkSizeIsTotalBytes | src/main/java/ru/baldenna/Main.java:60-140 | The reported size is the byte total of the readable files outside any directory that ends in `*ERROR` (`TotalBytes`), reduced to a `long`, and equals that total whenever it fits |
| WalkerProperties.SizeIgnoresSettings | src/main/java/ru/baldenna/Main.java:62-135 | Depth, `--only-dirs`, `-max-depth` and the gate never change the reported size |
| WalkerProperties.FilesOfListedDirectory | src/main/java/ru/baldenna/Main.java:115 | In a directory without an unreadable file, every file has a readable size |
| WalkerProperties.MergeListEntries | src/main/java/ru/baldenna/Main.java:73-126 | The merge list has one entry per subdirectory and, unless `onlyDirs`, one line per file, and nothing else |
| WalkerProperties.GateClosedWhenSequential | src/main/java/ru/baldenna/Main.java:77 | Without `-parallel` the gate never admits |
| WalkerProperties.SelectedAllInline | src/main/java/ru/baldenna/Main.java:86-91 | When nothing is admitted, every entry stays inline, in order |
| WalkerProperties.SequentialMergeOrder | src/main/java/ru/baldenna/Main.java:74-126 | Without `-parallel`, the merge list is the subdirectory entries in listing order followed by the file lines |
| WalkerProperties.SequentialWalkIsDeterministic | src/main/java/ru/baldenna/Main.java:77 | Without `-parallel` the result does not depend on what the pool reports |
| WalkerProperties.SubdirResultsIgnorePool | src/main/java/ru/baldenna/Main.java:77-91 | Without `-parallel` the subdirectory entries do not depend on what the pool reports |
| WalkerProperties.GateOnlyReordersTies | src/main/java/ru/baldenna/Main.java:95-128 | When all sizes differ, every pair of gate outcomes gives the same sorted list |
| WalkerProperties.ReportIsSortedMergeList | src/main/java/ru/baldenna/Main.java:128-135 | Within the depth limit the report is the merge list sorted: non-increasing, a permutation, and ties kept in merge-list order |
| WalkerProperties.DepthCutoff | src/main/java/ru/baldenna/Main.java:130-135 | Past the depth limit a directory prints nothing but still reports its full size |
| WalkerProperties.SubdirectoryHeader | src/main/java/ru/baldenna/Main.java:81-90 | A subdirectory's entry is its indented header line with its total size, followed by its own report |
| WalkerProperties.Sentinels | src/main/java/ru/baldenna/Main.java:66-139 | An unlistable directory gives `name*EMPTY`, an unreadable file gives `name*ERROR`, both of size 0. An empty directory gives no text and size 0 |
| WalkerProperties.CountersCountEntries | src/main/java/ru/baldenna/Main.java:77-122 | Each subdirectory met bumps exactly one gate counter. `filesFound` counts every subdirectory and every file read. Without `-parallel` nothing is allowed |
| WalkerProperties.LoopCountsEntries | src/main/java/ru/baldenna/Main.java:74-92 | The subdirectory loop's counts over its first n turns match the subdirectories and files met below them |
| WalkerProperties.ExampleReport | src/main/java/ru/baldenna/Main.java:60-140 | Files `a` (500 B) and `b` (2000 B) with an empty directory `c` report "b 2.0 KiB", "a 500 B", "c 0 B" and 2500 bytes, whatever the gate decides |
| WalkerProperties.ExampleConcat | src/main/java/ru/baldenna/Main.java:130-134 | The example's three lines concatenate to the report text |
| WalkerProperties.ExamplePartition | src/main/java/ru/baldenna/Main.java:70-71 | The example splits into the directory `c` and the files `a` and `b` |
| WalkerProperties.ExampleDirectories | src/main/java/ru/baldenna/Main.java:71 | The example's `directories` list is `c` |
| WalkerProperties.ExampleFiles | src/main/java/ru/baldenna/Main.java:70 | The example's `files` list is `a`, `b` |
| WalkerProperties.ExampleFormats | src/main/java/ru/baldenna/Main.java:152-165 | 500, 2000 and 0 bytes render as "500 B", "2.0 KiB" and "0 B" |
| WalkerProperties.ExampleFileLines | src/main/java/ru/baldenna/Main.java:116-119 | The example's file lines are "a 500 B" and "b 2.0 KiB" with their sizes |
| WalkerProperties.ExampleSubdirectory | src/main/java/ru/baldenna/Main.java:88-91 | The empty subdirectory's entry is "c 0 B" with size 0 |
| WalkerProperties.ExampleMergeList | src/main/java/ru/baldenna/Main.java:73-126 | The example's merge list is `c`, then `a`, then `b` |
| WalkerProperties.OneSubdirectoryFirst | src/main/java/ru/baldenna/Main.java:95-119 | With a single subdirectory, its entry comes before the file lines, whichever side of the gate it took |
| WalkerProperties.ExampleSort | src/main/java/ru/baldenna/Main.java:128 | Three entries of increasing size sort into reverse order |
| WalkerProperties.ExampleSize | src/main/java/ru/baldenna/Main.java:104-125 | The example directory's size is 2500 |

## Left out

- The file system: `listFiles`, `isDirectory` and `Files.size` are answered by an immutable tree
  of entries. Changes to the disk during the walk, symbolic links and the listing order the
  operating system picks are not modelled.
- Concurrency: a pool task is modelled by running the same recursive call to completion. Its result
  is placed where the join puts it. What the gate sees of the pool is the parameter `active`.
  Interleavings of tasks and the real values of `getActiveCount()` are not modelled.
- The branch at Main.java:99-101, where retrieving a task's result throws and the subtree is
  dropped, is not modelled. The walk catches every `Exception` itself, so a task fails there only
  through an interrupt or an `Error`. Neither is modelled.
- Progress and diagnostic printing is not modelled: "Processed files" every 10000 files, the
  "Cancelled" message and exception messages. The error path's text and size are modelled.
- `main` (Main.java:22-58) is not part of this model: argument parsing, pool creation and the
  summary lines. That includes the throughput line, where `Math.min(elapsedSeconds, 1)` makes the
  denominator 0 for runs under one second, so the division throws.
- Walker.Stats.constructor and the three `Walker.Stats.Increment…` methods: the counters are
  unbounded `nat`s. `AtomicLong` wrap-around after 2^63 increments is not modelled.
- SizeFormat.RenderScaled: uses '.' as the decimal separator. `String.format` uses the default
  locale's separator.
- Walker.PrintFileDetails: the depth is a `nat`. `nCopies` would throw on a negative depth, but the
  walk only starts at 0 and adds 1.
- Walker.PrintFilesInDirectoryParallel: `printFilesInDirectoryParallel` is split into helper methods
  (`CollectEntries`, `CollectSubdirectories`, `SubmitSubdirectories`, `VisitSubdirectory`,
  `SubdirectoryEntry`, `JoinTasks`, `AddDirectoryResults`, `AddFiles`, `ReadFile`, `Render`), one
  per loop or loop body, in the order they appear in Main.java.
- WalkerProperties.GateOnlyReordersTies: proved for one directory's list, and only when all sizes
  in it differ. With equal sizes, the gate can change the order of ties.
- The build files and the other classes of the repository are not part of this model.
