/**
 * An in-memory snapshot of the file system the walk lists. Listing order is the order of
 * `children`; what `File.listFiles`, `File.isDirectory` and `Files.size` would answer is fixed by
 * the constructor of each entry.
 */
module FsTree {
  import opened Longs

  /** What `Files.size` can return: a non-negative `long`. */
  type FileSize = x: int | 0 <= x <= 0x7fff_ffff_ffff_ffff

  datatype Entry =
    | File(name: string, size: FileSize)        // a non-directory whose size can be read
    | UnreadableFile(name: string)              // a non-directory whose `Files.size` throws
    | Dir(name: string, children: seq<Entry>)   // a directory that `listFiles` can list
    | Unlistable(name: string)                  // a directory whose `listFiles` returns null

  /** `File.isDirectory`. */
  predicate IsDirectory(e: Entry) {
    e.Dir? || e.Unlistable?
  }

  /** The `directories` list: the children that are directories, in listing order. */
  function Directories(cs: seq<Entry>): (ds: seq<Entry>)
    ensures |ds| <= |cs|
  {
    if cs == [] then []
    else Directories(cs[..|cs| - 1]) + (if IsDirectory(cs[|cs| - 1]) then [cs[|cs| - 1]] else [])
  }

  /** The `files` list: the children that are not directories, in listing order. */
  function Files(cs: seq<Entry>): (fs: seq<Entry>)
    ensures |fs| <= |cs|
  {
    if cs == [] then []
    else Files(cs[..|cs| - 1]) + (if IsDirectory(cs[|cs| - 1]) then [] else [cs[|cs| - 1]])
  }

  /** Each entry of `directories` is a directory taken from the listing. */
  lemma {:induction false} DirectoryIsChild(cs: seq<Entry>, i: nat)
    requires i < |Directories(cs)|
    ensures Directories(cs)[i] in cs && IsDirectory(Directories(cs)[i])
    decreases |cs|
  {
    var init := cs[..|cs| - 1];
    if i < |Directories(init)| {
      DirectoryIsChild(init, i);
      assert Directories(cs)[i] == Directories(init)[i];
    }
  }

  /** Each entry of `files` is a non-directory taken from the listing. */
  lemma {:induction false} FilesAreChildren(cs: seq<Entry>)
    ensures forall i :: 0 <= i < |Files(cs)| ==> Files(cs)[i] in cs && !IsDirectory(Files(cs)[i])
    decreases |cs|
  {
    if cs != [] {
      var init := cs[..|cs| - 1];
      FilesAreChildren(init);
      forall i | 0 <= i < |Files(cs)|
        ensures Files(cs)[i] in cs && !IsDirectory(Files(cs)[i])
      {
        if i < |Files(init)| {
          assert Files(cs)[i] == Files(init)[i];
          assert Files(init)[i] in init;
        }
      }
    }
  }

  /** Splitting the listing into directories and files loses and duplicates nothing. */
  lemma {:induction false} PartitionIsComplete(cs: seq<Entry>)
    ensures |Directories(cs)| + |Files(cs)| == |cs|
    ensures multiset(Directories(cs)) + multiset(Files(cs)) == multiset(cs)
  {
    if cs != [] {
      var init, last := cs[..|cs| - 1], cs[|cs| - 1];
      PartitionIsComplete(init);
      assert cs == init + [last];
      assert multiset(cs) == multiset(init) + multiset{last};
      if IsDirectory(last) {
        assert Directories(cs) == Directories(init) + [last];
        assert Files(cs) == Files(init) + [] == Files(init);
        assert multiset(Directories(cs)) == multiset(Directories(init)) + multiset{last};
      } else {
        assert Files(cs) == Files(init) + [last];
        assert Directories(cs) == Directories(init) + [] == Directories(init);
        assert multiset(Files(cs)) == multiset(Files(init)) + multiset{last};
      }
    }
  }

  /** Some entry's size cannot be read. */
  predicate HasUnreadable(fs: seq<Entry>) {
    exists i :: 0 <= i < |fs| && fs[i].UnreadableFile?
  }

  /** Bytes of the readable files in `fs`. */
  function FileBytes(fs: seq<Entry>): nat
  {
    if fs == [] then 0
    else FileBytes(fs[..|fs| - 1]) + (if fs[|fs| - 1].File? then fs[|fs| - 1].size else 0)
  }

  /** How many files' sizes are read before the first unreadable one stops the listing. */
  function ReadBeforeFailure(fs: seq<Entry>): (n: nat)
    ensures n <= |fs|
    ensures (forall f :: f in fs ==> f.File?) ==> n == |fs|
  {
    if fs == [] then 0
    else
      var init := fs[..|fs| - 1];
      assert forall i :: 0 <= i < |init| ==> init[i] == fs[i];
      ReadBeforeFailure(init) + (if fs[|fs| - 1].File? && !HasUnreadable(init) then 1 else 0)
  }

  /** Once an unreadable file is met, no later file is read. */
  lemma {:induction false} ReadStopsAtFailure(fs: seq<Entry>, k: nat)
    requires k < |fs| && fs[k].UnreadableFile?
    requires forall i :: 0 <= i < k ==> fs[i].File?
    ensures ReadBeforeFailure(fs) == k && HasUnreadable(fs)
    decreases |fs|
  {
    var init := fs[..|fs| - 1];
    if k < |fs| - 1 {
      ReadStopsAtFailure(init, k);
      assert init[k].UnreadableFile?;
    } else {
      assert init == fs[..k];
      assert ReadBeforeFailure(fs[..k]) == k by { AllReadable(fs[..k]); }
    }
  }

  lemma {:induction false} AllReadable(fs: seq<Entry>)
    requires forall i :: 0 <= i < |fs| ==> fs[i].File?
    ensures ReadBeforeFailure(fs) == |fs| && !HasUnreadable(fs)
  {
    assert forall f :: f in fs ==> f.File?;
  }
}
