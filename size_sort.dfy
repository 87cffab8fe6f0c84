/**
 * The `FileSizeDetails` record and `fileDetails.sort(Comparator.comparing(FileSizeDetails::size).reversed())`.
 *
 * `List.sort` is stable, so the sort is specified by three facts: the result is non-increasing by
 * size, it is a permutation of the input, and the entries of any one size keep their input order.
 * `SortBySizeDesc` is an insertion sort with exactly these properties, and `StableSortIsUnique`
 * shows that they determine the result, so any stable sort computes the same list.
 */
module SizeSort {
  import opened Longs

  /** One rendered subtree (or file line) with its byte total; `toString` is `content`. */
  datatype FileSizeDetails = FileSizeDetails(content: string, size: Long)

  predicate Descending(s: seq<FileSizeDetails>) {
    forall i, j :: 0 <= i < j < |s| ==> s[i].size >= s[j].size
  }

  /** The entries of `s` whose size is `v`, in their order in `s`. */
  function WithSize(s: seq<FileSizeDetails>, v: int): (r: seq<FileSizeDetails>)
    ensures |r| <= |s|
  {
    if s == [] then [] else (if s[0].size == v then [s[0]] else []) + WithSize(s[1..], v)
  }

  lemma {:induction false} WithSizeMembers(s: seq<FileSizeDetails>, v: int, y: FileSizeDetails)
    ensures y in WithSize(s, v) <==> y in s && y.size == v
    decreases |s|
  {
    if s != [] {
      WithSizeMembers(s[1..], v, y);
      assert s == [s[0]] + s[1..];
    }
  }

  lemma {:induction false} WithSizeEmpty(s: seq<FileSizeDetails>, v: int)
    requires forall i :: 0 <= i < |s| ==> s[i].size != v
    ensures WithSize(s, v) == []
    decreases |s|
  {
    if s != [] {
      WithSizeEmpty(s[1..], v);
    }
  }

  lemma {:induction false} NonEmptyHasClass(s: seq<FileSizeDetails>)
    ensures s != [] ==> WithSize(s, s[0].size) != []
  {
  }

  /** Places `x` in front of the first entry that is not larger than it. */
  function Insert(x: FileSizeDetails, s: seq<FileSizeDetails>): (r: seq<FileSizeDetails>)
    ensures |r| == |s| + 1
  {
    if s == [] then [x]
    else if s[0].size <= x.size then [x] + s
    else [s[0]] + Insert(x, s[1..])
  }

  /** Inserting adds exactly `x` to the entries. */
  lemma {:induction false} InsertPermutes(x: FileSizeDetails, s: seq<FileSizeDetails>)
    ensures multiset(Insert(x, s)) == multiset(s) + multiset{x}
    decreases |s|
  {
    if s != [] && s[0].size > x.size {
      InsertPermutes(x, s[1..]);
      assert s == [s[0]] + s[1..];
    }
  }

  lemma {:induction false} InsertDescending(x: FileSizeDetails, s: seq<FileSizeDetails>)
    requires Descending(s)
    ensures Descending(Insert(x, s))
    decreases |s|
  {
    if s == [] {
    } else if s[0].size <= x.size {
      ConsDescending(x, s);
    } else {
      InsertDescending(x, s[1..]);
      InsertBounded(x, s[1..], s[0].size);
      ConsDescending(s[0], Insert(x, s[1..]));
    }
  }

  /** Inserting an entry no larger than `b` among entries no larger than `b` keeps them all within `b`. */
  lemma {:induction false} InsertBounded(x: FileSizeDetails, s: seq<FileSizeDetails>, b: int)
    requires x.size <= b && forall i :: 0 <= i < |s| ==> s[i].size <= b
    ensures forall i :: 0 <= i < |Insert(x, s)| ==> Insert(x, s)[i].size <= b
    decreases |s|
  {
    if s != [] && s[0].size > x.size {
      var rest := Insert(x, s[1..]);
      InsertBounded(x, s[1..], b);
      forall i | 0 <= i < |rest| + 1 ensures ([s[0]] + rest)[i].size <= b {
        if i > 0 {
          assert ([s[0]] + rest)[i] == rest[i - 1];
        }
      }
    }
  }

  /** An entry at least as large as every entry of a non-increasing list can go in front of it. */
  lemma {:induction false} ConsDescending(y: FileSizeDetails, t: seq<FileSizeDetails>)
    requires Descending(t) && forall i :: 0 <= i < |t| ==> t[i].size <= y.size
    ensures Descending([y] + t)
  {
    var r := [y] + t;
    forall i, j | 0 <= i < j < |r| ensures r[i].size >= r[j].size {
      assert r[j] == t[j - 1];
      if i > 0 {
        assert r[i] == t[i - 1];
      }
    }
  }

  /** The list after `fileDetails.sort` in `printFilesInDirectoryParallel`: largest first, ties in their original order. */
  function SortBySizeDesc(s: seq<FileSizeDetails>): (r: seq<FileSizeDetails>)
    ensures |r| == |s|
  {
    if s == [] then [] else Insert(s[0], SortBySizeDesc(s[1..]))
  }

  /** The sorted list is non-increasing by size and holds exactly the input's entries. */
  lemma {:induction false} SortBySizeDescSortsAndPermutes(s: seq<FileSizeDetails>)
    ensures Descending(SortBySizeDesc(s))
    ensures multiset(SortBySizeDesc(s)) == multiset(s)
    decreases |s|
  {
    if s != [] {
      SortBySizeDescSortsAndPermutes(s[1..]);
      InsertDescending(s[0], SortBySizeDesc(s[1..]));
      InsertPermutes(s[0], SortBySizeDesc(s[1..]));
      assert s == [s[0]] + s[1..];
    }
  }

  lemma {:induction false} WithSizeCons(y: FileSizeDetails, t: seq<FileSizeDetails>, v: int)
    ensures WithSize([y] + t, v) == (if y.size == v then [y] else []) + WithSize(t, v)
  {
    assert ([y] + t)[0] == y && ([y] + t)[1..] == t;
  }

  lemma {:induction false} InsertKeepsOtherSizes(x: FileSizeDetails, s: seq<FileSizeDetails>, v: int)
    ensures WithSize(Insert(x, s), v) == (if x.size == v then [x] else []) + WithSize(s, v)
    decreases |s|
  {
    if s == [] {
    } else if s[0].size <= x.size {
      WithSizeCons(x, s, v);
    } else {
      var rest := Insert(x, s[1..]);
      var others := WithSize(s[1..], v);
      assert Insert(x, s) == [s[0]] + rest;
      InsertKeepsOtherSizes(x, s[1..], v);
      WithSizeCons(s[0], rest, v);
      WithSizeCons(s[0], s[1..], v);
      assert s == [s[0]] + s[1..];
      if x.size == v {
        assert WithSize(rest, v) == [x] + others;
        assert WithSize(s, v) == others;
      } else if s[0].size == v {
        assert WithSize(rest, v) == others;
        assert WithSize(s, v) == [s[0]] + others;
      } else {
        assert WithSize(rest, v) == others;
        assert WithSize(s, v) == others;
      }
    }
  }

  /** Stability: the sort keeps the relative order of the entries of any one size. */
  lemma {:induction false} SortIsStable(s: seq<FileSizeDetails>, v: int)
    ensures WithSize(SortBySizeDesc(s), v) == WithSize(s, v)
    decreases |s|
  {
    if s != [] {
      SortIsStable(s[1..], v);
      InsertKeepsOtherSizes(s[0], SortBySizeDesc(s[1..]), v);
    }
  }

  /** Two non-increasing lists with the same entries of every size, in the same order, are equal. */
  lemma {:induction false} DescendingDeterminedBySizeClasses(a: seq<FileSizeDetails>, b: seq<FileSizeDetails>)
    requires Descending(a) && Descending(b)
    requires forall v :: WithSize(a, v) == WithSize(b, v)
    ensures a == b
    decreases |a|
  {
    if a == [] || b == [] {
      NonEmptyHasClass(a);
      NonEmptyHasClass(b);
    } else {
      SameFirst(a, b);
      TailsHaveSameClasses(a, b);
      DescendingDeterminedBySizeClasses(a[1..], b[1..]);
      assert a == [a[0]] + a[1..] && b == [b[0]] + b[1..];
    }
  }

  /** Two non-empty non-increasing lists with the same size classes start with the same entry. */
  lemma {:induction false} SameFirst(a: seq<FileSizeDetails>, b: seq<FileSizeDetails>)
    requires a != [] && b != [] && Descending(a) && Descending(b)
    requires forall v :: WithSize(a, v) == WithSize(b, v)
    ensures a[0] == b[0]
  {
    var va, vb := a[0].size, b[0].size;
    assert WithSize(a, va) == WithSize(b, va);
    WithSizeMembers(b, va, a[0]);
    var j :| 0 <= j < |b| && b[j] == a[0];
    assert va <= vb;
    assert WithSize(a, vb) == WithSize(b, vb);
    WithSizeMembers(a, vb, b[0]);
    var k :| 0 <= k < |a| && a[k] == b[0];
    assert vb <= va;
    assert WithSize(a, va) == [a[0]] + WithSize(a[1..], va);
    assert WithSize(b, va) == [b[0]] + WithSize(b[1..], va);
    assert a[0] == WithSize(a, va)[0] == b[0];
  }

  /** Dropping the same first entry from both lists keeps their size classes equal. */
  lemma {:induction false} TailsHaveSameClasses(a: seq<FileSizeDetails>, b: seq<FileSizeDetails>)
    requires a != [] && b != [] && a[0] == b[0]
    requires forall v :: WithSize(a, v) == WithSize(b, v)
    ensures forall u :: WithSize(a[1..], u) == WithSize(b[1..], u)
  {
    forall u
      ensures WithSize(a[1..], u) == WithSize(b[1..], u)
    {
      var head := if a[0].size == u then [a[0]] else [];
      assert WithSize(a, u) == head + WithSize(a[1..], u);
      assert WithSize(b, u) == head + WithSize(b[1..], u);
      assert WithSize(a, u) == WithSize(b, u);
      assert (head + WithSize(a[1..], u))[|head|..] == WithSize(a[1..], u);
      assert (head + WithSize(b[1..], u))[|head|..] == WithSize(b[1..], u);
    }
  }

  /** Any stable descending sort of `s` is `SortBySizeDesc(s)`. */
  lemma {:induction false} StableSortIsUnique(s: seq<FileSizeDetails>, r: seq<FileSizeDetails>)
    requires Descending(r)
    requires forall v :: WithSize(r, v) == WithSize(s, v)
    ensures r == SortBySizeDesc(s)
  {
    forall v ensures WithSize(r, v) == WithSize(SortBySizeDesc(s), v) {
      SortIsStable(s, v);
    }
    SortBySizeDescSortsAndPermutes(s);
    DescendingDeterminedBySizeClasses(r, SortBySizeDesc(s));
  }

  predicate DistinctSizes(s: seq<FileSizeDetails>) {
    forall i, j :: 0 <= i < j < |s| ==> s[i].size != s[j].size
  }

  /** The entries of one size, as a bag, depend only on the bag of all entries. */
  lemma {:induction false} WithSizeMultiset(s: seq<FileSizeDetails>, v: int, y: FileSizeDetails)
    ensures multiset(WithSize(s, v))[y] == if y.size == v then multiset(s)[y] else 0
    decreases |s|
  {
    if s != [] {
      WithSizeMultiset(s[1..], v, y);
      assert s == [s[0]] + s[1..];
    }
  }

  lemma {:induction false} DistinctSizesSingleClass(s: seq<FileSizeDetails>, v: int)
    requires DistinctSizes(s)
    ensures |WithSize(s, v)| <= 1
    decreases |s|
  {
    if s != [] {
      if s[0].size == v {
        forall i | 0 <= i < |s[1..]|
          ensures s[1..][i].size != v
        {
          assert s[1..][i] == s[i + 1];
        }
        WithSizeEmpty(s[1..], v);
      } else {
        DistinctSizesSingleClass(s[1..], v);
      }
    }
  }

  /**
   * When no two entries share a size, the sorted list depends only on which entries there are,
   * not on the order in which they were collected.
   */
  lemma {:induction false} SortIgnoresOrderOfDistinctSizes(s1: seq<FileSizeDetails>, s2: seq<FileSizeDetails>, t: seq<FileSizeDetails>)
    requires DistinctSizes(t)
    requires multiset(s1) == multiset(t) && multiset(s2) == multiset(t)
    ensures SortBySizeDesc(s1) == SortBySizeDesc(s2)
  {
    forall v
      ensures WithSize(s1, v) == WithSize(s2, v)
    {
      SameClassWhenDistinct(s1, s2, t, v);
    }
    forall v
      ensures WithSize(SortBySizeDesc(s2), v) == WithSize(s1, v)
    {
      SortIsStable(s2, v);
    }
    SortBySizeDescSortsAndPermutes(s2);
    StableSortIsUnique(s1, SortBySizeDesc(s2));
  }

  lemma {:induction false} SameClassWhenDistinct(s1: seq<FileSizeDetails>, s2: seq<FileSizeDetails>, t: seq<FileSizeDetails>, v: int)
    requires DistinctSizes(t)
    requires multiset(s1) == multiset(t) && multiset(s2) == multiset(t)
    ensures WithSize(s1, v) == WithSize(s2, v)
  {
    DistinctSizesSingleClass(t, v);
    var w1, w2, wt := WithSize(s1, v), WithSize(s2, v), WithSize(t, v);
    forall y
      ensures multiset(w1)[y] == multiset(wt)[y] && multiset(w2)[y] == multiset(wt)[y]
    {
      WithSizeMultiset(s1, v, y);
      WithSizeMultiset(s2, v, y);
      WithSizeMultiset(t, v, y);
    }
    assert multiset(w1) == multiset(wt) == multiset(w2);
    ShortListsWithSameEntries(w1, w2);
  }

  /** Lists of at most one entry are determined by their bag of entries. */
  lemma {:induction false} ShortListsWithSameEntries(a: seq<FileSizeDetails>, b: seq<FileSizeDetails>)
    requires |a| <= 1 && multiset(a) == multiset(b)
    ensures a == b
  {
    assert |a| == |multiset(a)| && |b| == |multiset(b)|;
    if |a| == 1 {
      assert a[0] in multiset(b);
      assert a == [a[0]] && b == [b[0]];
    }
  }
}
