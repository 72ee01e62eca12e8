/** Oldest-first eviction down to a byte quota, as `enforce_cache_quota` of media-core/src/cas.rs does it. */
module Quota {
  /** The two kinds of file in the store. */
  datatype Path = ChunkFile(hash: string) | ManifestFile(blobHash: string)

  datatype File = File(path: Path, size: nat, mtime: int)

  function Total(files: seq<File>): nat {
    if files == [] then 0 else files[0].size + Total(files[1..])
  }

  ghost predicate OldestFirst(files: seq<File>) {
    forall i, j :: 0 <= i < j < |files| ==> files[i].mtime <= files[j].mtime
  }

  /** Puts a file after all files that are not newer. */
  function Insert(f: File, files: seq<File>): seq<File> {
    if files == [] || f.mtime < files[0].mtime then [f] + files
    else [files[0]] + Insert(f, files[1..])
  }

  lemma {:induction false} InsertKeepsOrder(f: File, files: seq<File>)
    requires OldestFirst(files)
    ensures OldestFirst(Insert(f, files))
    ensures forall x :: x in Insert(f, files) ==> x in files || x == f
  {
    if files != [] && f.mtime >= files[0].mtime {
      var rest := Insert(f, files[1..]);
      InsertKeepsOrder(f, files[1..]);
      forall j | 0 <= j < |rest| ensures files[0].mtime <= rest[j].mtime {
        assert rest[j] in rest;
      }
    }
  }

  lemma {:induction false} InsertAdds(f: File, files: seq<File>)
    ensures multiset(Insert(f, files)) == multiset(files) + multiset{f}
    ensures Total(Insert(f, files)) == Total(files) + f.size
  {
    if files == [] || f.mtime < files[0].mtime {
      assert ([f] + files)[1..] == files;
    } else {
      InsertAdds(f, files[1..]);
      assert files == [files[0]] + files[1..];
      assert ([files[0]] + Insert(f, files[1..]))[1..] == Insert(f, files[1..]);
    }
  }

  function SortedByAge(files: seq<File>): (r: seq<File>)
    ensures OldestFirst(r) && multiset(r) == multiset(files) && Total(r) == Total(files)
  {
    if files == [] then []
    else
      var before, last := files[..|files| - 1], files[|files| - 1];
      assert files == before + [last];
      TotalAppend(before, [last]);
      InsertKeepsOrder(last, SortedByAge(before));
      InsertAdds(last, SortedByAge(before));
      Insert(last, SortedByAge(before))
  }

  function SameAge(files: seq<File>, mtime: int): seq<File> {
    if files == [] then []
    else (if files[0].mtime == mtime then [files[0]] else []) + SameAge(files[1..], mtime)
  }

  lemma {:induction false} InsertIsStable(f: File, files: seq<File>, mtime: int)
    requires OldestFirst(files)
    ensures SameAge(Insert(f, files), mtime) == SameAge(files, mtime) + if f.mtime == mtime then [f] else []
  {
    if files != [] && f.mtime >= files[0].mtime {
      InsertIsStable(f, files[1..], mtime);
      assert ([files[0]] + Insert(f, files[1..]))[1..] == Insert(f, files[1..]);
    } else {
      assert ([f] + files)[1..] == files;
      if f.mtime == mtime {
        NoneOfAge(files, mtime);
      }
    }
  }

  lemma {:induction false} NoneOfAge(files: seq<File>, mtime: int)
    requires forall i :: 0 <= i < |files| ==> files[i].mtime > mtime
    ensures SameAge(files, mtime) == []
  {
    if files != [] {
      NoneOfAge(files[1..], mtime);
    }
  }

  lemma {:induction false} SameAgeAppend(a: seq<File>, b: seq<File>, mtime: int)
    ensures SameAge(a + b, mtime) == SameAge(a, mtime) + SameAge(b, mtime)
  {
    hide SameAge;
    SameAgeNone(mtime);
    if a == [] {
      assert a + b == b;
    } else {
      SameAgeCons(a[0], a[1..], mtime);
      SameAgeCons(a[0], a[1..] + b, mtime);
      assert a == [a[0]] + a[1..];
      assert a + b == [a[0]] + (a[1..] + b);
      SameAgeAppend(a[1..], b, mtime);
    }
  }

  lemma SameAgeNone(mtime: int)
    ensures SameAge([], mtime) == []
  {
  }

  lemma SameAgeCons(f: File, files: seq<File>, mtime: int)
    ensures SameAge([f] + files, mtime) == (if f.mtime == mtime then [f] else []) + SameAge(files, mtime)
  {
    assert ([f] + files)[1..] == files;
  }

  /** Files of one age keep the order of the walk. */
  lemma {:induction false} SortIsStable(files: seq<File>, mtime: int)
    ensures SameAge(SortedByAge(files), mtime) == SameAge(files, mtime)
    decreases |files|
  {
    hide SameAge, Insert;
    if files != [] {
      var before, last := files[..|files| - 1], files[|files| - 1];
      SortIsStable(before, mtime);
      InsertIsStable(last, SortedByAge(before), mtime);
      SameAgeOne(before, last, mtime);
      assert files == before + [last];
    }
  }

  lemma SameAgeOne(files: seq<File>, f: File, mtime: int)
    ensures SameAge(files + [f], mtime) == SameAge(files, mtime) + if f.mtime == mtime then [f] else []
  {
    SameAgeAppend(files, [f], mtime);
    SameAgeCons(f, [], mtime);
    assert [f] + [] == [f];
  }

  lemma {:induction false} TotalAppend(a: seq<File>, b: seq<File>)
    ensures Total(a + b) == Total(a) + Total(b)
  {
    if a == [] {
      assert a + b == b;
    } else {
      assert (a + b)[1..] == a[1..] + b;
      TotalAppend(a[1..], b);
    }
  }

  function SaturatingSub(a: nat, b: nat): nat {
    if a < b then 0 else a - b
  }

  /** The files removed, going through `files` with `remaining` bytes still in the store. */
  function Evicted(files: seq<File>, remaining: nat, maxBytes: nat, removable: Path -> bool): seq<File> {
    if files == [] || remaining <= maxBytes then []
    else if removable(files[0].path) then
      [files[0]] + Evicted(files[1..], SaturatingSub(remaining, files[0].size), maxBytes, removable)
    else Evicted(files[1..], remaining, maxBytes, removable)
  }

  /** `Evicted` in terms of a position in the list. */
  lemma EvictedAt(files: seq<File>, i: nat, remaining: nat, maxBytes: nat, removable: Path -> bool)
    requires i <= |files|
    ensures i == |files| || remaining <= maxBytes ==> Evicted(files[i..], remaining, maxBytes, removable) == []
    ensures i < |files| && remaining > maxBytes ==>
      Evicted(files[i..], remaining, maxBytes, removable)
      == if removable(files[i].path)
         then [files[i]] + Evicted(files[i + 1..], SaturatingSub(remaining, files[i].size), maxBytes, removable)
         else Evicted(files[i + 1..], remaining, maxBytes, removable)
    ensures i < |files| ==> Total(files[i..]) == files[i].size + Total(files[i + 1..])
  {
    if i < |files| {
      assert files[i..][1..] == files[i + 1..];
    }
  }

  lemma TotalOne(removed: seq<File>, f: File)
    ensures Total(removed + [f]) == Total(removed) + f.size
  {
    TotalAppend(removed, [f]);
  }

  /** The loop over the files, `removable` saying which deletions the file system carries out. */
  method EvictOldest(files: seq<File>, maxBytes: nat, removable: Path -> bool)
    returns (removed: seq<File>, reclaimed: nat)
    ensures removed == Evicted(SortedByAge(files), Total(files), maxBytes, removable)
    ensures reclaimed == Total(removed) <= Total(files)
  {
    hide SortedByAge, Evicted, OldestFirst;
    removed, reclaimed := [], 0;
    var current := Total(files);
    var sorted := SortedByAge(files);
    EvictedAt(sorted, 0, current, maxBytes, removable);
    assert sorted[0..] == sorted;
    if current <= maxBytes {
      return;
    }
    ghost var going := Evicted(sorted, current, maxBytes, removable);
    var remaining: nat := current;
    var i := 0;
    while i < |sorted|
      invariant 0 <= i <= |sorted|
      invariant removed + Evicted(sorted[i..], remaining, maxBytes, removable) == going
      invariant reclaimed == Total(removed) && reclaimed + remaining == current
      invariant Total(sorted[i..]) <= remaining
    {
      EvictedAt(sorted, i, remaining, maxBytes, removable);
      if remaining <= maxBytes {
        return;
      }
      var f := sorted[i];
      if removable(f.path) {
        TotalOne(removed, f);
        removed := removed + [f];
        reclaimed := reclaimed + f.size;
        remaining := SaturatingSub(remaining, f.size);
      }
      i := i + 1;
    }
    EvictedAt(sorted, i, remaining, maxBytes, removable);
  }

  /** Files that are kept and files that are removed make up the store, to the byte. */
  lemma {:induction false} NothingIsLost(files: seq<File>, remaining: nat, maxBytes: nat, removable: Path -> bool)
    requires Total(files) <= remaining
    ensures multiset(Evicted(files, remaining, maxBytes, removable)) <= multiset(files)
    ensures Total(Evicted(files, remaining, maxBytes, removable)) <= Total(files)
    decreases |files|
  {
    if files != [] && remaining > maxBytes {
      assert files == [files[0]] + files[1..];
      if removable(files[0].path) {
        var rest := Evicted(files[1..], remaining - files[0].size, maxBytes, removable);
        NothingIsLost(files[1..], remaining - files[0].size, maxBytes, removable);
        assert ([files[0]] + rest)[1..] == rest;
      } else {
        NothingIsLost(files[1..], remaining, maxBytes, removable);
      }
    }
  }

  /** Those of the files that the file system agrees to delete. */
  function Deletable(files: seq<File>, removable: Path -> bool): seq<File> {
    if files == [] then []
    else (if removable(files[0].path) then [files[0]] else []) + Deletable(files[1..], removable)
  }

  lemma {:induction false} AllDeletable(files: seq<File>, removable: Path -> bool)
    requires forall p :: removable(p)
    ensures Deletable(files, removable) == files
  {
    if files != [] {
      AllDeletable(files[1..], removable);
    }
  }

  /**
   * What goes, whichever deletions fail: of the shortest oldest-first prefix whose deletable files
   * bring the store within the quota, those files; of all files, when even that is not enough.
   */
  lemma PrefixGoes(files: seq<File>, maxBytes: nat, removable: Path -> bool) returns (k: nat)
    ensures var sorted := SortedByAge(files);
      && k <= |sorted|
      && Evicted(sorted, Total(files), maxBytes, removable) == Deletable(sorted[..k], removable)
      && (k == |sorted| || Total(files) - Total(Deletable(sorted[..k], removable)) <= maxBytes)
      && forall j :: 0 <= j < k ==> Total(files) - Total(Deletable(sorted[..j], removable)) > maxBytes
  {
    k := PrefixFrom(SortedByAge(files), Total(files), maxBytes, removable);
  }

  /**
   * When every deletion succeeds, what goes is the shortest oldest-first prefix that brings the
   * store within the quota; nothing goes when it is within already.
   */
  lemma ShortestPrefixGoes(files: seq<File>, maxBytes: nat, removable: Path -> bool) returns (k: nat)
    requires forall p :: removable(p)
    ensures var sorted := SortedByAge(files);
      && k <= |sorted|
      && Evicted(sorted, Total(files), maxBytes, removable) == sorted[..k]
      && Total(files) - Total(sorted[..k]) <= maxBytes
      && forall j :: 0 <= j < k ==> Total(files) - Total(sorted[..j]) > maxBytes
    ensures Total(files) <= maxBytes <==> k == 0
  {
    var sorted := SortedByAge(files);
    k := PrefixGoes(files, maxBytes, removable);
    forall j | 0 <= j <= k ensures Deletable(sorted[..j], removable) == sorted[..j] {
      AllDeletable(sorted[..j], removable);
    }
    assert sorted[..|sorted|] == sorted;
  }

  lemma {:induction false} PrefixFrom(sorted: seq<File>, remaining: nat, maxBytes: nat, removable: Path -> bool)
    returns (k: nat)
    requires Total(sorted) <= remaining
    ensures k <= |sorted| && Evicted(sorted, remaining, maxBytes, removable) == Deletable(sorted[..k], removable)
    ensures k == |sorted| || remaining - Total(Deletable(sorted[..k], removable)) <= maxBytes
    ensures forall j :: 0 <= j < k ==> remaining - Total(Deletable(sorted[..j], removable)) > maxBytes
    decreases |sorted|
  {
    hide Evicted, Total, Deletable;
    EvictedAt(sorted, 0, remaining, maxBytes, removable);
    NothingDeletable(sorted, removable);
    assert sorted[0..] == sorted;
    if sorted == [] || remaining <= maxBytes {
      k := 0;
    } else {
      var rest := sorted[1..];
      var freed := if removable(sorted[0].path) then sorted[0].size else 0;
      TotalOfRest(sorted);
      var n := PrefixFrom(rest, remaining - freed, maxBytes, removable);
      k := n + 1;
      DeletableCons(sorted, n, removable);
      forall j | 0 <= j < k ensures remaining - Total(Deletable(sorted[..j], removable)) > maxBytes {
        if j > 0 {
          var i := j - 1;
          DeletableCons(sorted, i, removable);
          assert remaining - freed - Total(Deletable(rest[..i], removable)) > maxBytes;
        }
      }
    }
  }

  lemma TotalOfRest(files: seq<File>)
    requires files != []
    ensures Total(files) == files[0].size + Total(files[1..])
  {
  }

  lemma NothingDeletable(sorted: seq<File>, removable: Path -> bool)
    ensures Deletable(sorted[..0], removable) == [] && Total([]) == 0
  {
  }

  lemma DeletableCons(sorted: seq<File>, n: nat, removable: Path -> bool)
    requires n < |sorted|
    ensures var (f, rest) := (sorted[0], Deletable(sorted[1..][..n], removable));
      && Deletable(sorted[..n + 1], removable) == (if removable(f.path) then [f] else []) + rest
      && Total(Deletable(sorted[..n + 1], removable)) == (if removable(f.path) then f.size else 0) + Total(rest)
  {
    var f, rest := sorted[0], Deletable(sorted[1..][..n], removable);
    assert sorted[..n + 1][1..] == sorted[1..][..n];
    TotalAppend(if removable(f.path) then [f] else [], rest);
    TotalOfOne(f);
  }

  lemma TotalOfOne(f: File)
    ensures Total([f]) == f.size && Total([]) == 0
  {
  }

  // ---------------------------------------------------------------------------------------------
  // What is left
  // ---------------------------------------------------------------------------------------------

  ghost predicate DistinctPaths(files: seq<File>) {
    forall i, j :: 0 <= i < j < |files| ==> files[i].path != files[j].path
  }

  function Paths(files: seq<File>): set<Path> {
    set f | f in files :: f.path
  }

  /** The files whose paths are not (or are) among `paths`. */
  function Outside(files: seq<File>, paths: set<Path>): seq<File> {
    if files == [] then []
    else (if files[0].path in paths then [] else [files[0]]) + Outside(files[1..], paths)
  }

  function Inside(files: seq<File>, paths: set<Path>): (r: seq<File>)
    ensures forall f :: f in r <==> f in files && f.path in paths
  {
    if files == [] then []
    else (if files[0].path in paths then [files[0]] else []) + Inside(files[1..], paths)
  }

  lemma {:induction false} SplitByPath(files: seq<File>, paths: set<Path>)
    ensures Total(Inside(files, paths)) + Total(Outside(files, paths)) == Total(files)
  {
    if files != [] {
      SplitByPath(files[1..], paths);
      TotalAppend(if files[0].path in paths then [files[0]] else [], Inside(files[1..], paths));
      TotalAppend(if files[0].path in paths then [] else [files[0]], Outside(files[1..], paths));
    }
  }

  lemma {:induction false} InsideIsDistinct(files: seq<File>, paths: set<Path>)
    requires DistinctPaths(files)
    ensures DistinctPaths(Inside(files, paths))
  {
    if files != [] {
      var r := Inside(files[1..], paths);
      InsideIsDistinct(files[1..], paths);
      forall j | 0 <= j < |r| ensures r[j].path != files[0].path {
        assert r[j] in r;
        var i :| 0 <= i < |files[1..]| && files[1..][i] == r[j];
        assert files[i + 1] == r[j];
      }
    }
  }

  lemma {:induction false} SameFilesSameTotal(a: seq<File>, b: seq<File>)
    requires DistinctPaths(a) && DistinctPaths(b) && forall f :: f in a <==> f in b
    ensures Total(a) == Total(b)
  {
    assert (a != [] ==> a[0] in a) && (b != [] ==> b[0] in b);
    if a != [] {
      var k :| 0 <= k < |b| && b[k] == a[0];
      TakeOut(b, k);
      RestOf(a, 0);
      RestOf(b, k);
      assert a[..0] + a[1..] == a[1..];
      SameFilesSameTotal(a[1..], b[..k] + b[k + 1..]);
    }
  }

  lemma TakeOut(s: seq<File>, k: nat)
    requires k < |s|
    ensures Total(s) == s[k].size + Total(s[..k] + s[k + 1..])
  {
    hide Total;
    var front, back := s[..k], s[k + 1..];
    assert s == front + ([s[k]] + back);
    TotalAppend(front, [s[k]] + back);
    TotalAppend([s[k]], back);
    TotalAppend(front, back);
    TotalOfOne(s[k]);
  }

  lemma RestOf(s: seq<File>, k: nat)
    requires k < |s| && DistinctPaths(s)
    ensures var r := s[..k] + s[k + 1..];
      DistinctPaths(r) && forall f :: f in r <==> f in s && f != s[k]
  {
    var r := s[..k] + s[k + 1..];
    forall f | f in s && f != s[k] ensures f in r {
      var i :| 0 <= i < |s| && s[i] == f;
      assert if i < k then r[i] == f else r[i - 1] == f;
    }
    forall i | 0 <= i < |r| ensures r[i] in s && r[i] != s[k] {
      assert r[i] == if i < k then s[i] else s[i + 1];
    }
  }

  /** Bytes of the files removed and of the files left add up to the store. */
  lemma BytesBalance(files: seq<File>, removed: seq<File>)
    requires DistinctPaths(files) && multiset(removed) <= multiset(files)
    ensures Total(removed) + Total(Outside(files, Paths(removed))) == Total(files)
  {
    var paths := Paths(removed);
    var inside := Inside(files, paths);
    SplitByPath(files, paths);
    InsideIsDistinct(files, paths);
    PartIsDistinct(removed, files);
    forall f ensures f in inside <==> f in removed {
      if f in inside {
        var g :| g in removed && g.path == f.path;
        OnePath(files, f, g);
      }
    }
    SameFilesSameTotal(inside, removed);
  }

  lemma OnePath(files: seq<File>, f: File, g: File)
    requires DistinctPaths(files) && f in files && g in files && f.path == g.path
    ensures f == g
  {
    var i :| 0 <= i < |files| && files[i] == f;
    var j :| 0 <= j < |files| && files[j] == g;
  }

  lemma PartIsDistinct(part: seq<File>, files: seq<File>)
    requires DistinctPaths(files) && multiset(part) <= multiset(files)
    ensures DistinctPaths(part) && forall f :: f in part ==> f in files
  {
    forall f | f in part ensures f in files {
      assert f in multiset(part);
      assert f in multiset(files);
    }
    forall i, j | 0 <= i < j < |part| ensures part[i].path != part[j].path {
      assert part[i] in part && part[j] in part;
      if part[i].path == part[j].path {
        OnePath(files, part[i], part[j]);
        assert part == part[..i] + [part[i]] + part[i + 1..j] + [part[j]] + part[j + 1..];
        assert multiset(part)[part[i]] >= 2;
        CountedOnce(files, part[i]);
      }
    }
  }

  lemma {:induction false} CountedOnce(files: seq<File>, f: File)
    requires DistinctPaths(files)
    ensures multiset(files)[f] <= 1
  {
    if f in files {
      var k :| 0 <= k < |files| && files[k] == f;
      RestOf(files, k);
      assert files == files[..k] + [f] + files[k + 1..];
      assert f !in multiset(files[..k] + files[k + 1..]);
    }
  }

  lemma {:induction false} SizeWithinTotal(files: seq<File>, f: File)
    requires f in files
    ensures f.size <= Total(files)
  {
    if files[0] != f {
      SizeWithinTotal(files[1..], f);
    }
  }
}
