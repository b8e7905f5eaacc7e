/** The difference of two bundle manifests. */
module Diff {
  import opened BundleExtract
  import opened BundlePaths
  import opened Bytes
  import opened Files
  import opened Primitives
  import opened Protocol
  import opened Sorting
  import BundleFormat
  import BundleLayout

  datatype DiffStatus = Added | Removed | Modified | Unchanged

  datatype FileDiff = FileDiff(path: Str, status: DiffStatus, oldSize: Option<u64>, newSize: Option<u64>)

  datatype DiffReport = DiffReport(
    files: seq<FileDiff>, addedCount: nat, removedCount: nat, modifiedCount: nat, unchangedCount: nat)

  // ---- Specification for all manifests ----

  /** The entry a map filled from first to last holds for a path. */
  function LastOf(entries: seq<BundleEntry>, path: Str): Option<BundleEntry> {
    if entries == [] then None
    else
      var last := entries[|entries| - 1];
      if last.relativePath == path then Some(last) else LastOf(entries[..|entries| - 1], path)
  }

  /** How an old entry compares with what the new manifest has for its path. */
  function Compared(e: BundleEntry, counterpart: Option<BundleEntry>): FileDiff {
    match counterpart
    case None => FileDiff(e.relativePath, Removed, Some(e.size), None)
    case Some(n) =>
      FileDiff(e.relativePath, if e.blake3Hash != n.blake3Hash then Modified else Unchanged, Some(e.size), Some(n.size))
  }

  function FirstPass(olds: seq<BundleEntry>, news: seq<BundleEntry>): (r: seq<FileDiff>)
    ensures |r| == |olds|
    ensures forall k :: 0 <= k < |r| ==> r[k] == Compared(olds[k], LastOf(news, olds[k].relativePath))
  {
    seq(|olds|, k requires 0 <= k < |olds| => Compared(olds[k], LastOf(news, olds[k].relativePath)))
  }

  function SecondPass(olds: seq<BundleEntry>, news: seq<BundleEntry>): seq<FileDiff> {
    if news == [] then []
    else
      var e := news[|news| - 1];
      SecondPass(olds, news[..|news| - 1])
        + if LastOf(olds, e.relativePath).None? then [FileDiff(e.relativePath, Added, None, Some(e.size))] else []
  }

  function Unsorted(a: BundleManifest, b: BundleManifest): seq<FileDiff> {
    FirstPass(a.entries, b.entries) + SecondPass(a.entries, b.entries)
  }

  function CountOf(files: seq<FileDiff>, status: DiffStatus): nat {
    if files == [] then 0
    else CountOf(files[..|files| - 1], status) + if files[|files| - 1].status == status then 1 else 0
  }

  function PathOrder(): (FileDiff, FileDiff) -> bool {
    ByKey((d: FileDiff) => d.path)
  }

  predicate CountsRight(r: DiffReport, files: seq<FileDiff>) {
    && r.addedCount == CountOf(files, Added) && r.removedCount == CountOf(files, Removed)
    && r.modifiedCount == CountOf(files, Modified) && r.unchangedCount == CountOf(files, Unchanged)
  }

  /** What the two passes and the sort leave, also for repeated paths. */
  ghost predicate IsDiff(r: DiffReport, a: BundleManifest, b: BundleManifest) {
    && multiset(r.files) == multiset(Unsorted(a, b))
    && Sorted(PathOrder(), r.files)
    && CountsRight(r, r.files)
  }

  // ---- The algorithm ----

  /** A map from paths to entries, later entries replacing earlier ones. */
  method IndexByPath(entries: seq<BundleEntry>) returns (index: map<Str, BundleEntry>)
    ensures forall p: Str :: LastOf(entries, p) == if p in index then Some(index[p]) else None
  {
    index := map[];
    for k := 0 to |entries|
      invariant forall p: Str :: LastOf(entries[..k], p) == if p in index then Some(index[p]) else None
    {
      assert entries[..k + 1][..k] == entries[..k];
      index := index[entries[k].relativePath := entries[k]];
    }
    assert entries[..|entries|] == entries;
  }

  /** The counters stand for what has been pushed so far. */
  predicate Counted(files: seq<FileDiff>, added: nat, removed: nat, modified: nat, same: nat) {
    CountsRight(DiffReport(files, added, removed, modified, same), files)
  }

  /** The first loop: removed, modified and unchanged files. */
  method CompareOld(olds: seq<BundleEntry>, newMap: map<Str, BundleEntry>, ghost news: seq<BundleEntry>)
    returns (files: seq<FileDiff>, removed: nat, modified: nat, same: nat)
    requires forall p: Str :: LastOf(news, p) == if p in newMap then Some(newMap[p]) else None
    ensures files == FirstPass(olds, news)
    ensures Counted(files, 0, removed, modified, same)
  {
    hide LastOf, CountOf;
    files := [];
    removed, modified, same := 0, 0, 0;
    NothingCounted();
    for k := 0 to |olds|
      invariant files == FirstPass(olds, news)[..k]
      invariant Counted(files, 0, removed, modified, same)
    {
      var entry := olds[k];
      ghost var before := files;
      if entry.relativePath in newMap {
        var newEntry := newMap[entry.relativePath];
        if entry.blake3Hash != newEntry.blake3Hash {
          files := files + [FileDiff(entry.relativePath, Modified, Some(entry.size), Some(newEntry.size))];
          modified := modified + 1;
        } else {
          files := files + [FileDiff(entry.relativePath, Unchanged, Some(entry.size), Some(newEntry.size))];
          same := same + 1;
        }
      } else {
        files := files + [FileDiff(entry.relativePath, Removed, Some(entry.size), None)];
        removed := removed + 1;
      }
      CountSnoc(before, files[|before|]);
    }
  }

  /** The second loop: added files. */
  method AddNew(news: seq<BundleEntry>, oldMap: map<Str, BundleEntry>, ghost olds: seq<BundleEntry>,
                start: seq<FileDiff>, ghost removed: nat, ghost modified: nat, ghost same: nat)
    returns (files: seq<FileDiff>, added: nat)
    requires forall p: Str :: LastOf(olds, p) == if p in oldMap then Some(oldMap[p]) else None
    requires Counted(start, 0, removed, modified, same)
    ensures files == start + SecondPass(olds, news)
    ensures Counted(files, added, removed, modified, same)
  {
    hide LastOf, CountOf;
    files, added := start, 0;
    for k := 0 to |news|
      invariant files == start + SecondPass(olds, news[..k])
      invariant Counted(files, added, removed, modified, same)
    {
      var entry := news[k];
      assert news[..k + 1][..k] == news[..k];
      if entry.relativePath !in oldMap {
        CountSnoc(files, FileDiff(entry.relativePath, Added, None, Some(entry.size)));
        files := files + [FileDiff(entry.relativePath, Added, None, Some(entry.size))];
        added := added + 1;
      }
    }
    assert news[..|news|] == news;
  }

  method DiffManifests(oldManifest: BundleManifest, newManifest: BundleManifest) returns (r: DiffReport)
    ensures IsDiff(r, oldManifest, newManifest)
  {
    hide LastOf, CountOf, ByKey, Sorted, FirstPass, SecondPass;
    var oldMap := IndexByPath(oldManifest.entries);
    var newMap := IndexByPath(newManifest.entries);
    var files, removed, modified, same := CompareOld(oldManifest.entries, newMap, newManifest.entries);
    var added;
    files, added := AddNew(newManifest.entries, oldMap, oldManifest.entries, files, removed, modified, same);
    ByKeyIsPreorder((d: FileDiff) => d.path);
    var sorted := Sort(PathOrder(), files);
    CountsInAnyOrder(files, sorted);
    r := DiffReport(sorted, added, removed, modified, same);
  }

  lemma NothingCounted()
    ensures forall s :: CountOf([], s) == 0
  {
  }

  lemma CountSnoc(files: seq<FileDiff>, d: FileDiff)
    ensures forall s :: CountOf(files + [d], s) == CountOf(files, s) + if d.status == s then 1 else 0
  {
    assert (files + [d])[..|files|] == files;
  }

  lemma {:induction false} CountAppend(a: seq<FileDiff>, b: seq<FileDiff>, s: DiffStatus)
    ensures CountOf(a + b, s) == CountOf(a, s) + CountOf(b, s)
  {
    if b == [] {
      assert a + b == a;
    } else {
      var n := |b| - 1;
      CountAppend(a, b[..n], s);
      assert (a + b)[..|a + b| - 1] == a + b[..n];
    }
  }

  lemma CountWithout(b: seq<FileDiff>, j: nat, s: DiffStatus)
    requires j < |b|
    ensures CountOf(b, s) == CountOf(b[..j] + b[j + 1..], s) + if b[j].status == s then 1 else 0
  {
    assert b == b[..j] + [b[j]] + b[j + 1..];
    CountAppend(b[..j], b[j + 1..], s);
    CountAppend(b[..j] + [b[j]], b[j + 1..], s);
    CountSnoc(b[..j], b[j]);
  }

  lemma {:induction false} CountInAnyOrder(a: seq<FileDiff>, b: seq<FileDiff>, s: DiffStatus)
    requires multiset(a) == multiset(b)
    ensures CountOf(a, s) == CountOf(b, s)
    decreases |a|
  {
    assert |multiset(a)| == |a| && |multiset(b)| == |b|;
    if a != [] {
      var n := |a| - 1;
      assert a == a[..n] + [a[n]];
      assert a[n] in multiset(b);
      var j :| 0 <= j < |b| && b[j] == a[n];
      OneLess(a[..n], a[n], b, j);
      CountInAnyOrder(a[..n], b[..j] + b[j + 1..], s);
      CountWithout(b, j, s);
    }
  }

  lemma OneLess(a: seq<FileDiff>, x: FileDiff, b: seq<FileDiff>, j: nat)
    requires multiset(a + [x]) == multiset(b) && j < |b| && b[j] == x
    ensures multiset(b[..j] + b[j + 1..]) == multiset(a)
  {
    assert b == b[..j] + [x] + b[j + 1..];
    assert multiset(b) == multiset(b[..j] + b[j + 1..]) + multiset{x};
    assert multiset(a + [x]) == multiset(a) + multiset{x};
    assert multiset(a) == multiset(a + [x]) - multiset{x};
  }

  lemma CountsInAnyOrder(a: seq<FileDiff>, b: seq<FileDiff>)
    requires multiset(a) == multiset(b)
    ensures forall s :: CountOf(a, s) == CountOf(b, s)
  {
    forall s ensures CountOf(a, s) == CountOf(b, s) { CountInAnyOrder(a, b, s); }
  }

  // ---- What the report means ----

  predicate UniquePaths(m: BundleManifest) {
    forall j, k :: 0 <= j < k < |m.entries| ==> m.entries[j].relativePath != m.entries[k].relativePath
  }

  /** The difference at one path, read off the two manifests. */
  function DiffAt(a: BundleManifest, b: BundleManifest, path: Str): Option<FileDiff> {
    match (LastOf(a.entries, path), LastOf(b.entries, path))
    case (None, None) => None
    case (None, Some(n)) => Some(FileDiff(path, Added, None, Some(n.size)))
    case (Some(o), None) => Some(FileDiff(path, Removed, Some(o.size), None))
    case (Some(o), Some(n)) =>
      Some(FileDiff(path, if o.blake3Hash == n.blake3Hash then Unchanged else Modified, Some(o.size), Some(n.size)))
  }

  lemma {:induction false} LastOfIs(entries: seq<BundleEntry>, path: Str)
    ensures LastOf(entries, path).None? <==> forall k :: 0 <= k < |entries| ==> entries[k].relativePath != path
    ensures LastOf(entries, path).Some? ==>
      LastOf(entries, path).value in entries && LastOf(entries, path).value.relativePath == path
  {
    if entries != [] {
      LastOfIs(entries[..|entries| - 1], path);
    }
  }

  lemma UniqueLast(m: BundleManifest, k: nat)
    requires UniquePaths(m) && k < |m.entries|
    ensures LastOf(m.entries, m.entries[k].relativePath) == Some(m.entries[k])
  {
    LastOfIs(m.entries, m.entries[k].relativePath);
    var e := LastOf(m.entries, m.entries[k].relativePath).value;
    var j :| 0 <= j < |m.entries| && m.entries[j] == e;
  }

  predicate DistinctPaths(files: seq<FileDiff>) {
    forall j, k :: 0 <= j < k < |files| ==> files[j].path != files[k].path
  }

  lemma {:induction false} SecondPassIs(a: BundleManifest, news: seq<BundleEntry>)
    requires forall j, k :: 0 <= j < k < |news| ==> news[j].relativePath != news[k].relativePath
    ensures var s := SecondPass(a.entries, news);
      && DistinctPaths(s)
      && (forall d :: d in s ==> LastOf(a.entries, d.path).None?)
      && (forall d :: d in s ==>
            exists k :: 0 <= k < |news| && d == FileDiff(news[k].relativePath, Added, None, Some(news[k].size)))
      && (forall k :: 0 <= k < |news| && LastOf(a.entries, news[k].relativePath).None? ==>
           FileDiff(news[k].relativePath, Added, None, Some(news[k].size)) in s)
  {
    hide LastOf;
    if news != [] {
      var n := |news| - 1;
      SecondPassIs(a, news[..n]);
      var s, before := SecondPass(a.entries, news), SecondPass(a.entries, news[..n]);
      assert forall k :: 0 <= k < n ==> news[..n][k] == news[k];
      var last := FileDiff(news[n].relativePath, Added, None, Some(news[n].size));
      assert s == before || s == before + [last];
      forall d | d in before
        ensures exists k :: 0 <= k < n && d == FileDiff(news[k].relativePath, Added, None, Some(news[k].size))
      {
        var k :| 0 <= k < n && d == FileDiff(news[..n][k].relativePath, Added, None, Some(news[..n][k].size));
      }
    }
  }

  /** Every element of the two passes is the difference at its path, every path of
      either manifest is there, and no path twice. */
  lemma UnsortedIs(a: BundleManifest, b: BundleManifest)
    requires UniquePaths(a) && UniquePaths(b)
    ensures DistinctPaths(Unsorted(a, b))
    ensures forall d :: d in Unsorted(a, b) ==> DiffAt(a, b, d.path) == Some(d)
    ensures forall p: Str :: DiffAt(a, b, p).Some? ==> DiffAt(a, b, p).value in Unsorted(a, b)
  {
    hide LastOf;
    var first, second, all := FirstPass(a.entries, b.entries), SecondPass(a.entries, b.entries), Unsorted(a, b);
    SecondPassIs(a, b.entries);
    forall k | 0 <= k < |a.entries| ensures LastOf(a.entries, first[k].path) == Some(a.entries[k]) { UniqueLast(a, k); }
    forall k | 0 <= k < |b.entries| ensures LastOf(b.entries, b.entries[k].relativePath) == Some(b.entries[k]) {
      UniqueLast(b, k);
    }
    forall j, k | 0 <= j < k < |all| ensures all[j].path != all[k].path {
      if k < |first| {
        assert all[j] == first[j] && all[k] == first[k];
      } else if j < |first| {
        assert all[j] == first[j] && all[k] == second[k - |first|] && second[k - |first|] in second;
      } else {
        assert all[j] == second[j - |first|] && all[k] == second[k - |first|];
      }
    }
    forall p: Str | DiffAt(a, b, p).Some? ensures DiffAt(a, b, p).value in all {
      LastOfIs(a.entries, p);
      LastOfIs(b.entries, p);
      if LastOf(a.entries, p).Some? {
        var k :| 0 <= k < |a.entries| && a.entries[k] == LastOf(a.entries, p).value;
        assert all[k] == first[k];
      }
    }
  }

  /** The union of the paths, strictly ascending, each with its difference. */
  ghost predicate IsUnion(files: seq<FileDiff>, a: BundleManifest, b: BundleManifest) {
    && StrictlyAscending(files)
    && (forall k :: 0 <= k < |files| ==> DiffAt(a, b, files[k].path) == Some(files[k]))
    && (forall p: Str :: DiffAt(a, b, p).Some? ==> DiffAt(a, b, p).value in files)
  }

  /** For manifests without repeated paths the report lists the union of their
      paths once each, in ascending order, each with its set-theoretic difference;
      and the four counters sum to the length of the list. */
  lemma DiffIsUnion(r: DiffReport, a: BundleManifest, b: BundleManifest)
    requires IsDiff(r, a, b) && UniquePaths(a) && UniquePaths(b)
    ensures IsUnion(r.files, a, b)
    ensures r.addedCount + r.removedCount + r.modifiedCount + r.unchangedCount == |r.files|
  {
    hide Unsorted, DiffAt, LexLeq;
    UnsortedIs(a, b);
    var all := Unsorted(a, b);
    forall d ensures d in r.files <==> d in all { assert d in multiset(r.files) <==> d in multiset(all); }
    forall j, k | 0 <= j < k < |r.files|
      ensures LexLeq(r.files[j].path, r.files[k].path) && r.files[j].path != r.files[k].path
    {
      assert PathOrder()(r.files[j], r.files[k]);
      if r.files[j].path == r.files[k].path {
        assert r.files[j] in all && r.files[k] in all;
        RepeatedCounts(r.files, j, k);
        var _, _ := CountedTwice(all, r.files[j]);
      }
    }
    CountsSum(r.files);
  }

  lemma {:induction false} CountsSum(files: seq<FileDiff>)
    ensures CountOf(files, Added) + CountOf(files, Removed) + CountOf(files, Modified) + CountOf(files, Unchanged) ==
      |files|
  {
    if files != [] {
      CountsSum(files[..|files| - 1]);
    }
  }

  // ---- Swapping the arguments ----

  function Swap(d: FileDiff): FileDiff {
    FileDiff(d.path, match d.status case Added => Removed case Removed => Added case s => s, d.newSize, d.oldSize)
  }

  lemma DiffAtSwapped(a: BundleManifest, b: BundleManifest, path: Str)
    ensures DiffAt(b, a, path) == match DiffAt(a, b, path) case None => None case Some(d) => Some(Swap(d))
  {
  }

  predicate HasPath(files: seq<FileDiff>, path: Str) { exists k :: 0 <= k < |files| && files[k].path == path }

  predicate StrictlyAscending(files: seq<FileDiff>) {
    forall j, k :: 0 <= j < k < |files| ==> LexLeq(files[j].path, files[k].path) && files[j].path != files[k].path
  }

  lemma SameHead(x: seq<FileDiff>, y: seq<FileDiff>)
    requires x != [] && StrictlyAscending(x) && StrictlyAscending(y)
    requires HasPath(y, x[0].path) && forall k :: 0 <= k < |y| ==> HasPath(x, y[k].path)
    ensures y != [] && x[0].path == y[0].path
  {
    hide LexLeq;
    var k :| 0 <= k < |y| && y[k].path == x[0].path;
    assert HasPath(x, y[0].path);
    var j :| 0 <= j < |x| && x[j].path == y[0].path;
    if k > 0 && j > 0 { LexAntisymmetric(x[0].path, y[0].path); }
  }

  lemma PathInTail(x: seq<FileDiff>, y: seq<FileDiff>, j: nat)
    requires 0 < j < |x| && y != [] && x[0].path == y[0].path && StrictlyAscending(x) && HasPath(y, x[j].path)
    ensures HasPath(y[1..], x[j].path)
  {
    var k :| 0 <= k < |y| && y[k].path == x[j].path;
    assert x[0].path != x[j].path;
    assert y[1..][k - 1].path == x[j].path;
  }

  /** Two strictly ascending lists with the same paths agree path by path. */
  lemma {:induction false} SamePaths(x: seq<FileDiff>, y: seq<FileDiff>)
    requires StrictlyAscending(x) && StrictlyAscending(y)
    requires forall j :: 0 <= j < |x| ==> HasPath(y, x[j].path)
    requires forall k :: 0 <= k < |y| ==> HasPath(x, y[k].path)
    ensures |x| == |y| && forall k :: 0 <= k < |x| ==> x[k].path == y[k].path
    decreases |x|
  {
    hide LexLeq;
    if x == [] {
      assert y != [] ==> HasPath(x, y[0].path);
    } else {
      SameHead(x, y);
      var s, t := x[1..], y[1..];
      forall i | 0 <= i < |s| ensures HasPath(t, s[i].path) { PathInTail(x, y, i + 1); }
      forall i | 0 <= i < |t| ensures HasPath(s, t[i].path) { PathInTail(y, x, i + 1); }
      SamePaths(s, t);
      forall i | 0 <= i < |x| ensures x[i].path == y[i].path {
        if i > 0 { assert x[i] == s[i - 1] && y[i] == t[i - 1]; }
      }
    }
  }

  lemma UnionCovers(x: seq<FileDiff>, y: seq<FileDiff>, a: BundleManifest, b: BundleManifest)
    requires IsUnion(x, a, b) && IsUnion(y, b, a)
    ensures forall j :: 0 <= j < |x| ==> HasPath(y, x[j].path)
  {
    hide DiffAt, LexLeq;
    forall j | 0 <= j < |x| ensures HasPath(y, x[j].path) {
      DiffAtSwapped(a, b, x[j].path);
      var d := DiffAt(b, a, x[j].path).value;
      assert d in y;
      var k :| 0 <= k < |y| && y[k] == d;
      assert DiffAt(b, a, y[k].path) == Some(y[k]);
      assert d == Swap(x[j]);
      assert y[k].path == x[j].path;
    }
  }

  /** Swapping the manifests swaps Added with Removed, old with new sizes, and
      nothing else: same paths, same order, counters exchanged. */
  lemma SwapSymmetry(r: DiffReport, t: DiffReport, a: BundleManifest, b: BundleManifest)
    requires IsDiff(r, a, b) && IsDiff(t, b, a) && UniquePaths(a) && UniquePaths(b)
    ensures |t.files| == |r.files| && forall k :: 0 <= k < |r.files| ==> t.files[k] == Swap(r.files[k])
    ensures t.addedCount == r.removedCount && t.removedCount == r.addedCount
    ensures t.modifiedCount == r.modifiedCount && t.unchangedCount == r.unchangedCount
  {
    hide DiffAt, Unsorted, LexLeq, CountOf, Swap, Sorted, StrictlyAscending, HasPath;
    DiffIsUnion(r, a, b);
    DiffIsUnion(t, b, a);
    UnionCovers(r.files, t.files, a, b);
    UnionCovers(t.files, r.files, b, a);
    SamePaths(r.files, t.files);
    forall k | 0 <= k < |r.files| ensures t.files[k] == Swap(r.files[k]) {
      DiffAtSwapped(a, b, r.files[k].path);
    }
    CountsSwapped(r.files, t.files);
  }

  lemma {:induction false} CountsSwapped(x: seq<FileDiff>, y: seq<FileDiff>)
    requires |x| == |y| && forall k :: 0 <= k < |x| ==> y[k] == Swap(x[k])
    ensures CountOf(y, Added) == CountOf(x, Removed) && CountOf(y, Removed) == CountOf(x, Added)
    ensures CountOf(y, Modified) == CountOf(x, Modified) && CountOf(y, Unchanged) == CountOf(x, Unchanged)
  {
    if x != [] {
      CountsSwapped(x[..|x| - 1], y[..|y| - 1]);
    }
  }

  // ---- Bundles ----

  /** Paths that differ after case folding differ. */
  lemma FoldedPathsUnique(lower: bytes -> bytes, m: BundleManifest)
    requires BundleLayout.PathsDistinct(lower, m.entries)
    ensures UniquePaths(m)
  {
    forall j, k | 0 <= j < k < |m.entries| ensures m.entries[j].relativePath != m.entries[k].relativePath {
      assert lower(m.entries[j].relativePath) != lower(m.entries[k].relativePath);
    }
  }

  ghost predicate Listed(crypto: Crypto, lower: bytes -> bytes, files: map<Path, bytes>, file: Path, password: bytes) {
    file in files && Authentic(crypto, lower, files[file], password)
  }

  /** The difference of two encrypted bundles: of authentic ones only, whose paths
      are unique because their layouts were checked. */
  method DiffBundles(crypto: Crypto, lower: bytes -> bytes, fs: FileSystem, oldFile: Path, oldPassword: bytes,
                     newFile: Path, newPassword: bytes)
    returns (r: Result<DiffReport, BundleError>)
    requires crypto.Lawful()
    ensures r.Ok? ==>
      && Listed(crypto, lower, fs.files, oldFile, oldPassword) && Listed(crypto, lower, fs.files, newFile, newPassword)
      && var a, b := OpenBundle(crypto, lower, fs.files[oldFile], oldPassword).value.1,
           OpenBundle(crypto, lower, fs.files[newFile], newPassword).value.1;
         IsDiff(r.value, a, b) && IsUnion(r.value.files, a, b)
    ensures r.Err? ==>
      fs.faulty || !Listed(crypto, lower, fs.files, oldFile, oldPassword) ||
        !Listed(crypto, lower, fs.files, newFile, newPassword)
  {
    hide OpenBundle, BundleFormat.AllVerify, IsDiff, IsUnion, BundleLayout.PathsDistinct, UniquePaths;
    var oldManifest := ListBundle(crypto, lower, fs, oldFile, oldPassword);
    if oldManifest.Err? { return Err(oldManifest.error); }
    var newManifest := ListBundle(crypto, lower, fs, newFile, newPassword);
    if newManifest.Err? { return Err(newManifest.error); }
    var report := DiffManifests(oldManifest.value, newManifest.value);
    FoldedPathsUnique(lower, oldManifest.value);
    FoldedPathsUnique(lower, newManifest.value);
    DiffIsUnion(report, oldManifest.value, newManifest.value);
    r := Ok(report);
  }
}
