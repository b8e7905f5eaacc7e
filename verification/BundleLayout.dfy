/** The layout check of a bundle manifest: it looks at neighbours in a sorted list,
    and accepts exactly the manifests whose files do not overlap at all. */
module BundleLayout {
  import opened Bytes
  import opened BundlePaths
  import opened Protocol
  import Sorting

  datatype Range = Range(start: nat, end: nat)

  predicate Disjoint(a: Range, b: Range) { a.end <= b.start || b.end <= a.start }

  predicate PairwiseDisjoint(ranges: seq<Range>) {
    forall i, j :: 0 <= i < j < |ranges| ==> Disjoint(ranges[i], ranges[j])
  }

  predicate AllNonEmpty(ranges: seq<Range>) {
    forall i :: 0 <= i < |ranges| ==> ranges[i].start < ranges[i].end
  }

  predicate SortedByStart(ranges: seq<Range>) {
    forall i, j :: 0 <= i < j < |ranges| ==> ranges[i].start <= ranges[j].start
  }

  predicate NeighboursDisjoint(ranges: seq<Range>) {
    forall i :: 0 <= i < |ranges| - 1 ==> ranges[i].end <= ranges[i + 1].start
  }

  // ---- Neighbours suffice ----

  lemma NeighboursSuffice(ranges: seq<Range>)
    requires SortedByStart(ranges) && AllNonEmpty(ranges)
    ensures NeighboursDisjoint(ranges) <==> PairwiseDisjoint(ranges)
  {
    if NeighboursDisjoint(ranges) {
      forall i, j | 0 <= i < j < |ranges| ensures Disjoint(ranges[i], ranges[j]) {
        assert ranges[i].end <= ranges[i + 1].start;
        assert i + 1 < j ==> ranges[i + 1].start <= ranges[j].start;
      }
    }
    if PairwiseDisjoint(ranges) {
      forall i | 0 <= i < |ranges| - 1 ensures ranges[i].end <= ranges[i + 1].start {
        assert Disjoint(ranges[i], ranges[i + 1]) && ranges[i].start <= ranges[i + 1].start;
      }
    }
  }

  // ---- Disjointness does not depend on the order ----

  lemma DisjointInAnyOrder(a: seq<Range>, b: seq<Range>)
    requires multiset(a) == multiset(b) && AllNonEmpty(a)
    ensures AllNonEmpty(b)
    ensures PairwiseDisjoint(a) ==> PairwiseDisjoint(b)
  {
    forall i | 0 <= i < |b| ensures b[i] in a {
      assert b[i] in multiset(b);
    }
    if PairwiseDisjoint(a) {
      forall i, j | 0 <= i < j < |b| ensures Disjoint(b[i], b[j]) {
        if b[i] == b[j] {
          Sorting.RepeatedCounts(b, i, j);
          var p, q := Sorting.CountedTwice(a, b[i]);
          assert Disjoint(a[p], a[q]);
        } else {
          var p :| 0 <= p < |a| && a[p] == b[i];
          var q :| 0 <= q < |a| && a[q] == b[j];
          assert p < q ==> Disjoint(a[p], a[q]);
          assert q < p ==> Disjoint(a[q], a[p]);
        }
      }
    }
  }

  /** Whatever order an unstable sort gives to equal starts, its neighbours are
      disjoint exactly when all the original ranges are. */
  lemma SortedNeighboursDecide(ranges: seq<Range>, sorted: seq<Range>)
    requires AllNonEmpty(ranges)
    requires multiset(sorted) == multiset(ranges) && SortedByStart(sorted)
    ensures NeighboursDisjoint(sorted) <==> PairwiseDisjoint(ranges)
  {
    DisjointInAnyOrder(ranges, sorted);
    DisjointInAnyOrder(sorted, ranges);
    NeighboursSuffice(sorted);
  }

  // ---- The specification ----

  function RangeOf(e: BundleEntry, dataStart: nat): Range {
    Range(dataStart + e.offset, dataStart + e.offset + e.size)
  }

  predicate EntriesDisjoint(entries: seq<BundleEntry>, dataStart: nat) {
    forall j, k :: 0 <= j < k < |entries| && entries[j].size > 0 && entries[k].size > 0 ==>
      Disjoint(RangeOf(entries[j], dataStart), RangeOf(entries[k], dataStart))
  }

  predicate PathsValid(entries: seq<BundleEntry>) {
    forall k :: 0 <= k < |entries| ==> ValidPath(entries[k].relativePath)
  }

  /** No two paths are equal after case folding. */
  predicate PathsDistinct(lower: bytes -> bytes, entries: seq<BundleEntry>) {
    forall j, k :: 0 <= j < k < |entries| ==> lower(entries[j].relativePath) != lower(entries[k].relativePath)
  }

  predicate EntriesInside(entries: seq<BundleEntry>, dataStart: nat, payloadLen: nat) {
    forall k :: 0 <= k < |entries| ==> dataStart + entries[k].offset + entries[k].size <= payloadLen
  }

  predicate ValidLayout(lower: bytes -> bytes, m: BundleManifest, dataStart: nat, payloadLen: nat) {
    && PathsValid(m.entries) && PathsDistinct(lower, m.entries)
    && EntriesInside(m.entries, dataStart, payloadLen) && EntriesDisjoint(m.entries, dataStart)
  }

  /** The non-empty ranges, in manifest order. */
  function RangesOf(entries: seq<BundleEntry>, dataStart: nat): seq<Range> {
    if entries == [] then []
    else
      var last := entries[|entries| - 1];
      RangesOf(entries[..|entries| - 1], dataStart) + if last.size > 0 then [RangeOf(last, dataStart)] else []
  }

  lemma {:induction false} RangesDisjointFrom(entries: seq<BundleEntry>, dataStart: nat, r: Range)
    ensures AllNonEmpty(RangesOf(entries, dataStart))
    ensures (forall i :: 0 <= i < |RangesOf(entries, dataStart)| ==> Disjoint(RangesOf(entries, dataStart)[i], r))
       <==> (forall k :: 0 <= k < |entries| && entries[k].size > 0 ==> Disjoint(RangeOf(entries[k], dataStart), r))
  {
    if entries != [] {
      var front, last := entries[..|entries| - 1], entries[|entries| - 1];
      RangesDisjointFrom(front, dataStart, r);
      var all, before := RangesOf(entries, dataStart), RangesOf(front, dataStart);
      assert forall i :: 0 <= i < |before| ==> all[i] == before[i];
      assert forall k :: 0 <= k < |front| ==> front[k] == entries[k];
      if last.size > 0 { assert all[|before|] == RangeOf(last, dataStart); }
    }
  }

  lemma {:induction false} RangesDecide(entries: seq<BundleEntry>, dataStart: nat)
    ensures PairwiseDisjoint(RangesOf(entries, dataStart)) <==> EntriesDisjoint(entries, dataStart)
  {
    if entries != [] {
      var n := |entries| - 1;
      var front, last := entries[..n], entries[n];
      RangesDecide(front, dataStart);
      var r := RangeOf(last, dataStart);
      RangesDisjointFrom(front, dataStart, r);
      var all, before := RangesOf(entries, dataStart), RangesOf(front, dataStart);
      assert forall i :: 0 <= i < |before| ==> all[i] == before[i];
      assert forall k :: 0 <= k < n ==> front[k] == entries[k];
      LastDisjoint(entries, dataStart);
      if last.size > 0 {
        assert all == before + [r];
        PairwiseSnoc(before, r);
      }
    }
  }

  lemma PairwiseSnoc(before: seq<Range>, r: Range)
    ensures PairwiseDisjoint(before + [r]) <==>
      PairwiseDisjoint(before) && forall i :: 0 <= i < |before| ==> Disjoint(before[i], r)
  {
    var all := before + [r];
    assert forall i :: 0 <= i < |before| ==> all[i] == before[i];
    if PairwiseDisjoint(all) {
      forall i | 0 <= i < |before| ensures Disjoint(before[i], r) { assert Disjoint(all[i], all[|before|]); }
      forall i, j | 0 <= i < j < |before| ensures Disjoint(before[i], before[j]) { assert Disjoint(all[i], all[j]); }
    }
  }

  lemma LastDisjoint(entries: seq<BundleEntry>, dataStart: nat)
    requires entries != []
    ensures var n := |entries| - 1;
      EntriesDisjoint(entries, dataStart) <==>
      && EntriesDisjoint(entries[..n], dataStart)
      && (entries[n].size > 0 ==>
            forall k :: 0 <= k < n && entries[..n][k].size > 0 ==>
              Disjoint(RangeOf(entries[..n][k], dataStart), RangeOf(entries[n], dataStart)))
  {
    var n := |entries| - 1;
    var front := entries[..n];
    assert forall k :: 0 <= k < n ==> front[k] == entries[k];
    if EntriesDisjoint(entries, dataStart) {
      forall j, k | 0 <= j < k < n && front[j].size > 0 && front[k].size > 0
        ensures Disjoint(RangeOf(front[j], dataStart), RangeOf(front[k], dataStart))
      {
        assert front[j] == entries[j] && front[k] == entries[k];
      }
    }
  }

  // ---- The check itself ----

  /** The key of the sort: the start. */
  function ByStart(): (Range, Range) -> bool {
    (a: Range, b: Range) => a.start <= b.start
  }

  /** The first loop of `validate_layout`: path, overflow and bound checks of each
      entry; the non-empty ranges if all pass. */
  method CollectRanges(lower: bytes -> bytes, entries: seq<BundleEntry>, dataStart: u64, payloadLen: u64)
    returns (r: Result<seq<Range>, BundleError>)
    ensures r.Ok? <==>
      PathsValid(entries) && PathsDistinct(lower, entries) && EntriesInside(entries, dataStart, payloadLen)
    ensures r.Ok? ==> r.value == RangesOf(entries, dataStart)
    ensures r.Err? ==> r.error in {PathTraversal, ManifestError}
  {
    hide ValidateRelativePath, RangesOf;
    var paths: set<bytes> := {};
    var ranges: seq<Range> := [];
    NoRanges(dataStart);
    for k := 0 to |entries|
      invariant forall p :: p in paths <==> exists j :: 0 <= j < k && p == lower(entries[j].relativePath)
      invariant forall j :: 0 <= j < k ==>
        ValidPath(entries[j].relativePath) && dataStart + entries[j].offset + entries[j].size <= payloadLen
      invariant forall i, j :: 0 <= i < j < k ==> lower(entries[i].relativePath) != lower(entries[j].relativePath)
      invariant ranges == RangesOf(entries[..k], dataStart)
    {
      var entry := entries[k];
      RangesSnoc(entries, k, dataStart);
      if !ValidPath(entry.relativePath) { return Err(PathTraversal); }
      var folded := lower(entry.relativePath);
      if folded in paths { return Err(ManifestError); }
      paths := paths + {folded};
      var start := dataStart + entry.offset;
      if start > U64_MAX { return Err(ManifestError); }
      var end := start + entry.size;
      if end > U64_MAX { return Err(ManifestError); }
      if end > payloadLen { return Err(ManifestError); }
      if start != end { ranges := ranges + [Range(start, end)]; }
    }
    assert entries[..|entries|] == entries;
    r := Ok(ranges);
  }

  lemma NoRanges(dataStart: nat)
    ensures RangesOf([], dataStart) == []
  {
  }

  lemma RangesSnoc(entries: seq<BundleEntry>, k: nat, dataStart: nat)
    requires k < |entries|
    ensures RangesOf(entries[..k + 1], dataStart)
         == RangesOf(entries[..k], dataStart) + if entries[k].size > 0 then [RangeOf(entries[k], dataStart)] else []
  {
    assert entries[..k + 1][..k] == entries[..k];
  }

  /** `validate_layout` accepts exactly when every path is valid, no two collide
      after case folding, every file lies inside the payload (so no sum overflows)
      and no two non-empty files overlap. */
  method ValidateLayout(lower: bytes -> bytes, m: BundleManifest, dataStart: u64, payloadLen: u64)
    returns (r: Result<(), BundleError>)
    ensures r.Ok? <==> ValidLayout(lower, m, dataStart, payloadLen)
    ensures r.Err? ==> r.error in {PathTraversal, ManifestError}
  {
    hide RangesOf, PathsValid, PathsDistinct, EntriesInside, EntriesDisjoint, PairwiseDisjoint;
    var ranges :- CollectRanges(lower, m.entries, dataStart, payloadLen);
    RangesDisjointFrom(m.entries, dataStart, Range(0, 0));
    RangesDecide(m.entries, dataStart);
    var sorted := Sorting.Sort(ByStart(), ranges);
    SortedNeighboursDecide(ranges, sorted);
    var k := 0;
    while k + 1 < |sorted|
      invariant forall i :: 0 <= i < k && i < |sorted| - 1 ==> sorted[i].end <= sorted[i + 1].start
    {
      if sorted[k].end > sorted[k + 1].start { return Err(ManifestError); }
      k := k + 1;
    }
    r := Ok(());
  }
}
