/** Step5, second half: grouping the dams by the lake they were paired
    with, ranking every group by dam source, choosing the dams to keep, and
    writing the results back to the dam and lake tables.

    The script keeps index-aligned lists, one entry per dam in cursor
    order: `lakeUID_array`, `dam_ID_array`, `dam_source_array` and
    `keep_array`. The model takes the same lists as sequences. */
module DamRanking {
  import opened Common
  import opened DamMatching

  /** `duplicate_dam`. */
  datatype Duplicate = SameSourceDuplicate | MultipleDams | SingleDam

  /** Classifies a lake from the sources of its dams: fewer distinct sources
      than dams, several dams, or one dam. */
  function Classify(srcs: seq<string>): (r: Duplicate)
    requires |srcs| >= 1
    ensures r == SameSourceDuplicate <==> !NoDup(srcs)
    ensures r == MultipleDams <==> NoDup(srcs) && |srcs| > 1
    ensures r == SingleDam <==> |srcs| == 1
  {
    DedupLengthIffNoDup(srcs);
    var damCount := |srcs|;
    var sourceCount := |Dedup(srcs)|;
    if sourceCount < damCount then SameSourceDuplicate
    else if damCount > 1 then MultipleDams
    else SingleDam
  }

  // ----- ranking -----

  /** `rank_sources`: the sources in decreasing preference. */
  function RankSources(register: string): (r: seq<string>)
    ensures IsRegisterSource(register) ==> NoDup(r)
  {
    var r := [register, GeoDARSource, GooddUnsnapped, GooddSnapped];
    assert !RegisterPrefixAt(GooddUnsnapped, 0) by {
      assert GooddUnsnapped[0] != RegisterPrefix[0];
    }
    r
  }

  /** The positions of `srcs` grouped by rank: first every position whose
      source is `rank[0]`, ascending, then those of `rank[1]`, and so on. */
  function RankedIndices(srcs: seq<string>, rank: seq<string>): (r: seq<int>)
    ensures forall k :: 0 <= k < |r| ==> 0 <= r[k] < |srcs| && srcs[r[k]] in rank
    ensures forall i :: 0 <= i < |srcs| && srcs[i] in rank ==> i in r
  {
    if |rank| == 0 then []
    else
      assert forall i :: 0 <= i < |srcs| && srcs[i] in rank ==> srcs[i] == rank[0] || srcs[i] in rank[1..];
      IndicesOf(srcs, rank[0]) + RankedIndices(srcs, rank[1..])
  }

  /** Position of a source in the ranking after the first one. */
  lemma RankAfterFirst(rank: seq<string>, s: string)
    requires |rank| > 0 && s in rank[1..] && s != rank[0]
    ensures FirstIndex(rank, s) == 1 + FirstIndex(rank[1..], s)
  {
  }

  /** `r` lists positions of `srcs` whose sources are ranked, ordered by
      rank, and positions of one source in ascending order. */
  predicate StableByRank(srcs: seq<string>, rank: seq<string>, r: seq<int>) {
    && (forall k :: 0 <= k < |r| ==> 0 <= r[k] < |srcs| && srcs[r[k]] in rank)
    && forall p, q :: 0 <= p < q < |r| ==>
         FirstIndex(rank, srcs[r[p]]) < FirstIndex(rank, srcs[r[q]])
         || (srcs[r[p]] == srcs[r[q]] && r[p] < r[q])
  }

  /** The ranked positions form a stable sort by rank: every position with
      a ranked source occurs once, a better-ranked source comes first, and
      positions of one source keep their order. Together with the two
      membership clauses of `RankedIndices`, this characterises the list. */
  lemma {:induction false} RankedIndicesSorted(srcs: seq<string>, rank: seq<string>)
    requires NoDup(rank)
    ensures NoDup(RankedIndices(srcs, rank))
    ensures StableByRank(srcs, rank, RankedIndices(srcs, rank))
  {
    if |rank| > 0 {
      var tail := rank[1..];
      assert NoDup(tail) by {
        assert forall i, j :: 0 <= i < j < |tail| ==> tail[i] == rank[i+1] && tail[j] == rank[j+1];
      }
      assert rank[0] !in tail by {
        assert forall j :: 0 <= j < |tail| ==> tail[j] == rank[j+1];
      }
      RankedIndicesSorted(srcs, tail);
      StableConcat(srcs, rank, IndicesOf(srcs, rank[0]), RankedIndices(srcs, tail));
    }
    StableNoDup(srcs, rank, RankedIndices(srcs, rank));
  }

  /** The positions of the best source, ascending, followed by a stable
      ranking by the other sources, are a stable ranking. */
  lemma StableConcat(srcs: seq<string>, rank: seq<string>, head: seq<int>, rest: seq<int>)
    requires NoDup(rank) && |rank| > 0
    requires forall k :: 0 <= k < |head| ==> 0 <= head[k] < |srcs| && srcs[head[k]] == rank[0]
    requires forall k, l :: 0 <= k < l < |head| ==> head[k] < head[l]
    requires StableByRank(srcs, rank[1..], rest)
    ensures StableByRank(srcs, rank, head + rest)
  {
    var r := head + rest;
    var tail := rank[1..];
    assert forall k :: 0 <= k < |rest| ==> r[|head| + k] == rest[k];
    forall p, q | 0 <= p < q < |r|
      ensures FirstIndex(rank, srcs[r[p]]) < FirstIndex(rank, srcs[r[q]])
              || (srcs[r[p]] == srcs[r[q]] && r[p] < r[q])
    {
      if q < |head| {
        assert r[p] == head[p] && r[q] == head[q];
      } else if p < |head| {
        var b := rest[q - |head|];
        assert r[p] == head[p] && r[q] == b && srcs[b] in tail;
        RankAfterFirst(rank, srcs[b]);
      } else {
        var a, b := rest[p - |head|], rest[q - |head|];
        assert r[p] == a && r[q] == b;
        RankAfterFirst(rank, srcs[a]);
        RankAfterFirst(rank, srcs[b]);
      }
    }
  }

  /** A stable ranking repeats no position. */
  lemma StableNoDup(srcs: seq<string>, rank: seq<string>, r: seq<int>)
    requires StableByRank(srcs, rank, r)
    ensures NoDup(r)
  {
    forall p, q | 0 <= p < q < |r| ensures r[p] != r[q] {
      assert FirstIndex(rank, srcs[r[p]]) < FirstIndex(rank, srcs[r[q]])
             || (srcs[r[p]] == srcs[r[q]] && r[p] < r[q]);
    }
  }

  /** The best-ranked source that occurs, if any. */
  function TopSource(srcs: seq<string>, rank: seq<string>): (r: Option<string>)
    ensures r.Some? ==> r.value in srcs
  {
    if |rank| == 0 then None
    else if rank[0] in srcs then Some(rank[0])
    else TopSource(srcs, rank[1..])
  }

  /** The top source is missing exactly when no ranked source occurs;
      otherwise it is the first entry of the ranking that occurs. */
  lemma {:induction false} TopSourceSpec(srcs: seq<string>, rank: seq<string>)
    ensures var r := TopSource(srcs, rank);
      && (r.None? <==> forall j :: 0 <= j < |rank| ==> rank[j] !in srcs)
      && (r.Some? ==> exists j :: 0 <= j < |rank| && rank[j] == r.value && forall i :: 0 <= i < j ==> rank[i] !in srcs)
  {
    if |rank| > 0 && rank[0] !in srcs {
      TopSourceSpec(srcs, rank[1..]);
      assert forall j :: 1 <= j < |rank| ==> rank[j] == rank[1..][j-1];
      var r := TopSource(srcs, rank);
      if r.Some? {
        var j :| 0 <= j < |rank[1..]| && rank[1..][j] == r.value && forall i :: 0 <= i < j ==> rank[1..][i] !in srcs;
        assert rank[j+1] == r.value;
      }
    }
  }

  // ----- one lake -----

  /** Index-aligned lists of the dams: the lake each was paired with, its
      `dam_UID`, its source. */
  predicate Aligned(lakeUids: seq<string>, uids: seq<string>, srcs: seq<string>) {
    |uids| == |lakeUids| && |srcs| == |lakeUids|
  }

  /** The sources of the dams paired with `lake`, in dam order. */
  function GroupSources(lakeUids: seq<string>, srcs: seq<string>, lake: string): (r: seq<string>)
    requires |srcs| == |lakeUids|
    ensures |r| == Count(lakeUids, lake)
  {
    IndicesOfCount(lakeUids, lake);
    Pick(srcs, IndicesOf(lakeUids, lake))
  }

  /** The best-ranked source among the dams of `lake`. */
  function LakeTop(lakeUids: seq<string>, srcs: seq<string>, rank: seq<string>, lake: string): Option<string>
    requires |srcs| == |lakeUids|
  {
    TopSource(GroupSources(lakeUids, srcs, lake), rank)
  }

  /** The dams chosen for `lake`: those paired with it whose source is
      `top`, as ascending positions in the dam lists. */
  function SelectedIndices(lakeUids: seq<string>, srcs: seq<string>, top: string, lake: string): (r: seq<int>)
    requires |srcs| == |lakeUids|
    ensures forall k :: 0 <= k < |r| ==> 0 <= r[k] < |lakeUids| && lakeUids[r[k]] == lake && srcs[r[k]] == top
    ensures |r| == Count(GroupSources(lakeUids, srcs, lake), top)
  {
    var group := IndicesOf(lakeUids, lake);
    var sel := IndicesOf(Pick(srcs, group), top);
    IndicesOfCount(Pick(srcs, group), top);
    Pick(group, sel)
  }

  /** Every dam paired with `lake` whose source is `top` is selected, and
      the selection keeps dam order. */
  lemma SelectedIndicesExact(lakeUids: seq<string>, srcs: seq<string>, top: string, lake: string)
    requires |srcs| == |lakeUids|
    ensures var r := SelectedIndices(lakeUids, srcs, top, lake);
      && (forall i :: 0 <= i < |lakeUids| && lakeUids[i] == lake && srcs[i] == top ==> i in r)
      && (forall k, l :: 0 <= k < l < |r| ==> r[k] < r[l])
  {
    SelectedIndicesCover(lakeUids, srcs, top, lake);
    SelectedIndicesAscending(lakeUids, srcs, top, lake);
  }

  lemma SelectedIndicesCover(lakeUids: seq<string>, srcs: seq<string>, top: string, lake: string)
    requires |srcs| == |lakeUids|
    ensures forall i :: 0 <= i < |lakeUids| && lakeUids[i] == lake && srcs[i] == top ==>
      i in SelectedIndices(lakeUids, srcs, top, lake)
  {
    var group := IndicesOf(lakeUids, lake);
    var gs := Pick(srcs, group);
    var sel := IndicesOf(gs, top);
    var r := SelectedIndices(lakeUids, srcs, top, lake);
    assert r == Pick(group, sel);
    forall i | 0 <= i < |lakeUids| && lakeUids[i] == lake && srcs[i] == top
      ensures i in r
    {
      var j :| 0 <= j < |group| && group[j] == i;
      assert gs[j] == top;
      var k :| 0 <= k < |sel| && sel[k] == j;
      assert r[k] == i;
    }
  }

  lemma SelectedIndicesAscending(lakeUids: seq<string>, srcs: seq<string>, top: string, lake: string)
    requires |srcs| == |lakeUids|
    ensures var r := SelectedIndices(lakeUids, srcs, top, lake);
      forall k, l :: 0 <= k < l < |r| ==> r[k] < r[l]
  {
    var group := IndicesOf(lakeUids, lake);
    var sel := IndicesOf(Pick(srcs, group), top);
    var r := SelectedIndices(lakeUids, srcs, top, lake);
    assert r == Pick(group, sel);
    forall k, l | 0 <= k < l < |r| ensures r[k] < r[l] {
      assert sel[k] < sel[l];
    }
  }

  /** What the lake loop computes for one lake. */
  datatype LakeSummary = LakeSummary(
    lake: string,
    damCount: nat,
    sourceCount: nat,
    duplicate: Duplicate,
    damUids: string,
    selectedCount: nat,
    selectedUids: string)

  /** The positions of the dams paired with `lake`, grouped by source
      rank; dams of unranked sources are left out. */
  function RankedPositions(lakeUids: seq<string>, srcs: seq<string>, rank: seq<string>, lake: string): (r: seq<int>)
    requires |srcs| == |lakeUids|
    ensures forall k :: 0 <= k < |r| ==> 0 <= r[k] < |lakeUids| && lakeUids[r[k]] == lake && srcs[r[k]] in rank
  {
    var group := IndicesOf(lakeUids, lake);
    var gs := Pick(srcs, group);
    var idx := RankedIndices(gs, rank);
    var pos := Pick(group, idx);
    assert forall k :: 0 <= k < |pos| ==> srcs[pos[k]] == gs[idx[k]];
    pos
  }

  /** Conversely, every dam paired with `lake` whose source is ranked has
      its position listed. */
  lemma RankedPositionsComplete(lakeUids: seq<string>, srcs: seq<string>, rank: seq<string>, lake: string, i: int)
    requires |srcs| == |lakeUids|
    requires 0 <= i < |lakeUids| && lakeUids[i] == lake && srcs[i] in rank
    ensures i in RankedPositions(lakeUids, srcs, rank, lake)
  {
    var group := IndicesOf(lakeUids, lake);
    var gs := Pick(srcs, group);
    var idx := RankedIndices(gs, rank);
    var j :| 0 <= j < |group| && group[j] == i;
    assert gs[j] == srcs[i];
    var m :| 0 <= m < |idx| && idx[m] == j;
    assert Pick(group, idx)[m] == i;
  }

  /** The ranked positions of a lake form a stable sort of its dams by
      source rank, each dam listed once. */
  lemma RankedPositionsOrdered(lakeUids: seq<string>, srcs: seq<string>, rank: seq<string>, lake: string)
    requires |srcs| == |lakeUids| && NoDup(rank)
    ensures NoDup(RankedPositions(lakeUids, srcs, rank, lake))
    ensures StableByRank(srcs, rank, RankedPositions(lakeUids, srcs, rank, lake))
  {
    var group := IndicesOf(lakeUids, lake);
    var gs := Pick(srcs, group);
    RankedIndicesSorted(gs, rank);
    StableThroughGroup(srcs, rank, group, RankedIndices(gs, rank));
    StableNoDup(srcs, rank, RankedPositions(lakeUids, srcs, rank, lake));
  }

  /** A stable ranking of a sub-list, read through the ascending positions
      that pick the sub-list, is a stable ranking of the whole list. */
  lemma StableThroughGroup(srcs: seq<string>, rank: seq<string>, group: seq<int>, idx: seq<int>)
    requires forall k :: 0 <= k < |group| ==> 0 <= group[k] < |srcs|
    requires forall k, l :: 0 <= k < l < |group| ==> group[k] < group[l]
    requires StableByRank(Pick(srcs, group), rank, idx)
    ensures StableByRank(srcs, rank, Pick(group, idx))
  {
    var gs := Pick(srcs, group);
    var pos := Pick(group, idx);
    assert forall k :: 0 <= k < |pos| ==> srcs[pos[k]] == gs[idx[k]];
    forall p, q | 0 <= p < q < |pos|
      ensures FirstIndex(rank, srcs[pos[p]]) < FirstIndex(rank, srcs[pos[q]])
              || (srcs[pos[p]] == srcs[pos[q]] && pos[p] < pos[q])
    {
      assert FirstIndex(rank, gs[idx[p]]) < FirstIndex(rank, gs[idx[q]])
             || (gs[idx[p]] == gs[idx[q]] && idx[p] < idx[q]);
    }
  }

  /** `u` is the `dam_UID` of a dam paired with `lake` whose source is
      ranked. */
  predicate RankedDamUid(lakeUids: seq<string>, uids: seq<string>, srcs: seq<string>, rank: seq<string>, lake: string, u: string)
    requires Aligned(lakeUids, uids, srcs)
  {
    exists i :: 0 <= i < |uids| && lakeUids[i] == lake && srcs[i] in rank && u == uids[i]
  }

  /** The `dam_UID`s of the dams paired with `lake`, grouped by source
      rank; dams of unranked sources are left out. */
  function RankedUids(lakeUids: seq<string>, uids: seq<string>, srcs: seq<string>, rank: seq<string>, lake: string): (r: seq<string>)
    requires Aligned(lakeUids, uids, srcs)
    ensures forall k :: 0 <= k < |r| ==> RankedDamUid(lakeUids, uids, srcs, rank, lake, r[k])
  {
    var pos := RankedPositions(lakeUids, srcs, rank, lake);
    var r := Pick(uids, pos);
    forall k | 0 <= k < |r| ensures RankedDamUid(lakeUids, uids, srcs, rank, lake, r[k]) {
      var i := pos[k];
      assert r[k] == uids[i];
    }
    r
  }

  /** Every dam paired with `lake` whose source is ranked has its
      `dam_UID` listed. */
  lemma RankedUidsComplete(lakeUids: seq<string>, uids: seq<string>, srcs: seq<string>, rank: seq<string>, lake: string, i: int)
    requires Aligned(lakeUids, uids, srcs)
    requires 0 <= i < |lakeUids| && lakeUids[i] == lake && srcs[i] in rank
    ensures uids[i] in RankedUids(lakeUids, uids, srcs, rank, lake)
  {
    var pos := RankedPositions(lakeUids, srcs, rank, lake);
    RankedPositionsComplete(lakeUids, srcs, rank, lake, i);
    var m :| 0 <= m < |pos| && pos[m] == i;
    assert RankedUids(lakeUids, uids, srcs, rank, lake)[m] == uids[i];
  }

  /** The summary of `lake`; `None` when none of its dams has a ranked
      source, where the script only prints a message. */
  function Summarize(lake: string, lakeUids: seq<string>, uids: seq<string>, srcs: seq<string>, rank: seq<string>): (r: Option<LakeSummary>)
    requires Aligned(lakeUids, uids, srcs)
    ensures r.None? <==> LakeTop(lakeUids, srcs, rank, lake).None?
    ensures r.Some? ==> r.value.lake == lake
  {
    var gs := GroupSources(lakeUids, srcs, lake);
    match TopSource(gs, rank)
    case None => None
    case Some(top) =>
      var sel := SelectedIndices(lakeUids, srcs, top, lake);
      Some(LakeSummary(
        lake, |gs|, |Dedup(gs)|, Classify(gs),
        Join(RankedUids(lakeUids, uids, srcs, rank, lake)),
        |sel|, Join(Pick(uids, sel))))
  }

  /** The counts of a lake summary: the dams paired with the lake (at least
      one), their distinct sources (between one and the dam count, equal to
      it exactly when no source repeats) and the selected dams (at least
      one), and the listed and selected `dam_UID`s. */
  lemma SummarizeSpec(lake: string, lakeUids: seq<string>, uids: seq<string>, srcs: seq<string>, rank: seq<string>)
    requires Aligned(lakeUids, uids, srcs)
    requires lake in lakeUids
    requires LakeTop(lakeUids, srcs, rank, lake).Some?
    ensures var s := Summarize(lake, lakeUids, uids, srcs, rank).value;
      var gs := GroupSources(lakeUids, srcs, lake);
      var sel := SelectedIndices(lakeUids, srcs, LakeTop(lakeUids, srcs, rank, lake).value, lake);
      && s.damCount == Count(lakeUids, lake) >= 1
      && 1 <= s.sourceCount <= s.damCount
      && (s.sourceCount == s.damCount <==> NoDup(gs))
      && s.duplicate == Classify(gs)
      && s.damUids == Join(RankedUids(lakeUids, uids, srcs, rank, lake))
      && s.selectedCount == |sel| >= 1
      && s.selectedUids == Join(Pick(uids, sel))
  {
    DedupLengthIffNoDup(GroupSources(lakeUids, srcs, lake));
  }

  // ----- keep values -----

  /** `xs` with every position of `pos` set to `v`. */
  function SetAll<T>(xs: seq<T>, pos: seq<int>, v: T): (r: seq<T>)
    requires forall k :: 0 <= k < |pos| ==> 0 <= pos[k] < |xs|
    ensures |r| == |xs|
    ensures forall i :: 0 <= i < |xs| ==> r[i] == if i in pos then v else xs[i]
    decreases |pos|
  {
    if |pos| == 0 then xs
    else
      var r := SetAll(xs[pos[0] := v], pos[1..], v);
      assert forall i :: i in pos <==> i == pos[0] || i in pos[1..];
      r
  }

  /** The keep update of one lake: every selected dam gets the number of
      selected dams. */
  function KeepLake(keep: seq<Option<int>>, lakeUids: seq<string>, srcs: seq<string>, rank: seq<string>, lake: string): (r: seq<Option<int>>)
    requires |keep| == |lakeUids| && |srcs| == |lakeUids|
    ensures |r| == |keep|
  {
    match LakeTop(lakeUids, srcs, rank, lake)
    case None => keep
    case Some(top) =>
      var sel := SelectedIndices(lakeUids, srcs, top, lake);
      SetAll(keep, sel, Some(|sel|))
  }

  /** The keep value the lake loop leaves on dam `i` after processing the
      lakes of `lakes`: the size of the selected group when the dam is in
      it, the value it had before otherwise. */
  function KeptValue(keep: seq<Option<int>>, lakeUids: seq<string>, srcs: seq<string>, rank: seq<string>, lakes: seq<string>, i: nat): Option<int>
    requires |keep| == |lakeUids| && |srcs| == |lakeUids| && i < |keep|
  {
    var lake := lakeUids[i];
    if lake in lakes && LakeTop(lakeUids, srcs, rank, lake) == Some(srcs[i]) then
      Some(Count(GroupSources(lakeUids, srcs, lake), srcs[i]))
    else keep[i]
  }

  /** One lake's update changes exactly its selected dams. */
  lemma KeepLakeChanges(keep: seq<Option<int>>, lakeUids: seq<string>, srcs: seq<string>, rank: seq<string>, lake: string, i: nat)
    requires |keep| == |lakeUids| && |srcs| == |lakeUids| && i < |keep|
    ensures KeepLake(keep, lakeUids, srcs, rank, lake)[i] ==
      if lakeUids[i] == lake && LakeTop(lakeUids, srcs, rank, lake) == Some(srcs[i]) then
        Some(Count(GroupSources(lakeUids, srcs, lake), srcs[i]))
      else keep[i]
  {
    match LakeTop(lakeUids, srcs, rank, lake)
    case None =>
    case Some(top) =>
      SelectedIndicesExact(lakeUids, srcs, top, lake);
  }

  /** The lake loop's keep updates, one lake after the other. */
  function ApplyKeep(keep: seq<Option<int>>, lakeUids: seq<string>, srcs: seq<string>, rank: seq<string>, lakes: seq<string>): (r: seq<Option<int>>)
    requires |keep| == |lakeUids| && |srcs| == |lakeUids|
    ensures |r| == |keep|
    decreases |lakes|
  {
    if |lakes| == 0 then keep
    else ApplyKeep(KeepLake(keep, lakeUids, srcs, rank, lakes[0]), lakeUids, srcs, rank, lakes[1..])
  }

  /** The loop leaves every dam with the value `KeptValue` describes,
      whatever the order of the lakes. */
  lemma {:induction false} ApplyKeepPointwise(keep: seq<Option<int>>, lakeUids: seq<string>, srcs: seq<string>, rank: seq<string>, lakes: seq<string>)
    requires |keep| == |lakeUids| && |srcs| == |lakeUids|
    ensures forall i :: 0 <= i < |keep| ==>
      ApplyKeep(keep, lakeUids, srcs, rank, lakes)[i] == KeptValue(keep, lakeUids, srcs, rank, lakes, i)
    decreases |lakes|
  {
    if |lakes| > 0 {
      var next := KeepLake(keep, lakeUids, srcs, rank, lakes[0]);
      ApplyKeepPointwise(next, lakeUids, srcs, rank, lakes[1..]);
      assert ApplyKeep(keep, lakeUids, srcs, rank, lakes) == ApplyKeep(next, lakeUids, srcs, rank, lakes[1..]);
      forall i | 0 <= i < |keep|
        ensures ApplyKeep(keep, lakeUids, srcs, rank, lakes)[i] == KeptValue(keep, lakeUids, srcs, rank, lakes, i)
      {
        var lake := lakeUids[i];
        var chosen := LakeTop(lakeUids, srcs, rank, lake) == Some(srcs[i]);
        var v := Some(Count(GroupSources(lakeUids, srcs, lake), srcs[i]));
        KeepLakeChanges(keep, lakeUids, srcs, rank, lakes[0], i);
        assert next[i] == if lake == lakes[0] && chosen then v else keep[i];
        assert KeptValue(next, lakeUids, srcs, rank, lakes[1..], i) == if lake in lakes[1..] && chosen then v else next[i];
        assert lake in lakes <==> lake == lakes[0] || lake in lakes[1..];
        assert KeptValue(keep, lakeUids, srcs, rank, lakes, i) == if lake in lakes && chosen then v else keep[i];
      }
    }
  }

  /** Hence the order in which the lakes are visited (a Python set's order
      in the script) does not matter. */
  lemma ApplyKeepOrderFree(keep: seq<Option<int>>, lakeUids: seq<string>, srcs: seq<string>, rank: seq<string>, lakes1: seq<string>, lakes2: seq<string>)
    requires |keep| == |lakeUids| && |srcs| == |lakeUids|
    requires forall x :: x in lakes1 <==> x in lakes2
    ensures ApplyKeep(keep, lakeUids, srcs, rank, lakes1) == ApplyKeep(keep, lakeUids, srcs, rank, lakes2)
  {
    ApplyKeepPointwise(keep, lakeUids, srcs, rank, lakes1);
    ApplyKeepPointwise(keep, lakeUids, srcs, rank, lakes2);
  }

  // ----- the whole lake loop -----

  /** How the lake loop can fail. `NoUnmatchedDam`: `remove('-999')` raises
      when every dam was paired. `NoRegisterName`: `this_register_name` is
      unbound when no dam is a register dam. `UnrankedLake`: a lake none of
      whose dams has a ranked source gets no selected entry, the selected
      lists fall out of step with the lake list and the lake write-back
      indexes past their end. */
  datatype StepError = NoUnmatchedDam | NoRegisterName | UnrankedLake(lake: string)

  datatype Association = Association(
    lakes: seq<string>,
    summaries: seq<LakeSummary>,
    keep: seq<Option<int>>)

  /** The summaries of the lakes, in order; the first lake without a ranked
      source is reported. */
  function SummarizeAll(lakes: seq<string>, lakeUids: seq<string>, uids: seq<string>, srcs: seq<string>, rank: seq<string>): (r: Result<seq<LakeSummary>, StepError>)
    requires Aligned(lakeUids, uids, srcs)
    ensures r.Success? ==> |r.value| == |lakes|
    ensures r.Success? ==>
      forall k :: 0 <= k < |lakes| ==> Summarize(lakes[k], lakeUids, uids, srcs, rank) == Some(r.value[k])
    ensures r.Failure? ==>
      exists k :: 0 <= k < |lakes| && r.error == UnrankedLake(lakes[k])
                  && Summarize(lakes[k], lakeUids, uids, srcs, rank).None?
  {
    var opts := seq(|lakes|, k requires 0 <= k < |lakes| => Summarize(lakes[k], lakeUids, uids, srcs, rank));
    var k := FirstNone(opts);
    if k < |lakes| then Failure(UnrankedLake(lakes[k]))
    else Success(seq(|lakes|, j requires 0 <= j < |lakes| => opts[j].value))
  }

  /** Lines 278-279 of the script: the distinct lake UIDs of the paired
      dams, without the "-999" of the unpaired ones. */
  function MatchedLakes(lakeUids: seq<string>): (r: seq<string>)
    ensures NoDup(r)
    ensures forall i :: 0 <= i < |lakeUids| && lakeUids[i] != Unmatched ==> lakeUids[i] in r
    ensures forall k :: 0 <= k < |r| ==> r[k] in lakeUids && r[k] != Unmatched
  {
    var d := Dedup(lakeUids);
    var r := Without(d, Unmatched);
    assert forall i :: 0 <= i < |lakeUids| && lakeUids[i] != Unmatched ==> lakeUids[i] in r by {
      forall i | 0 <= i < |lakeUids| && lakeUids[i] != Unmatched ensures lakeUids[i] in r {
        var k :| 0 <= k < |d| && d[k] == lakeUids[i];
      }
    }
    r
  }

  /** Lines 278-370 of the script: the distinct matched lakes, a summary per
      lake, and the keep values after the selection. */
  function Associate(lakeUids: seq<string>, uids: seq<string>, srcs: seq<string>, keep: seq<Option<int>>, register: Option<string>): (r: Result<Association, StepError>)
    requires Aligned(lakeUids, uids, srcs) && |keep| == |lakeUids|
    ensures r == Failure(NoUnmatchedDam) <==> Unmatched !in lakeUids
    ensures (Unmatched in lakeUids && register.None? && exists i :: 0 <= i < |lakeUids| && lakeUids[i] != Unmatched)
      ==> r == Failure(NoRegisterName)
    ensures r.Success? ==>
      && r.value.lakes == MatchedLakes(lakeUids)
      && |r.value.summaries| == |r.value.lakes|
      && (forall k :: 0 <= k < |r.value.lakes| ==> r.value.summaries[k].lake == r.value.lakes[k])
      && |r.value.keep| == |keep|
  {
    if Unmatched !in lakeUids then Failure(NoUnmatchedDam)
    else
      var lakes := MatchedLakes(lakeUids);
      if |lakes| == 0 then Success(Association([], [], keep))
      else if register.None? then Failure(NoRegisterName)
      else
        var rank := RankSources(register.value);
        match SummarizeAll(lakes, lakeUids, uids, srcs, rank)
        case Failure(e) => Failure(e)
        case Success(sums) =>
          Success(Association(lakes, sums, ApplyKeep(keep, lakeUids, srcs, rank, lakes)))
  }

  /** After a successful association every dam carries the keep value of
      `KeptValue`: the selected dams of each matched lake get the size of
      their group, all others (the unpaired ones included) keep theirs. */
  lemma AssociateKeep(lakeUids: seq<string>, uids: seq<string>, srcs: seq<string>, keep: seq<Option<int>>, register: string)
    requires Aligned(lakeUids, uids, srcs) && |keep| == |lakeUids|
    requires Associate(lakeUids, uids, srcs, keep, Some(register)).Success?
    ensures forall i :: 0 <= i < |keep| ==>
      Associate(lakeUids, uids, srcs, keep, Some(register)).value.keep[i]
        == KeptValue(keep, lakeUids, srcs, RankSources(register), MatchedLakes(lakeUids), i)
  {
    ApplyKeepPointwise(keep, lakeUids, srcs, RankSources(register), MatchedLakes(lakeUids));
  }

  /** Without a register name the association succeeds only when no dam is
      paired with a lake, and then it leaves every keep value as it was. */
  lemma AssociateNoRegister(lakeUids: seq<string>, uids: seq<string>, srcs: seq<string>, keep: seq<Option<int>>)
    requires Aligned(lakeUids, uids, srcs) && |keep| == |lakeUids|
    requires Associate(lakeUids, uids, srcs, keep, None).Success?
    ensures forall i :: 0 <= i < |lakeUids| ==> lakeUids[i] == Unmatched
    ensures Associate(lakeUids, uids, srcs, keep, None).value.keep == keep
  {
    EmptyWithoutMembers(MatchedLakes(lakeUids));
  }

  /** Each summary of a successful association is the summary of its lake. */
  lemma AssociateSummaries(lakeUids: seq<string>, uids: seq<string>, srcs: seq<string>, keep: seq<Option<int>>, register: string, k: nat)
    requires Aligned(lakeUids, uids, srcs) && |keep| == |lakeUids|
    requires Associate(lakeUids, uids, srcs, keep, Some(register)).Success?
    requires k < |MatchedLakes(lakeUids)|
    ensures Summarize(MatchedLakes(lakeUids)[k], lakeUids, uids, srcs, RankSources(register))
      == Some(Associate(lakeUids, uids, srcs, keep, Some(register)).value.summaries[k])
  {
    var lakes := MatchedLakes(lakeUids);
    var sums := SummarizeAll(lakes, lakeUids, uids, srcs, RankSources(register));
    assert sums.Success? && Associate(lakeUids, uids, srcs, keep, Some(register)).value.summaries == sums.value;
  }
}
