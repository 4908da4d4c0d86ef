/** Step5 as a whole: pair every dam with a lake (through the dissolved
    water mask or the proximity query), rank the dams of each lake, and
    write the results back to the dam points and to the water polygons. */
module Relation {
  import opened Common
  import opened DamMatching
  import opened DamRanking

  /** The fields step 5 writes on a dam point: `R1_keep`, `R1_keep_QC1`,
      `R1_lake_UID_QC` and `R1_lake_UID_QC1`. */
  datatype DamRecord = DamRecord(
    keep: Option<int>,
    keepQc1: Option<int>,
    lakeUidQc: Option<string>,
    lakeUidQc1: Option<string>)

  /** The fields step 5 reads and writes on a water polygon: `lake_UID_QC`
      and the `R1_` columns. */
  datatype LakeRecord = LakeRecord(
    lakeUidQc: string,
    lakeUidQc1: Option<string>,
    damCount: Option<int>,
    sourceCount: Option<int>,
    damUids: Option<string>,
    selectedUids: Option<string>,
    selectedCount: Option<int>)

  /** Both tables after the write-back. */
  datatype Tables = Tables(dams: seq<DamRecord>, lakes: seq<LakeRecord>)

  /** One dam row of the dam update cursor. */
  function WriteDam(rec: DamRecord, keep: Option<int>, lakeUid: string): DamRecord {
    var r := rec.(keep := keep, keepQc1 := keep);
    if lakeUid != Unmatched then r.(lakeUidQc := Some(lakeUid), lakeUidQc1 := Some(lakeUid)) else r
  }

  /** One polygon row of the lake update cursor: the summary is looked up
      by the polygon's `lake_UID_QC` in the list of matched lakes. */
  function WriteLake(rec: LakeRecord, lakes: seq<string>, sums: seq<LakeSummary>): LakeRecord
    requires |sums| == |lakes|
  {
    var r := rec.(lakeUidQc1 := Some(rec.lakeUidQc));
    if rec.lakeUidQc in lakes then
      var s := sums[FirstIndex(lakes, rec.lakeUidQc)];
      r.(damCount := Some(s.damCount), sourceCount := Some(s.sourceCount), damUids := Some(s.damUids),
         selectedUids := Some(s.selectedUids), selectedCount := Some(s.selectedCount))
    else r
  }

  /** `lakeUID_array`: every dam paired against the dissolved mask. */
  function Pairing(dams: seq<Dam>, mask: seq<Polygon>, near: Proximity): seq<string> {
    MatchAll(dams, DissolvedMask(mask), near)
  }

  function UidsOf(dams: seq<Dam>): (r: seq<string>)
    ensures |r| == |dams| && forall k :: 0 <= k < |dams| ==> r[k] == dams[k].uid
  {
    seq(|dams|, k requires 0 <= k < |dams| => dams[k].uid)
  }

  function SourcesOf(dams: seq<Dam>): (r: seq<string>)
    ensures |r| == |dams| && forall k :: 0 <= k < |dams| ==> r[k] == dams[k].source
  {
    seq(|dams|, k requires 0 <= k < |dams| => dams[k].source)
  }

  /** The association the lake loop computes for these dams. */
  function AssociateDams(dams: seq<Dam>, mask: seq<Polygon>, near: Proximity): Result<Association, StepError> {
    Associate(Pairing(dams, mask, near), UidsOf(dams), SourcesOf(dams), InitialKeeps(dams), LastRegister(dams))
  }

  /** The whole of step 5 after the dissolve: pairing, ranking and both
      write-backs. With no unpaired dam or no register name the script
      stops before either update cursor runs; a lake without a ranked
      source is an error here, which `DamRanking.SummarizeAll` describes. */
  function BuildRelation(dams: seq<Dam>, mask: seq<Polygon>, near: Proximity, damRecs: seq<DamRecord>, lakeRecs: seq<LakeRecord>): (r: Result<Tables, StepError>)
    requires |damRecs| == |dams|
    ensures r == Failure(NoUnmatchedDam) <==>
      forall i :: 0 <= i < |dams| ==> MatchDam(dams[i], DissolvedMask(mask), near) != Unmatched
    ensures r.Success? ==> |r.value.dams| == |dams| && |r.value.lakes| == |lakeRecs|
  {
    var lakeUids := Pairing(dams, mask, near);
    assert Unmatched !in lakeUids <==> forall i :: 0 <= i < |dams| ==> lakeUids[i] != Unmatched;
    match AssociateDams(dams, mask, near)
    case Failure(e) => Failure(e)
    case Success(a) => Success(WriteBack(damRecs, lakeRecs, lakeUids, a))
  }

  /** Both update cursors, given the pairing and the association. */
  function WriteBack(damRecs: seq<DamRecord>, lakeRecs: seq<LakeRecord>, lakeUids: seq<string>, a: Association): (r: Tables)
    requires |a.keep| == |damRecs| && |lakeUids| == |damRecs| && |a.summaries| == |a.lakes|
    ensures |r.dams| == |damRecs| && |r.lakes| == |lakeRecs|
    ensures forall i :: 0 <= i < |damRecs| ==> r.dams[i] == WriteDam(damRecs[i], a.keep[i], lakeUids[i])
    ensures forall j :: 0 <= j < |lakeRecs| ==> r.lakes[j] == WriteLake(lakeRecs[j], a.lakes, a.summaries)
  {
    Tables(
      seq(|damRecs|, i requires 0 <= i < |damRecs| => WriteDam(damRecs[i], a.keep[i], lakeUids[i])),
      seq(|lakeRecs|, j requires 0 <= j < |lakeRecs| => WriteLake(lakeRecs[j], a.lakes, a.summaries)))
  }

  /** After step 5 every dam carries the same value in both keep fields: the
      size of its lake's best-source group when it belongs to that group,
      its initial keep value otherwise; and a paired dam records its lake
      while an unpaired one keeps whatever lake UID it had. */
  lemma BuildRelationDams(dams: seq<Dam>, mask: seq<Polygon>, near: Proximity, damRecs: seq<DamRecord>, lakeRecs: seq<LakeRecord>, i: nat)
    requires |damRecs| == |dams| && i < |dams|
    requires BuildRelation(dams, mask, near, damRecs, lakeRecs).Success?
    ensures var out := BuildRelation(dams, mask, near, damRecs, lakeRecs).value.dams[i];
      var lakeUids := Pairing(dams, mask, near);
      && out.keep == out.keepQc1
      && (LastRegister(dams).None? ==> out.keep == InitialKeeps(dams)[i])
      && (LastRegister(dams).Some? ==> out.keep == KeptValue(InitialKeeps(dams), lakeUids, SourcesOf(dams), RankSources(LastRegister(dams).value), MatchedLakes(lakeUids), i))
      && (lakeUids[i] != Unmatched ==> out.lakeUidQc == Some(lakeUids[i]) && out.lakeUidQc1 == Some(lakeUids[i]))
      && (lakeUids[i] == Unmatched ==> out.lakeUidQc == damRecs[i].lakeUidQc && out.lakeUidQc1 == damRecs[i].lakeUidQc1)
  {
    var lakeUids := Pairing(dams, mask, near);
    var keep := InitialKeeps(dams);
    var a := AssociateDams(dams, mask, near).value;
    assert BuildRelation(dams, mask, near, damRecs, lakeRecs).value.dams[i] == WriteDam(damRecs[i], a.keep[i], lakeUids[i]);
    match LastRegister(dams)
    case None => AssociateNoRegister(lakeUids, UidsOf(dams), SourcesOf(dams), keep);
    case Some(register) => AssociateKeep(lakeUids, UidsOf(dams), SourcesOf(dams), keep, register);
  }

  /** After step 5 every polygon records its own lake UID in
      `R1_lake_UID_QC1`; a polygon whose lake has paired dams records how
      many, how many distinct sources they have, all of their `dam_UID`s in
      rank order and the `dam_UID`s of the best-source group, and every
      other polygon keeps its counts. */
  lemma BuildRelationLakes(dams: seq<Dam>, mask: seq<Polygon>, near: Proximity, damRecs: seq<DamRecord>, lakeRecs: seq<LakeRecord>, j: nat)
    requires |damRecs| == |dams| && j < |lakeRecs|
    requires BuildRelation(dams, mask, near, damRecs, lakeRecs).Success?
    ensures var rec := lakeRecs[j];
      var out := BuildRelation(dams, mask, near, damRecs, lakeRecs).value.lakes[j];
      var lakeUids := Pairing(dams, mask, near);
      var lake := rec.lakeUidQc;
      && out.lakeUidQc == lake && out.lakeUidQc1 == Some(lake)
      && (lake != Unmatched && lake in lakeUids ==>
            && LastRegister(dams).Some?
            && var rank := RankSources(LastRegister(dams).value);
            var gs := GroupSources(lakeUids, SourcesOf(dams), lake);
            LakeTop(lakeUids, SourcesOf(dams), rank, lake).Some?
            && var sel := SelectedIndices(lakeUids, SourcesOf(dams), LakeTop(lakeUids, SourcesOf(dams), rank, lake).value, lake);
            && out.damCount == Some(Count(lakeUids, lake))
            && out.sourceCount.Some? && 1 <= out.sourceCount.value <= Count(lakeUids, lake)
            && (out.sourceCount.value == Count(lakeUids, lake) <==> NoDup(gs))
            && out.damUids == Some(Join(RankedUids(lakeUids, UidsOf(dams), SourcesOf(dams), rank, lake)))
            && out.selectedCount == Some(|sel|) && |sel| >= 1
            && out.selectedUids == Some(Join(Pick(UidsOf(dams), sel))))
      && (lake == Unmatched || lake !in lakeUids ==>
            && out.damCount == rec.damCount && out.sourceCount == rec.sourceCount
            && out.damUids == rec.damUids && out.selectedUids == rec.selectedUids
            && out.selectedCount == rec.selectedCount)
  {
    var lakeUids := Pairing(dams, mask, near);
    var uids := UidsOf(dams);
    var srcs := SourcesOf(dams);
    var keep := InitialKeeps(dams);
    var a := AssociateDams(dams, mask, near).value;
    var lake := lakeRecs[j].lakeUidQc;
    var lakes := MatchedLakes(lakeUids);
    assert BuildRelation(dams, mask, near, damRecs, lakeRecs).value.lakes[j] == WriteLake(lakeRecs[j], a.lakes, a.summaries);
    if lake != Unmatched && lake in lakeUids {
      var i :| 0 <= i < |lakeUids| && lakeUids[i] == lake;
      assert LastRegister(dams).Some?;
      WriteLakeMatched(lakeRecs[j], lakeUids, uids, srcs, keep, LastRegister(dams).value);
    } else {
      assert lake !in lakes;
    }
  }

  /** The polygon of a lake with paired dams receives that lake's summary. */
  lemma WriteLakeMatched(rec: LakeRecord, lakeUids: seq<string>, uids: seq<string>, srcs: seq<string>, keep: seq<Option<int>>, register: string)
    requires Aligned(lakeUids, uids, srcs) && |keep| == |lakeUids|
    requires Associate(lakeUids, uids, srcs, keep, Some(register)).Success?
    requires rec.lakeUidQc != Unmatched && rec.lakeUidQc in lakeUids
    ensures var a := Associate(lakeUids, uids, srcs, keep, Some(register)).value;
      var out := WriteLake(rec, a.lakes, a.summaries);
      var lake := rec.lakeUidQc;
      var rank := RankSources(register);
      var gs := GroupSources(lakeUids, srcs, lake);
      && LakeTop(lakeUids, srcs, rank, lake).Some?
      && var sel := SelectedIndices(lakeUids, srcs, LakeTop(lakeUids, srcs, rank, lake).value, lake);
      && out.damCount == Some(Count(lakeUids, lake))
      && out.sourceCount.Some? && 1 <= out.sourceCount.value <= Count(lakeUids, lake)
      && (out.sourceCount.value == Count(lakeUids, lake) <==> NoDup(gs))
      && out.damUids == Some(Join(RankedUids(lakeUids, uids, srcs, rank, lake)))
      && out.selectedCount == Some(|sel|) && |sel| >= 1
      && out.selectedUids == Some(Join(Pick(uids, sel)))
  {
    var lake := rec.lakeUidQc;
    var lakes := MatchedLakes(lakeUids);
    var i :| 0 <= i < |lakeUids| && lakeUids[i] == lake;
    assert lake in lakes;
    var k := FirstIndex(lakes, lake);
    AssociateSummaries(lakeUids, uids, srcs, keep, register, k);
    SummarizeSpec(lake, lakeUids, uids, srcs, RankSources(register));
  }
}
