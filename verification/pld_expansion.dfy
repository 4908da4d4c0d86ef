/** Step3: adding to the PLD the GeoDAR reservoirs that intersect no PLD
    lake, then naming each added polygon after its GeoDAR ID. The spatial
    intersection is an input: the GeoDAR IDs of the intersection layer. */
module PldExpansion {
  import opened Common

  /** A polygon of the merged output: `lake_UID` (null on polygons that
      come from GeoDAR) and `GeoDARv11_ID` (null on polygons from the PLD). */
  datatype Feature = Feature(lakeUid: Option<string>, geodarId: Option<string>)

  // ----- lines 53-75: the GeoDAR IDs that intersect nothing -----

  /** The IDs the loop adds to the selection: each distinct GeoDAR ID that
      is not among the distinct intersected IDs, visited once, in the
      unspecified order of a Python set. */
  method SelectRemaining(all: seq<string>, intersected: seq<string>) returns (added: seq<string>)
    ensures NoDup(added)
    ensures forall g :: g in added <==> g in all && g !in intersected
  {
    var pending := set g | g in all;
    var hit := set g | g in intersected;
    added := [];
    while pending != {}
      invariant NoDup(added)
      invariant forall g :: g in added ==> g in all && g !in intersected && g !in pending
      invariant forall g :: g in all && g !in intersected ==> g in added || g in pending
      invariant forall g :: g in pending ==> g in all
      decreases |pending|
    {
      var g :| g in pending;
      if g !in hit {
        added := added + [g];
      }
      pending := pending - {g};
    }
  }

  /** The GeoDAR features selected by the loop, in layer order: every
      feature whose ID was added, as often as the layer holds it. */
  function Selection(reservoirs: seq<string>, added: seq<string>): (r: seq<string>)
    ensures |r| <= |reservoirs|
    ensures forall g :: g in r <==> g in reservoirs && g in added
    ensures forall g :: multiset(r)[g] == if g in added then multiset(reservoirs)[g] else 0
  {
    if |reservoirs| == 0 then []
    else
      var n := |reservoirs| - 1;
      var p := Selection(reservoirs[..n], added);
      assert reservoirs == reservoirs[..n] + [reservoirs[n]];
      if reservoirs[n] in added then p + [reservoirs[n]] else p
  }

  /** GeoDAR features as merged into the PLD: no lake UID, their ID. */
  function AsFeatures(ids: seq<string>): (r: seq<Feature>)
    ensures |r| == |ids| && forall k :: 0 <= k < |ids| ==> r[k] == Feature(None, Some(ids[k]))
  {
    seq(|ids|, k requires 0 <= k < |ids| => Feature(None, Some(ids[k])))
  }

  /** Each ID gives as many features as it has occurrences, and the fill
      names each of them after it. */
  lemma {:induction false} AsFeaturesCount(ids: seq<string>, g: string)
    ensures multiset(AsFeatures(ids))[Feature(None, Some(g))] == multiset(ids)[g]
    ensures multiset(FillLakeUid(AsFeatures(ids)))[Feature(Some(g), Some(g))] == multiset(ids)[g]
  {
    if |ids| > 0 {
      var n := |ids| - 1;
      AsFeaturesCount(ids[..n], g);
      assert ids == ids[..n] + [ids[n]];
      assert AsFeatures(ids) == AsFeatures(ids[..n]) + [Feature(None, Some(ids[n]))];
      assert FillLakeUid(AsFeatures(ids))
        == FillLakeUid(AsFeatures(ids[..n])) + [Feature(Some(ids[n]), Some(ids[n]))];
    }
  }

  // ----- lines 77-80: the merge -----

  /** The merge as the script runs it. A geoprocessing tool given a layer
      uses the selected features, and all of them when nothing is
      selected; so when every GeoDAR reservoir intersects the PLD, the
      whole GeoDAR layer is appended. */
  function MergeAsWritten(pld: seq<Feature>, reservoirs: seq<string>, added: seq<string>): (r: seq<Feature>)
    ensures Selection(reservoirs, added) != [] ==> r == Merge(pld, reservoirs, added)
    ensures (forall i :: 0 <= i < |reservoirs| ==> reservoirs[i] !in added) ==>
      r == pld + AsFeatures(reservoirs)
  {
    EmptyWithoutMembers(Selection(reservoirs, added));
    var sel := Selection(reservoirs, added);
    pld + AsFeatures(if |sel| == 0 then reservoirs else sel)
  }

  /** The merge as intended: the PLD followed by the selected reservoirs
      only. */
  function Merge(pld: seq<Feature>, reservoirs: seq<string>, added: seq<string>): (r: seq<Feature>)
    ensures |pld| <= |r| <= |pld| + |reservoirs|
    ensures r[..|pld|] == pld
    ensures forall k :: |pld| <= k < |r| ==>
      r[k].lakeUid.None? && r[k].geodarId.Some? && r[k].geodarId.value in reservoirs && r[k].geodarId.value in added
    ensures forall i :: 0 <= i < |reservoirs| && reservoirs[i] in added ==> Feature(None, Some(reservoirs[i])) in r[|pld|..]
    ensures forall g ::
      multiset(r[|pld|..])[Feature(None, Some(g))] == (if g in added then multiset(reservoirs)[g] else 0)
  {
    var sel := Selection(reservoirs, added);
    var r := pld + AsFeatures(sel);
    assert r[|pld|..] == AsFeatures(sel);
    forall g ensures multiset(r[|pld|..])[Feature(None, Some(g))]
      == if g in added then multiset(reservoirs)[g] else 0
    {
      AsFeaturesCount(sel, g);
    }
    assert forall k :: |pld| <= k < |r| ==> r[k] == Feature(None, Some(sel[k - |pld|]));
    assert forall i :: 0 <= i < |reservoirs| && reservoirs[i] in added ==> Feature(None, Some(reservoirs[i])) in r[|pld|..] by {
      forall i | 0 <= i < |reservoirs| && reservoirs[i] in added
        ensures Feature(None, Some(reservoirs[i])) in r[|pld|..]
      {
        var k :| 0 <= k < |sel| && sel[k] == reservoirs[i];
        assert AsFeatures(sel)[k] == Feature(None, Some(reservoirs[i]));
      }
    }
    r
  }

  /** When every reservoir intersects the PLD nothing is added, and the
      merge as written appends the whole GeoDAR layer where the intended
      merge appends nothing. */
  lemma AllIntersectedMergesEverything(pld: seq<Feature>, reservoirs: seq<string>, intersected: seq<string>, added: seq<string>)
    requires forall g :: g in added <==> g in reservoirs && g !in intersected
    requires forall i :: 0 <= i < |reservoirs| ==> reservoirs[i] in intersected
    ensures added == []
    ensures MergeAsWritten(pld, reservoirs, added) == pld + AsFeatures(reservoirs)
    ensures Merge(pld, reservoirs, added) == pld
  {
    forall g | g in reservoirs ensures g !in added {
      var i :| 0 <= i < |reservoirs| && reservoirs[i] == g;
    }
    EmptyWithoutMembers(added);
    EmptyWithoutMembers(Selection(reservoirs, added));
  }

  /** One reservoir R1 that intersects a PLD lake: it is appended anyway. */
  lemma MergeAsWrittenDuplicatesReservoir()
    ensures MergeAsWritten([], ["R1"], []) == [Feature(None, Some("R1"))]
    ensures Merge([], ["R1"], []) == []
  {
    AllIntersectedMergesEverything([], ["R1"], ["R1"], []);
  }

  // ----- lines 82-92: naming the added polygons -----

  /** The update cursor over the polygons whose `lake_UID` is null: each
      takes its GeoDAR ID as `lake_UID`. */
  function FillLakeUid(fs: seq<Feature>): (r: seq<Feature>)
    ensures |r| == |fs|
    ensures forall k :: 0 <= k < |fs| ==> r[k].geodarId == fs[k].geodarId
    ensures forall k :: 0 <= k < |fs| && fs[k].lakeUid.Some? ==> r[k] == fs[k]
    ensures forall k :: 0 <= k < |fs| && fs[k].lakeUid.None? ==> r[k].lakeUid == fs[k].geodarId
  {
    seq(|fs|, k requires 0 <= k < |fs| =>
      if fs[k].lakeUid.None? then fs[k].(lakeUid := fs[k].geodarId) else fs[k])
  }

  /** Running the fill a second time changes nothing. */
  lemma FillLakeUidIdempotent(fs: seq<Feature>)
    ensures FillLakeUid(FillLakeUid(fs)) == FillLakeUid(fs)
  {
    var once := FillLakeUid(fs);
    forall k | 0 <= k < |fs| ensures FillLakeUid(once)[k] == once[k] {
    }
  }

  /** Step 3 end to end: the PLD polygons come first, unchanged except that
      a null `lake_UID` takes the (null) GeoDAR ID; after them come exactly
      the GeoDAR reservoirs that intersect no PLD lake, each named by its
      GeoDAR ID. */
  method Expand(pld: seq<Feature>, reservoirs: seq<string>, intersected: seq<string>) returns (out: seq<Feature>)
    ensures |pld| <= |out| <= |pld| + |reservoirs|
    ensures out[..|pld|] == FillLakeUid(pld)
    ensures forall k :: |pld| <= k < |out| ==>
      out[k].geodarId.Some? && out[k].lakeUid == out[k].geodarId
      && out[k].geodarId.value in reservoirs && out[k].geodarId.value !in intersected
    ensures forall i :: 0 <= i < |reservoirs| && reservoirs[i] !in intersected ==>
      Feature(Some(reservoirs[i]), Some(reservoirs[i])) in out[|pld|..]
    ensures forall g ::
      multiset(out[|pld|..])[Feature(Some(g), Some(g))] == (if g in intersected then 0 else multiset(reservoirs)[g])
  {
    var added := SelectRemaining(reservoirs, intersected);
    out := FillLakeUid(Merge(pld, reservoirs, added));
    FilledMergePrefix(pld, reservoirs, added);
    FilledMergeAppended(pld, reservoirs, intersected, added);
    FilledMergeCovers(pld, reservoirs, intersected, added);
    FilledMergeCounts(pld, reservoirs, intersected, added);
  }

  /** Each reservoir that intersects no PLD lake is appended as often as
      the GeoDAR layer holds it, and no other is. */
  lemma FilledMergeCounts(pld: seq<Feature>, reservoirs: seq<string>, intersected: seq<string>, added: seq<string>)
    requires forall g :: g in added <==> g in reservoirs && g !in intersected
    ensures var out := FillLakeUid(Merge(pld, reservoirs, added));
      |pld| <= |out| &&
      forall g :: multiset(out[|pld|..])[Feature(Some(g), Some(g))]
        == if g in intersected then 0 else multiset(reservoirs)[g]
  {
    var sel := Selection(reservoirs, added);
    var out := FillLakeUid(Merge(pld, reservoirs, added));
    assert out[|pld|..] == FillLakeUid(AsFeatures(sel));
    forall g ensures multiset(out[|pld|..])[Feature(Some(g), Some(g))]
      == if g in intersected then 0 else multiset(reservoirs)[g]
    {
      AsFeaturesCount(sel, g);
      assert g !in reservoirs ==> multiset(reservoirs)[g] == 0;
    }
  }

  /** Naming the merged polygons leaves the PLD part as the fill alone
      would. */
  lemma FilledMergePrefix(pld: seq<Feature>, reservoirs: seq<string>, added: seq<string>)
    ensures |pld| <= |FillLakeUid(Merge(pld, reservoirs, added))|
    ensures FillLakeUid(Merge(pld, reservoirs, added))[..|pld|] == FillLakeUid(pld)
  {
    var merged := Merge(pld, reservoirs, added);
    var out := FillLakeUid(merged);
    assert forall k :: 0 <= k < |pld| ==> out[k] == FillLakeUid(pld)[k];
  }

  /** Each appended polygon is named after a reservoir that intersects no
      PLD lake. */
  lemma FilledMergeAppended(pld: seq<Feature>, reservoirs: seq<string>, intersected: seq<string>, added: seq<string>)
    requires forall g :: g in added <==> g in reservoirs && g !in intersected
    ensures var out := FillLakeUid(Merge(pld, reservoirs, added));
      forall k :: |pld| <= k < |out| ==>
        out[k].geodarId.Some? && out[k].lakeUid == out[k].geodarId
        && out[k].geodarId.value in reservoirs && out[k].geodarId.value !in intersected
  {
  }

  /** Every reservoir that intersects no PLD lake is appended and named. */
  lemma FilledMergeCovers(pld: seq<Feature>, reservoirs: seq<string>, intersected: seq<string>, added: seq<string>)
    requires forall g :: g in added <==> g in reservoirs && g !in intersected
    ensures var out := FillLakeUid(Merge(pld, reservoirs, added));
      |pld| <= |out| &&
      forall i :: 0 <= i < |reservoirs| && reservoirs[i] !in intersected ==>
        Feature(Some(reservoirs[i]), Some(reservoirs[i])) in out[|pld|..]
  {
    var out := FillLakeUid(Merge(pld, reservoirs, added));
    FilledMergeCounts(pld, reservoirs, intersected, added);
    forall i | 0 <= i < |reservoirs| && reservoirs[i] !in intersected
      ensures Feature(Some(reservoirs[i]), Some(reservoirs[i])) in out[|pld|..]
    {
      assert reservoirs[i] in multiset(reservoirs);
    }
  }
}
