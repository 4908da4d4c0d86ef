/** Step5, first half: dissolving the GeoDAR polygons of the water mask,
    the register keep flag, and pairing every dam with at most one
    reservoir polygon.

    The spatial queries of the script ("the polygons within `d` metres of
    this dam") are a parameter of type `Proximity`; the dissolve, the
    attribute queries and the largest-polygon scan are modelled. */
module DamMatching {
  import opened Common

  /** Search distances, in metres. */
  const SearchStep := 50
  const MaxSearchDistance := 300
  const MaxSearchDistanceLarge := 1000

  /** The lake UID recorded for a dam paired with no polygon. */
  const Unmatched := "-999"

  /** The dam sources other than the national register. */
  const GeoDARSource := "GeoDARv11"
  const GooddUnsnapped := "GOODDunsnp"
  const GooddSnapped := "GOODDsnp"

  /** Appended to the lake UID of a polygon dissolved from several. */
  const DissolvedSuffix := "_dslvd"

  /** A water-mask polygon: its QCed lake UID and its QCed GeoDAR ID, null
      for polygons that are not GeoDAR reservoirs. */
  datatype Polygon = Polygon(lakeUidQc: string, geodarIdQc: Option<string>)

  /** A polygon returned by a proximity query, with its area. */
  datatype Candidate = Candidate(lakeUidQc: string, area: Area)

  /** The polygons within a distance (metres) of the dam with the given
      `dam_UID`, in cursor order. It stands for a query on the dissolved
      near-dams layer; nothing ties its lake UIDs to the mask passed
      alongside it. */
  type Proximity = (string, int) -> seq<Candidate>

  /** A dam point: `dam_UID`, `dam_source` and the `R1_keep` it carries in. */
  datatype Dam = Dam(uid: string, source: string, keep: Option<int>)

  // ----- dissolving the GeoDAR polygons -----

  /** The GeoDAR ID column of the mask. */
  function GeodarField(mask: seq<Polygon>): (r: seq<Option<string>>)
    ensures |r| == |mask|
    ensures forall k :: 0 <= k < |mask| ==> r[k] == mask[k].geodarIdQc
  {
    seq(|mask|, k requires 0 <= k < |mask| => mask[k].geodarIdQc)
  }

  /** The polygons that carry a GeoDAR ID, in mask order. */
  function Reservoirs(mask: seq<Polygon>): (r: seq<Polygon>)
    ensures forall k :: 0 <= k < |r| ==> r[k].geodarIdQc.Some? && r[k] in mask
  {
    if |mask| == 0 then []
    else
      var rest := Reservoirs(mask[1..]);
      if mask[0].geodarIdQc.Some? then [mask[0]] + rest else rest
  }

  /** No polygon with a GeoDAR ID is left out of the reservoirs. */
  lemma {:induction false} ReservoirsKeepAll(mask: seq<Polygon>, k: nat)
    requires k < |mask| && mask[k].geodarIdQc.Some?
    ensures mask[k] in Reservoirs(mask)
  {
    if k > 0 {
      ReservoirsKeepAll(mask[1..], k - 1);
    }
  }

  /** The polygons without a GeoDAR ID, in mask order. */
  function NonReservoirs(mask: seq<Polygon>): (r: seq<Polygon>)
    ensures forall k :: 0 <= k < |r| ==> r[k].geodarIdQc.None? && r[k] in mask
  {
    if |mask| == 0 then []
    else
      var rest := NonReservoirs(mask[1..]);
      if mask[0].geodarIdQc.None? then [mask[0]] + rest else rest
  }

  /** The GeoDAR IDs of reservoir polygons, repeats included: the
      `original_GeoDARv11_ID_QC` list read before the dissolve. */
  function IdsOf(res: seq<Polygon>): (ids: seq<string>)
    requires forall k :: 0 <= k < |res| ==> res[k].geodarIdQc.Some?
    ensures |ids| == |res|
    ensures forall k :: 0 <= k < |res| ==> Some(ids[k]) == res[k].geodarIdQc
  {
    seq(|res|, k requires 0 <= k < |res| => res[k].geodarIdQc.value)
  }

  /** The lake UID a dissolved polygon ends with: the suffix is appended
      exactly when its GeoDAR ID was carried by two or more polygons before
      the dissolve. */
  function DissolvedLakeUid(lakeUidQc: string, geodarId: string, preDissolve: seq<string>): (r: string)
    ensures Repeated(preDissolve, geodarId) ==> r == lakeUidQc + DissolvedSuffix
    ensures !Repeated(preDissolve, geodarId) ==> r == lakeUidQc
  {
    CountAboveOneIsRepeated(preDissolve, geodarId);
    IndicesOfCount(preDissolve, geodarId);
    if |IndicesOf(preDissolve, geodarId)| > 1 then lakeUidQc + DissolvedSuffix else lakeUidQc
  }

  /** The dissolve by GeoDAR ID: one polygon per distinct ID, taking the
      lake UID of the first polygon with that ID (the "FIRST" statistic) and
      then the suffix rule. */
  function Dissolve(mask: seq<Polygon>): (r: seq<Polygon>)
    ensures forall k :: 0 <= k < |r| ==> r[k].geodarIdQc.Some?
    ensures forall i, j :: 0 <= i < j < |r| ==> r[i].geodarIdQc != r[j].geodarIdQc
  {
    var res := Reservoirs(mask);
    var ids := IdsOf(res);
    var u := Dedup(ids);
    var r := seq(|u|, k requires 0 <= k < |u| =>
      Polygon(DissolvedLakeUid(res[FirstIndex(ids, u[k])].lakeUidQc, u[k], ids), Some(u[k])));
    r
  }

  /** Each dissolved polygon carries a GeoDAR ID of the mask and the lake
      UID of the first polygon with that ID, suffixed when the ID was
      repeated. */
  lemma DissolveLakeUid(mask: seq<Polygon>, k: nat)
    requires k < |Dissolve(mask)|
    ensures var r := Dissolve(mask);
      var res := Reservoirs(mask);
      var ids := IdsOf(res);
      var g := r[k].geodarIdQc.value;
      g in ids && r[k].lakeUidQc == DissolvedLakeUid(res[FirstIndex(ids, g)].lakeUidQc, g, ids)
  {
    var u := Dedup(IdsOf(Reservoirs(mask)));
    assert Dissolve(mask)[k].geodarIdQc == Some(u[k]);
  }

  /** Every GeoDAR ID of the mask survives the dissolve. */
  lemma DissolveKeepsEveryId(mask: seq<Polygon>, k: nat) returns (j: nat)
    requires k < |mask| && mask[k].geodarIdQc.Some?
    ensures j < |Dissolve(mask)| && Dissolve(mask)[j].geodarIdQc == mask[k].geodarIdQc
  {
    var r := Dissolve(mask);
    var res := Reservoirs(mask);
    var ids := IdsOf(res);
    var u := Dedup(ids);
    ReservoirsKeepAll(mask, k);
    var i :| 0 <= i < |res| && res[i] == mask[k];
    assert ids[i] in u;
    j :| 0 <= j < |u| && u[j] == ids[i];
    assert r[j].geodarIdQc == Some(u[j]);
  }

  /** The water mask after the dissolve: the polygons without a GeoDAR ID
      merged with the dissolved ones. */
  function DissolvedMask(mask: seq<Polygon>): seq<Polygon> {
    NonReservoirs(mask) + Dissolve(mask)
  }

  /** After the dissolve no GeoDAR ID is carried by two polygons, so the
      "this should not happen" branch of the GeoDAR match is dead. */
  lemma DissolvedIdsUnique(mask: seq<Polygon>, g: string)
    ensures Count(GeodarField(DissolvedMask(mask)), Some(g)) <= 1
  {
    DistinctIdsAfterUnnamed(NonReservoirs(mask), Dissolve(mask), g);
  }

  lemma DistinctIdsAfterUnnamed(a: seq<Polygon>, b: seq<Polygon>, g: string)
    requires forall k :: 0 <= k < |a| ==> a[k].geodarIdQc.None?
    requires forall i, j :: 0 <= i < j < |b| ==> b[i].geodarIdQc != b[j].geodarIdQc
    ensures Count(GeodarField(a + b), Some(g)) <= 1
  {
    var m := a + b;
    var f := GeodarField(m);
    CountAboveOneIsRepeated(f, Some(g));
    assert forall i :: 0 <= i < |a| ==> f[i] == a[i].geodarIdQc;
    assert forall i :: |a| <= i < |m| ==> f[i] == b[i - |a|].geodarIdQc;
    assert !Repeated(f, Some(g));
  }

  // ----- GeoDAR dams: exact ID match -----

  /** A GeoDAR dam is paired with the polygon whose GeoDAR ID equals the
      dam's `dam_UID`, and only when exactly one polygon carries it. */
  function GeodarMatch(mask: seq<Polygon>, uid: string): (r: Option<string>)
    ensures r.Some? <==> Count(GeodarField(mask), Some(uid)) == 1
    ensures r.Some? ==> exists k :: 0 <= k < |mask| && mask[k].geodarIdQc == Some(uid) && mask[k].lakeUidQc == r.value
  {
    var idx := IndicesOf(GeodarField(mask), Some(uid));
    IndicesOfCount(GeodarField(mask), Some(uid));
    if |idx| == 1 then Some(mask[idx[0]].lakeUidQc) else None
  }

  /** On the dissolved mask, a GeoDAR dam is paired exactly when some
      polygon of the original mask carried its ID. */
  lemma GeodarMatchOnDissolved(mask: seq<Polygon>, uid: string)
    ensures GeodarMatch(DissolvedMask(mask), uid).Some? <==> Some(uid) in GeodarField(mask)
  {
    DissolvedIdsUnique(mask, uid);
    if Some(uid) in GeodarField(mask) {
      var k :| 0 <= k < |mask| && GeodarField(mask)[k] == Some(uid);
      DissolvedIdPresent(mask, k);
    } else {
      DissolvedIdAbsent(mask, uid);
    }
  }

  lemma DissolvedIdPresent(mask: seq<Polygon>, k: nat)
    requires k < |mask| && mask[k].geodarIdQc.Some?
    ensures mask[k].geodarIdQc in GeodarField(DissolvedMask(mask))
  {
    var j := DissolveKeepsEveryId(mask, k);
    IdOfSecondPart(NonReservoirs(mask), Dissolve(mask), j);
  }

  lemma IdOfSecondPart(a: seq<Polygon>, b: seq<Polygon>, j: nat)
    requires j < |b|
    ensures b[j].geodarIdQc in GeodarField(a + b)
  {
    assert GeodarField(a + b)[|a| + j] == b[j].geodarIdQc;
  }

  lemma DissolvedIdAbsent(mask: seq<Polygon>, uid: string)
    requires Some(uid) !in GeodarField(mask)
    ensures Some(uid) !in GeodarField(DissolvedMask(mask))
  {
    var dm := DissolvedMask(mask);
    var a := NonReservoirs(mask);
    var b := Dissolve(mask);
    forall i | 0 <= i < |dm| ensures GeodarField(dm)[i] != Some(uid) {
      if i >= |a| {
        var g := b[i - |a|].geodarIdQc.value;
        var res := Reservoirs(mask);
        var ids := IdsOf(res);
        var p := FirstIndex(ids, g);
        assert res[p] in mask;
      }
    }
  }

  // ----- other dams: proximity search -----

  /** The radii of the stepped search: 50, 100, ..., 300 metres. */
  predicate OnLadder(d: int) {
    SearchStep <= d <= MaxSearchDistance && d % SearchStep == 0
  }

  /** The stepped search from `radius` on: the first radius whose query
      returns polygons, or nothing once the maximum distance is passed. */
  function SteppedSearch(near: Proximity, uid: string, radius: int): seq<Candidate>
    decreases MaxSearchDistance + SearchStep - radius
  {
    if radius > MaxSearchDistance then []
    else if |near(uid, radius)| > 0 then near(uid, radius)
    else SteppedSearch(near, uid, radius + SearchStep)
  }

  lemma {:induction false} SteppedSearchFrom(near: Proximity, uid: string, radius: int)
    requires SearchStep <= radius && radius % SearchStep == 0
    ensures var r := SteppedSearch(near, uid, radius);
      && (r == [] <==> forall d :: OnLadder(d) && radius <= d ==> near(uid, d) == [])
      && (r != [] ==> exists d :: OnLadder(d) && radius <= d && r == near(uid, d)
                        && forall e :: OnLadder(e) && radius <= e < d ==> near(uid, e) == [])
    decreases MaxSearchDistance + SearchStep - radius
  {
    if radius <= MaxSearchDistance && |near(uid, radius)| == 0 {
      SteppedSearchFrom(near, uid, radius + SearchStep);
      assert forall d :: OnLadder(d) && radius <= d && d != radius ==> radius + SearchStep <= d;
    }
  }

  /** The stepped search finds polygons exactly when some radius of the
      ladder does, and then returns those of the smallest such radius. */
  lemma SteppedSearchFirstHit(near: Proximity, uid: string)
    ensures var r := SteppedSearch(near, uid, SearchStep);
      && (r == [] <==> forall d :: OnLadder(d) ==> near(uid, d) == [])
      && (r != [] ==> exists d :: OnLadder(d) && r == near(uid, d)
                        && forall e :: OnLadder(e) && e < d ==> near(uid, e) == [])
  {
    SteppedSearchFrom(near, uid, SearchStep);
  }

  /** The `while` loop of the script: query at 50, 100, ... metres while
      nothing was found and the radius does not exceed the maximum. Returns
      the last radius queried and what that query selected. */
  method SearchRadius(near: Proximity, uid: string) returns (radius: int, cands: seq<Candidate>)
    ensures OnLadder(radius) && cands == near(uid, radius)
    ensures forall e :: OnLadder(e) && e < radius ==> near(uid, e) == []
    ensures cands == [] ==> radius == MaxSearchDistance
    ensures cands == SteppedSearch(near, uid, SearchStep)
  {
    var count := 0;
    var d := SearchStep;
    radius := SearchStep;
    cands := [];
    while count == 0 && d <= MaxSearchDistance
      invariant SearchStep <= d <= MaxSearchDistance + SearchStep && d % SearchStep == 0
      invariant count == |cands|
      invariant d == SearchStep ==> count == 0
      invariant d > SearchStep ==> OnLadder(radius) && radius == d - SearchStep && cands == near(uid, radius)
      invariant forall e :: OnLadder(e) && e < d - SearchStep ==> near(uid, e) == []
      invariant count == 0 ==> SteppedSearch(near, uid, SearchStep) == SteppedSearch(near, uid, d)
      invariant count != 0 ==> cands == SteppedSearch(near, uid, SearchStep)
      decreases MaxSearchDistance + SearchStep - d
    {
      cands := near(uid, d);
      count := |cands|;
      radius := d;
      d := d + SearchStep;
    }
  }

  // ----- the largest candidate -----

  /** Candidate `k` has the largest area and every candidate before it is
      strictly smaller. */
  predicate IsFirstLargest(cands: seq<Candidate>, k: int) {
    && 0 <= k < |cands|
    && (forall j :: 0 <= j < |cands| ==> cands[j].area <= cands[k].area)
    && (forall j :: 0 <= j < k ==> cands[j].area < cands[k].area)
  }

  /** Position of the first largest candidate. */
  function ArgMax(cands: seq<Candidate>): (k: nat)
    requires |cands| > 0
    ensures IsFirstLargest(cands, k)
  {
    if |cands| == 1 then 0
    else
      var k := ArgMax(cands[1..]);
      assert forall j :: 1 <= j < |cands| ==> cands[j] == cands[1..][j-1];
      if cands[0].area >= cands[1 + k].area then 0 else 1 + k
  }

  /** The lake UID of the largest polygon, the first one on ties; nothing
      without candidates. */
  function Largest(cands: seq<Candidate>): (r: Option<string>)
    ensures r.None? <==> cands == []
    ensures r.Some? ==> exists k :: IsFirstLargest(cands, k) && cands[k].lakeUidQc == r.value
  {
    if cands == [] then None else Some(cands[ArgMax(cands)].lakeUidQc)
  }

  /** The scan of the script as written: `best` starts at 0.0, a candidate
      replaces the current pick only when strictly larger, and the pick
      starts as whatever `this_lakeUID` held from an earlier dam. */
  function ScanLargest(cands: seq<Candidate>, best: real, pick: Option<string>): Option<string> {
    if cands == [] then pick
    else if cands[0].area > best then ScanLargest(cands[1..], cands[0].area, Some(cands[0].lakeUidQc))
    else ScanLargest(cands[1..], best, pick)
  }

  /** As soon as one candidate has a positive area the scan as written
      picks the first largest polygon, whatever the stale value; when every
      candidate has zero area it returns the stale value. */
  function LargestAsWritten(cands: seq<Candidate>, stale: Option<string>): (r: Option<string>)
    ensures (exists k :: 0 <= k < |cands| && cands[k].area > 0.0) ==> r == Largest(cands)
    ensures (forall k :: 0 <= k < |cands| ==> cands[k].area == 0.0) ==> r == stale
  {
    ScanLargestPicksArgMax(cands, 0.0, stale);
    ScanLargest(cands, 0.0, stale)
  }

  lemma {:induction false} ScanLargestPicksArgMax(cands: seq<Candidate>, best: real, pick: Option<string>)
    ensures ScanLargest(cands, best, pick) ==
      if cands != [] && cands[ArgMax(cands)].area > best then Some(cands[ArgMax(cands)].lakeUidQc) else pick
  {
    if |cands| > 1 {
      var c := cands[0];
      var rest := cands[1..];
      if c.area > best {
        ScanLargestPicksArgMax(rest, c.area, Some(c.lakeUidQc));
      } else {
        ScanLargestPicksArgMax(rest, best, pick);
      }
    } else if |cands| == 1 {
      assert cands[1..] == [];
    }
  }

  /** When every candidate has zero area the scan as written returns the
      lake of the previous dam instead of one of the candidates. */
  lemma LargestAsWrittenKeepsStaleLake()
    ensures LargestAsWritten([Candidate("L7", 0.0)], Some("L3")) == Some("L3")
    ensures Largest([Candidate("L7", 0.0)]) == Some("L7")
  {
    var c := [Candidate("L7", 0.0)];
    assert c[1..] == [];
  }

  // ----- pairing one dam -----

  /** What a dam's queries select before the largest is taken: the
      stepped search for most dams, one query at the large radius for
      snapped GOODD dams. */
  function ProximityCandidates(dam: Dam, near: Proximity): seq<Candidate> {
    if dam.source != GooddSnapped then SteppedSearch(near, dam.uid, SearchStep)
    else near(dam.uid, MaxSearchDistanceLarge)
  }

  /** The lake UID the matching loop records for one dam. */
  function MatchDam(dam: Dam, mask: seq<Polygon>, near: Proximity): (r: string)
    ensures dam.source == GeoDARSource ==>
      (Count(GeodarField(mask), Some(dam.uid)) != 1 ==> r == Unmatched)
      && (Count(GeodarField(mask), Some(dam.uid)) == 1 ==>
            exists k :: 0 <= k < |mask| && mask[k].geodarIdQc == Some(dam.uid) && mask[k].lakeUidQc == r)
    ensures dam.source == GooddSnapped ==>
      (near(dam.uid, MaxSearchDistanceLarge) == [] ==> r == Unmatched)
      && (near(dam.uid, MaxSearchDistanceLarge) != [] ==>
            exists k :: IsFirstLargest(near(dam.uid, MaxSearchDistanceLarge), k)
                        && near(dam.uid, MaxSearchDistanceLarge)[k].lakeUidQc == r)
    ensures dam.source != GeoDARSource && dam.source != GooddSnapped ==>
      ((forall d :: OnLadder(d) ==> near(dam.uid, d) == []) ==> r == Unmatched)
      && ((exists d :: OnLadder(d) && near(dam.uid, d) != []) ==>
            exists d, k :: OnLadder(d) && (forall e :: OnLadder(e) && e < d ==> near(dam.uid, e) == [])
                           && IsFirstLargest(near(dam.uid, d), k) && near(dam.uid, d)[k].lakeUidQc == r)
  {
    if dam.source == GeoDARSource then
      match GeodarMatch(mask, dam.uid)
      case None => Unmatched
      case Some(lake) => lake
    else
      SteppedSearchFirstHit(near, dam.uid);
      match Largest(ProximityCandidates(dam, near))
      case None => Unmatched
      case Some(lake) => lake
  }

  /** A GeoDAR dam's pairing does not depend on proximity at all. */
  lemma GeodarDamIgnoresProximity(dam: Dam, mask: seq<Polygon>, near1: Proximity, near2: Proximity)
    requires dam.source == GeoDARSource
    ensures MatchDam(dam, mask, near1) == MatchDam(dam, mask, near2)
  {
  }

  /** `lakeUID_array`: the pairing of every dam, in dam order. */
  function MatchAll(dams: seq<Dam>, mask: seq<Polygon>, near: Proximity): (r: seq<string>)
    ensures |r| == |dams|
    ensures forall k :: 0 <= k < |dams| ==> r[k] == MatchDam(dams[k], mask, near)
  {
    seq(|dams|, k requires 0 <= k < |dams| => MatchDam(dams[k], mask, near))
  }

  // ----- the dam loop as written -----

  /** What one pass of the dam loop leaves: the lake UID recorded for the
      dam and what `this_lakeUID` holds afterwards. */
  datatype Pass = Pass(lake: string, carried: Option<string>)

  /** The dam is scanned by proximity, some polygon was found, and every
      polygon found has zero area: the case where the scan as written
      assigns nothing. */
  predicate ZeroAreaHit(dam: Dam, near: Proximity) {
    var cands := ProximityCandidates(dam, near);
    dam.source != GeoDARSource && cands != []
    && forall k :: 0 <= k < |cands| ==> cands[k].area == 0.0
  }

  /** One pass of the loop as written, given what `this_lakeUID` holds
      from the dams before (None while it is unbound). None is the
      `NameError` of reading `this_lakeUID` before any assignment. */
  function MatchDamAsWritten(dam: Dam, mask: seq<Polygon>, near: Proximity, carried: Option<string>): (r: Option<Pass>)
    ensures !ZeroAreaHit(dam, near) ==> r.Some? && r.value.lake == MatchDam(dam, mask, near)
    ensures ZeroAreaHit(dam, near) ==> r == if carried.None? then None else Some(Pass(carried.value, carried))
    ensures r.Some? ==> r.value.carried == carried || r.value.carried == Some(r.value.lake)
  {
    if dam.source == GeoDARSource then
      match GeodarMatch(mask, dam.uid)
      case None => Some(Pass(Unmatched, carried))
      case Some(lake) => Some(Pass(lake, Some(lake)))
    else
      var cands := ProximityCandidates(dam, near);
      if cands == [] then Some(Pass(Unmatched, carried))
      else
        match LargestAsWritten(cands, carried)
        case None => None
        case Some(lake) => Some(Pass(lake, Some(lake)))
  }

  /** `lakeUID_array` as the loop writes it, `this_lakeUID` carried from
      each dam to the next; None on the `NameError`. It is the intended
      pairing as long as no dam has only zero-area polygons in reach. */
  function MatchAllAsWritten(dams: seq<Dam>, mask: seq<Polygon>, near: Proximity, carried: Option<string>): (r: Option<seq<string>>)
    ensures r.Some? ==> |r.value| == |dams|
    ensures (forall k :: 0 <= k < |dams| ==> !ZeroAreaHit(dams[k], near)) ==>
      r == Some(MatchAll(dams, mask, near))
  {
    if dams == [] then Some([])
    else
      MatchAllCons(dams, mask, near);
      match MatchDamAsWritten(dams[0], mask, near, carried)
      case None => None
      case Some(p) =>
        match MatchAllAsWritten(dams[1..], mask, near, p.carried)
        case None => None
        case Some(rest) => Some([p.lake] + rest)
  }

  /** The intended pairing of a non-empty list is that of its first dam
      followed by that of the rest. */
  lemma MatchAllCons(dams: seq<Dam>, mask: seq<Polygon>, near: Proximity)
    requires |dams| > 0
    ensures MatchAll(dams, mask, near) == [MatchDam(dams[0], mask, near)] + MatchAll(dams[1..], mask, near)
    ensures (forall k :: 0 <= k < |dams| ==> !ZeroAreaHit(dams[k], near)) ==>
      forall k :: 0 <= k < |dams[1..]| ==> !ZeroAreaHit(dams[1..][k], near)
  {
    assert forall k :: 0 <= k < |dams| - 1 ==> dams[1..][k] == dams[k + 1];
  }

  /** The proximity query of the example below: dam D1 has a polygon of
      area 1 in lake L3 within reach, every other dam only a zero-area
      polygon of lake L7. */
  function ExampleNear(uid: string, d: int): seq<Candidate> {
    if uid == "D1" then [Candidate("L3", 1.0)] else [Candidate("L7", 0.0)]
  }

  /** Two GOODD dams, D1 then D2, with the query above: the loop as written
      gives D2 the lake L3 of D1 where the intended pairing gives L7.
      Alone, D2 stops the loop with a `NameError`. */
  lemma MatchAllAsWrittenCarriesLake()
    ensures var d1, d2 := Dam("D1", GooddUnsnapped, None), Dam("D2", GooddUnsnapped, None);
      && MatchAllAsWritten([d1, d2], [], ExampleNear, None) == Some(["L3", "L3"])
      && MatchAll([d1, d2], [], ExampleNear) == ["L3", "L7"]
      && MatchAllAsWritten([d2], [], ExampleNear, None) == None
  {
    var d1, d2 := Dam("D1", GooddUnsnapped, None), Dam("D2", GooddUnsnapped, None);
    var carried := Some("L3");
    ExamplePasses();
    AsWrittenCons(d2, [], [], ExampleNear, carried, Pass("L3", carried), []);
    assert [d2] + [] == [d2] && ["L3"] + [] == ["L3"];
    assert MatchAllAsWritten([d2], [], ExampleNear, carried) == Some(["L3"]);
    AsWrittenCons(d1, [d2], [], ExampleNear, None, Pass("L3", carried), ["L3"]);
    assert [d1] + [d2] == [d1, d2] && ["L3"] + ["L3"] == ["L3", "L3"];
    ExampleIntended();
  }

  /** The intended pairing of D1 and D2 under the example query. */
  lemma ExampleIntended()
    ensures MatchAll([Dam("D1", GooddUnsnapped, None), Dam("D2", GooddUnsnapped, None)], [], ExampleNear) == ["L3", "L7"]
  {
    var d1, d2 := Dam("D1", GooddUnsnapped, None), Dam("D2", GooddUnsnapped, None);
    ExamplePasses();
    MatchAllCons([d1, d2], [], ExampleNear);
    assert [d1, d2][1..] == [d2];
    MatchAllCons([d2], [], ExampleNear);
    assert [d2][1..] == [];
  }

  /** The passes of D1 and D2 under the example query. */
  lemma ExamplePasses()
    ensures var d1, d2 := Dam("D1", GooddUnsnapped, None), Dam("D2", GooddUnsnapped, None);
      && MatchDamAsWritten(d1, [], ExampleNear, None) == Some(Pass("L3", Some("L3")))
      && MatchDamAsWritten(d2, [], ExampleNear, Some("L3")) == Some(Pass("L3", Some("L3")))
      && MatchDamAsWritten(d2, [], ExampleNear, None) == None
      && MatchDam(d1, [], ExampleNear) == "L3"
      && MatchDam(d2, [], ExampleNear) == "L7"
  {
    var d1, d2 := Dam("D1", GooddUnsnapped, None), Dam("D2", GooddUnsnapped, None);
    var c1, c2 := [Candidate("L3", 1.0)], [Candidate("L7", 0.0)];
    assert ProximityCandidates(d1, ExampleNear) == c1 && c1[0].area > 0.0;
    assert ProximityCandidates(d2, ExampleNear) == c2;
    assert Largest(c1) == Some("L3") && Largest(c2) == Some("L7");
  }

  /** A pass that succeeds puts its lake in front of the rest of the loop. */
  lemma AsWrittenCons(dam: Dam, rest: seq<Dam>, mask: seq<Polygon>, near: Proximity, carried: Option<string>, p: Pass, tail: seq<string>)
    requires MatchDamAsWritten(dam, mask, near, carried) == Some(p)
    requires MatchAllAsWritten(rest, mask, near, p.carried) == Some(tail)
    ensures MatchAllAsWritten([dam] + rest, mask, near, carried) == Some([p.lake] + tail)
  {
    assert ([dam] + rest)[1..] == rest;
  }

  // ----- register dams -----

  const RegisterPrefix := "register_"

  /** `re.search('register_.+', s)`: "register_" occurs followed by at least
      one character other than a line feed. */
  predicate IsRegisterSource(s: string) {
    exists i :: 0 <= i < |s| && RegisterPrefixAt(s, i)
  }

  /** "register_" starts at `i` and a character other than a line feed
      follows it. */
  predicate RegisterPrefixAt(s: string, i: int) {
    0 <= i && i + |RegisterPrefix| < |s| && s[i..i + |RegisterPrefix|] == RegisterPrefix
    && s[i + |RegisterPrefix|] != '\n'
  }

  /** `R1_keep` after the initialisation pass: 1 for register dams, the
      carried-in value for the others. */
  function InitialKeeps(dams: seq<Dam>): (r: seq<Option<int>>)
    ensures |r| == |dams|
    ensures forall k :: 0 <= k < |dams| && IsRegisterSource(dams[k].source) ==> r[k] == Some(1)
    ensures forall k :: 0 <= k < |dams| && !IsRegisterSource(dams[k].source) ==> r[k] == dams[k].keep
  {
    seq(|dams|, k requires 0 <= k < |dams| => if IsRegisterSource(dams[k].source) then Some(1) else dams[k].keep)
  }

  /** `this_register_name`: the source of the last register dam, unbound
      when there is none. */
  function LastRegister(dams: seq<Dam>): (r: Option<string>)
    ensures r.None? <==> forall k :: 0 <= k < |dams| ==> !IsRegisterSource(dams[k].source)
    ensures r.Some? ==> exists k :: 0 <= k < |dams| && dams[k].source == r.value && IsRegisterSource(r.value)
                          && forall j :: k < j < |dams| ==> !IsRegisterSource(dams[j].source)
  {
    if |dams| == 0 then None
    else if IsRegisterSource(dams[|dams|-1].source) then Some(dams[|dams|-1].source)
    else
      var r := LastRegister(dams[..|dams|-1]);
      assert forall k :: 0 <= k < |dams| - 1 ==> dams[..|dams|-1][k] == dams[k];
      r
  }
}
