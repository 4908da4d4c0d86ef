/** Step4: transferring GeoDAR reservoir IDs to the PLD lakes they
    intersect. The input is the intersection of the PLD layer with the
    GeoDAR layer, one piece per (lake, reservoir) overlap in cursor order;
    the output is the GeoDAR ID, the number of intersecting reservoirs and
    an area ratio on every intersected PLD lake. */
module GeodarToPld {
  import opened Common

  /** One feature of the intersection layer: the PLD `lake_UID`, the
      `GeoDARv11_ID` and the area of the overlap. */
  datatype Piece = Piece(lakeUid: string, geodarId: string, area: Area)

  /** The original (unintersected) area of a PLD lake, by `lake_UID`. */
  type OriginalArea = string -> Area

  /** `all_intersected_lake_UID`. */
  function PieceLakes(ps: seq<Piece>): (r: seq<string>)
    ensures |r| == |ps| && forall i :: 0 <= i < |ps| ==> r[i] == ps[i].lakeUid
  {
    seq(|ps|, i requires 0 <= i < |ps| => ps[i].lakeUid)
  }

  /** `all_intersected_GeoDARv11_ID`. */
  function PieceIds(ps: seq<Piece>): (r: seq<string>)
    ensures |r| == |ps| && forall i :: 0 <= i < |ps| ==> r[i] == ps[i].geodarId
  {
    seq(|ps|, i requires 0 <= i < |ps| => ps[i].geodarId)
  }

  /** The (lake, reservoir) pair of every piece. */
  function Pairs(ps: seq<Piece>): (r: seq<(string, string)>)
    ensures |r| == |ps| && forall i :: 0 <= i < |ps| ==> r[i] == (ps[i].lakeUid, ps[i].geodarId)
  {
    seq(|ps|, i requires 0 <= i < |ps| => (ps[i].lakeUid, ps[i].geodarId))
  }

  /** Some piece joins `lake` to reservoir `g`. */
  predicate Joined(ps: seq<Piece>, lake: string, g: string) {
    (lake, g) in Pairs(ps)
  }

  lemma PairsOfPrefix(ps: seq<Piece>)
    requires |ps| > 0
    ensures Pairs(ps) == Pairs(ps[..|ps|-1]) + [(ps[|ps|-1].lakeUid, ps[|ps|-1].geodarId)]
  {
  }

  /** Every piece's lake is intersected, and joins the piece's reservoir. */
  lemma PieceJoins(ps: seq<Piece>, i: nat)
    requires i < |ps|
    ensures Joined(ps, ps[i].lakeUid, ps[i].geodarId)
    ensures ps[i].lakeUid in PieceLakes(ps) && ps[i].geodarId in PieceIds(ps)
  {
    assert Pairs(ps)[i] == (ps[i].lakeUid, ps[i].geodarId);
    assert PieceLakes(ps)[i] == ps[i].lakeUid;
    assert PieceIds(ps)[i] == ps[i].geodarId;
  }

  /** A joined lake and reservoir come from some piece. */
  lemma JoinedPiece(ps: seq<Piece>, lake: string, g: string)
    requires Joined(ps, lake, g)
    ensures lake in PieceLakes(ps) && g in PieceIds(ps)
  {
    var i :| 0 <= i < |ps| && Pairs(ps)[i] == (lake, g);
    PieceJoins(ps, i);
  }

  /** `unique_intersected_GeoDARv11_ID`, in first-occurrence order. */
  function UniqueIds(ps: seq<Piece>): seq<string> {
    Dedup(PieceIds(ps))
  }

  // ----- per lake: lines 77-95 -----

  /** `[all_intersected_GeoDARv11_ID[i] for i in here_PLD_indices]`: the
      reservoirs of the pieces of `lake`, one entry per piece. */
  function IdsOn(ps: seq<Piece>, lake: string): (r: seq<string>)
    ensures forall g :: g in r <==> Joined(ps, lake, g)
  {
    if |ps| == 0 then []
    else
      var n := |ps| - 1;
      PairsOfPrefix(ps);
      var p := IdsOn(ps[..n], lake);
      if ps[n].lakeUid == lake then p + [ps[n].geodarId] else p
  }

  /** `this_unique_GeoDAR_IDs`: the distinct reservoirs a lake intersects,
      in the order of its pieces. */
  function JointIds(ps: seq<Piece>, lake: string): (r: seq<string>)
    ensures NoDup(r)
  {
    Dedup(IdsOn(ps, lake))
  }

  /** A reservoir is among a lake's joint IDs exactly when a piece joins
      them. */
  lemma JointIdsExact(ps: seq<Piece>, lake: string, g: string)
    ensures g in JointIds(ps, lake) <==> Joined(ps, lake, g)
  {
    var ids := IdsOn(ps, lake);
    var r := Dedup(ids);
    if g in r {
      var k :| 0 <= k < |r| && r[k] == g;
    }
    if g in ids {
      var k :| 0 <= k < |ids| && ids[k] == g;
    }
  }

  /** Every intersected lake has at least one joint ID. */
  lemma JointIdsNonEmpty(ps: seq<Piece>, lake: string)
    requires lake in PieceLakes(ps)
    ensures |JointIds(ps, lake)| > 0
  {
    var i :| 0 <= i < |ps| && PieceLakes(ps)[i] == lake;
    PieceJoins(ps, i);
    JointIdsExact(ps, lake, ps[i].geodarId);
  }

  /** `unique_intersected_lake_UID_joint_GeoDAR_ID`: the last of the joint
      IDs. */
  function WrittenId(ps: seq<Piece>, lake: string): (r: string)
    requires lake in PieceLakes(ps)
    ensures Joined(ps, lake, r)
  {
    JointIdsNonEmpty(ps, lake);
    var j := JointIds(ps, lake);
    JointIdsExact(ps, lake, j[|j| - 1]);
    j[|j| - 1]
  }

  // ----- per reservoir: lines 122-140 -----

  /** `withinGeoDAR_lake_UID`: the lakes of the pieces of reservoir `g`, one
      entry per piece, so a lake cut into several pieces repeats. */
  function ClusterLakes(ps: seq<Piece>, g: string): (r: seq<string>)
    ensures |r| == Count(PieceIds(ps), g)
    ensures forall l :: l in r <==> Joined(ps, l, g)
  {
    if |ps| == 0 then []
    else
      var n := |ps| - 1;
      PairsOfPrefix(ps);
      assert PieceIds(ps) == PieceIds(ps[..n]) + [ps[n].geodarId];
      var p := ClusterLakes(ps[..n], g);
      if ps[n].geodarId == g then p + [ps[n].lakeUid] else p
  }

  /** Hence a lake is in a reservoir's cluster exactly when the reservoir is
      among the lake's joint IDs. */
  lemma ClusterIffJoint(ps: seq<Piece>, lake: string, g: string)
    ensures lake in ClusterLakes(ps, g) <==> g in JointIds(ps, lake)
  {
    JointIdsExact(ps, lake, g);
  }

  /** `sum_intersected_area`: the area of the pieces of reservoir `g`. */
  function IntersectedArea(ps: seq<Piece>, g: string): (r: Area)
    ensures Count(PieceIds(ps), g) == 0 ==> r == 0.0
  {
    if |ps| == 0 then 0.0
    else
      var n := |ps| - 1;
      assert PieceIds(ps) == PieceIds(ps[..n]) + [ps[n].geodarId];
      IntersectedArea(ps[..n], g) + (if ps[n].geodarId == g then ps[n].area else 0.0)
  }

  /** Sum of the original areas of a list of lakes, repeats included. */
  function SumOriginal(lakes: seq<string>, orig: OriginalArea): (r: Area)
    ensures r == 0.0 <==> forall k :: 0 <= k < |lakes| ==> orig(lakes[k]) == 0.0
  {
    if |lakes| == 0 then 0.0
    else
      var n := |lakes| - 1;
      var s := SumOriginal(lakes[..n], orig);
      assert forall k :: 0 <= k < n ==> lakes[..n][k] == lakes[k];
      s + orig(lakes[n])
  }

  /** `sum_withinGeoDAR_lake_UID_area`. */
  function ClusterArea(ps: seq<Piece>, g: string, orig: OriginalArea): Area {
    SumOriginal(ClusterLakes(ps, g), orig)
  }

  /** `area_ratio` of reservoir `g`: intersected over original area; `None`
      where Python raises a division by zero. */
  function Ratio(ps: seq<Piece>, g: string, orig: OriginalArea): (r: Option<real>)
    ensures r.None? <==> ClusterArea(ps, g, orig) == 0.0
    ensures r.Some? ==> r.value >= 0.0
  {
    var d := ClusterArea(ps, g, orig);
    if d == 0.0 then None
    else
      QuotientNonNegative(IntersectedArea(ps, g), d);
      Some(IntersectedArea(ps, g) / d)
  }

  lemma QuotientNonNegative(a: real, b: real)
    requires a >= 0.0 && b > 0.0
    ensures a / b >= 0.0
  {
    assert (a / b) * b == a;
  }

  /** A reservoir whose cluster needs no manual check: each of its lakes
      intersects this reservoir only, and the pieces cover more than 99% of
      the lakes' original area. */
  predicate Settled(ps: seq<Piece>, g: string, orig: OriginalArea) {
    var cl := ClusterLakes(ps, g);
    && Ratio(ps, g, orig).Some? && Ratio(ps, g, orig).value > 0.99
    && forall k :: 0 <= k < |cl| ==> |JointIds(ps, cl[k])| == 1
  }

  /** The lakes of a cluster are intersected lakes. */
  lemma ClusterInLakes(ps: seq<Piece>, g: string)
    ensures forall k :: 0 <= k < |ClusterLakes(ps, g)| ==> ClusterLakes(ps, g)[k] in PieceLakes(ps)
  {
    var cl := ClusterLakes(ps, g);
    forall k | 0 <= k < |cl| ensures cl[k] in PieceLakes(ps) {
      JoinedPiece(ps, cl[k], g);
    }
  }

  // ----- the loop over the reservoirs: lines 93-95 and 122-157 -----

  /** What the script keeps per intersected lake:
      `unique_intersected_lake_UID_joint_count` and
      `unique_intersected_lake_UID_arearatio`. */
  datatype LakeState = LakeState(count: int, ratio: real)

  /** The per-lake lists, keyed by `lake_UID`. */
  type State = map<string, LakeState>

  /** Before the loop: the number of joint IDs and the ratio -1.0. */
  function Initial(ps: seq<Piece>): (r: State)
    ensures forall l :: l in r <==> l in PieceLakes(ps)
  {
    map l | l in PieceLakes(ps) :: LakeState(|JointIds(ps, l)|, -1.0)
  }

  /** Python's `max` of a non-empty list. */
  function Max(xs: seq<int>): (r: int)
    requires |xs| > 0
    ensures r in xs
    ensures forall k :: 0 <= k < |xs| ==> xs[k] <= r
  {
    if |xs| == 1 then xs[0]
    else
      var m := Max(xs[1..]);
      assert xs == [xs[0]] + xs[1..];
      if xs[0] >= m then xs[0] else m
  }

  /** `withinGeoDAR_lake_UID_joint_count`: the current counts of a
      cluster's lakes. */
  function Counts(st: State, cl: seq<string>): (r: seq<int>)
    requires forall k :: 0 <= k < |cl| ==> cl[k] in st
    ensures |r| == |cl| && forall k :: 0 <= k < |cl| ==> r[k] == st[cl[k]].count
  {
    seq(|cl|, k requires 0 <= k < |cl| => st[cl[k]].count)
  }

  /** One iteration for reservoir `g`: every lake of its cluster takes the
      cluster's ratio, and its count becomes -1 when the largest current
      count in the cluster is 1 and the ratio exceeds 0.99. `None` where the
      division fails. */
  function Update(st: State, ps: seq<Piece>, orig: OriginalArea, g: string): (r: Option<State>)
    requires g in PieceIds(ps)
    requires forall l :: l in st <==> l in PieceLakes(ps)
    ensures r.None? <==> Ratio(ps, g, orig).None?
    ensures r.Some? ==> forall l :: l in r.value <==> l in st
  {
    var cl := ClusterLakes(ps, g);
    ClusterInLakes(ps, g);
    match Ratio(ps, g, orig)
    case None => None
    case Some(ratio) =>
      var settled := Max(Counts(st, cl)) == 1 && ratio > 0.99;
      Some(map l | l in st :: if l in cl then LakeState(if settled then -1 else st[l].count, ratio) else st[l])
  }

  /** The loop over `ids` as the script runs it; the error is the reservoir
      whose division fails. */
  function Fold(ps: seq<Piece>, orig: OriginalArea, ids: seq<string>): (r: Result<State, string>)
    requires forall k :: 0 <= k < |ids| ==> ids[k] in PieceIds(ps)
    ensures r.Success? ==> forall l :: l in r.value <==> l in PieceLakes(ps)
    ensures r.Failure? ==> r.error in ids && Ratio(ps, r.error, orig).None?
    decreases |ids|
  {
    if |ids| == 0 then Success(Initial(ps))
    else
      var n := |ids| - 1;
      match Fold(ps, orig, ids[..n])
      case Failure(g) => Failure(g)
      case Success(st) =>
        match Update(st, ps, orig, ids[n])
        case None => Failure(ids[n])
        case Some(next) => Success(next)
  }

  // ----- what the loop computes, stated per lake -----

  /** The count a lake ends with once the reservoirs of `done` are
      processed: -1 when it intersects a single reservoir, that reservoir
      is done and settled; its number of joint IDs otherwise. */
  function RefCount(ps: seq<Piece>, orig: OriginalArea, done: seq<string>, l: string): int {
    var j := JointIds(ps, l);
    if |j| == 1 && j[0] in done && Settled(ps, j[0], orig) then -1 else |j|
  }

  /** The last reservoir of `ids` that the lake intersects. */
  function LastCluster(ps: seq<Piece>, ids: seq<string>, l: string): (r: Option<string>)
    ensures r.Some? ==> r.value in ids && Joined(ps, l, r.value)
    ensures r.None? ==> forall k :: 0 <= k < |ids| ==> !Joined(ps, l, ids[k])
    decreases |ids|
  {
    if |ids| == 0 then None
    else
      var n := |ids| - 1;
      if Joined(ps, l, ids[n]) then Some(ids[n])
      else
        var r := LastCluster(ps, ids[..n], l);
        assert forall k :: 0 <= k < n ==> ids[..n][k] == ids[k];
        r
  }

  /** The ratio a lake ends with: that of the last processed reservoir it
      intersects, -1.0 when there is none. */
  function RefRatio(ps: seq<Piece>, orig: OriginalArea, ids: seq<string>, l: string): real
    requires forall k :: 0 <= k < |ids| ==> Ratio(ps, ids[k], orig).Some?
  {
    match LastCluster(ps, ids, l)
    case None => -1.0
    case Some(g) => Ratio(ps, g, orig).value
  }

  /** A lake of a cluster not yet processed still has its joint count, and
      that count is at least one. */
  lemma PendingCount(ps: seq<Piece>, orig: OriginalArea, done: seq<string>, g: string, l: string)
    requires g !in done && l in ClusterLakes(ps, g)
    ensures RefCount(ps, orig, done, l) == |JointIds(ps, l)| >= 1
  {
    ClusterIffJoint(ps, l, g);
  }

  /** Processing reservoir `g` changes the count of the lakes of its cluster
      only, and exactly as the loop body does. */
  lemma StepCount(ps: seq<Piece>, orig: OriginalArea, done: seq<string>, g: string, l: string)
    requires g !in done
    ensures RefCount(ps, orig, done + [g], l) ==
      if l in ClusterLakes(ps, g) then (if Settled(ps, g, orig) then -1 else |JointIds(ps, l)|)
      else RefCount(ps, orig, done, l)
  {
    var j := JointIds(ps, l);
    ClusterIffJoint(ps, l, g);
    if l in ClusterLakes(ps, g) {
      PendingCount(ps, orig, done, g, l);
      assert j[0] == g || |j| > 1;
      if Settled(ps, g, orig) {
        var cl := ClusterLakes(ps, g);
        var k :| 0 <= k < |cl| && cl[k] == l;
        assert |JointIds(ps, cl[k])| == 1;
      }
    } else {
      assert |j| == 1 && j[0] in done + [g] ==> j[0] in done;
    }
  }

  /** On counts that are all positive, the largest is 1 exactly when all
      are 1. */
  lemma MaxIsOne(xs: seq<int>)
    requires |xs| > 0 && forall k :: 0 <= k < |xs| ==> xs[k] >= 1
    ensures Max(xs) == 1 <==> forall k :: 0 <= k < |xs| ==> xs[k] == 1
  {
    var m := Max(xs);
    var j :| 0 <= j < |xs| && xs[j] == m;
  }

  /** The script's test "largest count is 1 and ratio above 0.99", read on a
      cluster not yet processed, is exactly `Settled`. */
  lemma SettledAsWritten(ps: seq<Piece>, orig: OriginalArea, st: State, done: seq<string>, g: string)
    requires g in PieceIds(ps) && g !in done
    requires Ratio(ps, g, orig).Some?
    requires forall k :: 0 <= k < |ClusterLakes(ps, g)| ==> ClusterLakes(ps, g)[k] in st
    requires forall l :: l in st ==> st[l].count == RefCount(ps, orig, done, l)
    ensures (Max(Counts(st, ClusterLakes(ps, g))) == 1 && Ratio(ps, g, orig).value > 0.99) <==> Settled(ps, g, orig)
  {
    PendingCounts(ps, orig, st, done, g);
    SettledFromCounts(ps, orig, g, Counts(st, ClusterLakes(ps, g)));
  }

  /** With the counts of a cluster equal to its lakes' numbers of joint IDs,
      all positive, the script's test is `Settled`. */
  lemma SettledFromCounts(ps: seq<Piece>, orig: OriginalArea, g: string, cs: seq<int>)
    requires Ratio(ps, g, orig).Some?
    requires |cs| == |ClusterLakes(ps, g)| > 0
    requires forall k :: 0 <= k < |cs| ==> cs[k] == |JointIds(ps, ClusterLakes(ps, g)[k])| >= 1
    ensures (Max(cs) == 1 && Ratio(ps, g, orig).value > 0.99) <==> Settled(ps, g, orig)
  {
    MaxIsOne(cs);
  }

  /** Before reservoir `g` is processed, the counts of its cluster are the
      lakes' numbers of joint IDs, all at least one. */
  lemma PendingCounts(ps: seq<Piece>, orig: OriginalArea, st: State, done: seq<string>, g: string)
    requires g in PieceIds(ps) && g !in done
    requires forall k :: 0 <= k < |ClusterLakes(ps, g)| ==> ClusterLakes(ps, g)[k] in st
    requires forall l :: l in st ==> st[l].count == RefCount(ps, orig, done, l)
    ensures |ClusterLakes(ps, g)| > 0
    ensures forall k :: 0 <= k < |ClusterLakes(ps, g)| ==>
      Counts(st, ClusterLakes(ps, g))[k] == |JointIds(ps, ClusterLakes(ps, g)[k])| >= 1
  {
    var cl := ClusterLakes(ps, g);
    var cs := Counts(st, cl);
    forall k | 0 <= k < |cl| ensures cs[k] == |JointIds(ps, cl[k])| >= 1 {
      PendingCount(ps, orig, done, g, cl[k]);
    }
  }

  /** Processing reservoir `g` moves the ratio of the lakes of its cluster
      to that of `g` and leaves the others. */
  lemma StepRatio(ps: seq<Piece>, orig: OriginalArea, done: seq<string>, g: string, l: string)
    requires forall k :: 0 <= k < |done| ==> Ratio(ps, done[k], orig).Some?
    requires Ratio(ps, g, orig).Some?
    ensures forall k :: 0 <= k < |done + [g]| ==> Ratio(ps, (done + [g])[k], orig).Some?
    ensures RefRatio(ps, orig, done + [g], l) ==
      if l in ClusterLakes(ps, g) then Ratio(ps, g, orig).value else RefRatio(ps, orig, done, l)
  {
    var ids := done + [g];
    assert ids[..|done|] == done;
  }

  /** One lake after one iteration of the loop, starting from the reference
      state of the reservoirs already done. */
  lemma UpdateAt(ps: seq<Piece>, orig: OriginalArea, st: State, done: seq<string>, g: string, l: string)
    requires g in PieceIds(ps) && g !in done
    requires forall k :: 0 <= k < |done| ==> Ratio(ps, done[k], orig).Some?
    requires Ratio(ps, g, orig).Some?
    requires forall x :: x in st <==> x in PieceLakes(ps)
    requires forall x :: x in st ==> st[x] == LakeState(RefCount(ps, orig, done, x), RefRatio(ps, orig, done, x))
    requires l in st
    ensures Update(st, ps, orig, g).Some?
    ensures forall k :: 0 <= k < |done + [g]| ==> Ratio(ps, (done + [g])[k], orig).Some?
    ensures Update(st, ps, orig, g).value[l]
      == LakeState(RefCount(ps, orig, done + [g], l), RefRatio(ps, orig, done + [g], l))
  {
    ClusterInLakes(ps, g);
    SettledAsWritten(ps, orig, st, done, g);
    StepCount(ps, orig, done, g, l);
    StepRatio(ps, orig, done, g, l);
    if l in ClusterLakes(ps, g) {
      PendingCount(ps, orig, done, g, l);
    }
  }

  /** The loop computes, lake by lake, the reference count and ratio; it
      fails exactly when some reservoir's division does. */
  lemma {:induction false} FoldMatchesReference(ps: seq<Piece>, orig: OriginalArea, ids: seq<string>)
    requires forall k :: 0 <= k < |ids| ==> ids[k] in PieceIds(ps)
    requires NoDup(ids)
    ensures Fold(ps, orig, ids).Success? <==> forall k :: 0 <= k < |ids| ==> Ratio(ps, ids[k], orig).Some?
    ensures Fold(ps, orig, ids).Success? ==>
      forall l :: l in Fold(ps, orig, ids).value ==>
        Fold(ps, orig, ids).value[l] == LakeState(RefCount(ps, orig, ids, l), RefRatio(ps, orig, ids, l))
    decreases |ids|
  {
    if |ids| > 0 {
      var n := |ids| - 1;
      var pre := ids[..n];
      var g := ids[n];
      assert ids == pre + [g];
      assert forall k :: 0 <= k < n ==> pre[k] == ids[k];
      FoldMatchesReference(ps, orig, pre);
      if Fold(ps, orig, pre).Success? && Ratio(ps, g, orig).Some? {
        UpdateAll(ps, orig, Fold(ps, orig, pre).value, pre, g);
      }
    }
  }

  /** One whole iteration of the loop, from the reference state of the
      reservoirs already done to that of one more. */
  lemma UpdateAll(ps: seq<Piece>, orig: OriginalArea, st: State, done: seq<string>, g: string)
    requires g in PieceIds(ps) && g !in done
    requires forall k :: 0 <= k < |done| ==> Ratio(ps, done[k], orig).Some?
    requires Ratio(ps, g, orig).Some?
    requires forall x :: x in st <==> x in PieceLakes(ps)
    requires forall x :: x in st ==> st[x] == LakeState(RefCount(ps, orig, done, x), RefRatio(ps, orig, done, x))
    ensures Update(st, ps, orig, g).Some?
    ensures forall k :: 0 <= k < |done + [g]| ==> Ratio(ps, (done + [g])[k], orig).Some?
    ensures forall l :: l in Update(st, ps, orig, g).value ==>
      Update(st, ps, orig, g).value[l] == LakeState(RefCount(ps, orig, done + [g], l), RefRatio(ps, orig, done + [g], l))
  {
    var ids := done + [g];
    assert forall k :: 0 <= k < |done| ==> ids[k] == done[k];
    assert forall k :: 0 <= k < |ids| ==> Ratio(ps, ids[k], orig).Some?;
    forall l | l in Update(st, ps, orig, g).value
      ensures Update(st, ps, orig, g).value[l] == LakeState(RefCount(ps, orig, ids, l), RefRatio(ps, orig, ids, l))
    {
      UpdateAt(ps, orig, st, done, g, l);
    }
  }

  // ----- write-back: lines 175-188 -----

  /** The fields of a PLD polygon step 4 reads and writes: `lake_UID`,
      `lake_UID_QC`, `GeoDARv11_ID`, `GeoDARv11_ID_QC`, `intGeoDAR_count`
      and `intGeoDAR_arearatio`. */
  datatype PldRecord = PldRecord(
    lakeUid: string,
    lakeUidQc: Option<string>,
    geodarId: Option<string>,
    geodarIdQc: Option<string>,
    count: Option<int>,
    ratio: Option<real>)

  /** Every reservoir of a piece is among the unique reservoir IDs. */
  lemma InUniqueIds(ps: seq<Piece>, g: string)
    requires g in PieceIds(ps)
    ensures g in UniqueIds(ps)
  {
    var i :| 0 <= i < |ps| && PieceIds(ps)[i] == g;
  }

  /** The loop over all reservoirs, in the order of their first pieces. */
  function FoldAll(ps: seq<Piece>, orig: OriginalArea): (r: Result<State, string>)
    ensures r.Success? ==> forall l :: l in r.value <==> l in PieceLakes(ps)
    ensures r.Success? <==> forall i :: 0 <= i < |ps| ==> Ratio(ps, ps[i].geodarId, orig).Some?
    ensures r.Failure? ==> r.error in PieceIds(ps) && Ratio(ps, r.error, orig).None?
  {
    var ids := UniqueIds(ps);
    FoldMatchesReference(ps, orig, ids);
    assert (forall k :: 0 <= k < |ids| ==> Ratio(ps, ids[k], orig).Some?)
       <==> (forall i :: 0 <= i < |ps| ==> Ratio(ps, ps[i].geodarId, orig).Some?) by {
      forall i | 0 <= i < |ps| ensures ps[i].geodarId in ids {
        PieceJoins(ps, i);
        InUniqueIds(ps, ps[i].geodarId);
      }
    }
    Fold(ps, orig, ids)
  }

  /** One polygon of the update cursor: `lake_UID_QC` always, the other
      fields, with the lake's count and ratio `v`, only for an intersected
      lake. */
  function WriteRecord(rec: PldRecord, ps: seq<Piece>, v: LakeState): PldRecord {
    var r := rec.(lakeUidQc := Some(rec.lakeUid));
    if rec.lakeUid in PieceLakes(ps) then
      var g := WrittenId(ps, rec.lakeUid);
      r.(geodarId := Some(g), geodarIdQc := Some(g), count := Some(v.count), ratio := Some(v.ratio))
    else r
  }

  /** Step 4 as written: the ratio written on a lake is whatever the loop
      left in it. It fails where the corrected conversion fails and writes
      the same records apart from the ratio. */
  function ConvertAsWritten(recs: seq<PldRecord>, ps: seq<Piece>, orig: OriginalArea): (r: Result<seq<PldRecord>, string>)
    ensures r.Success? ==> |r.value| == |recs|
    ensures r.Success? <==> Convert(recs, ps, orig).Success?
    ensures r.Success? ==> forall k :: 0 <= k < |recs| ==>
      r.value[k].(ratio := Convert(recs, ps, orig).value[k].ratio) == Convert(recs, ps, orig).value[k]
  {
    match FoldAll(ps, orig)
    case Failure(g) => Failure(g)
    case Success(st) =>
      RatioOnlyDiffers(recs, ps, orig, st);
      Success(seq(|recs|, k requires 0 <= k < |recs| => WriteRecord(recs[k], ps, LoopInfo(st, recs[k].lakeUid))))
  }

  /** The loop's values and the corrected ones agree on every count. */
  lemma RatioOnlyDiffers(recs: seq<PldRecord>, ps: seq<Piece>, orig: OriginalArea, st: State)
    ensures forall k :: 0 <= k < |recs| ==>
      var w := WriteRecord(recs[k], ps, CorrectedInfo(ps, orig, st, recs[k].lakeUid));
      WriteRecord(recs[k], ps, LoopInfo(st, recs[k].lakeUid)).(ratio := w.ratio) == w
  {
    forall k | 0 <= k < |recs| && recs[k].lakeUid in PieceLakes(ps)
      ensures LoopInfo(st, recs[k].lakeUid).count == CorrectedInfo(ps, orig, st, recs[k].lakeUid).count
    {
    }
  }

  /** What the loop left on a lake. */
  function LoopInfo(st: State, lake: string): LakeState {
    if lake in st then st[lake] else LakeState(0, 0.0)
  }

  /** On an intersected lake the script writes the ratio of the last
      reservoir, in the order of the reservoirs' first pieces, that the lake
      intersects. */
  lemma AsWrittenRatio(recs: seq<PldRecord>, ps: seq<Piece>, orig: OriginalArea, k: nat)
    requires k < |recs| && recs[k].lakeUid in PieceLakes(ps)
    requires ConvertAsWritten(recs, ps, orig).Success?
    ensures forall j :: 0 <= j < |UniqueIds(ps)| ==> Ratio(ps, UniqueIds(ps)[j], orig).Some?
    ensures LastCluster(ps, UniqueIds(ps), recs[k].lakeUid).Some?
    ensures ConvertAsWritten(recs, ps, orig).value[k].geodarId == Some(WrittenId(ps, recs[k].lakeUid))
    ensures ConvertAsWritten(recs, ps, orig).value[k].ratio
      == Some(Ratio(ps, LastCluster(ps, UniqueIds(ps), recs[k].lakeUid).value, orig).value)
  {
    var l := recs[k].lakeUid;
    var ids := UniqueIds(ps);
    FoldMatchesReference(ps, orig, ids);
    var g := WrittenId(ps, l);
    JoinedPiece(ps, l, g);
    InUniqueIds(ps, g);
    var j :| 0 <= j < |ids| && ids[j] == g;
    assert Joined(ps, l, ids[j]);
  }

  /** The written ID is the reservoir whose first piece on the lake comes
      last among the lake's reservoirs. */
  lemma WrittenIdFirstSeenLast(ps: seq<Piece>, lake: string, g: string)
    requires lake in PieceLakes(ps) && Joined(ps, lake, g)
    ensures g in IdsOn(ps, lake) && WrittenId(ps, lake) in IdsOn(ps, lake)
    ensures FirstIndex(IdsOn(ps, lake), g) <= FirstIndex(IdsOn(ps, lake), WrittenId(ps, lake))
  {
    var ids := IdsOn(ps, lake);
    assert g in ids;
    DedupLastSeenLast(ids, g);
    var d := Dedup(ids);
    assert d == JointIds(ps, lake);
    assert WrittenId(ps, lake) == d[|d| - 1];
  }

  /** The count written on an intersected lake: -1 when it intersects one
      reservoir only and that reservoir is settled, otherwise the number of
      reservoirs it intersects. */
  function FinalCount(ps: seq<Piece>, orig: OriginalArea, lake: string): int {
    var j := JointIds(ps, lake);
    if |j| == 1 && Settled(ps, j[0], orig) then -1 else |j|
  }

  /** The value written on an intersected lake: the loop's count, and the
      ratio of the reservoir whose ID is written. The fallbacks cannot be
      reached once the loop succeeded. */
  function CorrectedInfo(ps: seq<Piece>, orig: OriginalArea, st: State, lake: string): LakeState {
    if lake in st && lake in PieceLakes(ps) then
      match Ratio(ps, WrittenId(ps, lake), orig)
      case Some(x) => LakeState(st[lake].count, x)
      case None => st[lake]
    else LakeState(0, 0.0)
  }

  /** Step 4 with the ratio taken from the reservoir whose ID is written on
      the lake. */
  function Convert(recs: seq<PldRecord>, ps: seq<Piece>, orig: OriginalArea): (r: Result<seq<PldRecord>, string>)
    ensures r.Success? <==> forall i :: 0 <= i < |ps| ==> Ratio(ps, ps[i].geodarId, orig).Some?
    ensures r.Failure? ==> r.error in PieceIds(ps) && Ratio(ps, r.error, orig).None?
    ensures r.Success? ==> |r.value| == |recs|
  {
    match FoldAll(ps, orig)
    case Failure(g) => Failure(g)
    case Success(st) =>
      Success(seq(|recs|, k requires 0 <= k < |recs| => WriteRecord(recs[k], ps, CorrectedInfo(ps, orig, st, recs[k].lakeUid))))
  }

  /** What step 4 writes on each PLD polygon: its own `lake_UID` as
      `lake_UID_QC`; on an intersected lake the last joint reservoir's ID in
      both ID fields, the final count, and that reservoir's area ratio; and
      nothing else on the other polygons. */
  lemma ConvertSpec(recs: seq<PldRecord>, ps: seq<Piece>, orig: OriginalArea, k: nat)
    requires k < |recs|
    requires Convert(recs, ps, orig).Success?
    ensures var rec := recs[k];
      var out := Convert(recs, ps, orig).value[k];
      && out.lakeUid == rec.lakeUid && out.lakeUidQc == Some(rec.lakeUid)
      && (rec.lakeUid in PieceLakes(ps) ==>
            && out.geodarId == Some(WrittenId(ps, rec.lakeUid)) && out.geodarIdQc == out.geodarId
            && Joined(ps, rec.lakeUid, WrittenId(ps, rec.lakeUid))
            && out.count == Some(FinalCount(ps, orig, rec.lakeUid))
            && Ratio(ps, WrittenId(ps, rec.lakeUid), orig).Some?
            && out.ratio == Some(Ratio(ps, WrittenId(ps, rec.lakeUid), orig).value))
      && (rec.lakeUid !in PieceLakes(ps) ==>
            out.geodarId == rec.geodarId && out.geodarIdQc == rec.geodarIdQc
            && out.count == rec.count && out.ratio == rec.ratio)
  {
    var l := recs[k].lakeUid;
    var ids := UniqueIds(ps);
    FoldMatchesReference(ps, orig, ids);
    if l in PieceLakes(ps) {
      var g := WrittenId(ps, l);
      JoinedPiece(ps, l, g);
      InUniqueIds(ps, g);
      JointIdsNonEmpty(ps, l);
      var j := JointIds(ps, l);
      JointIdsExact(ps, l, j[0]);
      JoinedPiece(ps, l, j[0]);
      InUniqueIds(ps, j[0]);
    }
  }

  /** Lake L1 intersects reservoirs A and B, lake L2 only B, and the
      intersection lists the L2 piece first. */
  const ExamplePieces := [Piece("L2", "B", 1.0), Piece("L1", "A", 1.0), Piece("L1", "B", 1.0)]

  /** L1 has an original area of 4, L2 of 2. */
  function ExampleOriginal(l: string): Area {
    if l == "L1" then 4.0 else 2.0
  }

  lemma ExampleLists()
    ensures UniqueIds(ExamplePieces) == ["B", "A"]
    ensures JointIds(ExamplePieces, "L1") == ["A", "B"]
  {
    ExampleUniqueIds();
    ExampleJointIds();
  }

  lemma ExampleUniqueIds()
    ensures UniqueIds(ExamplePieces) == ["B", "A"]
  {
    var ps := ExamplePieces;
    assert PieceIds(ps) == ["B", "A", "B"];
    assert PieceIds(ps)[..2] == ["B", "A"];
    assert PieceIds(ps)[..2][..1] == ["B"];
  }

  lemma ExampleJointIds()
    ensures JointIds(ExamplePieces, "L1") == ["A", "B"]
  {
    var ps := ExamplePieces;
    assert ps[..2][..1] == ps[..1];
    assert ps[..1][..0] == [];
    assert IdsOn(ps[..1], "L1") == [];
    assert IdsOn(ps[..2], "L1") == ["A"];
    assert IdsOn(ps, "L1") == ["A", "B"];
    assert IdsOn(ps, "L1")[..1] == ["A"];
  }

  lemma ExampleClusters()
    ensures ClusterLakes(ExamplePieces, "A") == ["L1"]
    ensures ClusterLakes(ExamplePieces, "B") == ["L2", "L1"]
  {
    var ps := ExamplePieces;
    assert ps[..2][..1] == ps[..1];
    assert ps[..1][..0] == [];
    assert PieceIds(ps) == ["B", "A", "B"];
    assert ClusterLakes(ps[..1], "A") == [];
    assert ClusterLakes(ps[..2], "A") == ["L1"];
    assert ClusterLakes(ps[..1], "B") == ["L2"];
    assert ClusterLakes(ps[..2], "B") == ["L2"];
  }

  lemma ExampleRatios()
    ensures Ratio(ExamplePieces, "A", ExampleOriginal) == Some(0.25)
    ensures Ratio(ExamplePieces, "B", ExampleOriginal) == Some(1.0 / 3.0)
  {
    var ps := ExamplePieces;
    ExampleClusters();
    assert ps[..2][..1] == ps[..1];
    assert ps[..1][..0] == [];
    assert ["L2", "L1"][..1] == ["L2"];
    assert ["L1"][..0] == [];
    assert IntersectedArea(ps[..1], "A") == 0.0;
    assert IntersectedArea(ps[..2], "A") == 1.0;
    assert IntersectedArea(ps[..1], "B") == 1.0;
    assert IntersectedArea(ps[..2], "B") == 1.0;
  }

  lemma ExampleSucceeds()
    ensures FoldAll(ExamplePieces, ExampleOriginal).Success?
  {
    var ps := ExamplePieces;
    var o := ExampleOriginal;
    assert Ratio(ps, ps[0].geodarId, o).Some? by { ExampleRatios(); }
    assert Ratio(ps, ps[1].geodarId, o).Some? by { ExampleRatios(); }
    assert Ratio(ps, ps[2].geodarId, o).Some? by { ExampleRatios(); }
  }

  /** L1 gets the ID B, its last joint ID, but the ratio 0.25 of A, the
      reservoir processed last; the ratio of B is 1/3. */
  lemma AsWrittenRatioMismatch()
    ensures var out := ConvertAsWritten([PldRecord("L1", None, None, None, None, None)], ExamplePieces, ExampleOriginal);
      && out.Success?
      && out.value[0].geodarId == Some("B")
      && out.value[0].ratio == Some(0.25)
      && Ratio(ExamplePieces, "B", ExampleOriginal) == Some(1.0 / 3.0)
  {
    var ps := ExamplePieces;
    var recs := [PldRecord("L1", None, None, None, None, None)];
    ExampleLists();
    ExampleRatios();
    ExampleLastCluster();
    ExampleSucceeds();
    AsWrittenRatio(recs, ps, ExampleOriginal, 0);
  }

  /** Among B then A, the last reservoir L1 intersects is A. */
  lemma ExampleLastCluster()
    ensures "L1" in PieceLakes(ExamplePieces)
    ensures LastCluster(ExamplePieces, UniqueIds(ExamplePieces), "L1") == Some("A")
  {
    var ps := ExamplePieces;
    ExampleLists();
    assert PieceLakes(ps)[1] == "L1";
    assert Joined(ps, "L1", "A") by {
      assert Pairs(ps)[1] == ("L1", "A");
    }
  }
}
