# dams-into-SWOT-PLD: a Dafny model of the list logic

The repository places dam points from national registers, GeoDAR and GOODD
into the SWOT Prior Lake Database (PLD). Its scripts run geoprocessing
tools, but the decisions they make are written as plain Python list code.
This project models that code and proves what it computes. In three places
the code does not do what it evidently means to (see "## Findings"). There
the model carries both an as-written member and a corrected one, and the
end-to-end members (`PldExpansion.Expand`, `DamMatching.MatchDam`,
`DamMatching.MatchAll`, `Relation.BuildRelation`, `GeodarToPld.Convert`) use
the corrected behaviour:

- **Step 2, register strings** (India NRLD, South Africa LRD, Japan JDF).
  Each script derives a universal `dam_UID` from `dam_source` and `dam_ID`.
  It then writes a `reg_string`: one `value (reg label); ` segment per
  non-empty normalised field, in a fixed order, closed by
  `dam_UID (reg ID)`. Modules `Text` and `RegisterString`.
- **Step 3, PLD expansion.** Finds the GeoDAR reservoirs that intersect no
  PLD lake, merges them into the PLD, and names each added polygon after its
  GeoDAR ID. Module `PldExpansion`.
- **Step 4, GeoDAR to PLD.** Over the pieces of the PLD x GeoDAR
  intersection, every intersected lake gets three values: the GeoDAR ID it
  joins, the number of reservoirs it intersects (-1 once its reservoir is
  settled), and an area ratio. Module `GeodarToPld`.
- **Step 5, dam–reservoir relation.** Covers these stages:
  - dissolving the GeoDAR polygons of the water mask;
  - the register keep flag;
  - pairing every dam with at most one polygon: by GeoDAR ID, by stepped
    proximity search, or by the wide search for snapped GOODD dams;
  - grouping the dams by lake and ranking them by source (register,
    GeoDARv11, GOODDunsnp, GOODDsnp);
  - writing `R1_keep`, `R1_lake_UID_QC` and the lake summaries back.

  Modules `DamMatching`, `DamRanking` and `Relation`.

`Common` holds `Option`/`Result` and the list idioms the scripts build by
hand:
- `[i for i, x in enumerate(xs) if x == v]` (`IndicesOf`);
- first-occurrence de-duplication (`Dedup`);
- counting (`Count`);
- `",".join` and the "append `','` then drop the last character" idiom
  (`Join`, `DropLast`).

Spatial queries, `float`, `format(x, ".4f")` and `str(x)` are parameters
of the model:
- `Proximity` returns the polygons within `d` metres of a dam, in cursor
  order. It stands for a query on the dissolved near-dams layer, and
  nothing ties the lake UIDs it returns to the mask the model is given.
- `OriginalArea` returns the unintersected area of a PLD lake.
- The formatting functions stand for Python's number formatting.

Areas are non-negative reals.

## Model

| member | source | states |
|---|---|---|
| Common.Dedup | Step4_GeoDAR_to_PLD.py:80-83 | the de-duplicated list has no repeats and holds exactly the values of the input |
| Common.DedupFirstOccurrenceOrder | Step4_GeoDAR_to_PLD.py:80-83 | de-duplication keeps first-occurrence order: earlier entries were seen first in the input |
| Common.DedupLastSeenLast | Step4_GeoDAR_to_PLD.py:94 | the last entry of the de-duplicated list is the value whose first occurrence is latest |
| Common.DedupLengthIffNoDup | Step5_build_dam_reservoir_relation-India.py:298 | the number of distinct values equals the length exactly when no value repeats |
| Common.IndicesOf | Step5_build_dam_reservoir_relation-India.py:288 | the positions are ascending, all hold the value, and every position holding the value is listed |
| Common.IndicesOfCount | Step5_build_dam_reservoir_relation-India.py:288-292 | there are as many positions as occurrences, so `len(dam_indices)` is the dam count |
| Common.CountAboveOneIsRepeated | Step5_build_dam_reservoir_relation-India.py:86-88 | a count above one is the same as two distinct positions holding the value |
| Common.DropLastOfTrailingCommasIsJoin | Step5_build_dam_reservoir_relation-India.py:323-326 | appending `','` after every ID and dropping the last character gives the comma join, also for the empty list |
| Common.SplitJoin | Step5_build_dam_reservoir_relation-India.py:323-326 | a comma-joined list of comma-free IDs splits back into the same list |
| Common.Without | Step5_build_dam_reservoir_relation-India.py:279 | removing `'-999'` keeps every other value, keeps no copy of it, and keeps a repeat-free list repeat-free |
| Text.StripIsTrimmedSlice | Step2_concat_India_string.py:49-71 | `strip()` keeps a contiguous slice whose cut-off ends are whitespace and whose own ends are not |
| Text.StripEmptyIffAllSpace | Step2_concat_India_string.py:100-117 | a stripped field is empty, and so omitted, exactly when it was all whitespace |
| Text.StripIdempotent | Step2_concat_India_string.py:53 | stripping twice changes nothing more |
| Text.Normalize | Step2_concat_India_string.py:49-53 | a null field becomes empty text; any other field becomes empty exactly when it is all whitespace, and otherwise is its slice with the whitespace ends cut off and no whitespace at either end |
| Text.StrippedAtIsStrip | Step2_concat_India_string.py:49-71 | any slice with only whitespace outside it and none at its ends is what `strip()` returns, so that description determines `strip()` |
| Text.Truncate | Step2_concat_India_string.py:38 | `int(x)` truncates toward zero on both signs |
| Text.RegisterName | Step2_concat_India_string.py:37 | `s[9:]` is what follows the nine-character prefix, empty on shorter text |
| Text.DecimalRoundTrip | Step2_concat_India_string.py:38 | `str(n)` of an integer reads back as the same integer, negatives included |
| Text.DamUidRoundTrip | Step2_concat_India_string.py:36-38 | splitting a `dam_UID` at its last underscore gives back the register name and the truncated `dam_ID` |
| Text.DamUidInjective | Step2_concat_SouthAfrica_string.py:41-43 | two dams share a `dam_UID` only if their register names and the integer parts of their `dam_ID`s agree |
| RegisterString.EmittedMembers | Step2_concat_India_string.py:100-117 | a field contributes a segment exactly when its value is not empty |
| RegisterString.Render | Step2_concat_India_string.py:119 | every summary ends with `dam_UID (reg ID)` |
| RegisterString.RenderContains | Step2_concat_India_string.py:100-117 | every non-empty field appears as its own `value (reg label); ` segment |
| RegisterString.ParseRender | Step2_concat_India_string.py:100-119 | reading a summary back yields exactly the non-empty fields in order, then the ID, when no value holds `(` |
| RegisterString.NumericText | Step2_concat_India_string.py:73-80 | a numeric text field is empty exactly when null or all whitespace, and otherwise is the conversion of its stripped text |
| RegisterString.NumberText | Step2_concat_SouthAfrica_string.py:90-97 | a number field is formatted whenever it is not null, since a number never equals `''` |
| RegisterString.YearText | Step2_concat_SouthAfrica_string.py:66-76 | null gives empty text; a year stored as a number gives empty text exactly when its `str` is all whitespace, and otherwise that text with the whitespace ends cut off |
| RegisterString.IndiaFields | Step2_concat_India_string.py:100-117 | the India fields carry the eight labels in output order, the country always "India" |
| RegisterString.IndiaNumbers | Step2_concat_India_string.py:73-98 | area, gross and effective capacity are converted from the stripped text, and are empty when the field is null or blank |
| RegisterString.IndiaRegString | Step2_concat_India_string.py:44-123 | the India summary ends with the ID and always names India |
| RegisterString.IndiaRegStringReadBack | Step2_concat_India_string.py:100-119 | the India summary reads back as exactly its non-empty fields in order, then the ID |
| RegisterString.SouthAfricaFields | Step2_concat_SouthAfrica_string.py:108-129 | the South Africa fields carry the nine labels in output order, without gross capacity, the country always "South Africa" |
| RegisterString.SouthAfricaNumbers | Step2_concat_SouthAfrica_string.py:90-106 | the area is hectares x 0.01 and the capacity is thousands of m3 x 0.001 before formatting |
| RegisterString.SouthAfricaRegString | Step2_concat_SouthAfrica_string.py:49-135 | the South Africa summary ends with the ID, names the country, and shows area and capacity whenever they are present |
| RegisterString.SouthAfricaRegStringReadBack | Step2_concat_SouthAfrica_string.py:108-131 | the South Africa summary reads back as exactly its non-empty fields in order, then the ID |
| RegisterString.JapanFields | Step2_concat_JFD_string.py:86-98 | the Japan fields carry the six labels in output order, the country always "Japan" |
| RegisterString.JapanNumbers | Step2_concat_JFD_string.py:68-83 | area and capacity are converted from the stripped text, and are empty when the field is null or blank |
| RegisterString.JapanRegString | Step2_concat_JFD_string.py:45-104 | the Japan summary ends with the ID and always names Japan |
| RegisterString.JapanRegStringReadBack | Step2_concat_JFD_string.py:86-100 | the Japan summary reads back as exactly its non-empty fields in order, then the ID |
| PldExpansion.SelectRemaining | Step3_expanding_PLD_with_GeoDAR.py:60-75 | the loop selects each GeoDAR ID that intersects no PLD lake, once, and no other |
| PldExpansion.Selection | Step3_expanding_PLD_with_GeoDAR.py:73-75 | the selection holds each added ID as often as the GeoDAR layer does, and no other ID |
| PldExpansion.MergeAsWritten | Step3_expanding_PLD_with_GeoDAR.py:72-78 | the merge as written equals the intended merge when something was selected, and appends the whole GeoDAR layer when no reservoir was added |
| PldExpansion.Merge | Step3_expanding_PLD_with_GeoDAR.py:77-78 | the intended merge keeps the PLD as a prefix and appends each selected reservoir as often as the layer holds it, and nothing else |
| PldExpansion.AllIntersectedMergesEverything | Step3_expanding_PLD_with_GeoDAR.py:72-78 | when every reservoir intersects, nothing is selected and the merge as written appends the whole GeoDAR layer |
| PldExpansion.MergeAsWrittenDuplicatesReservoir | Step3_expanding_PLD_with_GeoDAR.py:77-78 | a single intersecting reservoir is appended by the merge as written and not by the intended merge |
| PldExpansion.FillLakeUid | Step3_expanding_PLD_with_GeoDAR.py:84-90 | only polygons with a null `lake_UID` change, and each takes its GeoDAR ID |
| PldExpansion.FillLakeUidIdempotent | Step3_expanding_PLD_with_GeoDAR.py:84-90 | running the fill again changes nothing |
| PldExpansion.Expand | Step3_expanding_PLD_with_GeoDAR.py:53-92 | with the intended merge, the output is the filled PLD followed by every non-intersecting reservoir, as often as the layer holds it and named by its GeoDAR ID, and by nothing else |
| PldExpansion.FilledMergeCounts | Step3_expanding_PLD_with_GeoDAR.py:77-90 | after the fill, each reservoir that intersects nothing is appended as often as the layer holds it, and an intersected one never |
| GeodarToPld.IdsOn | Step4_GeoDAR_to_PLD.py:78 | a lake's per-piece GeoDAR list holds exactly the reservoirs some piece joins it to |
| GeodarToPld.JointIdsExact | Step4_GeoDAR_to_PLD.py:80-83 | a reservoir is among a lake's joint IDs exactly when a piece joins them |
| GeodarToPld.WrittenId | Step4_GeoDAR_to_PLD.py:94 | the written GeoDAR ID is a reservoir the lake actually intersects |
| GeodarToPld.WrittenIdFirstSeenLast | Step4_GeoDAR_to_PLD.py:80-94 | the written ID is the reservoir whose first piece on the lake comes last |
| GeodarToPld.ClusterLakes | Step4_GeoDAR_to_PLD.py:123-125 | a reservoir's cluster lists one lake per piece, and a lake is in it exactly when a piece joins them |
| GeodarToPld.ClusterIffJoint | Step4_GeoDAR_to_PLD.py:122-125 | a lake is in a reservoir's cluster exactly when the reservoir is among the lake's joint IDs |
| GeodarToPld.SumOriginal | Step4_GeoDAR_to_PLD.py:131-139 | the cluster's original area is zero exactly when every listed lake has zero area |
| GeodarToPld.Ratio | Step4_GeoDAR_to_PLD.py:127-140 | the area ratio is non-negative and is missing exactly where the division is by zero |
| GeodarToPld.Max | Step4_GeoDAR_to_PLD.py:143 | `max` returns a member that bounds every entry |
| GeodarToPld.MaxIsOne | Step4_GeoDAR_to_PLD.py:143 | for counts of at least one, the maximum is one exactly when every count is one |
| GeodarToPld.StepCount | Step4_GeoDAR_to_PLD.py:142-151 | one reservoir step sets a cluster lake's count to -1 when the reservoir is settled, to its joint count otherwise, and leaves other lakes alone |
| GeodarToPld.SettledAsWritten | Step4_GeoDAR_to_PLD.py:142-144 | the script's test on the current counts and the ratio is exactly the settled condition |
| GeodarToPld.Update | Step4_GeoDAR_to_PLD.py:146-157 | a step fails exactly when its ratio divides by zero and otherwise keeps the set of lakes |
| GeodarToPld.FoldMatchesReference | Step4_GeoDAR_to_PLD.py:122-157 | the loop succeeds exactly when every ratio exists; then each lake's count and ratio equal a closed form over the reservoirs visited |
| GeodarToPld.FoldAll | Step4_GeoDAR_to_PLD.py:122-157 | the whole loop fails exactly when some reservoir's ratio divides by zero, naming one such reservoir |
| GeodarToPld.ConvertAsWritten | Step4_GeoDAR_to_PLD.py:154-188 | the conversion as written fails exactly where the corrected one does, and writes the same records except for the ratio |
| GeodarToPld.AsWrittenRatio | Step4_GeoDAR_to_PLD.py:154-186 | as written, a lake gets the GeoDAR ID last in its own order but the ratio of the last cluster in global order |
| GeodarToPld.AsWrittenRatioMismatch | Step4_GeoDAR_to_PLD.py:154-157 | on three pieces the written ratio (0.25) is not the written reservoir's ratio (1/3) |
| GeodarToPld.Convert | Step4_GeoDAR_to_PLD.py:175-188 | the corrected conversion succeeds exactly when every ratio exists and keeps one record per PLD polygon |
| GeodarToPld.ConvertSpec | Step4_GeoDAR_to_PLD.py:175-188 | an intersected lake gets its written ID twice, its final count, and the ratio of that same reservoir; other polygons keep their values |
| DamMatching.DissolvedLakeUid | Step5_build_dam_reservoir_relation-India.py:84-89 | a dissolved polygon's lake UID gets `_dslvd` exactly when its GeoDAR ID occurred more than once |
| DamMatching.Dissolve | Step5_build_dam_reservoir_relation-India.py:72-78 | every dissolved polygon carries a GeoDAR ID and no two carry the same one |
| DamMatching.DissolveLakeUid | Step5_build_dam_reservoir_relation-India.py:72-89 | each dissolved polygon takes the first lake UID of its ID, suffixed when the ID repeated |
| DamMatching.DissolveKeepsEveryId | Step5_build_dam_reservoir_relation-India.py:58-72 | every GeoDAR ID of the mask survives the dissolve |
| DamMatching.DissolvedIdsUnique | Step5_build_dam_reservoir_relation-India.py:92-94 | after the merge no GeoDAR ID is carried twice, so the "should not happen" branch is dead |
| DamMatching.GeodarMatch | Step5_build_dam_reservoir_relation-India.py:207-234 | a GeoDAR dam is paired exactly when one polygon carries its ID, and with that polygon's lake UID |
| DamMatching.GeodarMatchOnDissolved | Step5_build_dam_reservoir_relation-India.py:207-234 | on the dissolved mask a GeoDAR dam is paired exactly when its ID is in the mask |
| DamMatching.SteppedSearchFirstHit | Step5_build_dam_reservoir_relation-India.py:239-245 | the stepped search returns the first radius 50, 100, ..., 300 with polygons, or nothing when none has any |
| DamMatching.SearchRadius | Step5_build_dam_reservoir_relation-India.py:240-245 | the while loop stops at the first non-empty radius on the ladder, or at 300 m with nothing |
| DamMatching.ArgMax | Step5_build_dam_reservoir_relation-India.py:253-257 | the chosen candidate has the largest area, and no earlier candidate has as large an area |
| DamMatching.Largest | Step5_build_dam_reservoir_relation-India.py:250-267 | the intended pick: nothing exactly when no candidate, otherwise the first largest candidate's lake |
| DamMatching.ScanLargestPicksArgMax | Step5_build_dam_reservoir_relation-India.py:253-257 | the strict-greater scan picks the first largest candidate if it beats the start value, else keeps the old pick |
| DamMatching.LargestAsWritten | Step5_build_dam_reservoir_relation-India.py:250-262 | the scan as written agrees with the intended pick whenever some candidate has positive area, and returns the stale lake UID when every area is zero |
| DamMatching.LargestAsWrittenKeepsStaleLake | Step5_build_dam_reservoir_relation-India.py:253-262 | a zero-area candidate leaves the lake UID carried in from earlier dams in place, where the intended pick takes that candidate |
| DamMatching.MatchDam | Step5_build_dam_reservoir_relation-India.py:207-269 | the intended pairing, per source: GeoDAR by ID only; GOODDsnp by the largest polygon within 1000 m; others by the largest polygon at the first non-empty radius; otherwise `-999` |
| DamMatching.GeodarDamIgnoresProximity | Step5_build_dam_reservoir_relation-India.py:207 | a GeoDAR dam's pairing does not depend on the proximity query |
| DamMatching.MatchAll | Step5_build_dam_reservoir_relation-India.py:182-273 | the intended `lakeUID_array` has one entry per dam, each that dam's intended pairing |
| DamMatching.MatchDamAsWritten | Step5_build_dam_reservoir_relation-India.py:207-269 | one pass as written records the intended pairing unless every polygon found has zero area; then it records the lake UID carried from earlier dams, or fails when there is none |
| DamMatching.MatchAllAsWritten | Step5_build_dam_reservoir_relation-India.py:182-273 | the loop as written, with `this_lakeUID` carried between dams, gives the intended `lakeUID_array` as long as no dam finds only zero-area polygons |
| DamMatching.MatchAllAsWrittenCarriesLake | Step5_build_dam_reservoir_relation-India.py:224-262 | two dams where the second finds only a zero-area polygon: as written it gets the first dam's lake; alone it raises a `NameError` |
| DamMatching.InitialKeeps | Step5_build_dam_reservoir_relation-India.py:139-145 | register dams get `R1_keep` 1 and the others keep their value |
| DamMatching.LastRegister | Step5_build_dam_reservoir_relation-India.py:142-144 | the remembered register name is the source of the last register dam, and absent when there is none |
| DamRanking.Classify | Step5_build_dam_reservoir_relation-India.py:301-309 | a lake is a same-source duplicate exactly when a source repeats, multiple exactly when distinct and more than one, single exactly when one |
| DamRanking.RankSources | Step5_build_dam_reservoir_relation-India.py:316 | the ranking has no repeats when the register name is a register source |
| DamRanking.RankedIndices | Step5_build_dam_reservoir_relation-India.py:318-322 | the ranked positions are exactly the positions with a ranked source |
| DamRanking.RankedIndicesSorted | Step5_build_dam_reservoir_relation-India.py:316-322 | the ranked positions are a stable sort by rank without repeats |
| DamRanking.RankedPositionsComplete | Step5_build_dam_reservoir_relation-India.py:288-322 | every dam of the lake with a ranked source is listed |
| DamRanking.RankedPositionsOrdered | Step5_build_dam_reservoir_relation-India.py:288-322 | a lake's dams are listed once each, better source first, dam order kept within a source |
| DamRanking.RankedUids | Step5_build_dam_reservoir_relation-India.py:313-322 | each listed `dam_UID` belongs to a dam of the lake with a ranked source |
| DamRanking.RankedUidsComplete | Step5_build_dam_reservoir_relation-India.py:313-326 | each dam of the lake with a ranked source has its `dam_UID` listed |
| DamRanking.TopSourceSpec | Step5_build_dam_reservoir_relation-India.py:329-367 | the selected source is the best-ranked source present, and absent exactly when none is present |
| DamRanking.SelectedIndices | Step5_build_dam_reservoir_relation-India.py:330-335 | the selected dams are dams of the lake from the top source, as many as that source occurs |
| DamRanking.SelectedIndicesExact | Step5_build_dam_reservoir_relation-India.py:330-335 | every dam of the lake from the top source is selected, in dam order |
| DamRanking.SummarizeSpec | Step5_build_dam_reservoir_relation-India.py:288-337 | dam count is at least one; source count lies between one and the dam count, equal exactly without repeats; the selected count is at least one |
| DamRanking.SetAll | Step5_build_dam_reservoir_relation-India.py:333-335 | the listed positions take the new value and all other positions are unchanged |
| DamRanking.KeepLakeChanges | Step5_build_dam_reservoir_relation-India.py:329-367 | a lake's pass sets each of its top-source dams to the number of such dams and changes nothing else |
| DamRanking.ApplyKeepPointwise | Step5_build_dam_reservoir_relation-India.py:286-367 | after all lakes, each dam's keep value is set by its own lake's pass alone |
| DamRanking.ApplyKeepOrderFree | Step5_build_dam_reservoir_relation-India.py:278-286 | the keep values do not depend on the order in which the set of lakes is visited |
| DamRanking.MatchedLakes | Step5_build_dam_reservoir_relation-India.py:278-279 | the unique lake list holds each paired lake once and never `-999` |
| DamRanking.SummarizeAll | Step5_build_dam_reservoir_relation-India.py:286-370 | summaries line up with the lakes, or the first lake whose dams have no ranked source is reported |
| DamRanking.Associate | Step5_build_dam_reservoir_relation-India.py:278-370 | fails exactly when no dam is unpaired (`remove('-999')`), and without a register name when a lake was paired; otherwise one summary per matched lake |
| DamRanking.AssociateKeep | Step5_build_dam_reservoir_relation-India.py:329-367 | the keep list after the association is the pointwise keep value |
| DamRanking.AssociateNoRegister | Step5_build_dam_reservoir_relation-India.py:142-144 | without a register dam the step only succeeds when no dam was paired, and keeps the initial flags |
| Relation.BuildRelation | Step5_build_dam_reservoir_relation-India.py:277-400 | over the intended pairing, step 5 fails with no unpaired dam exactly when every dam was paired; on success both tables keep their length |
| Relation.WriteBack | Step5_build_dam_reservoir_relation-India.py:372-400 | each dam and each polygon row is written from its own index alone |
| Relation.BuildRelationDams | Step5_build_dam_reservoir_relation-India.py:373-384 | a dam gets its keep value in both keep fields, and its lake UID in both lake fields unless unpaired, where they stay |
| Relation.BuildRelationLakes | Step5_build_dam_reservoir_relation-India.py:386-400 | every polygon records its own lake UID in `R1_lake_UID_QC1`; a paired lake gets its dam count, source count, ranked and selected `dam_UID`s; every other polygon keeps its counts and ID lists |
| Relation.WriteLakeMatched | Step5_build_dam_reservoir_relation-India.py:386-397 | the values written on a paired lake are those of its summary |

## Left out

- Geoprocessing is not modelled: the intersection, dissolve geometry,
  selections, merges and field creation (arcpy). Their results enter as
  inputs. Proximity queries are a `Proximity` parameter. Polygon areas and
  original lake areas are given values.
- Floating-point arithmetic and formatting are not modelled. `float(s)`,
  `format(x, ".4f")` and `str(x)` are parameters. Unit conversions are
  exact real products, so rounding is outside the model.
- The iteration order of Python sets (`list(set(...))` in step 3 and step 5)
  is unspecified. Step 3 picks elements in any order. For step 5,
  `DamRanking.ApplyKeepOrderFree` proves the result does not depend on the
  order.
- Progress reporting and the "this should not happen" prints are not
  modelled. Where the model proves such a branch dead, it says so.
  Examples: `DamMatching.DissolvedIdsUnique`, and the dam-count branch of
  `DamRanking.Classify`.
- `DamRanking.SummarizeAll` turns a lake whose dams have no ranked source
  into an error (`UnrankedLake`). The script prints a message and carries on
  with shorter selected-dam lists. That leads to an `IndexError` or to
  summaries written on the wrong lakes, which the model does not follow.
- `DamRanking.Associate` models two failures as errors that stop the step
  before either update cursor runs: `remove('-999')` with no unpaired dam,
  and an unbound register name. Partial writes made before such a failure
  are not modelled.
- The commented-out `R1_duplicate` field is computed (`Classify`) but not
  written, as in the script.
- Step 4 assumes one PLD polygon per `lake_UID`. The script only
  prints a message when that fails (Step4_GeoDAR_to_PLD.py:108-117).
- Step 1 (labelling the PLD from the circa-2015 layer) is not part of this
  model.
- `DamRanking.RankedUids` states in its own contract only that every
  listed ID belongs to a ranked dam of the lake. Completeness and order are
  separate lemmas (`RankedUidsComplete`, `RankedPositionsOrdered`).
- `RegisterString.IndiaRegString`, `RegisterString.SouthAfricaRegString`
  and `RegisterString.JapanRegString` state their full content through the
  read-back lemmas. Those need that no field value and not the `dam_UID`
  contains `(`. A value with a parenthesis still renders, but the
  summary is then ambiguous to read back.

- `PldExpansion.Expand` uses the intended merge. When every GeoDAR
  reservoir intersects the PLD, the script appends the whole GeoDAR layer
  and this member does not; `PldExpansion.MergeAsWritten` models that case.
- `DamMatching.MatchDam` uses the intended largest-polygon pick. When every
  polygon found for a dam has zero area, the script records the lake UID
  left by an earlier dam, or raises a `NameError`, and this member records
  the first of those polygons; `DamMatching.MatchAllAsWritten` models that
  case.
- Null values that the scripts would fail on are not modelled; those record
  fields are not optional. Examples: a null `dam_ID` in `int()`
  (Step2_concat_India_string.py:38), a null `dam_source` in `re.search`
  (Step5_build_dam_reservoir_relation-India.py:142-143), and a null
  `lake_UID_QC` in `+ '_dslvd'`
  (Step5_build_dam_reservoir_relation-India.py:88).

## Findings

| source | as written | input that shows it | evidently intended | confidence | as-written member | corrected member |
|---|---|---|---|---|---|---|
| Step5_build_dam_reservoir_relation-India.py:250-262 | the largest-polygon scan starts at `0.0` with a strict `>`, and `this_lakeUID` lives across dams | a dam whose only candidate polygon has `Shape_Area` 0.0 gets the previous dam's lake UID, or a `NameError` when no earlier dam set it | pair the dam with its largest candidate | not executed | DamMatching.LargestAsWritten, DamMatching.MatchAllAsWritten, DamMatching.MatchAllAsWrittenCarriesLake | DamMatching.Largest, DamMatching.MatchDam |
| Step4_GeoDAR_to_PLD.py:154-157 | the lake's ratio is overwritten by every cluster containing it, so it holds the ratio of the last reservoir in global first-seen order. The written GeoDAR ID is the last in the lake's own piece order (line 94). The comment at 155-156 says the two agree. | pieces (L2, B), (L1, A), (L1, B), areas 1, 1, 1, original areas L1 = 4, L2 = 2: L1 gets ID B but ratio 0.25 (A's), while B's ratio is 1/3 | the ratio of the reservoir whose ID is written | not executed | GeodarToPld.ConvertAsWritten, GeodarToPld.AsWrittenRatioMismatch | GeodarToPld.Convert, GeodarToPld.ConvertSpec |
| Step3_expanding_PLD_with_GeoDAR.py:72-78 | the merge takes `GeoDAR_lyr`; when no reservoir was added to the selection, a tool given a layer uses all of its features | every GeoDAR reservoir intersects a PLD lake, e.g. one reservoir R1 that does: R1 is appended anyway | append only the reservoirs that intersect no PLD lake | not executed | PldExpansion.MergeAsWritten, PldExpansion.MergeAsWrittenDuplicatesReservoir | PldExpansion.Merge, PldExpansion.Expand |
