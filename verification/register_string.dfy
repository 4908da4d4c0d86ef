/** The register summary text (`reg_string`) that the three Step2 scripts
    write for every dam of a national register (India NRLD, South Africa LRD,
    Japan JDF), together with the `dam_UID` each script derives first.

    A `reg_string` is a run of segments `value (reg label); ` for the
    non-empty fields in a fixed order, closed by `dam_UID (reg ID)`. */
module RegisterString {
  import opened Common
  import opened Text

  /** A labelled field, after normalisation. */
  datatype Field = Field(tag: string, value: string)

  /** Pairs each label with the value at the same position. */
  function Labelled(tags: seq<string>, values: seq<string>): (r: seq<Field>)
    requires |values| == |tags|
    ensures |r| == |tags|
    ensures forall k :: 0 <= k < |tags| ==> r[k] == Field(tags[k], values[k])
  {
    seq(|tags|, k requires 0 <= k < |tags| => Field(tags[k], values[k]))
  }

  /** Text that never comes out empty, as `format(x, ".4f")` and `str(x)`
      on a number never do. */
  type NonEmptyText = s: string | |s| > 0 witness "0"

  /** `value (reg label)`. */
  function Tagged(f: Field): string {
    f.value + " (reg " + f.tag + ")"
  }

  /** One segment of the summary: `value (reg label); `. */
  function Segment(f: Field): string {
    Tagged(f) + "; "
  }

  /** The fields that contribute a segment: those whose value is not empty,
      in their original order. */
  function Emitted(fields: seq<Field>): (r: seq<Field>)
    ensures |r| <= |fields|
  {
    if |fields| == 0 then []
    else
      var rest := Emitted(fields[1..]);
      if fields[0].value != "" then [fields[0]] + rest else rest
  }

  /** A field is emitted exactly when it is one of the fields and its value
      is not empty. */
  lemma {:induction false} EmittedMembers(fields: seq<Field>)
    ensures forall f :: f in Emitted(fields) <==> f in fields && f.value != ""
  {
    if |fields| > 0 {
      EmittedMembers(fields[1..]);
      assert fields == [fields[0]] + fields[1..];
    }
  }

  function Segments(fields: seq<Field>): string {
    if |fields| == 0 then "" else Segment(fields[0]) + Segments(fields[1..])
  }

  predicate EndsWith(s: string, t: string) {
    |t| <= |s| && s[|s| - |t|..] == t
  }

  /** `t` occurs in `s` at position `i`. */
  predicate OccursAt(s: string, t: string, i: int) {
    0 <= i <= |s| - |t| && s[i..i + |t|] == t
  }

  predicate Contains(s: string, t: string) {
    exists i :: 0 <= i <= |s| && OccursAt(s, t, i)
  }

  /** The summary: a segment per non-empty field, then the identifier. */
  function Render(fields: seq<Field>, id: string): (r: string)
    ensures EndsWith(r, id + " (reg ID)")
  {
    var r := Segments(Emitted(fields)) + Tagged(Field("ID", id));
    assert Tagged(Field("ID", id)) == id + " (reg ID)";
    r
  }

  /** Where a segment of a list it belongs to starts in the concatenation. */
  lemma {:induction false} SegmentsContain(fields: seq<Field>, f: Field) returns (i: nat)
    requires f in fields
    ensures i + |Segment(f)| <= |Segments(fields)|
    ensures Segments(fields)[i..i + |Segment(f)|] == Segment(f)
  {
    var rest := Segments(fields[1..]);
    assert Segments(fields) == Segment(fields[0]) + rest;
    if fields[0] == f {
      i := 0;
    } else {
      var j := SegmentsContain(fields[1..], f);
      i := |Segment(fields[0])| + j;
      assert Segments(fields)[i..i + |Segment(f)|] == rest[j..j + |Segment(f)|];
    }
  }

  /** Every non-empty field shows up as its segment in the summary. */
  lemma RenderContains(fields: seq<Field>, id: string, f: Field)
    requires f in fields && f.value != ""
    ensures Contains(Render(fields, id), Segment(f))
  {
    EmittedMembers(fields);
    var i := SegmentsContain(Emitted(fields), f);
    var segs := Segments(Emitted(fields));
    var r := Render(fields, id);
    assert r == segs + Tagged(Field("ID", id));
    assert r[i..i + |Segment(f)|] == segs[i..i + |Segment(f)|];
    assert OccursAt(r, Segment(f), i);
  }

  /** The segment of the k-th field is in the summary when its value is not
      empty. */
  lemma RenderContainsAt(fields: seq<Field>, id: string, k: nat)
    requires k < |fields| && fields[k].value != ""
    ensures Contains(Render(fields, id), Segment(fields[k]))
  {
    RenderContains(fields, id, fields[k]);
  }

  // ----- reading a summary back -----

  /** Position of the first `c` in `s`, or `|s|` when there is none. */
  function Find(s: string, c: char): (k: nat)
    ensures k <= |s|
    ensures k < |s| ==> s[k] == c
    ensures forall j :: 0 <= j < k ==> s[j] != c
  {
    if c in s then FirstIndex(s, c) else |s|
  }

  /** Text without `c` in front moves the first `c` along by its length. */
  lemma FindAfter(a: string, b: string, c: char)
    requires c !in a
    ensures Find(a + b, c) == |a| + Find(b, c)
  {
    var s := a + b;
    var k, m := Find(s, c), Find(b, c);
    assert forall j :: 0 <= j < |b| ==> s[|a| + j] == b[j];
  }

  /** Reads one `value (reg label)` off the front of `s` and returns it with
      the text after the closing parenthesis. */
  function ParseOne(s: string): (r: Option<(Field, string)>)
    ensures r.Some? ==> |r.value.1| < |s|
  {
    var k := Find(s, '(');
    if k == 0 || k + 5 > |s| || s[k..k+5] != "(reg " then None
    else
      var m := Find(s[k+5..], ')');
      if k + 5 + m == |s| then None
      else Some(ReadTagged(s, k, m))
  }

  /** The field between the opening parenthesis at `k` and the closing one
      `m` characters after the label starts, and the text after it. */
  function ReadTagged(s: string, k: nat, m: nat): (Field, string)
    requires 0 < k && k + 5 + m < |s|
  {
    (Field(s[k+5..k+5+m], s[..k-1]), s[k+5+m+1..])
  }

  /** Splits a summary back into its fields, the identifier last with the
      label "ID"; the empty list on text of any other shape. */
  function Parse(s: string): seq<Field>
    decreases |s|
  {
    match ParseOne(s)
    case None => []
    case Some((f, after)) =>
      if after == [] then [f]
      else if |after| >= 2 && after[..2] == "; " then [f] + Parse(after[2..])
      else []
  }

  /** A field that can be read back: no opening parenthesis in its value and
      no closing one in its label. */
  predicate Readable(f: Field) {
    '(' !in f.value && ')' !in f.tag
  }

  /** The layout of a tagged field followed by more text. */
  lemma TaggedLayout(f: Field, tail: string)
    ensures var s := Tagged(f) + tail;
      var k := |f.value| + 1;
      && |s| == k + 5 + |f.tag| + 1 + |tail|
      && s[..k-1] == f.value
      && s[k-1] == ' '
      && s[k..k+5] == "(reg "
      && s[k+5..] == f.tag + (")" + tail)
  {
    var s := Tagged(f) + tail;
    assert s == f.value + [' '] + "(reg " + f.tag + ")" + tail;
  }

  lemma ParseOneTagged(f: Field, tail: string)
    requires Readable(f)
    ensures ParseOne(Tagged(f) + tail) == Some((f, tail))
  {
    var s := Tagged(f) + tail;
    var k := |f.value| + 1;
    TaggedLayout(f, tail);
    TaggedOpenAt(f, tail);
    TaggedCloseAt(f, tail);
    ParseOneAt(s, k, |f.tag|);
    TaggedReadBack(f, tail);
  }

  /** The first opening parenthesis of a readable tagged field is the one
      of its label. */
  lemma TaggedOpenAt(f: Field, tail: string)
    requires Readable(f)
    ensures Find(Tagged(f) + tail, '(') == |f.value| + 1
  {
    var rest := " (reg " + f.tag + ")" + tail;
    assert Tagged(f) + tail == f.value + rest;
    FindAfter(f.value, rest, '(');
    assert rest[0] == ' ' && rest[1..][0] == '(';
  }

  /** The first closing parenthesis after the label opens is the one that
      ends the label. */
  lemma TaggedCloseAt(f: Field, tail: string)
    requires Readable(f)
    ensures |f.value| + 6 <= |Tagged(f) + tail|
    ensures Find((Tagged(f) + tail)[|f.value| + 6..], ')') == |f.tag|
  {
    TaggedLayout(f, tail);
    FindAfter(f.tag, ")" + tail, ')');
  }

  /** Cutting a tagged field at its parentheses gives the field and the
      text after it. */
  lemma TaggedReadBack(f: Field, tail: string)
    ensures 0 < |f.value| + 1 && |f.value| + 6 + |f.tag| < |Tagged(f) + tail|
    ensures ReadTagged(Tagged(f) + tail, |f.value| + 1, |f.tag|) == (f, tail)
  {
    var s := Tagged(f) + tail;
    var k := |f.value| + 1;
    TaggedLayout(f, tail);
    var body := s[k+5..];
    assert s[k+5..k+5+|f.tag|] == body[..|f.tag|] == f.tag;
    assert s[k+5+|f.tag|+1..] == body[|f.tag|+1..] == tail;
  }

  /** What `ParseOne` reads once the opening and closing parentheses are
      located. */
  lemma ParseOneAt(s: string, k: nat, m: nat)
    requires 0 < k && k + 5 + m < |s|
    requires Find(s, '(') == k && s[k..k+5] == "(reg "
    requires Find(s[k+5..], ')') == m
    ensures ParseOne(s) == Some(ReadTagged(s, k, m))
  {
  }

  lemma ParseTagged(f: Field, tail: string)
    requires Readable(f)
    requires tail == [] || (|tail| >= 2 && tail[..2] == "; ")
    ensures Parse(Tagged(f) + tail) ==
      if tail == [] then [f] else [f] + Parse(tail[2..])
  {
    ParseOneTagged(f, tail);
  }

  /** Reading the summary back gives exactly the non-empty fields, in order,
      followed by the identifier. */
  lemma {:induction false} ParseRender(fields: seq<Field>, id: string)
    requires forall k :: 0 <= k < |fields| ==> Readable(fields[k])
    requires '(' !in id
    ensures Parse(Render(fields, id)) == Emitted(fields) + [Field("ID", id)]
  {
    var es := Emitted(fields);
    EmittedMembers(fields);
    assert forall k :: 0 <= k < |es| ==> Readable(es[k]) by {
      forall k | 0 <= k < |es| ensures Readable(es[k]) {
        assert es[k] in fields;
      }
    }
    ParseSegments(es, id);
  }

  lemma ConcatRegroup(a: string, b: string, c: string, d: string)
    ensures a + b + c + d == a + (b + (c + d))
  {
  }

  lemma ConcatSplits(a: string, b: string)
    ensures (a + b)[..|a|] == a && (a + b)[|a|..] == b
  {
  }

  lemma AppendAfterHead(xs: seq<Field>, y: Field)
    requires |xs| > 0
    ensures xs + [y] == [xs[0]] + (xs[1..] + [y])
  {
    assert xs == [xs[0]] + xs[1..];
  }

  lemma {:induction false} ParseSegments(es: seq<Field>, id: string)
    requires forall k :: 0 <= k < |es| ==> Readable(es[k])
    requires '(' !in id
    ensures Parse(Segments(es) + Tagged(Field("ID", id))) == es + [Field("ID", id)]
  {
    var last := Field("ID", id);
    if |es| == 0 {
      ParseTagged(last, "");
      assert Segments(es) + Tagged(last) == Tagged(last) + "";
    } else {
      var head, sep, segs := Tagged(es[0]), "; ", Segments(es[1..]);
      var more := segs + Tagged(last);
      var tail := sep + more;
      assert Segments(es) == head + sep + segs;
      ConcatRegroup(head, sep, segs, Tagged(last));
      ConcatSplits(sep, more);
      ParseTagged(es[0], tail);
      ParseSegments(es[1..], id);
      AppendAfterHead(es, last);
    }
  }

  // ----- numeric fields -----

  /** A text field holding a number (India, Japan): null or blank gives the
      empty text; otherwise the stripped text is converted and formatted
      to four decimals by `convert`. */
  function NumericText(field: Option<string>, convert: string -> NonEmptyText): (r: string)
    ensures r == "" <==> Blank(field)
    ensures !Blank(field) ==> r == convert(Strip(field.value))
  {
    match field
    case None => ""
    case Some(s) =>
      StripEmptyIffAllSpace(s);
      if Strip(s) == "" then "" else convert(Strip(s))
  }

  /** A text field that is null or holds only whitespace. */
  predicate Blank(field: Option<string>) {
    field.None? || AllSpace(field.value)
  }

  /** A number field (South Africa): null gives the empty text; any number
      is formatted, since comparing a number with '' never succeeds. */
  function NumberText(field: Option<real>, format: real -> NonEmptyText): (r: string)
    ensures r == "" <==> field.None?
  {
    match field
    case None => ""
    case Some(x) => format(x)
  }

  /** A year stored as a number (South Africa): `str(x).strip()`. */
  function YearText(field: Option<real>, show: real -> string): (r: string)
    ensures field.None? ==> r == ""
    ensures field.Some? ==> (r == "" <==> AllSpace(show(field.value)))
    ensures field.Some? ==> StrippedAt(show(field.value), r, StripStart(show(field.value)))
  {
    match field
    case None => ""
    case Some(x) => Normalize(Some(show(x)))
  }

  // ----- India (NRLD) -----

  const India := "India"

  datatype IndiaDam = IndiaDam(
    damSource: string,
    damId: real,
    name: Option<string>,
    yearOfCompletion: Option<string>,
    river: Option<string>,
    nearestCity: Option<string>,
    reservoirAreaM2: Option<string>,
    grossStorageM3: Option<string>,
    effectiveStorageM3: Option<string>)

  const IndiaLabels := ["dam", "town", "cntry", "river", "year_complete", "area_km2", "cap_gross_mcm", "cap_effective_mcm"]

  /** The eight fields in the India output order. `toKm2` and `toMcm` stand
      for `format(1e-6 * float(s), ".4f")` on the stripped text. */
  function IndiaFields(d: IndiaDam, toKm2: string -> NonEmptyText, toMcm: string -> NonEmptyText): (r: seq<Field>)
    ensures |r| == |IndiaLabels|
    ensures forall k :: 0 <= k < |r| ==> r[k].tag == IndiaLabels[k]
    ensures r[2] == Field("cntry", India)
  {
    Labelled(IndiaLabels, IndiaValues(d, toKm2, toMcm))
  }

  function IndiaValues(d: IndiaDam, toKm2: string -> NonEmptyText, toMcm: string -> NonEmptyText): (r: seq<string>)
    ensures |r| == 8
  {
    [ Normalize(d.name),
      Normalize(d.nearestCity),
      India,
      Normalize(d.river),
      Normalize(d.yearOfCompletion),
      NumericText(d.reservoirAreaM2, toKm2),
      NumericText(d.grossStorageM3, toMcm),
      NumericText(d.effectiveStorageM3, toMcm) ]
  }

  /** The area and the two capacities are converted from the stripped text
      when it is not blank, and are left out otherwise. */
  lemma IndiaNumbers(d: IndiaDam, toKm2: string -> NonEmptyText, toMcm: string -> NonEmptyText)
    ensures var r := IndiaFields(d, toKm2, toMcm);
      && r[5] == Field("area_km2",
           if Blank(d.reservoirAreaM2) then "" else toKm2(Strip(d.reservoirAreaM2.value)))
      && r[6] == Field("cap_gross_mcm",
           if Blank(d.grossStorageM3) then "" else toMcm(Strip(d.grossStorageM3.value)))
      && r[7] == Field("cap_effective_mcm",
           if Blank(d.effectiveStorageM3) then "" else toMcm(Strip(d.effectiveStorageM3.value)))
  {
    var values := IndiaValues(d, toKm2, toMcm);
    assert IndiaLabels[5] == "area_km2" && IndiaLabels[6] == "cap_gross_mcm" && IndiaLabels[7] == "cap_effective_mcm";
    assert values[5] == NumericText(d.reservoirAreaM2, toKm2);
    assert values[6] == NumericText(d.grossStorageM3, toMcm);
    assert values[7] == NumericText(d.effectiveStorageM3, toMcm);
  }

  /** The India `reg_string`: it always closes with the identifier and,
      the country being a non-empty constant, always names India. */
  function IndiaRegString(d: IndiaDam, toKm2: string -> NonEmptyText, toMcm: string -> NonEmptyText): (r: string)
    ensures EndsWith(r, DamUid(d.damSource, d.damId) + " (reg ID)")
    ensures Contains(r, Segment(Field("cntry", India)))
  {
    var fs := IndiaFields(d, toKm2, toMcm);
    RenderContainsAt(fs, DamUid(d.damSource, d.damId), 2);
    Render(fs, DamUid(d.damSource, d.damId))
  }

  /** Reading the India `reg_string` back gives exactly its non-empty
      fields, in output order, then the identifier, provided no value and
      not the identifier contains an opening parenthesis. */
  lemma IndiaRegStringReadBack(d: IndiaDam, toKm2: string -> NonEmptyText, toMcm: string -> NonEmptyText)
    requires forall k :: 0 <= k < |IndiaFields(d, toKm2, toMcm)| ==> '(' !in IndiaFields(d, toKm2, toMcm)[k].value
    requires '(' !in DamUid(d.damSource, d.damId)
    ensures Parse(IndiaRegString(d, toKm2, toMcm))
      == Emitted(IndiaFields(d, toKm2, toMcm)) + [Field("ID", DamUid(d.damSource, d.damId))]
  {
    var fs := IndiaFields(d, toKm2, toMcm);
    RegisterLabelsUnbracketed();
    LabelsReadable(fs, IndiaLabels);
    ParseRender(fs, DamUid(d.damSource, d.damId));
  }

  // ----- South Africa (LRD) -----

  const SouthAfrica := "South Africa"

  datatype SouthAfricaDam = SouthAfricaDam(
    damSource: string,
    damId: real,
    name: Option<string>,
    provinceCode: Option<string>,
    completionDate: Option<real>,
    completionDateAltered: Option<real>,
    river: Option<string>,
    townNearest: Option<string>,
    surfaceAreaHa: Option<real>,
    capacityThousandM3: Option<real>)

  const SouthAfricaLabels := ["dam", "town", "state/province", "cntry", "river", "year_complete", "year_complete_alt", "area_km2", "cap_mcm"]

  function ScaleBy(x: Option<real>, factor: real): Option<real> {
    match x
    case None => None
    case Some(v) => Some(factor * v)
  }

  /** The nine fields in the South Africa output order. `format` stands for
      `format(x, ".4f")` and `show` for `str(x)`; areas are converted from
      hectares (x 0.01), capacities from thousands of cubic metres (x 0.001).
      There is no gross-capacity field. */
  function SouthAfricaFields(d: SouthAfricaDam, format: real -> NonEmptyText, show: real -> string): (r: seq<Field>)
    ensures |r| == |SouthAfricaLabels|
    ensures forall k :: 0 <= k < |r| ==> r[k].tag == SouthAfricaLabels[k]
    ensures r[3] == Field("cntry", SouthAfrica)
  {
    Labelled(SouthAfricaLabels, SouthAfricaValues(d, format, show))
  }

  function SouthAfricaValues(d: SouthAfricaDam, format: real -> NonEmptyText, show: real -> string): (r: seq<string>)
    ensures |r| == 9
  {
    [ Normalize(d.name),
      Normalize(d.townNearest),
      Normalize(d.provinceCode),
      SouthAfrica,
      Normalize(d.river),
      YearText(d.completionDate, show),
      YearText(d.completionDateAltered, show),
      NumberText(ScaleBy(d.surfaceAreaHa, 0.01), format),
      NumberText(ScaleBy(d.capacityThousandM3, 0.001), format) ]
  }

  /** The area is converted from hectares and the capacity from thousands
      of cubic metres before formatting. */
  lemma SouthAfricaNumbers(d: SouthAfricaDam, format: real -> NonEmptyText, show: real -> string)
    ensures var r := SouthAfricaFields(d, format, show);
      && (d.surfaceAreaHa.Some? ==> r[7] == Field("area_km2", format(0.01 * d.surfaceAreaHa.value)))
      && (d.capacityThousandM3.Some? ==> r[8] == Field("cap_mcm", format(0.001 * d.capacityThousandM3.value)))
  {
    var values := SouthAfricaValues(d, format, show);
    assert SouthAfricaLabels[7] == "area_km2" && SouthAfricaLabels[8] == "cap_mcm";
    assert values[7] == NumberText(ScaleBy(d.surfaceAreaHa, 0.01), format);
    assert values[8] == NumberText(ScaleBy(d.capacityThousandM3, 0.001), format);
  }

  /** The South Africa `reg_string`: it closes with the identifier, names the
      country, and carries the area
      and capacity segments whenever those numbers are not null. */
  function SouthAfricaRegString(d: SouthAfricaDam, format: real -> NonEmptyText, show: real -> string): (r: string)
    ensures EndsWith(r, DamUid(d.damSource, d.damId) + " (reg ID)")
    ensures Contains(r, Segment(Field("cntry", SouthAfrica)))
    ensures d.surfaceAreaHa.Some? ==>
      Contains(r, Segment(Field("area_km2", format(0.01 * d.surfaceAreaHa.value))))
    ensures d.capacityThousandM3.Some? ==>
      Contains(r, Segment(Field("cap_mcm", format(0.001 * d.capacityThousandM3.value))))
  {
    SouthAfricaSegmentsShown(d, format, show);
    Render(SouthAfricaFields(d, format, show), DamUid(d.damSource, d.damId))
  }

  lemma SouthAfricaSegmentsShown(d: SouthAfricaDam, format: real -> NonEmptyText, show: real -> string)
    ensures var r := Render(SouthAfricaFields(d, format, show), DamUid(d.damSource, d.damId));
      && Contains(r, Segment(Field("cntry", SouthAfrica)))
      && (d.surfaceAreaHa.Some? ==>
            Contains(r, Segment(Field("area_km2", format(0.01 * d.surfaceAreaHa.value)))))
      && (d.capacityThousandM3.Some? ==>
            Contains(r, Segment(Field("cap_mcm", format(0.001 * d.capacityThousandM3.value)))))
  {
    var fs := SouthAfricaFields(d, format, show);
    var id := DamUid(d.damSource, d.damId);
    SouthAfricaNumbers(d, format, show);
    RenderContainsAt(fs, id, 3);
    if d.surfaceAreaHa.Some? {
      RenderContainsAt(fs, id, 7);
    }
    if d.capacityThousandM3.Some? {
      RenderContainsAt(fs, id, 8);
    }
  }

  /** Reading the South Africa `reg_string` back gives exactly its
      non-empty fields, in output order, then the identifier, provided no
      value and not the identifier contains an opening parenthesis. */
  lemma SouthAfricaRegStringReadBack(d: SouthAfricaDam, format: real -> NonEmptyText, show: real -> string)
    requires forall k :: 0 <= k < |SouthAfricaFields(d, format, show)| ==> '(' !in SouthAfricaFields(d, format, show)[k].value
    requires '(' !in DamUid(d.damSource, d.damId)
    ensures Parse(SouthAfricaRegString(d, format, show))
      == Emitted(SouthAfricaFields(d, format, show)) + [Field("ID", DamUid(d.damSource, d.damId))]
  {
    var fs := SouthAfricaFields(d, format, show);
    RegisterLabelsUnbracketed();
    LabelsReadable(fs, SouthAfricaLabels);
    ParseRender(fs, DamUid(d.damSource, d.damId));
  }

  // ----- Japan (JDF) -----

  const Japan := "Japan"

  datatype JapanDam = JapanDam(
    damSource: string,
    damId: real,
    name: Option<string>,
    yearStart: Option<string>,
    yearComplete: Option<string>,
    surfaceAreaHa: Option<string>,
    capacityThousandM3: Option<string>)

  const JapanLabels := ["dam", "cntry", "year_start", "year_complete", "area_km2", "cap_mcm"]

  /** The six fields in the Japan output order. `toKm2` stands for
      `format(0.01 * float(s), ".4f")` and `toMcm` for
      `format(0.001 * float(s), ".4f")` on the stripped text. */
  function JapanFields(d: JapanDam, toKm2: string -> NonEmptyText, toMcm: string -> NonEmptyText): (r: seq<Field>)
    ensures |r| == |JapanLabels|
    ensures forall k :: 0 <= k < |r| ==> r[k].tag == JapanLabels[k]
    ensures r[1] == Field("cntry", Japan)
  {
    Labelled(JapanLabels, JapanValues(d, toKm2, toMcm))
  }

  function JapanValues(d: JapanDam, toKm2: string -> NonEmptyText, toMcm: string -> NonEmptyText): (r: seq<string>)
    ensures |r| == 6
  {
    [ Normalize(d.name),
      Japan,
      Normalize(d.yearStart),
      Normalize(d.yearComplete),
      NumericText(d.surfaceAreaHa, toKm2),
      NumericText(d.capacityThousandM3, toMcm) ]
  }

  /** The area and the capacity are converted from the stripped text when
      it is not blank, and are left out otherwise. */
  lemma JapanNumbers(d: JapanDam, toKm2: string -> NonEmptyText, toMcm: string -> NonEmptyText)
    ensures var r := JapanFields(d, toKm2, toMcm);
      && r[4] == Field("area_km2",
           if Blank(d.surfaceAreaHa) then "" else toKm2(Strip(d.surfaceAreaHa.value)))
      && r[5] == Field("cap_mcm",
           if Blank(d.capacityThousandM3) then "" else toMcm(Strip(d.capacityThousandM3.value)))
  {
    var values := JapanValues(d, toKm2, toMcm);
    assert JapanLabels[4] == "area_km2" && JapanLabels[5] == "cap_mcm";
    assert values[4] == NumericText(d.surfaceAreaHa, toKm2);
    assert values[5] == NumericText(d.capacityThousandM3, toMcm);
  }

  /** The Japan `reg_string`: it closes with the identifier and always names
      Japan. */
  function JapanRegString(d: JapanDam, toKm2: string -> NonEmptyText, toMcm: string -> NonEmptyText): (r: string)
    ensures EndsWith(r, DamUid(d.damSource, d.damId) + " (reg ID)")
    ensures Contains(r, Segment(Field("cntry", Japan)))
  {
    var fs := JapanFields(d, toKm2, toMcm);
    RenderContainsAt(fs, DamUid(d.damSource, d.damId), 1);
    Render(fs, DamUid(d.damSource, d.damId))
  }

  /** Reading the Japan `reg_string` back gives exactly its non-empty
      fields, in output order, then the identifier, provided no value and
      not the identifier contains an opening parenthesis. */
  lemma JapanRegStringReadBack(d: JapanDam, toKm2: string -> NonEmptyText, toMcm: string -> NonEmptyText)
    requires forall k :: 0 <= k < |JapanFields(d, toKm2, toMcm)| ==> '(' !in JapanFields(d, toKm2, toMcm)[k].value
    requires '(' !in DamUid(d.damSource, d.damId)
    ensures Parse(JapanRegString(d, toKm2, toMcm))
      == Emitted(JapanFields(d, toKm2, toMcm)) + [Field("ID", DamUid(d.damSource, d.damId))]
  {
    var fs := JapanFields(d, toKm2, toMcm);
    RegisterLabelsUnbracketed();
    LabelsReadable(fs, JapanLabels);
    ParseRender(fs, DamUid(d.damSource, d.damId));
  }

  /** Fields labelled from a list without closing parentheses, whose values
      have no opening parenthesis, are readable. */
  lemma LabelsReadable(fs: seq<Field>, labels: seq<string>)
    requires |fs| == |labels|
    requires forall k :: 0 <= k < |fs| ==> fs[k].tag == labels[k] && '(' !in fs[k].value
    requires Unbracketed(labels)
    ensures forall k :: 0 <= k < |fs| ==> Readable(fs[k])
  {
  }

  /** No label contains a closing parenthesis. */
  predicate Unbracketed(labels: seq<string>) {
    forall k :: 0 <= k < |labels| ==> ')' !in labels[k]
  }

  lemma RegisterLabelsUnbracketed()
    ensures Unbracketed(IndiaLabels) && Unbracketed(SouthAfricaLabels) && Unbracketed(JapanLabels)
  {
  }
}
