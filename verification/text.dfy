/** Text primitives the register scripts rely on: Python's `str.strip()`,
    `str(int(x))`, the `s[9:]` slice and the `dam_UID` built from them. */
module Text {
  import opened Common

  /** Python's `str.isspace()` for one character: the C0 separators and
      blanks, NEL, NBSP and the Unicode space separators. */
  predicate IsSpace(c: char) {
    var n := c as int;
    (0x09 <= n <= 0x0D) || (0x1C <= n <= 0x20) || n == 0x85 || n == 0xA0
    || n == 0x1680 || (0x2000 <= n <= 0x200A) || n == 0x2028 || n == 0x2029
    || n == 0x202F || n == 0x205F || n == 0x3000
  }

  predicate AllSpace(s: string) {
    forall k :: 0 <= k < |s| ==> IsSpace(s[k])
  }

  /** `s.lstrip()`: the suffix left after the leading whitespace. */
  function TrimStart(s: string): (r: string)
    ensures |r| <= |s| && r == s[|s| - |r|..]
    ensures AllSpace(s[..|s| - |r|])
    ensures r == [] || !IsSpace(r[0])
  {
    if |s| > 0 && IsSpace(s[0]) then
      var r := TrimStart(s[1..]);
      assert s[..|s| - |r|] == [s[0]] + s[1..][..|s| - 1 - |r|];
      r
    else s
  }

  /** `s.rstrip()`: the prefix left before the trailing whitespace. */
  function TrimEnd(s: string): (r: string)
    ensures |r| <= |s| && r == s[..|r|]
    ensures AllSpace(s[|r|..])
    ensures r == [] || !IsSpace(r[|r|-1])
  {
    if |s| > 0 && IsSpace(s[|s|-1]) then
      var r := TrimEnd(s[..|s|-1]);
      assert s[|r|..] == s[..|s|-1][|r|..] + [s[|s|-1]];
      r
    else s
  }

  /** `s.strip()`. */
  function Strip(s: string): string {
    TrimEnd(TrimStart(s))
  }

  /** Where the text kept by strip starts. */
  function StripStart(s: string): (i: nat)
    ensures i <= |s|
  {
    |s| - |TrimStart(s)|
  }

  /** What strip keeps is a contiguous slice of the input whose cut-off ends
      are whitespace and whose own ends are not. */
  lemma StripIsTrimmedSlice(s: string)
    ensures StripStart(s) + |Strip(s)| <= |s|
    ensures Strip(s) == s[StripStart(s)..StripStart(s) + |Strip(s)|]
    ensures AllSpace(s[..StripStart(s)])
    ensures AllSpace(s[StripStart(s) + |Strip(s)|..])
    ensures Strip(s) == [] || (!IsSpace(Strip(s)[0]) && !IsSpace(Strip(s)[|Strip(s)|-1]))
  {
    StripSlice(s);
    StripOwnEnds(s);
  }

  lemma StripSlice(s: string)
    ensures StripStart(s) + |Strip(s)| <= |s|
    ensures Strip(s) == s[StripStart(s)..StripStart(s) + |Strip(s)|]
    ensures AllSpace(s[StripStart(s) + |Strip(s)|..])
  {
    var t := TrimStart(s);
    var i := StripStart(s);
    var r := TrimEnd(t);
    SuffixSlices(s, i, |r|);
  }

  lemma StripOwnEnds(s: string)
    ensures Strip(s) == [] || (!IsSpace(Strip(s)[0]) && !IsSpace(Strip(s)[|Strip(s)|-1]))
  {
    var t := TrimStart(s);
    var r := TrimEnd(t);
    if r != [] {
      assert r[0] == t[0];
    }
  }

  /** Slicing a suffix is slicing the whole. */
  lemma SuffixSlices(s: string, i: nat, n: nat)
    requires i + n <= |s|
    ensures s[i..][..n] == s[i..i + n] && s[i..][n..] == s[i + n..]
  {
  }

  /** Strip gives the empty text exactly on all-whitespace input. */
  lemma StripEmptyIffAllSpace(s: string)
    ensures Strip(s) == [] <==> AllSpace(s)
  {
    var t := TrimStart(s);
    if Strip(s) == [] {
      assert AllSpace(t[0..]);
      assert t == [];
      assert s[..|s|] == s;
    } else {
      StripIsTrimmedSlice(s);
    }
  }

  /** Stripping twice changes nothing more. */
  lemma StripIdempotent(s: string)
    ensures Strip(Strip(s)) == Strip(s)
  {
    var r := Strip(s);
    StripIsTrimmedSlice(s);
  }

  /** Cutting the whitespace ends off is determined by the text: whatever
      slice meets `StrippedAt` is what strip returns. */
  lemma StrippedAtIsStrip(s: string, r: string, i: int)
    requires StrippedAt(s, r, i)
    ensures r == Strip(s)
  {
    if r == [] {
      assert forall k :: 0 <= k < |s| ==> IsSpace(s[k]) by {
        forall k | 0 <= k < |s| ensures IsSpace(s[k]) {
          if k < i { assert s[..i][k] == s[k]; } else { assert s[i..][k - i] == s[k]; }
        }
      }
      StripEmptyIffAllSpace(s);
    } else {
      assert s[i] == r[0];
      TrimStartAt(s, i);
      var t := s[i..];
      assert t[..|r|] == r && t[|r|..] == s[i + |r|..];
      TrimEndAt(t, |r|);
    }
  }

  /** `lstrip` stops at the first character that is not whitespace. */
  lemma {:induction false} TrimStartAt(s: string, i: nat)
    requires i <= |s| && AllSpace(s[..i]) && (i == |s| || !IsSpace(s[i]))
    ensures TrimStart(s) == s[i..]
  {
    if i > 0 {
      assert s[..i][0] == s[0];
      assert s[1..][..i - 1] == s[1..i];
      assert forall k :: 0 <= k < i - 1 ==> s[1..i][k] == s[..i][k + 1];
      TrimStartAt(s[1..], i - 1);
    }
  }

  /** `rstrip` stops after the last character that is not whitespace. */
  lemma {:induction false} TrimEndAt(s: string, n: nat)
    requires n <= |s| && AllSpace(s[n..]) && (n == 0 || !IsSpace(s[n - 1]))
    ensures TrimEnd(s) == s[..n]
  {
    if n < |s| {
      var m := |s| - 1;
      assert s[n..][m - n] == s[m];
      assert s[..m][n..] == s[n..m];
      assert forall k :: 0 <= k < m - n ==> s[n..m][k] == s[n..][k];
      TrimEndAt(s[..m], n);
      assert s[..m][..n] == s[..n];
    }
  }

  /** The scripts' field normalisation: a null field becomes the empty text,
      any other value is stripped. */
  function Normalize(field: Option<string>): (r: string)
    ensures field.None? ==> r == []
    ensures field.Some? ==> (r == [] <==> AllSpace(field.value))
    ensures field.Some? ==> StrippedAt(field.value, r, StripStart(field.value))
    ensures field.Some? ==> r == Strip(field.value)
  {
    match field
    case None => ""
    case Some(s) =>
      StripEmptyIffAllSpace(s);
      StripIsTrimmedSlice(s);
      Strip(s)
  }

  /** `r` is `s` with its whitespace ends cut off, `r` starting at `i`:
      only whitespace before and after it, and `r` neither starts nor ends
      with whitespace. */
  predicate StrippedAt(s: string, r: string, i: int) {
    && 0 <= i && i + |r| <= |s|
    && r == s[i..i + |r|]
    && AllSpace(s[..i])
    && AllSpace(s[i + |r|..])
    && (r == [] || (!IsSpace(r[0]) && !IsSpace(r[|r| - 1])))
  }

  // ----- integers as text -----

  function DigitChar(d: nat): char
    requires d < 10
  {
    "0123456789"[d]
  }

  function DigitValue(c: char): nat {
    if '0' <= c <= '9' then (c as int - '0' as int) as nat else 0
  }

  predicate IsDigit(c: char) {
    '0' <= c <= '9'
  }

  /** Decimal digits of a natural number, most significant first. */
  function Digits(n: nat): (r: string)
    ensures |r| > 0
    ensures forall k :: 0 <= k < |r| ==> IsDigit(r[k])
  {
    if n < 10 then [DigitChar(n)] else Digits(n / 10) + [DigitChar(n % 10)]
  }

  /** Python's `str(n)` for an integer. */
  function DecimalString(n: int): (r: string)
    ensures |r| > 0
    ensures forall k :: 0 <= k < |r| ==> IsDigit(r[k]) || r[k] == '-'
  {
    if n < 0 then "-" + Digits(-n) else Digits(n)
  }

  /** Reads a run of decimal digits. */
  function DigitsValue(s: string): nat {
    if |s| == 0 then 0 else 10 * DigitsValue(s[..|s|-1]) + DigitValue(s[|s|-1])
  }

  /** Reads an optionally signed decimal integer; None on anything else. */
  function ParseDecimal(s: string): Option<int> {
    if |s| > 1 && s[0] == '-' && (forall k :: 1 <= k < |s| ==> IsDigit(s[k])) then
      var v: int := DigitsValue(s[1..]);
      Some(-v)
    else if |s| > 0 && (forall k :: 0 <= k < |s| ==> IsDigit(s[k])) then
      Some(DigitsValue(s))
    else None
  }

  lemma {:induction false} DigitsRoundTrip(n: nat)
    ensures DigitsValue(Digits(n)) == n
  {
    if n >= 10 {
      DigitsRoundTrip(n / 10);
      var s := Digits(n);
      assert s[..|s|-1] == Digits(n / 10);
    }
  }

  /** Reads back a run of digits. */
  lemma ParseDigits(d: string)
    requires |d| > 0 && forall k :: 0 <= k < |d| ==> IsDigit(d[k])
    ensures ParseDecimal(d) == Some(DigitsValue(d))
  {
    assert d[0] != '-';
  }

  /** Reads back a minus sign followed by a run of digits. */
  lemma ParseNegative(d: string)
    requires |d| > 0 && forall k :: 0 <= k < |d| ==> IsDigit(d[k])
    ensures ParseDecimal("-" + d) == Some(-(DigitsValue(d) as int))
  {
    var s := "-" + d;
    assert s[1..] == d;
    forall k | 1 <= k < |s| ensures IsDigit(s[k]) {
      assert s[k] == d[k - 1];
    }
  }

  /** Reading back the decimal text of an integer gives the integer. */
  lemma DecimalRoundTrip(n: int)
    ensures ParseDecimal(DecimalString(n)) == Some(n)
  {
    if n < 0 {
      NegativeRoundTrip(-n);
    } else {
      DigitsRoundTrip(n);
      ParseDigits(Digits(n));
    }
  }

  /** The text of a negative integer reads back. */
  lemma NegativeRoundTrip(m: nat)
    requires m > 0
    ensures ParseDecimal(DecimalString(-(m as int))) == Some(-(m as int))
  {
    var d := Digits(m);
    DigitsRoundTrip(m);
    ParseNegative(d);
    assert DecimalString(-(m as int)) == "-" + d;
  }

  /** Python's `int(x)` on a number: truncation toward zero. */
  function Truncate(x: real): (r: int)
    ensures 0.0 <= x ==> r as real <= x < r as real + 1.0
    ensures x < 0.0 ==> r as real - 1.0 < x <= r as real
  {
    if x >= 0.0 then x.Floor else -((-x).Floor)
  }

  /** Length of the "register_" prefix every register's `dam_source` carries. */
  const RegisterPrefixLength := 9

  /** Python's `s[9:]`: empty when the text is shorter than nine characters. */
  function RegisterName(source: string): (r: string)
    ensures |source| >= RegisterPrefixLength ==> source == source[..RegisterPrefixLength] + r
    ensures |source| <= RegisterPrefixLength ==> r == []
  {
    if |source| <= RegisterPrefixLength then "" else source[RegisterPrefixLength..]
  }

  /** The universal dam identifier every register script writes:
      register name, an underscore, and the integer part of `dam_ID`. */
  function DamUid(source: string, damId: real): string {
    RegisterName(source) + "_" + DecimalString(Truncate(damId))
  }

  /** Position of the last occurrence of `c`, if any. */
  function LastIndex(s: string, c: char): (r: Option<nat>)
    ensures r.Some? ==> (r.value < |s| && s[r.value] == c
                         && forall k :: r.value < k < |s| ==> s[k] != c)
    ensures r.None? ==> c !in s
  {
    if |s| == 0 then None
    else if s[|s|-1] == c then Some(|s|-1)
    else
      var r := LastIndex(s[..|s|-1], c);
      assert s == s[..|s|-1] + [s[|s|-1]];
      r
  }

  /** Splits a `dam_UID` at its last underscore into the register name and
      the dam number. */
  function SplitDamUid(uid: string): Option<(string, int)> {
    match LastIndex(uid, '_')
    case None => None
    case Some(k) =>
      match ParseDecimal(uid[k+1..])
      case None => None
      case Some(n) => Some((uid[..k], n))
  }

  /** A `dam_UID` gives back the register name and the truncated dam number,
      so two dams of one register share a `dam_UID` exactly when their
      `dam_ID`s have the same integer part. */
  lemma DamUidRoundTrip(source: string, damId: real)
    ensures SplitDamUid(DamUid(source, damId)) == Some((RegisterName(source), Truncate(damId)))
  {
    var name := RegisterName(source);
    var num := DecimalString(Truncate(damId));
    var uid := DamUid(source, damId);
    assert uid[|name|] == '_';
    assert forall k :: |name| < k < |uid| ==> uid[k] == num[k - |name| - 1];
    var k := LastIndex(uid, '_');
    assert k == Some(|name|);
    assert uid[|name|+1..] == num;
    assert uid[..|name|] == name;
    DecimalRoundTrip(Truncate(damId));
  }

  /** Hence the map from (register name, integer part of `dam_ID`) to
      `dam_UID` is one-to-one. */
  lemma DamUidInjective(s1: string, x1: real, s2: string, x2: real)
    requires DamUid(s1, x1) == DamUid(s2, x2)
    ensures RegisterName(s1) == RegisterName(s2) && Truncate(x1) == Truncate(x2)
  {
    DamUidRoundTrip(s1, x1);
    DamUidRoundTrip(s2, x2);
  }
}
