/** Shared vocabulary of the model: optional values, results with an error
    side, and the list idioms the scripts build by hand out of Python lists
    (first-occurrence de-duplication, index searches, comma joins). */
module Common {

  datatype Option<T> = None | Some(value: T)

  datatype Result<T, E> = Success(value: T) | Failure(error: E)

  /** A polygon area (`Shape_Area`). */
  type Area = r: real | r >= 0.0

  /** No value occurs twice. */
  predicate NoDup<T(==)>(xs: seq<T>) {
    forall i, j :: 0 <= i < j < |xs| ==> xs[i] != xs[j]
  }

  /** The position of the first occurrence of `x` in `xs`. */
  function FirstIndex<T(==)>(xs: seq<T>, x: T): (k: nat)
    requires x in xs
    ensures k < |xs| && xs[k] == x
    ensures forall j :: 0 <= j < k ==> xs[j] != x
  {
    if xs[0] == x then 0
    else
      assert x in xs[1..] by { assert xs == [xs[0]] + xs[1..]; }
      1 + FirstIndex(xs[1..], x)
  }

  /** A value's first occurrence is the same in a list and in any prefix that
      contains it. */
  lemma FirstIndexPrefix<T>(xs: seq<T>, n: nat, x: T)
    requires n <= |xs| && x in xs[..n]
    ensures x in xs && FirstIndex(xs[..n], x) == FirstIndex(xs, x)
  {
    var b := FirstIndex(xs[..n], x);
    assert xs[..n][b] == xs[b];
    assert forall j :: 0 <= j < b ==> xs[..n][j] == xs[j];
  }

  /** The distinct values of `xs`, each at its first occurrence: the
      `if x not in acc: acc.append(x)` loop of the scripts. */
  function Dedup<T(==)>(xs: seq<T>): (r: seq<T>)
    ensures NoDup(r)
    ensures forall k :: 0 <= k < |r| ==> r[k] in xs
    ensures forall k :: 0 <= k < |xs| ==> xs[k] in r
    ensures |r| <= |xs|
  {
    if |xs| == 0 then []
    else
      var d := Dedup(xs[..|xs|-1]);
      var x := xs[|xs|-1];
      assert xs == xs[..|xs|-1] + [x];
      if x in d then d else d + [x]
  }

  /** A value not seen before position `n` first occurs at `n`. */
  lemma FirstIndexAtNew<T>(xs: seq<T>, n: nat)
    requires n < |xs| && xs[n] !in xs[..n]
    ensures FirstIndex(xs, xs[n]) == n
  {
    assert forall m :: 0 <= m < n ==> xs[..n][m] == xs[m];
  }

  /** Dedup keeps the values in the order of their first occurrences. */
  lemma {:induction false} DedupFirstOccurrenceOrder<T>(xs: seq<T>)
    ensures forall i, j :: 0 <= i < j < |Dedup(xs)| ==>
      FirstIndex(xs, Dedup(xs)[i]) < FirstIndex(xs, Dedup(xs)[j])
  {
    if |xs| > 0 {
      var n := |xs| - 1;
      var p := xs[..n];
      DedupFirstOccurrenceOrder(p);
      var d := Dedup(p);
      var r := Dedup(xs);
      assert r == d || r == d + [xs[n]];
      forall i, j | 0 <= i < j < |r|
        ensures FirstIndex(xs, r[i]) < FirstIndex(xs, r[j])
      {
        assert r[i] == d[i] && d[i] in p;
        FirstIndexPrefix(xs, n, r[i]);
        if j < |d| {
          assert r[j] == d[j] && d[j] in p;
          FirstIndexPrefix(xs, n, r[j]);
        } else {
          assert r[j] == xs[n] && xs[n] !in d;
          FirstIndexAtNew(xs, n);
        }
      }
    }
  }

  /** The last distinct value is the one whose first occurrence comes last. */
  lemma DedupLastSeenLast<T>(xs: seq<T>, x: T)
    requires x in xs
    ensures |Dedup(xs)| > 0 && Dedup(xs)[|Dedup(xs)| - 1] in xs
    ensures FirstIndex(xs, x) <= FirstIndex(xs, Dedup(xs)[|Dedup(xs)| - 1])
  {
    var d := Dedup(xs);
    var a :| 0 <= a < |xs| && xs[a] == x;
    var i :| 0 <= i < |d| && d[i] == x;
    DedupFirstOccurrenceOrder(xs);
    if i < |d| - 1 {
      assert FirstIndex(xs, d[i]) < FirstIndex(xs, d[|d| - 1]);
    }
  }

  /** Number of occurrences of `x` in `xs`. */
  function Count<T(==)>(xs: seq<T>, x: T): (c: nat)
    ensures c <= |xs|
    ensures c == 0 <==> x !in xs
  {
    if |xs| == 0 then 0
    else
      assert xs == xs[..|xs|-1] + [xs[|xs|-1]];
      Count(xs[..|xs|-1], x) + (if xs[|xs|-1] == x then 1 else 0)
  }

  /** `x` occurs at two different positions of `xs`. */
  predicate Repeated<T(==)>(xs: seq<T>, x: T) {
    exists i, j :: 0 <= i < j < |xs| && xs[i] == x && xs[j] == x
  }

  /** Counting more than one occurrence is the same as finding two positions. */
  lemma {:induction false} CountAboveOneIsRepeated<T>(xs: seq<T>, x: T)
    ensures Count(xs, x) > 1 <==> Repeated(xs, x)
  {
    if |xs| > 0 {
      var n := |xs| - 1;
      var p := xs[..n];
      CountAboveOneIsRepeated(p, x);
      if Repeated(p, x) {
        var i, j :| 0 <= i < j < |p| && p[i] == x && p[j] == x;
        assert xs[i] == x && xs[j] == x;
      }
      if xs[n] == x && Count(p, x) == 1 {
        var i := FirstIndex(p, x);
        assert xs[i] == x;
      }
      if Repeated(xs, x) {
        var i, j :| 0 <= i < j < |xs| && xs[i] == x && xs[j] == x;
        if j < n {
          assert p[i] == x && p[j] == x;
        } else {
          assert p[i] == x;
        }
      }
    }
  }

  /** The ascending positions at which `x` occurs in `xs`: the Python idiom
      `[i for i, y in enumerate(xs) if y == x]`. */
  function IndicesOf<T(==)>(xs: seq<T>, x: T): (r: seq<int>)
    ensures forall k :: 0 <= k < |r| ==> 0 <= r[k] < |xs| && xs[r[k]] == x
    ensures forall i :: 0 <= i < |xs| && xs[i] == x ==> i in r
    ensures forall k, l :: 0 <= k < l < |r| ==> r[k] < r[l]
  {
    if |xs| == 0 then []
    else
      var n := |xs| - 1;
      var p := IndicesOf(xs[..n], x);
      assert forall i :: 0 <= i < n ==> xs[..n][i] == xs[i];
      if xs[n] == x then p + [n] else p
  }

  /** There are as many positions of `x` as occurrences. */
  lemma {:induction false} IndicesOfCount<T>(xs: seq<T>, x: T)
    ensures |IndicesOf(xs, x)| == Count(xs, x)
  {
    if |xs| > 0 {
      IndicesOfCount(xs[..|xs|-1], x);
    }
  }

  /** Comma-separated concatenation: `",".join(xs)`. */
  function Join(xs: seq<string>): string {
    if |xs| == 0 then ""
    else if |xs| == 1 then xs[0]
    else xs[0] + "," + Join(xs[1..])
  }

  /** Each value followed by a comma: the accumulation loop the scripts use
      before cutting the last character. */
  function WithTrailingCommas(xs: seq<string>): string {
    if |xs| == 0 then "" else xs[0] + "," + WithTrailingCommas(xs[1..])
  }

  /** Python's `s[:-1]`, which is empty on an empty string. */
  function DropLast(s: string): string {
    if |s| == 0 then s else s[..|s|-1]
  }

  /** Cutting the last character of the trailing-comma accumulation gives the
      comma join, also for an empty list. */
  lemma {:induction false} DropLastOfTrailingCommasIsJoin(xs: seq<string>)
    ensures DropLast(WithTrailingCommas(xs)) == Join(xs)
  {
    if |xs| == 1 {
      assert WithTrailingCommas(xs) == xs[0] + "," by {
        assert WithTrailingCommas(xs[1..]) == "";
      }
      assert (xs[0] + ",")[..|xs[0]|] == xs[0];
    } else if |xs| > 1 {
      var rest := WithTrailingCommas(xs[1..]);
      DropLastOfTrailingCommasIsJoin(xs[1..]);
      assert |rest| > 0;
      assert WithTrailingCommas(xs) == xs[0] + "," + rest;
      assert (xs[0] + "," + rest)[..|xs[0]| + 1 + |rest| - 1] == xs[0] + "," + rest[..|rest|-1];
    }
  }

  /** `s.split(",")`. */
  function Split(s: string): (r: seq<string>)
    ensures |r| > 0
    decreases |s|
  {
    if ',' !in s then [s]
    else
      var k := FirstIndex(s, ',');
      [s[..k]] + Split(s[k+1..])
  }

  /** Splitting a comma join gives the values back when none of them holds a
      comma (an empty list joins to the same text as the list [""]). */
  lemma {:induction false} SplitJoin(xs: seq<string>)
    requires |xs| > 0
    requires forall k :: 0 <= k < |xs| ==> ',' !in xs[k]
    ensures Split(Join(xs)) == xs
  {
    if |xs| > 1 {
      SplitAtFirstComma(xs[0], Join(xs[1..]));
      SplitJoin(xs[1..]);
      assert xs == [xs[0]] + xs[1..];
    }
  }

  /** Splitting cuts at the first comma. */
  lemma SplitAtFirstComma(x: string, rest: string)
    requires ',' !in x
    ensures Split(x + "," + rest) == [x] + Split(rest)
  {
    var s := x + "," + rest;
    assert s[|x|] == ',';
    var k := FirstIndex(s, ',');
    assert forall j :: 0 <= j < |x| ==> s[j] == x[j];
    assert k == |x|;
    assert s[..k] == x;
    assert s[k+1..] == rest;
  }

  /** Dedup drops something exactly when some value repeats. */
  lemma {:induction false} DedupLengthIffNoDup<T>(xs: seq<T>)
    ensures |Dedup(xs)| == |xs| <==> NoDup(xs)
  {
    if |xs| > 0 {
      var n := |xs| - 1;
      var p := xs[..n];
      var x := xs[n];
      DedupLengthIffNoDup(p);
      assert xs == p + [x];
      NoDupSnoc(p, x);
      assert x in p <==> x in Dedup(p);
    }
  }

  /** Appending a value keeps a list free of repeats exactly when the value
      is new. */
  lemma NoDupSnoc<T>(p: seq<T>, x: T)
    ensures NoDup(p + [x]) <==> NoDup(p) && x !in p
  {
    var xs := p + [x];
    assert forall i :: 0 <= i < |p| ==> xs[i] == p[i];
    if x in p {
      var i :| 0 <= i < |p| && p[i] == x;
      assert xs[i] == xs[|p|];
    }
  }

  /** `[xs[i] for i in idx]`. */
  function Pick<T>(xs: seq<T>, idx: seq<int>): (r: seq<T>)
    requires forall k :: 0 <= k < |idx| ==> 0 <= idx[k] < |xs|
    ensures |r| == |idx|
    ensures forall k :: 0 <= k < |idx| ==> r[k] == xs[idx[k]]
  {
    seq(|idx|, k requires 0 <= k < |idx| => xs[idx[k]])
  }

  /** `xs` without the value `x`; on a list without repeats this is Python's
      `xs.remove(x)` when `x` is present. */
  function Without<T(==)>(xs: seq<T>, x: T): (r: seq<T>)
    ensures forall k :: 0 <= k < |r| ==> r[k] in xs && r[k] != x
    ensures forall k :: 0 <= k < |xs| && xs[k] != x ==> xs[k] in r
    ensures NoDup(xs) ==> NoDup(r)
    ensures |r| <= |xs|
  {
    if |xs| == 0 then []
    else
      var rest := Without(xs[1..], x);
      assert xs == [xs[0]] + xs[1..];
      if xs[0] == x then rest
      else
        assert NoDup(xs) ==> xs[0] !in xs[1..];
        [xs[0]] + rest
  }

  /** Position of the first missing value, or the length when none is. */
  function FirstNone<T>(xs: seq<Option<T>>): (k: nat)
    ensures k <= |xs|
    ensures forall j :: 0 <= j < k ==> xs[j].Some?
    ensures k < |xs| ==> xs[k].None?
  {
    if |xs| == 0 || xs[0].None? then 0 else 1 + FirstNone(xs[1..])
  }

  /** A list with no member is empty. */
  lemma EmptyWithoutMembers<T>(xs: seq<T>)
    ensures (forall x :: x !in xs) ==> xs == []
  {
    if |xs| > 0 {
      assert xs[0] in xs;
    }
  }
}
