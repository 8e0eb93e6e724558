/**
 * The string similarity used to reconcile a cited reference with the
 * reference metadata extracted from the uploaded papers:
 * `levenshtein_distance`, `similarity` and `find_closest_match`.
 */
module EditDistance {
  import opened Wrappers
  import opened Text

  function Min3(a: nat, b: nat, c: nat): (m: nat)
    ensures m <= a && m <= b && m <= c
    ensures m == a || m == b || m == c
  {
    if a <= b && a <= c then a else if b <= c then b else c
  }

  /** The edit distance (insertions, deletions and substitutions of one
      character, each costing one), by its recurrence on prefixes. */
  function Distance(a: string, b: string): nat
    decreases |a| + |b|
  {
    if |a| == 0 then |b|
    else if |b| == 0 then |a|
    else Min3(Distance(a[..|a| - 1], b) + 1,
              Distance(a, b[..|b| - 1]) + 1,
              Distance(a[..|a| - 1], b[..|b| - 1]) + (if a[|a| - 1] != b[|b| - 1] then 1 else 0))
  }

  /** The distance does not depend on the order of its arguments. */
  lemma {:induction false} DistanceSymmetric(a: string, b: string)
    ensures Distance(a, b) == Distance(b, a)
    decreases |a| + |b|
  {
    if |a| > 0 && |b| > 0 {
      DistanceSymmetric(a[..|a| - 1], b);
      DistanceSymmetric(a, b[..|b| - 1]);
      DistanceSymmetric(a[..|a| - 1], b[..|b| - 1]);
    }
  }

  /** The distance is at least the difference of the lengths and at most the longer length. */
  lemma {:induction false} DistanceBounds(a: string, b: string)
    ensures |a| - |b| <= Distance(a, b) && |b| - |a| <= Distance(a, b)
    ensures Distance(a, b) <= if |a| >= |b| then |a| else |b|
    decreases |a| + |b|
  {
    if |a| > 0 && |b| > 0 {
      DistanceBounds(a[..|a| - 1], b);
      DistanceBounds(a, b[..|b| - 1]);
      DistanceBounds(a[..|a| - 1], b[..|b| - 1]);
    }
  }

  /** A string is at distance zero from itself. */
  lemma {:induction false} DistanceSelf(a: string)
    ensures Distance(a, a) == 0
  {
    if |a| > 0 {
      DistanceSelf(a[..|a| - 1]);
    }
  }

  /** The recurrence at the cell (i + 1, j + 1) of the table for `s1` and `s2`. */
  lemma DistanceStep(s1: string, s2: string, i: nat, j: nat)
    requires i < |s1| && j < |s2|
    ensures Distance(s1[..i + 1], s2[..j + 1])
      == Min3(Distance(s1[..i], s2[..j + 1]) + 1,
              Distance(s1[..i + 1], s2[..j]) + 1,
              Distance(s1[..i], s2[..j]) + (if s1[i] != s2[j] then 1 else 0))
  {
    var a, b := s1[..i + 1], s2[..j + 1];
    assert a[..|a| - 1] == s1[..i] && b[..|b| - 1] == s2[..j];
  }

  /** `row` holds the distances from `a` to the prefixes of `b` of length 0 to n. */
  predicate RowUpTo(a: string, b: string, row: seq<nat>, n: nat)
    requires n <= |b|
  {
    |row| == n + 1 && forall jj :: 0 <= jj <= n ==> row[jj] == Distance(a, b[..jj])
  }

  /** Appending the next distance extends a row by one column. */
  lemma RowSnoc(a: string, b: string, row: seq<nat>, n: nat, x: nat)
    requires n < |b| && RowUpTo(a, b, row, n)
    requires x == Distance(a, b[..n + 1])
    ensures RowUpTo(a, b, row + [x], n + 1)
  {
    var row1 := row + [x];
    forall jj | 0 <= jj <= n + 1
      ensures row1[jj] == Distance(a, b[..jj])
    {
      if jj <= n {
        assert row1[jj] == row[jj];
      }
    }
  }

  /** One pass of the outer loop of `levenshtein_distance`: the row for the
      prefix of `s1` of length i + 1, built from the row for length i. */
  method NextRow(s1: string, s2: string, i: nat, previous: seq<nat>) returns (current: seq<nat>)
    requires i < |s1|
    requires |previous| == |s2| + 1
    requires forall j :: 0 <= j <= |s2| ==> previous[j] == Distance(s1[..i], s2[..j])
    ensures |current| == |s2| + 1
    ensures forall j :: 0 <= j <= |s2| ==> current[j] == Distance(s1[..i + 1], s2[..j])
  {
    current := [i + 1];
    assert s2[..0] == "";
    var j := 0;
    while j < |s2|
      invariant 0 <= j <= |s2|
      invariant RowUpTo(s1[..i + 1], s2, current, j)
      decreases |s2| - j
    {
      var insertions := previous[j + 1] + 1;
      var deletions := current[j] + 1;
      var substitutions := previous[j] + (if s1[i] != s2[j] then 1 else 0);
      DistanceStep(s1, s2, i, j);
      var next := Min3(insertions, deletions, substitutions);
      RowSnoc(s1[..i + 1], s2, current, j, next);
      current := current + [next];
      j := j + 1;
    }
  }

  /** `levenshtein_distance`: the two-row dynamic programme, after swapping the
      arguments so that the first is the longer. */
  method LevenshteinDistance(s1: string, s2: string) returns (d: nat)
    ensures d == Distance(s1, s2)
    decreases if |s1| < |s2| then 1 else 0
  {
    if |s1| < |s2| {
      d := LevenshteinDistance(s2, s1);
      DistanceSymmetric(s2, s1);
      return;
    }
    if |s2| == 0 {
      return |s1|;
    }
    var previous: seq<nat> := seq(|s2| + 1, j => j);
    forall j | 0 <= j <= |s2| ensures previous[j] == Distance(s1[..0], s2[..j]) {
      assert s1[..0] == "";
    }
    var i := 0;
    while i < |s1|
      invariant 0 <= i <= |s1|
      invariant |previous| == |s2| + 1
      invariant forall j :: 0 <= j <= |s2| ==> previous[j] == Distance(s1[..i], s2[..j])
    {
      previous := NextRow(s1, s2, i, previous);
      i := i + 1;
    }
    assert s1[..|s1|] == s1 && s2[..|s2|] == s2;
    d := previous[|s2|];
  }

  /** `similarity`: one minus the distance over the longer length; two empty
      strings divide by zero. */
  function Similarity(a: string, b: string): (r: Result<real>)
    ensures r.Err? <==> a == "" && b == ""
    ensures r.Err? ==> r.error == DivisionByZero
    ensures r.Ok? ==> 0.0 <= r.value <= 1.0
    ensures r.Ok? && a == b ==> r.value == 1.0
  {
    var longest := if |a| >= |b| then |a| else |b|;
    if longest == 0 then Err(DivisionByZero)
    else
      DistanceBounds(a, b);
      DistanceSelf(a);
      RatioInUnit(Distance(a, b), longest);
      Ok(1.0 - Distance(a, b) as real / longest as real)
  }

  lemma RatioInUnit(d: nat, n: nat)
    requires 0 < n && d <= n
    ensures 0.0 <= d as real / n as real <= 1.0
  {
    var q := d as real / n as real;
    assert q * n as real == d as real;
  }

  /** The key `find_closest_match` gives each candidate, in order; the first key
      that divides by zero is the error. */
  function Keys<T>(ref: string, candidates: seq<seq<T>>, format: seq<T> -> string): (r: Result<seq<real>>)
    ensures r.Ok? ==> (|r.value| == |candidates|
      && forall j :: 0 <= j < |candidates| ==> Similarity(ref, format(candidates[j])) == Ok(r.value[j]))
    ensures r.Err? ==> (r.error == DivisionByZero
      && exists j :: 0 <= j < |candidates| && Similarity(ref, format(candidates[j])).Err?)
  {
    if |candidates| == 0 then Ok([])
    else
      match Similarity(ref, format(candidates[0]))
      case Err(e) => Err(e)
      case Ok(k) =>
        match Keys(ref, candidates[1..], format)
        case Err(e) => Err(e)
        case Ok(ks) => Ok([k] + ks)
  }

  /** Python's `max` with a key: scanning left to right, a later element
      replaces the current one only when its key is strictly greater. */
  function FirstMax(keys: seq<real>): (i: nat)
    requires |keys| > 0
    ensures i < |keys|
    ensures forall j :: 0 <= j < |keys| ==> keys[j] <= keys[i]
    ensures forall j :: 0 <= j < i ==> keys[j] < keys[i]
  {
    if |keys| == 1 then 0
    else
      var i := FirstMax(keys[..|keys| - 1]);
      if keys[|keys| - 1] > keys[i] then |keys| - 1 else i
  }

  /** The position of the candidate `find_closest_match` picks. */
  function ClosestIndex<T>(ref: string, candidates: seq<seq<T>>, format: seq<T> -> string): (r: Result<nat>)
    ensures |candidates| == 0 ==> r == Err(EmptySequence)
    ensures r.Ok? ==> (r.value < |candidates|
      && Similarity(ref, format(candidates[r.value])).Ok?
      && (forall j :: 0 <= j < |candidates| ==>
            Similarity(ref, format(candidates[j])).Ok?
            && Similarity(ref, format(candidates[j])).value <= Similarity(ref, format(candidates[r.value])).value)
      && (forall j :: 0 <= j < r.value ==>
            Similarity(ref, format(candidates[j])).value < Similarity(ref, format(candidates[r.value])).value))
    ensures r.Err? && |candidates| > 0 ==>
      r.error == DivisionByZero && ref == "" && exists j :: 0 <= j < |candidates| && format(candidates[j]) == ""
  {
    if |candidates| == 0 then Err(EmptySequence)
    else
      match Keys(ref, candidates, format)
      case Err(e) => Err(e)
      case Ok(ks) => Ok(FirstMax(ks))
  }

  /** `find_closest_match`: the first field of the most similar candidate. An
      empty candidate list raises in `max`, a winner without fields in `[0]`. */
  function FindClosestMatch<T>(ref: string, candidates: seq<seq<T>>, format: seq<T> -> string): (r: Result<T>)
    ensures |candidates| == 0 ==> r == Err(EmptySequence)
    ensures r.Ok? ==> (ClosestIndex(ref, candidates, format).Ok?
      && var i := ClosestIndex(ref, candidates, format).value;
         |candidates[i]| > 0 && r.value == candidates[i][0])
    ensures ClosestIndex(ref, candidates, format).Ok? && r.Err? ==>
      r.error == IndexOutOfRange && candidates[ClosestIndex(ref, candidates, format).value] == []
  {
    match ClosestIndex(ref, candidates, format)
    case Err(e) => Err(e)
    case Ok(i) => if |candidates[i]| == 0 then Err(IndexOutOfRange) else Ok(candidates[i][0])
  }

  /** `format_metadata` for a candidate whose fields are strings: the fields joined by ", ". */
  function FormatFields(x: seq<string>): string {
    Join(x, ", ")
  }

  /** Only equal strings are at distance zero. */
  lemma {:induction false} DistanceZero(a: string, b: string)
    requires Distance(a, b) == 0
    ensures a == b
    decreases |a| + |b|
  {
    if |a| > 0 && |b| > 0 {
      DistanceZero(a[..|a| - 1], b[..|b| - 1]);
      assert a == a[..|a| - 1] + [a[|a| - 1]] && b == b[..|b| - 1] + [b[|b| - 1]];
    }
  }

  /** Similarity one means equal strings. */
  lemma SimilarityOne(a: string, b: string)
    requires Similarity(a, b) == Ok(1.0)
    ensures a == b
  {
    var longest := if |a| >= |b| then |a| else |b|;
    assert Distance(a, b) as real / longest as real == 0.0;
    DistanceZero(a, b);
  }

  /** A candidate whose fields, joined by ", ", spell the reference exactly wins:
      the first such candidate's first field is returned. */
  lemma ExactFieldsChosen(ref: string, candidates: seq<seq<string>>, i: nat)
    requires ref != ""
    requires i < |candidates| && FormatFields(candidates[i]) == ref
    requires forall j :: 0 <= j < i ==> FormatFields(candidates[j]) != ref
    ensures FindClosestMatch(ref, candidates, FormatFields) == Ok(candidates[i][0])
  {
    var c := ClosestIndex(ref, candidates, FormatFields);
    assert Similarity(ref, FormatFields(candidates[i])) == Ok(1.0);
    assert c.Ok?;
    var k := c.value;
    var sk := Similarity(ref, FormatFields(candidates[k]));
    assert sk.value == 1.0;
    SimilarityOne(ref, FormatFields(candidates[k]));
    assert k == i;
    assert candidates[i] != [];
  }
}
