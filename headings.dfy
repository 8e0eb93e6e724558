/**
 * Locating a proposal section's heading in an uploaded template and
 * appending the section's text to it (the template filler of the preview
 * page). The template is its sequence of paragraph texts; the similarity
 * ratio of the sequence matcher is a parameter `score`.
 */
module Headings {
  import opened Wrappers
  import opened Text

  /** Python's `\w` on a `str` pattern, restricted to
      ASCII letters, digits and `_`, the Latin-1 letters and numerals, the
      Hangul jamo and syllables, and the CJK unified ideographs. */
  predicate IsWordChar(c: char) {
    ('a' <= c <= 'z') || ('A' <= c <= 'Z') || ('0' <= c <= '9') || c == '_'
    || c == '\U{AA}' || c == '\U{B2}' || c == '\U{B3}' || c == '\U{B5}'
    || c == '\U{B9}' || c == '\U{BA}' || ('\U{BC}' <= c <= '\U{BE}')
    || ('\U{C0}' <= c <= '\U{FF}' && c != '\U{D7}' && c != '\U{F7}')
    || ('\U{1100}' <= c <= '\U{11FF}') || ('\U{3131}' <= c <= '\U{318E}')
    || ('\U{4E00}' <= c <= '\U{9FFF}') || ('\U{AC00}' <= c <= '\U{D7A3}')
  }

  /** Python's `\d` on the characters the model covers. */
  predicate IsDigit(c: char) {
    '0' <= c <= '9'
  }

  /** A character that survives `re.sub(r'\W+|\d+', '', ...)`. */
  predicate Kept(c: char) {
    IsWordChar(c) && !IsDigit(c)
  }

  /** `normalize_text`: lower-case, then delete every non-word character and every digit. */
  function Normalize(text: string): (r: string)
    ensures |r| <= |text|
    ensures forall k :: 0 <= k < |r| ==> Kept(r[k]) && LowerChar(r[k]) == r[k]
  {
    if |text| == 0 then ""
    else
      var c := LowerChar(text[0]);
      LowerCharIdempotent(text[0]);
      (if Kept(c) then [c] else "") + Normalize(text[1..])
  }

  /** Normalizing distributes over concatenation. */
  lemma {:induction false} NormalizeConcat(a: string, b: string)
    ensures Normalize(a + b) == Normalize(a) + Normalize(b)
  {
    if |a| > 0 {
      NormalizeConcat(a[1..], b);
      assert (a + b)[1..] == a[1..] + b;
    } else {
      assert a + b == b;
    }
  }

  /** A string that is already lower-case word characters without digits is left as it is. */
  lemma {:induction false} NormalizeFixed(s: string)
    requires forall k :: 0 <= k < |s| ==> Kept(s[k]) && LowerChar(s[k]) == s[k]
    ensures Normalize(s) == s
  {
    if |s| > 0 {
      NormalizeFixed(s[1..]);
      assert s == [s[0]] + s[1..];
    }
  }

  /** A character that is not a word character, or is a digit, once lower-cased
      is deleted. */
  lemma NormalizeDeletes(c: char)
    requires !Kept(LowerChar(c))
    ensures Normalize([c]) == ""
  {
    assert [c][1..] == "";
  }

  /** Text whose characters all survive is kept whole, lower-cased: capitals are
      not dropped, only lowered. */
  lemma {:induction false} NormalizeLowers(s: string)
    requires forall k :: 0 <= k < |s| ==> Kept(LowerChar(s[k]))
    ensures Normalize(s) == Lower(s)
  {
    if |s| > 0 {
      NormalizeLowers(s[1..]);
      assert Lower(s) == [LowerChar(s[0])] + Lower(s[1..]);
    }
  }

  /** A stretch of characters that are all deleted normalizes to nothing. */
  lemma {:induction false} NormalizeDeletesAll(p: string)
    requires forall k :: 0 <= k < |p| ==> !Kept(LowerChar(p[k]))
    ensures Normalize(p) == ""
  {
    if |p| > 0 {
      NormalizeDeletesAll(p[1..]);
    }
  }

  /** Numbering in front of a heading does not affect matching: "1. 연구 목적"
      normalizes as "연구 목적" does. */
  lemma NumberingIgnored(t: string)
    ensures Normalize("1. " + t) == Normalize(t)
  {
    NormalizeConcat("1. ", t);
    NormalizeDeletesAll("1. ");
  }

  /** Normalizing twice is normalizing once. */
  lemma NormalizeIdempotent(s: string)
    ensures Normalize(Normalize(s)) == Normalize(s)
  {
    NormalizeFixed(Normalize(s));
  }

  /** The acceptance threshold of `find_best_match`. */
  const Threshold: real := 0.7

  /** `SequenceMatcher(None, a, b).ratio()`, supplied by the caller. */
  type Scorer = (string, string) -> real

  /** The paragraph's normalized text contains the normalized title (the substring test). */
  predicate IsCandidate(ps: seq<string>, nt: string, j: int)
    requires 0 <= j < |ps|
  {
    Contains(Normalize(ps[j]), nt)
  }

  function ScoreAt(ps: seq<string>, nt: string, score: Scorer, j: int): real
    requires 0 <= j < |ps|
  {
    score(nt, Normalize(ps[j]))
  }

  /** The first paragraph at or after `k` whose normalized text equals `nt`. */
  function FirstExactFrom(ps: seq<string>, nt: string, k: nat): (r: Option<nat>)
    requires k <= |ps|
    ensures r.Some? ==> (k <= r.value < |ps| && Normalize(ps[r.value]) == nt
      && (forall j :: k <= j < r.value ==> Normalize(ps[j]) != nt))
    ensures r.None? ==> forall j :: k <= j < |ps| ==> Normalize(ps[j]) != nt
    decreases |ps| - k
  {
    if k == |ps| then None
    else if Normalize(ps[k]) == nt then Some(k)
    else FirstExactFrom(ps, nt, k + 1)
  }

  /** Among the candidates at or after `k`, the earliest one of highest score. */
  function BestFrom(ps: seq<string>, nt: string, score: Scorer, k: nat): (r: Option<nat>)
    requires k <= |ps|
    ensures r.Some? ==> (k <= r.value < |ps| && IsCandidate(ps, nt, r.value)
      && (forall j :: k <= j < |ps| && IsCandidate(ps, nt, j) ==>
            ScoreAt(ps, nt, score, j) <= ScoreAt(ps, nt, score, r.value))
      && (forall j :: k <= j < r.value && IsCandidate(ps, nt, j) ==>
            ScoreAt(ps, nt, score, j) < ScoreAt(ps, nt, score, r.value)))
    ensures r.None? ==> forall j :: k <= j < |ps| ==> !IsCandidate(ps, nt, j)
    decreases |ps| - k
  {
    if k == |ps| then None
    else
      var rest := BestFrom(ps, nt, score, k + 1);
      if IsCandidate(ps, nt, k)
         && (rest.None? || ScoreAt(ps, nt, score, k) >= ScoreAt(ps, nt, score, rest.value))
      then Some(k)
      else rest
  }

  /** What `find_best_match` returns for a title: the first exact match, else the
      best-scoring candidate provided its score exceeds the threshold. */
  function BestMatch(ps: seq<string>, title: string, score: Scorer): Option<nat> {
    var nt := Normalize(title);
    match FirstExactFrom(ps, nt, 0)
    case Some(i) => Some(i)
    case None =>
      match BestFrom(ps, nt, score, 0)
      case Some(i) => if ScoreAt(ps, nt, score, i) > Threshold then Some(i) else None
      case None => None
  }

  /** The documented contract of the matcher, stated without reference to its algorithm. */
  predicate IsBestMatch(ps: seq<string>, nt: string, score: Scorer, r: Option<nat>) {
    match r
    case Some(i) =>
      i < |ps|
      && ((Normalize(ps[i]) == nt && forall j :: 0 <= j < i ==> Normalize(ps[j]) != nt)
          || ((forall j :: 0 <= j < |ps| ==> Normalize(ps[j]) != nt)
              && IsCandidate(ps, nt, i)
              && ScoreAt(ps, nt, score, i) > Threshold
              && (forall j :: 0 <= j < |ps| && IsCandidate(ps, nt, j) ==>
                    ScoreAt(ps, nt, score, j) <= ScoreAt(ps, nt, score, i))
              && (forall j :: 0 <= j < i && IsCandidate(ps, nt, j) ==>
                    ScoreAt(ps, nt, score, j) < ScoreAt(ps, nt, score, i))))
    case None =>
      (forall j :: 0 <= j < |ps| ==> Normalize(ps[j]) != nt)
      && forall j :: 0 <= j < |ps| && IsCandidate(ps, nt, j) ==> ScoreAt(ps, nt, score, j) <= Threshold
  }

  /** `BestMatch` returns exactly the result the contract describes: the first exact
      match wins regardless of scores; otherwise the earliest highest-scoring
      candidate, and only if its score is above 0.7; otherwise nothing. */
  lemma BestMatchMeetsContract(ps: seq<string>, title: string, score: Scorer, r: Option<nat>)
    ensures BestMatch(ps, title, score) == r <==> IsBestMatch(ps, Normalize(title), score, r)
  {
    var nt := Normalize(title);
    var m := BestMatch(ps, title, score);
    assert IsBestMatch(ps, nt, score, m);
    if IsBestMatch(ps, nt, score, r) {
      IsBestMatchUnique(ps, nt, score, m, r);
    }
  }

  lemma IsBestMatchUnique(ps: seq<string>, nt: string, score: Scorer, r1: Option<nat>, r2: Option<nat>)
    requires IsBestMatch(ps, nt, score, r1) && IsBestMatch(ps, nt, score, r2)
    ensures r1 == r2
  {
  }

  /** What the scan of `find_best_match` knows after the first `k` paragraphs: none
      of them is an exact match, and `bestMatch` is the earliest candidate of highest
      score among them, provided that score is positive (`bestScore` starts at 0). */
  predicate Scanned(ps: seq<string>, nt: string, score: Scorer, k: nat, bestMatch: Option<nat>, bestScore: real)
    requires k <= |ps|
  {
    (forall j :: 0 <= j < k ==> Normalize(ps[j]) != nt)
    && bestScore >= 0.0
    && (forall j :: 0 <= j < k && IsCandidate(ps, nt, j) ==> ScoreAt(ps, nt, score, j) <= bestScore)
    && (bestMatch.None? ==> bestScore == 0.0)
    && (bestMatch.Some? ==> (bestMatch.value < k && IsCandidate(ps, nt, bestMatch.value)
        && ScoreAt(ps, nt, score, bestMatch.value) == bestScore
        && forall j :: 0 <= j < bestMatch.value && IsCandidate(ps, nt, j) ==> ScoreAt(ps, nt, score, j) < bestScore))
  }

  /** The scan after one more paragraph that is not an exact match: a candidate
      replaces the kept one only when it scores strictly higher. */
  lemma ScanStep(ps: seq<string>, nt: string, score: Scorer, k: nat, bestMatch: Option<nat>, bestScore: real)
    requires k < |ps| && Normalize(ps[k]) != nt
    requires Scanned(ps, nt, score, k, bestMatch, bestScore)
    ensures var better := IsCandidate(ps, nt, k) && ScoreAt(ps, nt, score, k) > bestScore;
      Scanned(ps, nt, score, k + 1, if better then Some(k) else bestMatch,
              if better then ScoreAt(ps, nt, score, k) else bestScore)
  {
    if IsCandidate(ps, nt, k) && ScoreAt(ps, nt, score, k) > bestScore {
      var s := ScoreAt(ps, nt, score, k);
      assert forall j :: 0 <= j < k && IsCandidate(ps, nt, j) ==> ScoreAt(ps, nt, score, j) < s;
    } else {
      assert !IsCandidate(ps, nt, k) || ScoreAt(ps, nt, score, k) <= bestScore;
    }
  }

  /** A scan of every paragraph that met no exact match gives the matcher's result:
      the kept candidate when its score is above the threshold, and nothing otherwise. */
  lemma ScannedResult(ps: seq<string>, title: string, score: Scorer, bestMatch: Option<nat>, bestScore: real)
    requires Scanned(ps, Normalize(title), score, |ps|, bestMatch, bestScore)
    ensures BestMatch(ps, title, score) == if bestScore > Threshold then bestMatch else None
  {
    var nt := Normalize(title);
    var r := if bestScore > Threshold then bestMatch else None;
    assert IsBestMatch(ps, nt, score, r);
    BestMatchMeetsContract(ps, title, score, r);
  }

  /** `find_best_match`: scan the paragraphs once, returning at the first exact
      match and otherwise keeping the strictly best-scoring candidate. */
  method FindBestMatch(doc: array<string>, sectionTitle: string, score: Scorer) returns (r: Option<nat>)
    ensures r == BestMatch(doc[..], sectionTitle, score)
  {
    var ps := doc[..];
    var nt := Normalize(sectionTitle);
    var bestMatch: Option<nat> := None;
    var bestScore: real := 0.0;
    var k := 0;
    while k < doc.Length
      invariant 0 <= k <= doc.Length
      invariant Scanned(ps, nt, score, k, bestMatch, bestScore)
      decreases doc.Length - k
    {
      var np := Normalize(doc[k]);
      if nt == np {
        assert FirstExactFrom(ps, nt, 0) == Some(k);
        return Some(k);
      }
      ScanStep(ps, nt, score, k, bestMatch, bestScore);
      if Contains(np, nt) {
        var s := score(nt, np);
        if s > bestScore {
          bestScore := s;
          bestMatch := Some(k);
        }
      }
      k := k + 1;
    }
    ScannedResult(ps, sectionTitle, score, bestMatch, bestScore);
    if bestScore > Threshold {
      r := bestMatch;
    } else {
      r := None;
    }
  }

  /** The per-section entry of the fill report. */
  datatype Outcome =
    | Inserted(index: nat)   // content appended to paragraph `index`
    | NotFound               // no heading matched: the page shows a warning
    | Rejected               // the document library raised: the error is shown, filling goes on

  /** One section of `fill_docx_template`: match, then append a run `"\n" + content`.
      `rejects` says when the document library refuses the run text. */
  function FillSection(ps: seq<string>, title: string, content: string, score: Scorer,
                       rejects: string -> bool): (r: (seq<string>, Outcome))
    ensures |r.0| == |ps|
  {
    match BestMatch(ps, title, score)
    case None => (ps, NotFound)
    case Some(i) =>
      if rejects("\n" + content) then (ps, Rejected)
      else (ps[i := ps[i] + "\n" + content], Inserted(i))
  }

  /** The whole fill: sections in map order, each matched against the text as
      the earlier sections left it; the report has one entry per section. */
  function Fill(ps: seq<string>, sections: seq<(string, string)>, score: Scorer,
                rejects: string -> bool): (r: (seq<string>, seq<Outcome>))
    ensures |r.0| == |ps| && |r.1| == |sections|
    decreases |sections|
  {
    if |sections| == 0 then (ps, [])
    else
      var (ps1, o) := FillSection(ps, sections[0].0, sections[0].1, score, rejects);
      var (ps2, os) := Fill(ps1, sections[1..], score, rejects);
      (ps2, [o] + os)
  }

  /** `fill_docx_template`: mutates the paragraphs in place and reports each section. */
  method FillTemplate(doc: array<string>, sections: seq<(string, string)>, score: Scorer,
                      rejects: string -> bool) returns (report: seq<Outcome>)
    modifies doc
    ensures (doc[..], report) == Fill(old(doc[..]), sections, score, rejects)
  {
    var k := 0;
    report := [];
    assert sections[0..] == sections;
    assert report + Fill(doc[..], sections, score, rejects).1 == Fill(doc[..], sections, score, rejects).1;
    while k < |sections|
      invariant 0 <= k <= |sections|
      invariant FilledUpTo(old(doc[..]), sections, k, doc[..], report, score, rejects)
      decreases |sections| - k
    {
      var (title, content) := sections[k];
      FilledStep(old(doc[..]), sections, k, doc[..], report, score, rejects);
      var outcome := FillOne(doc, title, content, score, rejects);
      report := report + [outcome];
      k := k + 1;
    }
    assert sections[k..] == [];
    assert report + [] == report;
  }

  /** After the first k sections: the fill of the rest, from the current
      paragraphs, completes the fill of all of them from the original ones. */
  predicate FilledUpTo(ps0: seq<string>, sections: seq<(string, string)>, k: nat, ps: seq<string>,
                       report: seq<Outcome>, score: Scorer, rejects: string -> bool)
    requires k <= |sections|
  {
    var rest := Fill(ps, sections[k..], score, rejects);
    Fill(ps0, sections, score, rejects) == (rest.0, report + rest.1)
  }

  /** Filling section k moves the loop of `fill_docx_template` one section on. */
  lemma FilledStep(ps0: seq<string>, sections: seq<(string, string)>, k: nat, ps: seq<string>,
                   report: seq<Outcome>, score: Scorer, rejects: string -> bool)
    requires k < |sections| && FilledUpTo(ps0, sections, k, ps, report, score, rejects)
    ensures var (ps1, o) := FillSection(ps, sections[k].0, sections[k].1, score, rejects);
      FilledUpTo(ps0, sections, k + 1, ps1, report + [o], score, rejects)
  {
    var (ps1, o) := FillSection(ps, sections[k].0, sections[k].1, score, rejects);
    FillCons(ps, sections, k, score, rejects);
    var rest := Fill(ps1, sections[k + 1..], score, rejects);
    assert report + ([o] + rest.1) == (report + [o]) + rest.1;
  }

  /** One pass of the loop of `fill_docx_template`: match the title, then append the
      run to the matched paragraph unless the library refuses it. */
  method FillOne(doc: array<string>, title: string, content: string, score: Scorer,
                 rejects: string -> bool) returns (outcome: Outcome)
    modifies doc
    ensures (doc[..], outcome) == FillSection(old(doc[..]), title, content, score, rejects)
  {
    var m := FindBestMatch(doc, title, score);
    if m.Some? {
      if rejects("\n" + content) {
        outcome := Rejected;
      } else {
        doc[m.value] := doc[m.value] + "\n" + content;
        outcome := Inserted(m.value);
      }
    } else {
      outcome := NotFound;
    }
  }

  /** The fill from section `k` on is section `k`, then the fill from `k + 1` on. */
  lemma FillCons(ps: seq<string>, sections: seq<(string, string)>, k: nat, score: Scorer,
                 rejects: string -> bool)
    requires k < |sections|
    ensures var (ps1, o) := FillSection(ps, sections[k].0, sections[k].1, score, rejects);
      Fill(ps, sections[k..], score, rejects)
        == (Fill(ps1, sections[k + 1..], score, rejects).0, [o] + Fill(ps1, sections[k + 1..], score, rejects).1)
  {
    assert sections[k..][0] == sections[k] && sections[k..][1..] == sections[k + 1..];
  }

  /** One section appends `"\n" + content` to the paragraph it reports and changes
      no other paragraph. */
  lemma FillSectionAppends(ps: seq<string>, title: string, content: string, score: Scorer,
                           rejects: string -> bool, i: nat)
    requires i < |ps|
    ensures var (ps1, o) := FillSection(ps, title, content, score, rejects);
      ps1[i] == ps[i] + (if o == Inserted(i) then "\n" + content else "")
  {
  }

  /** The text a fill appends to paragraph `i`: `"\n" + content` for every
      section reported as inserted there, in section order. */
  function AppendedTo(i: nat, sections: seq<(string, string)>, report: seq<Outcome>): string
    requires |report| == |sections|
    decreases |sections|
  {
    if |sections| == 0 then ""
    else (if report[0] == Inserted(i) then "\n" + sections[0].1 else "")
         + AppendedTo(i, sections[1..], report[1..])
  }

  /** Filling keeps the paragraph count and order, reports every section (a
      rejected or unmatched section does not stop the rest), and turns each
      paragraph into its old text followed by exactly the runs appended to it. */
  lemma {:induction false} FillAppendsOnly(ps: seq<string>, sections: seq<(string, string)>,
                                           score: Scorer, rejects: string -> bool)
    ensures forall i :: 0 <= i < |ps| ==>
      Fill(ps, sections, score, rejects).0[i]
        == ps[i] + AppendedTo(i, sections, Fill(ps, sections, score, rejects).1)
    decreases |sections|
  {
    if |sections| > 0 {
      var (ps1, o) := FillSection(ps, sections[0].0, sections[0].1, score, rejects);
      FillAppendsOnly(ps1, sections[1..], score, rejects);
      var (ps2, os) := Fill(ps1, sections[1..], score, rejects);
      var report := [o] + os;
      assert report[0] == o && report[1..] == os;
      forall i | 0 <= i < |ps|
        ensures ps2[i] == ps[i] + AppendedTo(i, sections, report)
      {
        FillSectionAppends(ps, sections[0].0, sections[0].1, score, rejects, i);
      }
    }
  }

  /** A paragraph that no section was inserted into is left exactly as it was. */
  lemma UntouchedParagraph(ps: seq<string>, sections: seq<(string, string)>, score: Scorer,
                           rejects: string -> bool, i: nat)
    requires i < |ps|
    requires forall k :: 0 <= k < |sections| ==> Fill(ps, sections, score, rejects).1[k] != Inserted(i)
    ensures Fill(ps, sections, score, rejects).0[i] == ps[i]
  {
    FillAppendsOnly(ps, sections, score, rejects);
    NothingAppended(i, sections, Fill(ps, sections, score, rejects).1);
  }

  lemma {:induction false} NothingAppended(i: nat, sections: seq<(string, string)>, report: seq<Outcome>)
    requires |report| == |sections|
    requires forall k :: 0 <= k < |report| ==> report[k] != Inserted(i)
    ensures AppendedTo(i, sections, report) == ""
    decreases |sections|
  {
    if |sections| > 0 {
      NothingAppended(i, sections[1..], report[1..]);
    }
  }

  /** Filling a paragraph whose heading matched exactly leaves it a candidate for the
      same title (its normalized text now merely contains the title), and no longer an
      exact match once the appended content has any kept character: later sections
      are matched against the grown text. */
  lemma {:induction false} InsertedHeadingGrows(heading: string, title: string, content: string)
    requires Normalize(heading) == Normalize(title)
    ensures Contains(Normalize(heading + "\n" + content), Normalize(title))
    ensures Normalize(content) != "" ==> Normalize(heading + "\n" + content) != Normalize(title)
  {
    NormalizeAfterHeading(heading, content);
    var n := Normalize(heading + "\n" + content);
    assert n[..|Normalize(title)|] == Normalize(title);
    assert OccursAt(n, Normalize(title), 0);
  }

  /** The newline between a heading and its content normalizes away. */
  lemma NormalizeAfterHeading(heading: string, content: string)
    ensures Normalize(heading + "\n" + content) == Normalize(heading) + Normalize(content)
  {
    NormalizeConcat(heading + "\n", content);
    NormalizeConcat(heading, "\n");
    NormalizeNewline();
  }

  lemma NormalizeNewline()
    ensures Normalize("\n") == ""
  {
    assert !Kept(LowerChar('\n'));
    assert "\n"[1..] == "";
  }

  /** The preview page's section check: for each section title, the text of the
      paragraph it matches, or "Not found". */
  method CheckSections(doc: array<string>, titles: seq<string>, score: Scorer) returns (results: seq<string>)
    ensures |results| == |titles|
    ensures forall k :: 0 <= k < |titles| ==>
      results[k] == match BestMatch(doc[..], titles[k], score)
                    case Some(i) => doc[i]
                    case None => "Not found"
  {
    results := [];
    var k := 0;
    while k < |titles|
      invariant 0 <= k <= |titles|
      invariant |results| == k
      invariant forall j :: 0 <= j < k ==>
        results[j] == match BestMatch(doc[..], titles[j], score)
                      case Some(i) => doc[i]
                      case None => "Not found"
    {
      var m := FindBestMatch(doc, titles[k], score);
      var text := if m.Some? then doc[m.value] else "Not found";
      results := results + [text];
      k := k + 1;
    }
  }

  /** The sequence matcher's ratio when the first string occurs inside the second and
      the second is shorter than 200 characters (so no element is junked): the whole
      first string is the single matching block, and the ratio is 2|t| / (|t| + |p|). */
  function ContainedRatio(t: string, p: string): (r: real)
    requires |t| + |p| > 0
    ensures 0.0 <= r
    ensures |t| <= |p| ==> r <= 1.0
  {
    (2 * |t|) as real / (|t| + |p|) as real
  }

  /** With that ratio, the 0.7 threshold is the integer test 13|t| > 7|p|. */
  lemma ContainedRatioThreshold(t: string, p: string)
    requires |t| + |p| > 0
    ensures ContainedRatio(t, p) > Threshold <==> 13 * |t| > 7 * |p|
  {
    var a, b := (2 * |t|) as real, (|t| + |p|) as real;
    assert ContainedRatio(t, p) * b == a;
    if 13 * |t| > 7 * |p| {
      assert a > Threshold * b;
    } else {
      assert a <= Threshold * b;
    }
  }

  /** An exact title has ratio 1 with itself. */
  lemma ContainedRatioSelf(t: string)
    requires |t| > 0
    ensures ContainedRatio(t, t) == 1.0
  {
  }
}
