/**
 * The two small text extractors: `extract_references`, which collects the
 * bodies of `[...]` citations, and `extract_sections`, which cuts the
 * abstract, the introduction and the conclusion out of a paper's text.
 */
module Extract {
  import opened Wrappers
  import opened Text

  // ---------------------------------------------------------------------------
  // extract_references: re.findall(r'\[([^\]]+)\]', text)
  // ---------------------------------------------------------------------------

  /** The first position at or after `from` holding `c`. */
  function FindChar(s: string, c: char, from: nat): (r: Option<nat>)
    ensures r.Some? ==> (from <= r.value < |s| && s[r.value] == c
      && forall k :: from <= k < r.value ==> s[k] != c)
    ensures r.None? ==> forall k :: from <= k < |s| ==> s[k] != c
    decreases |s| - from
  {
    if from >= |s| then None
    else if s[from] == c then Some(from)
    else FindChar(s, c, from + 1)
  }

  /** The bodies `findall` returns from position `from` on, in order. At a '[' the
      greedy `[^\]]+` runs up to the first ']'; the match succeeds when that ']'
      exists and the body between is not empty, and scanning resumes after it.
      Otherwise scanning resumes at the next character. */
  function BodiesFrom(s: string, from: nat): (r: seq<string>)
    ensures forall b :: b in r ==> b != "" && ']' !in b && Contains(s, "[" + b + "]")
    decreases |s| - from
  {
    if from >= |s| then []
    else if s[from] != '[' then BodiesFrom(s, from + 1)
    else
      match FindChar(s, ']', from + 1)
      case None => BodiesFrom(s, from + 1)
      case Some(close) =>
        if close == from + 1 then BodiesFrom(s, from + 1)
        else
          var body := s[from + 1..close];
          assert s[from..close + 1] == "[" + body + "]";
          assert OccursAt(s, "[" + body + "]", from);
          [body] + BodiesFrom(s, close + 1)
  }

  /** `extract_references`: the distinct bodies, each split on ','. The source
      returns them as a list in set order, which the model leaves as a set. */
  function ExtractReferences(text: string): (r: set<seq<string>>)
    ensures forall ref :: ref in r ==> |ref| >= 1 && Contains(text, "[" + Join(ref, ",") + "]")
  {
    var bodies := BodiesFrom(text, 0);
    forall b | b in bodies ensures Join(Split(b, ','), [',']) == b {
      JoinSplit(b, ',');
    }
    set b | b in bodies :: Split(b, ',')
  }

  /** Every citation body that is found is reported: text without '[' before a
      bracketed body contributes that body first. */
  lemma {:induction false} BodiesFromCitation(prefix: string, body: string, rest: string, from: nat)
    requires from <= |prefix|
    requires forall k :: from <= k < |prefix| ==> prefix[k] != '['
    requires body != "" && ']' !in body
    ensures BodiesFrom(prefix + "[" + body + "]" + rest, from)
      == [body] + BodiesFrom(prefix + "[" + body + "]" + rest, |prefix| + |body| + 2)
    decreases |prefix| - from
  {
    var s := prefix + "[" + body + "]" + rest;
    if from < |prefix| {
      assert s[from] == prefix[from];
      BodiesFromCitation(prefix, body, rest, from + 1);
    } else {
      var open := |prefix|;
      var close := open + |body| + 1;
      assert s[open] == '[';
      assert s[close] == ']';
      forall k | open + 1 <= k < close ensures s[k] != ']' {
        assert s[k] == body[k - open - 1];
      }
      assert FindChar(s, ']', open + 1) == Some(close);
      assert s[open + 1..close] == body;
    }
  }

  /** The text `gaps[0] [bodies[0]] gaps[1] ... [bodies[n-1]] gaps[n]`. */
  function Cited(gaps: seq<string>, bodies: seq<string>): string
    requires |gaps| == |bodies| + 1
  {
    if |bodies| == 0 then gaps[0]
    else gaps[0] + "[" + bodies[0] + "]" + Cited(gaps[1..], bodies[1..])
  }

  /** Citation text: the stretches between the citations hold no '[', and every
      body is non-empty and holds no ']'. */
  predicate WellCited(gaps: seq<string>, bodies: seq<string>) {
    |gaps| == |bodies| + 1
    && (forall g :: g in gaps ==> '[' !in g)
    && (forall b :: b in bodies ==> b != "" && ']' !in b)
  }

  /** Nothing is found where no '[' follows. */
  lemma {:induction false} BodiesFromNoOpen(s: string, from: nat)
    requires forall k :: from <= k < |s| ==> s[k] != '['
    ensures BodiesFrom(s, from) == []
    decreases |s| - from
  {
    if from < |s| {
      BodiesFromNoOpen(s, from + 1);
    }
  }

  /** Scanning citation text that follows `pre` finds exactly its bodies, in order. */
  lemma {:induction false} BodiesFromCited(pre: string, gaps: seq<string>, bodies: seq<string>)
    requires WellCited(gaps, bodies)
    ensures BodiesFrom(pre + Cited(gaps, bodies), |pre|) == bodies
    decreases |bodies|
  {
    assert gaps[0] in gaps;
    if |bodies| == 0 {
      BodiesFromGap(pre, gaps[0]);
    } else {
      var b := bodies[0];
      var cite := gaps[0] + "[" + b + "]";
      var rest := Cited(gaps[1..], bodies[1..]);
      assert b in bodies;
      assert Cited(gaps, bodies) == cite + rest;
      Associative(pre, cite, rest);
      BodiesFromGapCitation(pre, gaps[0], b, cite, rest);
      assert forall g :: g in gaps[1..] ==> g in gaps;
      assert forall c :: c in bodies[1..] ==> c in bodies;
      BodiesFromCited(pre + cite, gaps[1..], bodies[1..]);
      assert bodies == [b] + bodies[1..];
    }
  }

  lemma Associative(a: string, b: string, c: string)
    ensures a + (b + c) == a + b + c
  {
  }

  /** A last stretch without '[' yields nothing. */
  lemma BodiesFromGap(pre: string, g: string)
    requires '[' !in g
    ensures BodiesFrom(pre + g, |pre|) == []
  {
    var s := pre + g;
    forall k | |pre| <= k < |s| ensures s[k] != '[' {
      assert s[k] == g[k - |pre|];
    }
    BodiesFromNoOpen(s, |pre|);
  }

  /** A stretch without '[' followed by a citation yields the citation's body first. */
  lemma BodiesFromGapCitation(pre: string, g: string, b: string, cite: string, rest: string)
    requires '[' !in g && b != "" && ']' !in b
    requires cite == g + "[" + b + "]"
    ensures BodiesFrom(pre + cite + rest, |pre|) == [b] + BodiesFrom(pre + cite + rest, |pre + cite|)
  {
    var prefix := pre + g;
    forall k | |pre| <= k < |prefix| ensures prefix[k] != '[' {
      assert prefix[k] == g[k - |pre|];
    }
    assert pre + cite + rest == prefix + "[" + b + "]" + rest;
    BodiesFromCitation(prefix, b, rest, |pre|);
  }

  /** Every citation of the text is reported and nothing else: the references are
      exactly the comma-separated parts of the bracketed bodies. */
  lemma ReferencesOfCited(gaps: seq<string>, bodies: seq<string>)
    requires WellCited(gaps, bodies)
    ensures ExtractReferences(Cited(gaps, bodies)) == set b | b in bodies :: Split(b, ',')
  {
    BodiesFromCited("", gaps, bodies);
    assert "" + Cited(gaps, bodies) == Cited(gaps, bodies);
  }

  /** A reference that a citation can carry: at least one part, a non-empty text,
      and no part holding ',' or ']'. */
  predicate CleanRef(ref: seq<string>) {
    |ref| >= 1 && Join(ref, ",") != "" && forall p :: p in ref ==> ',' !in p && ']' !in p
  }

  /** The citation bodies that write the references `refs`. */
  function BodiesOf(refs: seq<seq<string>>): (bodies: seq<string>)
    ensures |bodies| == |refs|
  {
    seq(|refs|, i requires 0 <= i < |refs| => Join(refs[i], ","))
  }

  lemma BodiesOfClean(refs: seq<seq<string>>)
    requires forall ref :: ref in refs ==> CleanRef(ref)
    ensures forall b :: b in BodiesOf(refs) ==> b != "" && ']' !in b
  {
    var bodies := BodiesOf(refs);
    forall b | b in bodies ensures b != "" && ']' !in b {
      var i :| 0 <= i < |refs| && bodies[i] == b;
      assert refs[i] in refs;
      JoinNoChar(refs[i], ",", ']');
    }
  }

  lemma SplitBodiesOf(refs: seq<seq<string>>)
    requires forall ref :: ref in refs ==> CleanRef(ref)
    ensures (set b | b in BodiesOf(refs) :: Split(b, ',')) == set ref | ref in refs
  {
    var bodies := BodiesOf(refs);
    forall ref | ref in refs ensures ref in set b | b in bodies :: Split(b, ',') {
      var i :| 0 <= i < |refs| && refs[i] == ref;
      SplitJoin(ref, ',');
      assert bodies[i] in bodies;
    }
    forall b | b in bodies ensures Split(b, ',') in refs {
      var i :| 0 <= i < |refs| && bodies[i] == b;
      assert refs[i] in refs;
      SplitJoin(refs[i], ',');
    }
  }

  /** Writing references as citations `[a,b,...]` between stretches without '['
      and extracting them again gives back exactly the references written. */
  lemma CitationRoundTrip(gaps: seq<string>, refs: seq<seq<string>>)
    requires |gaps| == |refs| + 1
    requires forall g :: g in gaps ==> '[' !in g
    requires forall ref :: ref in refs ==> CleanRef(ref)
    ensures ExtractReferences(Cited(gaps, BodiesOf(refs))) == set ref | ref in refs
  {
    BodiesOfClean(refs);
    ReferencesOfCited(gaps, BodiesOf(refs));
    SplitBodiesOf(refs);
  }

  /** Joining pieces without `c` by a separator without `c` gives a string without `c`. */
  lemma {:induction false} JoinNoChar(parts: seq<string>, sep: string, c: char)
    requires c !in sep
    requires forall p :: p in parts ==> c !in p
    ensures c !in Join(parts, sep)
  {
    if |parts| > 1 {
      assert forall p :: p in parts[1..] ==> p in parts;
      JoinNoChar(parts[1..], sep, c);
    }
  }

  // ---------------------------------------------------------------------------
  // extract_sections
  // ---------------------------------------------------------------------------

  datatype Sections = Sections(summary: string, introduction: string, conclusion: string)

  predicate IsAsciiLetter(c: char) {
    'A' <= c <= 'Z' || 'a' <= c <= 'z'
  }

  /** The lower-case ASCII keyword `kw` occurs at `i`, ignoring case. */
  predicate KeywordAt(text: string, kw: string, i: nat) {
    i + |kw| <= |text| && Lower(text[i..i + |kw|]) == kw
  }

  /** The pattern's end condition holds at `e`: a blank line, or a newline followed by
      a letter (`[A-Z]` under `(?i)`), or, when `dollar` is set, the end of the text
      or a final newline (`$` without MULTILINE). */
  predicate StopAt(text: string, e: nat, dollar: bool) {
    e <= |text| &&
    ((e + 1 < |text| && text[e] == '\n' && text[e + 1] == '\n')
     || (e + 1 < |text| && text[e] == '\n' && IsAsciiLetter(text[e + 1]))
     || (dollar && (e == |text| || (e + 1 == |text| && text[e] == '\n'))))
  }

  function FindKeyword(text: string, kw: string, from: nat): (r: Option<nat>)
    ensures r.Some? ==> (from <= r.value && KeywordAt(text, kw, r.value)
      && forall k :: from <= k < r.value ==> !KeywordAt(text, kw, k))
    ensures r.None? ==> forall k :: from <= k ==> !KeywordAt(text, kw, k)
    decreases |text| - from
  {
    if from + |kw| > |text| then None
    else if KeywordAt(text, kw, from) then Some(from)
    else FindKeyword(text, kw, from + 1)
  }

  function FindStop(text: string, from: nat, dollar: bool): (r: Option<nat>)
    ensures r.Some? ==> (from <= r.value && StopAt(text, r.value, dollar)
      && forall k :: from <= k < r.value ==> !StopAt(text, k, dollar))
    ensures r.None? ==> forall k :: from <= k ==> !StopAt(text, k, dollar)
    decreases |text| - from
  {
    if from > |text| then None
    else if StopAt(text, from, dollar) then Some(from)
    else FindStop(text, from + 1, dollar)
  }

  /** `re.search(keyword + '.*?(?=...)', text, re.DOTALL)`, or "" when nothing matches. */
  function SearchSection(text: string, kw: string, dollar: bool): string {
    match FindKeyword(text, kw, 0)
    case None => ""
    case Some(start) =>
      match FindStop(text, start + |kw|, dollar)
      case None => ""
      case Some(end) => text[start..end]
  }

  /** A match of the pattern: the keyword at `s`, the lazy `.*?` up to `e`, the end
      condition at `e`. */
  predicate IsMatch(text: string, kw: string, dollar: bool, s: nat, e: nat) {
    KeywordAt(text, kw, s) && s + |kw| <= e && StopAt(text, e, dollar)
  }

  /** The pattern matches somewhere in the text. */
  ghost predicate Matches(text: string, kw: string, dollar: bool) {
    exists s: nat, e: nat :: IsMatch(text, kw, dollar, s, e)
  }

  /** `(s, e)` is the match `re.search` reports: the leftmost start, and from that start
      the shortest match (the lazy `.*?`). */
  ghost predicate LeftmostShortest(text: string, kw: string, dollar: bool, s: nat, e: nat) {
    IsMatch(text, kw, dollar, s, e)
    && forall s': nat, e': nat :: IsMatch(text, kw, dollar, s', e') ==> s < s' || (s == s' && e <= e')
  }

  /** The extracted text is the leftmost match, and of the matches starting there the
      shortest, and it is "" exactly when the pattern does not match. */
  lemma SearchSectionIsLeftmostShortest(text: string, kw: string, dollar: bool)
    requires |kw| > 0
    ensures var r := SearchSection(text, kw, dollar);
      (r == "" <==> !Matches(text, kw, dollar))
      && (r != "" ==> exists s: nat, e: nat :: LeftmostShortest(text, kw, dollar, s, e) && r == text[s..e])
  {
    var r := SearchSection(text, kw, dollar);
    var found := FindKeyword(text, kw, 0);
    if found.None? {
      NoKeywordNoMatch(text, kw, dollar);
    } else {
      var start := found.value;
      var stop := FindStop(text, start + |kw|, dollar);
      if stop.None? {
        NoStopNoMatch(text, kw, dollar, start);
      } else {
        FirstMatch(text, kw, dollar, start, stop.value);
        assert r == text[start..stop.value] && |r| >= |kw|;
      }
    }
  }

  /** Without the keyword, nothing matches. */
  lemma NoKeywordNoMatch(text: string, kw: string, dollar: bool)
    requires FindKeyword(text, kw, 0).None?
    ensures !Matches(text, kw, dollar)
  {
  }

  /** With no end condition after the first keyword, nothing matches: a later keyword
      has fewer positions after it still. */
  lemma NoStopNoMatch(text: string, kw: string, dollar: bool, start: nat)
    requires FindKeyword(text, kw, 0) == Some(start)
    requires FindStop(text, start + |kw|, dollar).None?
    ensures !Matches(text, kw, dollar)
  {
    forall s: nat, e: nat ensures !IsMatch(text, kw, dollar, s, e) {
      if KeywordAt(text, kw, s) && s + |kw| <= e {
        assert start <= s;
      }
    }
  }

  /** The first keyword and the first end condition after it form a match that no
      other match precedes or, from the same start, undercuts. */
  lemma FirstMatch(text: string, kw: string, dollar: bool, start: nat, end: nat)
    requires FindKeyword(text, kw, 0) == Some(start)
    requires FindStop(text, start + |kw|, dollar) == Some(end)
    ensures LeftmostShortest(text, kw, dollar, start, end)
    ensures Matches(text, kw, dollar)
  {
  }

  /** `extract_sections`. */
  function ExtractSections(text: string): (r: Sections)
    ensures r.summary == "" || StartsWith(Lower(r.summary), "abstract")
    ensures r.introduction == "" || StartsWith(Lower(r.introduction), "introduction")
    ensures r.conclusion == "" || StartsWith(Lower(r.conclusion), "conclusion")
  {
    var a := SearchSection(text, "abstract", false);
    var i := SearchSection(text, "introduction", false);
    var c := SearchSection(text, "conclusion", true);
    SearchSectionStartsWithKeyword(text, "abstract", false);
    SearchSectionStartsWithKeyword(text, "introduction", false);
    SearchSectionStartsWithKeyword(text, "conclusion", true);
    Sections(a, i, c)
  }

  lemma SearchSectionStartsWithKeyword(text: string, kw: string, dollar: bool)
    ensures var r := SearchSection(text, kw, dollar);
      r == "" || StartsWith(Lower(r), kw)
  {
    match FindKeyword(text, kw, 0) {
      case None =>
      case Some(start) =>
        match FindStop(text, start + |kw|, dollar) {
          case None =>
          case Some(end) =>
            KeywordOpens(text, kw, start, end);
        }
    }
  }

  /** A slice that begins at an occurrence of the keyword starts with it once lower-cased. */
  lemma KeywordOpens(text: string, kw: string, start: nat, end: nat)
    requires KeywordAt(text, kw, start) && start + |kw| <= end <= |text|
    ensures StartsWith(Lower(text[start..end]), kw)
  {
    var r := text[start..end];
    assert r[..|kw|] == text[start..start + |kw|];
    assert Lower(r)[..|kw|] == Lower(r[..|kw|]);
  }

  /** A conclusion heading is always extracted: with `$` among the end conditions the
      pattern matches whenever the keyword occurs. */
  lemma ConclusionFoundWhenPresent(text: string, i: nat)
    requires KeywordAt(text, "conclusion", i)
    ensures ExtractSections(text).conclusion != ""
  {
    SearchSectionIsLeftmostShortest(text, "conclusion", true);
    assert IsMatch(text, "conclusion", true, i, |text|);
  }
}
