/**
 * The post-processing `search_google_scholar` applies to the publications the
 * scholarly iterator yields: the `is_likely_paper` filter, the entry each kept
 * publication becomes, the split into titles holding every query keyword and
 * titles holding some, the newest-first stable sort of each group and the cap
 * on the number of results. The iterator itself is the input sequence.
 */
module Scholar {
  import opened Wrappers
  import opened Text

  /** A field value as the scholarly records carry it: a string or a list of strings. */
  datatype Value = Str(s: string) | Names(names: seq<string>)

  /** The `bib` dictionary of a result: the fields the code reads by value, and the
      set of other keys present (`journal`, `conference`, `pages`, `publisher`, ...). */
  datatype Bib = Bib(pubType: Option<Value>, title: Option<Value>, author: Option<Value>,
                     pubYear: Option<string>, keys: set<string>)

  /** A search result: its `bib` dictionary, when it has one, and its `pub_url`. */
  datatype Pub = Pub(bib: Option<Bib>, pubUrl: Option<string>)

  /** An entry of the returned list. */
  datatype Entry = Entry(title: string, year: string, authors: string, link: string)

  const PaperKeywords: seq<string> := ["study", "analysis", "investigation", "research", "paper", "article"]

  predicate AnyIn(words: seq<string>, s: string) {
    exists k | 0 <= k < |words| :: Contains(s, words[k])
  }

  predicate AllIn(words: seq<string>, s: string) {
    forall k | 0 <= k < |words| :: Contains(s, words[k])
  }

  /** `s` is `w` written in some mix of upper and lower case. */
  predicate CasingOf(s: string, w: string) {
    |s| == |w| && forall k :: 0 <= k < |s| ==> LowerChar(s[k]) == w[k]
  }

  /** `bib.get(key, '').lower()`: calling `lower` on a list raises AttributeError. */
  function LowerField(v: Option<Value>): (r: Result<string>)
    ensures r.Err? <==> v.Some? && v.value.Names?
    ensures r.Err? ==> r.error == NotAString
    ensures v.None? ==> r == Ok("")
    ensures r.Ok? && v.Some? ==> |r.value| == |v.value.s| && Lower(r.value) == r.value
    ensures r == Ok("book") <==> v.Some? && v.value.Str? && CasingOf(v.value.s, "book")
  {
    match v
    case None => Ok("")
    case Some(Str(s)) =>
      LowerStable(s);
      LowerCasing(s, "book");
      Ok(Lower(s))
    case Some(Names(_)) => Err(NotAString)
  }

  /** A string lowers to `w` exactly when it is a casing of `w`. */
  lemma LowerCasing(s: string, w: string)
    ensures Lower(s) == w <==> CasingOf(s, w)
  {
    if CasingOf(s, w) {
      assert Lower(s) == w;
    }
  }

  /** A lowered string lowers to itself. */
  lemma LowerStable(s: string)
    ensures Lower(Lower(s)) == Lower(s)
  {
    forall k | 0 <= k < |s| ensures Lower(Lower(s))[k] == Lower(s)[k] {
      LowerCharIdempotent(s[k]);
    }
  }

  function BibOf(p: Pub): Bib {
    match p.bib
    case Some(b) => b
    case None => Bib(None, None, None, None, {})
  }

  /** The `bib` names a journal, a conference or pages. */
  predicate HasVenue(b: Bib) {
    "journal" in b.keys || "conference" in b.keys || "pages" in b.keys
  }

  /** `is_likely_paper`: not a book; then a journal, conference or pages entry, a
      paper keyword in the title, or the absence of a publisher makes it a paper.
      A list where a string is lowered raises AttributeError. */
  function IsLikelyPaper(p: Pub): (r: Result<bool>)
    ensures var b := BibOf(p);
      r.Err? <==> LowerField(b.pubType).Err?
                  || (LowerField(b.pubType) != Ok("book") && !HasVenue(b) && LowerField(b.title).Err?)
    ensures r.Err? ==> r.error == NotAString
    ensures var b := BibOf(p);
      r == Ok(true) <==> (LowerField(b.pubType).Ok? && LowerField(b.pubType) != Ok("book")
        && (HasVenue(b)
            || (LowerField(b.title).Ok?
                && (AnyIn(PaperKeywords, LowerField(b.title).value) || "publisher" !in b.keys))))
    ensures var b := BibOf(p);
      r == Ok(false) <==> (LowerField(b.pubType) == Ok("book")
        || (LowerField(b.pubType).Ok? && !HasVenue(b) && LowerField(b.title).Ok?
            && !AnyIn(PaperKeywords, LowerField(b.title).value) && "publisher" in b.keys))
  {
    var bib := BibOf(p);
    match LowerField(bib.pubType)
    case Err(e) => Err(e)
    case Ok(kind) =>
      if kind == "book" then Ok(false)
      else if "journal" in bib.keys || "conference" in bib.keys then Ok(true)
      else if "pages" in bib.keys then Ok(true)
      else
        match LowerField(bib.title)
        case Err(e) => Err(e)
        case Ok(title) =>
          if AnyIn(PaperKeywords, title) then Ok(true)
          else if "publisher" !in bib.keys then Ok(true)
          else Ok(false)
  }

  /** The authors as the entry shows them: a list of more than two is cut to its
      first two, joined by ", " and followed by "..."; a string is kept. */
  function AuthorsText(v: Option<Value>): string {
    match v
    case None => "No author"
    case Some(Str(s)) => s
    case Some(Names(ns)) => if |ns| > 2 then Join(ns[..2], ", ") + "..." else Join(ns, ", ")
  }

  function Min(a: int, b: int): int {
    if a <= b then a else b
  }

  /** The authors' text never names an author after the second: two lists that agree
      on their first two names, and are both longer than two or both not, read the
      same; a longer list reads as its first two names followed by "...". A string
      is shown as it is, and a missing author as "No author". */
  lemma AuthorsTextFirstTwo(ns: seq<string>, ms: seq<string>)
    requires ns[..Min(2, |ns|)] == ms[..Min(2, |ms|)]
    requires |ns| > 2 <==> |ms| > 2
    ensures AuthorsText(Some(Names(ns))) == AuthorsText(Some(Names(ms)))
    ensures |ns| > 2 ==> AuthorsText(Some(Names(ns))) == AuthorsText(Some(Names(ns[..2]))) + "..."
    ensures forall s :: AuthorsText(Some(Str(s))) == s
    ensures AuthorsText(None) == "No author"
  {
    if |ns| <= 2 {
      assert ns[..|ns|] == ns && ms[..|ms|] == ms;
    } else {
      assert ns[..2][..2] == ns[..2];
    }
  }

  /** What the loop does with one publication. */
  datatype Step =
    | Skip                                   // not a paper, no keyword, or an AttributeError
    | Crash(error: Error)                    // an exception the loop does not catch
    | Keep(entry: Entry, allKeywords: bool)  // appended to one of the two groups

  /** The title a kept entry shows: the `bib`'s title string, or 'No title'. */
  function TitleOr(b: Bib): string {
    match b.title
    case Some(Str(t)) => t
    case _ => "No title"
  }

  /** What the loop does with one publication: a likely paper with a `bib` whose
      title is not a list is kept exactly when its lower-cased title holds every
      keyword or some keyword, as the entry of its title, year, authors and link;
      a likely paper without `bib` raises KeyError; everything else is skipped. */
  function Classify(p: Pub, keywords: seq<string>): (r: Step)
    ensures r.Crash? <==> IsLikelyPaper(p) == Ok(true) && p.bib.None?
    ensures r.Crash? ==> r.error == KeyMissing("bib")
    ensures r.Keep? <==> (IsLikelyPaper(p) == Ok(true) && p.bib.Some?
      && !(p.bib.value.title.Some? && p.bib.value.title.value.Names?)
      && (AnyIn(keywords, Lower(TitleOr(p.bib.value))) || AllIn(keywords, Lower(TitleOr(p.bib.value)))))
    ensures r.Keep? ==> (r.allKeywords <==> AllIn(keywords, Lower(r.entry.title)))
    ensures r.Keep? ==> var b := p.bib.value;
      r.entry.title == TitleOr(b)
      && r.entry.year == (if b.pubYear.Some? then b.pubYear.value else "No year")
      && r.entry.authors == AuthorsText(b.author)
      && r.entry.link == (if p.pubUrl.Some? then p.pubUrl.value else "#")
  {
    match IsLikelyPaper(p)
    case Err(_) => Skip
    case Ok(false) => Skip
    case Ok(true) =>
      match p.bib
      case None => Crash(KeyMissing("bib"))
      case Some(bib) =>
        match bib.title
        case Some(Names(_)) => Skip
        case Some(Str(title)) => Place(MakeEntry(p, bib, title), keywords)
        case None => Place(MakeEntry(p, bib, "No title"), keywords)
  }

  /** The entry for a kept publication: missing year, authors and link read
      'No year', 'No author' and '#'. */
  function MakeEntry(p: Pub, bib: Bib, title: string): Entry {
    var year := if bib.pubYear.Some? then bib.pubYear.value else "No year";
    var link := if p.pubUrl.Some? then p.pubUrl.value else "#";
    Entry(title, year, AuthorsText(bib.author), link)
  }

  /** The group an entry joins: every keyword in the lower-cased title, some of them,
      or none (the entry is dropped). */
  function Place(e: Entry, keywords: seq<string>): (r: Step)
    ensures r.Keep? ==> r.entry == e
    ensures r.Crash? == false
    ensures r.Keep? <==> AnyIn(keywords, Lower(e.title)) || AllIn(keywords, Lower(e.title))
    ensures r.Keep? ==> (r.allKeywords <==> AllIn(keywords, Lower(e.title)))
  {
    var lowered := Lower(e.title);
    if AllIn(keywords, lowered) then Keep(e, true)
    else if AnyIn(keywords, lowered) then Keep(e, false)
    else Skip
  }

  /** The entry's lower-cased title holds every keyword: it joins the first group. */
  predicate HasEvery(keywords: seq<string>, e: Entry) {
    AllIn(keywords, Lower(e.title))
  }

  /** The entry's lower-cased title holds some keyword but not every one: it joins
      the second group. */
  predicate HasSomeOnly(keywords: seq<string>, e: Entry) {
    !AllIn(keywords, Lower(e.title)) && AnyIn(keywords, Lower(e.title))
  }

  function Count(buckets: (seq<Entry>, seq<Entry>)): nat {
    |buckets.0| + |buckets.1|
  }

  /** The two groups after the loop has looked at `pubs[k..]`, starting from `buckets`;
      the loop stops as soon as the groups together hold `maxResults` entries. */
  function BucketsFrom(pubs: seq<Pub>, keywords: seq<string>, maxResults: int, k: nat,
                       buckets: (seq<Entry>, seq<Entry>)): (r: Result<(seq<Entry>, seq<Entry>)>)
    requires k <= |pubs|
    decreases |pubs| - k
  {
    if k == |pubs| || Count(buckets) >= maxResults then Ok(buckets)
    else
      var step := Classify(pubs[k], keywords);
      if step.Crash? then Err(step.error)
      else BucketsFrom(pubs, keywords, maxResults, k + 1, Grow(buckets, step))
  }

  /** The groups after one more publication: a kept entry joins the first group when
      its title holds every keyword, the second group otherwise. */
  function Grow(buckets: (seq<Entry>, seq<Entry>), step: Step): (seq<Entry>, seq<Entry>) {
    if step.Keep? then
      if step.allKeywords then (buckets.0 + [step.entry], buckets.1) else (buckets.0, buckets.1 + [step.entry])
    else buckets
  }

  /** The groups never hold more than `maxResults` entries together (none at all when
      `maxResults` is not positive); the first holds only titles with every keyword,
      the second only titles with some but not every keyword. */
  predicate WellBucketed(keywords: seq<string>, maxResults: int, buckets: (seq<Entry>, seq<Entry>)) {
    Count(buckets) <= (if maxResults > 0 then maxResults else 0)
    && (forall e :: e in buckets.0 ==> HasEvery(keywords, e))
    && (forall e :: e in buckets.1 ==> HasSomeOnly(keywords, e))
  }

  /** The loop keeps the groups well formed to the end. */
  lemma {:induction false} BucketsFromBound(pubs: seq<Pub>, keywords: seq<string>, maxResults: int, k: nat,
                                            buckets: (seq<Entry>, seq<Entry>))
    requires k <= |pubs|
    requires WellBucketed(keywords, maxResults, buckets)
    ensures BucketsFrom(pubs, keywords, maxResults, k, buckets).Ok? ==>
      WellBucketed(keywords, maxResults, BucketsFrom(pubs, keywords, maxResults, k, buckets).value)
    decreases |pubs| - k
  {
    if k < |pubs| && Count(buckets) < maxResults {
      var step := Classify(pubs[k], keywords);
      if step.Keep? {
        KeepWellBucketed(keywords, maxResults, buckets, step);
      }
      if !step.Crash? {
        BucketsFromBound(pubs, keywords, maxResults, k + 1, Grow(buckets, step));
      }
    }
  }

  lemma KeepWellBucketed(keywords: seq<string>, maxResults: int, buckets: (seq<Entry>, seq<Entry>), step: Step)
    requires WellBucketed(keywords, maxResults, buckets) && Count(buckets) < maxResults
    requires step.Keep?
    requires step.allKeywords <==> AllIn(keywords, Lower(step.entry.title))
    requires step.allKeywords || AnyIn(keywords, Lower(step.entry.title))
    ensures WellBucketed(keywords, maxResults, Grow(buckets, step))
  {
  }

  // ---------------------------------------------------------------------------
  // The newest-first stable sort (`list.sort(key=year, reverse=True)`)
  // ---------------------------------------------------------------------------

  /** `xs` is in non-increasing year order. */
  predicate NewestFirst(xs: seq<Entry>) {
    forall i, j :: 0 <= i < j < |xs| ==> !LexLess(xs[i].year, xs[j].year)
  }

  /** Insert `x` after every entry whose year is not older than its own. */
  function Insert(sorted: seq<Entry>, x: Entry): (r: seq<Entry>)
    ensures |r| == |sorted| + 1
    ensures multiset(r) == multiset(sorted) + multiset{x}
    decreases |sorted|
  {
    if |sorted| == 0 || !LexLess(sorted[|sorted| - 1].year, x.year) then sorted + [x]
    else
      assert sorted == sorted[..|sorted| - 1] + [sorted[|sorted| - 1]];
      Insert(sorted[..|sorted| - 1], x) + [sorted[|sorted| - 1]]
  }

  /** The stable newest-first order of `xs`. */
  function SortNewestFirst(xs: seq<Entry>): (r: seq<Entry>)
    ensures |r| == |xs|
    ensures multiset(r) == multiset(xs)
    decreases |xs|
  {
    if |xs| == 0 then []
    else
      assert xs == xs[..|xs| - 1] + [xs[|xs| - 1]];
      Insert(SortNewestFirst(xs[..|xs| - 1]), xs[|xs| - 1])
  }

  lemma {:induction false} InsertSorted(sorted: seq<Entry>, x: Entry)
    requires NewestFirst(sorted)
    ensures NewestFirst(Insert(sorted, x))
    decreases |sorted|
  {
    var r := Insert(sorted, x);
    if |sorted| == 0 || !LexLess(sorted[|sorted| - 1].year, x.year) {
      forall i | 0 <= i < |sorted| ensures !LexLess(sorted[i].year, x.year) {
        if i < |sorted| - 1 {
          NotOlderTransitive(sorted[i].year, sorted[|sorted| - 1].year, x.year);
        }
      }
    } else {
      var init := sorted[..|sorted| - 1];
      var last := sorted[|sorted| - 1];
      InsertSorted(init, x);
      var s := Insert(init, x);
      assert multiset(s) == multiset(init) + multiset{x};
      forall i | 0 <= i < |s| ensures !LexLess(s[i].year, last.year) {
        assert s[i] in multiset(s);
        if s[i] == x {
          LexLessAsymmetric(last.year, x.year);
        } else {
          assert s[i] in multiset(init);
          var j :| 0 <= j < |init| && init[j] == s[i];
          assert sorted[j] == s[i];
        }
      }
    }
  }

  lemma NotOlderTransitive(a: string, b: string, c: string)
    requires !LexLess(a, b) && !LexLess(b, c)
    ensures !LexLess(a, c)
  {
    if LexLess(a, c) {
      if a == b {
      } else if b == c {
      } else {
        LexLessTotal(a, b);
        LexLessTotal(b, c);
        LexLessTransitive(b, a, c);
      }
    }
  }

  lemma LexLessAsymmetric(a: string, b: string)
    requires LexLess(a, b)
    ensures !LexLess(b, a)
  {
    if LexLess(b, a) {
      LexLessTransitive(a, b, a);
      LexLessIrreflexive(a);
    }
  }

  /** The sorted list is in newest-first order and holds exactly the input entries. */
  lemma {:induction false} SortNewestFirstCorrect(xs: seq<Entry>)
    ensures NewestFirst(SortNewestFirst(xs))
    ensures multiset(SortNewestFirst(xs)) == multiset(xs)
    decreases |xs|
  {
    if |xs| > 0 {
      SortNewestFirstCorrect(xs[..|xs| - 1]);
      InsertSorted(SortNewestFirst(xs[..|xs| - 1]), xs[|xs| - 1]);
    }
  }

  /** The entries of one year, in their order. */
  function OfYear(xs: seq<Entry>, y: string): seq<Entry> {
    if |xs| == 0 then []
    else OfYear(xs[..|xs| - 1], y) + (if xs[|xs| - 1].year == y then [xs[|xs| - 1]] else [])
  }

  lemma {:induction false} OfYearConcat(a: seq<Entry>, b: seq<Entry>, y: string)
    ensures OfYear(a + b, y) == OfYear(a, y) + OfYear(b, y)
    decreases |b|
  {
    if |b| == 0 {
      assert a + b == a;
    } else {
      assert (a + b)[..|a + b| - 1] == a + b[..|b| - 1];
      OfYearConcat(a, b[..|b| - 1], y);
    }
  }

  lemma OfYearSnoc(xs: seq<Entry>, e: Entry, y: string)
    ensures OfYear(xs + [e], y) == OfYear(xs, y) + (if e.year == y then [e] else [])
  {
    assert (xs + [e])[..|xs|] == xs;
  }

  lemma NewestFirstPrefix(xs: seq<Entry>, n: nat)
    requires NewestFirst(xs) && n <= |xs|
    ensures NewestFirst(xs[..n])
  {
    assert forall i :: 0 <= i < n ==> xs[..n][i] == xs[i];
  }

  lemma {:induction false} InsertStable(sorted: seq<Entry>, x: Entry, y: string)
    requires NewestFirst(sorted)
    ensures OfYear(Insert(sorted, x), y) == OfYear(sorted, y) + (if x.year == y then [x] else [])
    decreases |sorted|
  {
    if |sorted| == 0 || !LexLess(sorted[|sorted| - 1].year, x.year) {
      OfYearSnoc(sorted, x, y);
    } else {
      var init := sorted[..|sorted| - 1];
      var last := sorted[|sorted| - 1];
      NewestFirstPrefix(sorted, |sorted| - 1);
      InsertStable(init, x, y);
      OfYearSnoc(Insert(init, x), last, y);
      OfYearSnoc(init, last, y);
      assert init + [last] == sorted;
      LexLessIrreflexive(x.year);
      assert last.year != x.year;
    }
  }

  /** Stability: for every year, the entries of that year keep their input order. */
  lemma {:induction false} SortNewestFirstStable(xs: seq<Entry>, y: string)
    ensures OfYear(SortNewestFirst(xs), y) == OfYear(xs, y)
    decreases |xs|
  {
    if |xs| > 0 {
      var init := xs[..|xs| - 1];
      SortNewestFirstStable(init, y);
      SortNewestFirstCorrect(init);
      InsertStable(SortNewestFirst(init), xs[|xs| - 1], y);
    }
  }

  // ---------------------------------------------------------------------------
  // search_google_scholar
  // ---------------------------------------------------------------------------

  /** Python's `s[:n]`: the prefix of `s` of length `n`, clamped to the length of
      `s`, or for a negative `n` the prefix that leaves out the last `-n` entries. */
  function SliceTo(s: seq<Entry>, n: int): (r: seq<Entry>)
    ensures r <= s
    ensures |r| == if n >= 0 then Min(n, |s|) else if |s| + n >= 0 then |s| + n else 0
  {
    if n >= |s| then s
    else if n >= 0 then s[..n]
    else if |s| + n >= 0 then s[..|s| + n]
    else []
  }

  /** What `search_google_scholar` returns for the results `pubs`, or the exception
      it raises. */
  function SearchResults(pubs: seq<Pub>, query: string, maxResults: int): Result<seq<Entry>> {
    match BucketsFrom(pubs, Words(Lower(query)), maxResults, 0, ([], []))
    case Err(e) => Err(e)
    case Ok(b) => Ok(SliceTo(SortNewestFirst(b.0) + SortNewestFirst(b.1), maxResults))
  }

  /** `search_google_scholar` over the results the scholarly iterator would yield. */
  method SearchGoogleScholar(pubs: seq<Pub>, query: string, maxResults: int) returns (r: Result<seq<Entry>>)
    ensures r == SearchResults(pubs, query, maxResults)
  {
    var keywords := Words(Lower(query));
    var groups := CollectGroups(pubs, keywords, maxResults);
    if groups.Err? {
      return Err(groups.error);
    }
    var allKeywords := SortNewestFirst(groups.value.0);
    var partialKeywords := SortNewestFirst(groups.value.1);
    var finalResults := allKeywords + partialKeywords;
    r := Ok(SliceTo(finalResults, maxResults));
  }

  /** The loop of `search_google_scholar`: the two groups, or the exception a kept
      publication without `bib` raises. */
  method CollectGroups(pubs: seq<Pub>, keywords: seq<string>, maxResults: int)
    returns (r: Result<(seq<Entry>, seq<Entry>)>)
    ensures r == BucketsFrom(pubs, keywords, maxResults, 0, ([], []))
  {
    var allKeywords: seq<Entry> := [];
    var partialKeywords: seq<Entry> := [];
    var k := 0;
    while k < |pubs| && |allKeywords| + |partialKeywords| < maxResults
      invariant 0 <= k <= |pubs|
      invariant BucketsFrom(pubs, keywords, maxResults, 0, ([], []))
             == BucketsFrom(pubs, keywords, maxResults, k, (allKeywords, partialKeywords))
      decreases |pubs| - k
    {
      ghost var before := (allKeywords, partialKeywords);
      var step := Classify(pubs[k], keywords);
      BucketsFromStep(pubs, keywords, maxResults, k, before);
      match step {
        case Crash(e) =>
          return Err(e);
        case Skip =>
        case Keep(entry, all) =>
          if all {
            allKeywords := allKeywords + [entry];
          } else {
            partialKeywords := partialKeywords + [entry];
          }
      }
      assert (allKeywords, partialKeywords) == Grow(before, step);
      k := k + 1;
    }
    r := Ok((allKeywords, partialKeywords));
  }

  /** One publication more: an exception ends the loop, anything else moves on with
      the grown groups. */
  lemma BucketsFromStep(pubs: seq<Pub>, keywords: seq<string>, maxResults: int, k: nat,
                        buckets: (seq<Entry>, seq<Entry>))
    requires k < |pubs| && Count(buckets) < maxResults
    ensures var step := Classify(pubs[k], keywords);
      BucketsFrom(pubs, keywords, maxResults, k, buckets)
        == if step.Crash? then Err(step.error) else BucketsFrom(pubs, keywords, maxResults, k + 1, Grow(buckets, step))
  {
  }

  /** The cap never cuts: the groups already hold at most `maxResults` entries, so the
      list is the sorted first group followed by the sorted second group. */
  lemma SearchResultsUncut(pubs: seq<Pub>, query: string, maxResults: int)
    requires SearchResults(pubs, query, maxResults).Ok?
    ensures var b := BucketsFrom(pubs, Words(Lower(query)), maxResults, 0, ([], [])).value;
      var r := SearchResults(pubs, query, maxResults).value;
      r == SortNewestFirst(b.0) + SortNewestFirst(b.1)
      && |r| == Count(b) <= (if maxResults > 0 then maxResults else 0)
      && WellBucketed(Words(Lower(query)), maxResults, b)
  {
    var keywords := Words(Lower(query));
    BucketsFromBound(pubs, keywords, maxResults, 0, ([], []));
    var b := BucketsFrom(pubs, keywords, maxResults, 0, ([], [])).value;
    var sa, sp := SortNewestFirst(b.0), SortNewestFirst(b.1);
    assert |sa| == |multiset(sa)| == |multiset(b.0)| == |b.0|;
    assert |sp| == |multiset(sp)| == |multiset(b.1)| == |b.1|;
  }

  /** `r` is the group `a` of entries with every keyword followed by the group `p` of
      entries with only some, each group newest first and, within one year, in the
      order the search produced it. */
  ghost predicate OrderedResult(keywords: seq<string>, a: seq<Entry>, p: seq<Entry>, r: seq<Entry>) {
    |r| == |a| + |p|
    && (forall i :: 0 <= i < |a| ==> HasEvery(keywords, r[i]))
    && (forall i :: |a| <= i < |r| ==> HasSomeOnly(keywords, r[i]))
    && NewestFirst(r[..|a|]) && NewestFirst(r[|a|..])
    && (forall y :: OfYear(r[..|a|], y) == OfYear(a, y) && OfYear(r[|a|..], y) == OfYear(p, y))
  }

  /** The list holds at most `maxResults` entries and is ordered as `OrderedResult`
      says, for the two groups the loop collected. */
  lemma SearchResultsOrdered(pubs: seq<Pub>, query: string, maxResults: int)
    requires SearchResults(pubs, query, maxResults).Ok?
    ensures var r := SearchResults(pubs, query, maxResults).value;
      var b := BucketsFrom(pubs, Words(Lower(query)), maxResults, 0, ([], [])).value;
      |r| <= (if maxResults > 0 then maxResults else 0)
      && OrderedResult(Words(Lower(query)), b.0, b.1, r)
  {
    SearchResultsUncut(pubs, query, maxResults);
    var b := BucketsFrom(pubs, Words(Lower(query)), maxResults, 0, ([], [])).value;
    GroupsOrdered(Words(Lower(query)), b.0, b.1);
  }

  lemma GroupsOrdered(keywords: seq<string>, a: seq<Entry>, p: seq<Entry>)
    requires forall e :: e in a ==> HasEvery(keywords, e)
    requires forall e :: e in p ==> HasSomeOnly(keywords, e)
    ensures OrderedResult(keywords, a, p, SortNewestFirst(a) + SortNewestFirst(p))
  {
    var r := SortNewestFirst(a) + SortNewestFirst(p);
    assert r[..|a|] == SortNewestFirst(a) && r[|a|..] == SortNewestFirst(p);
    GroupsKeywords(keywords, a, p);
    SortNewestFirstCorrect(a);
    SortNewestFirstCorrect(p);
    forall y ensures OfYear(r[..|a|], y) == OfYear(a, y) && OfYear(r[|a|..], y) == OfYear(p, y) {
      SortNewestFirstStable(a, y);
      SortNewestFirstStable(p, y);
    }
  }

  lemma GroupsKeywords(keywords: seq<string>, a: seq<Entry>, p: seq<Entry>)
    requires forall e :: e in a ==> HasEvery(keywords, e)
    requires forall e :: e in p ==> HasSomeOnly(keywords, e)
    ensures var r := SortNewestFirst(a) + SortNewestFirst(p);
      (forall i :: 0 <= i < |a| ==> HasEvery(keywords, r[i]))
      && (forall i :: |a| <= i < |r| ==> HasSomeOnly(keywords, r[i]))
  {
    var sa, sp := SortNewestFirst(a), SortNewestFirst(p);
    SortedEvery(keywords, a);
    SortedSomeOnly(keywords, p);
    var r := sa + sp;
    forall i | 0 <= i < |a| ensures HasEvery(keywords, r[i]) {
      assert r[i] == sa[i];
    }
    forall i | |a| <= i < |r| ensures HasSomeOnly(keywords, r[i]) {
      assert r[i] == sp[i - |a|];
    }
  }

  lemma SortedEvery(keywords: seq<string>, xs: seq<Entry>)
    requires forall e :: e in xs ==> HasEvery(keywords, e)
    ensures forall i :: 0 <= i < |xs| ==> HasEvery(keywords, SortNewestFirst(xs)[i])
  {
    SortedMembers(xs);
    var s := SortNewestFirst(xs);
    forall i | 0 <= i < |xs| ensures HasEvery(keywords, s[i]) {
      assert s[i] in s;
    }
  }

  lemma SortedSomeOnly(keywords: seq<string>, xs: seq<Entry>)
    requires forall e :: e in xs ==> HasSomeOnly(keywords, e)
    ensures forall i :: 0 <= i < |xs| ==> HasSomeOnly(keywords, SortNewestFirst(xs)[i])
  {
    SortedMembers(xs);
    var s := SortNewestFirst(xs);
    forall i | 0 <= i < |xs| ensures HasSomeOnly(keywords, s[i]) {
      assert s[i] in s;
    }
  }

  /** Every entry of the sorted list is an entry of the input. */
  lemma SortedMembers(xs: seq<Entry>)
    ensures |SortNewestFirst(xs)| == |xs|
    ensures forall e :: e in SortNewestFirst(xs) ==> e in xs
  {
    var s := SortNewestFirst(xs);
    forall e | e in s ensures e in xs {
      assert e in multiset(s);
    }
  }
}
