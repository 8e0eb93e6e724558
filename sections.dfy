/**
 * The fixed list of proposal sections, the page each one is written on, and
 * the section navigation of the editing view: the home page lists every
 * section, and a section page offers "previous", "next" (except on the last
 * section) and "home".
 */
module Sections {
  import opened Wrappers

  /** `RESEARCH_SECTIONS`, in proposal order. */
  const ResearchSections: seq<string> := [
    "1. 연구 목적",
    "2. 연구 배경",
    "3. 선정기준, 제외기준",
    "4. 대상자 수 및 산출근거",
    "5. 자료분석과 통계적 방법",
    "6. 연구방법",
    "7. 연구 과제명"
  ]

  /** The value of `current_section` that shows the home page. */
  const Home: string := "home"

  /** The places the editing view can show: the home page or one section page. */
  predicate IsPlace(s: string) {
    s == Home || s in ResearchSections
  }

  /** The section names are pairwise distinct, and none of them is "home". */
  lemma SectionsDistinct()
    ensures forall i, j :: 0 <= i < j < |ResearchSections| ==> ResearchSections[i] != ResearchSections[j]
    ensures Home !in ResearchSections
  {
    var rs := ResearchSections;
    // Each name is told apart from the others by its leading digit.
    forall i | 0 <= i < |rs| ensures rs[i][0] == ('1' as int + i) as char {
    }
    assert Home[0] == 'h';
  }

  /** `RESEARCH_SECTIONS.index(s)`: the position of the first occurrence. */
  function IndexOf(s: string): (i: nat)
    requires s in ResearchSections
    ensures i < |ResearchSections| && ResearchSections[i] == s
    ensures forall j :: 0 <= j < i ==> ResearchSections[j] != s
  {
    if ResearchSections[0] == s then 0
    else if ResearchSections[1] == s then 1
    else if ResearchSections[2] == s then 2
    else if ResearchSections[3] == s then 3
    else if ResearchSections[4] == s then 4
    else if ResearchSections[5] == s then 5
    else 6
  }

  /** `index` finds every section at its own position. */
  lemma IndexOfAt(i: nat)
    requires i < |ResearchSections|
    ensures IndexOf(ResearchSections[i]) == i
  {
    SectionsDistinct();
  }

  /** Where "previous" leads from a section page: the section before it, or the
      home page from the first section. */
  function Previous(current: string): (r: string)
    requires current in ResearchSections
    ensures IsPlace(r)
  {
    var i := IndexOf(current);
    if i > 0 then ResearchSections[i - 1] else Home
  }

  /** Where "next" leads from a section page: the section after it; on the last
      section the button is not offered. */
  function Next(current: string): (r: Option<string>)
    requires current in ResearchSections
    ensures r.Some? ==> r.value in ResearchSections
  {
    if current == ResearchSections[|ResearchSections| - 1] then None
    else
      var i := IndexOf(current);
      if i < |ResearchSections| - 1 then Some(ResearchSections[i + 1]) else None
  }

  /** "Previous" from the first section goes home, and from section i > 0 to
      section i - 1. */
  lemma PreviousMoves(i: nat)
    requires i < |ResearchSections|
    ensures Previous(ResearchSections[i]) == if i == 0 then Home else ResearchSections[i - 1]
  {
    IndexOfAt(i);
  }

  /** "Next" is offered exactly on the sections before the last, and moves from
      section i to section i + 1. */
  lemma NextMoves(i: nat)
    requires i < |ResearchSections|
    ensures Next(ResearchSections[i]).None? <==> i == |ResearchSections| - 1
    ensures i < |ResearchSections| - 1 ==> Next(ResearchSections[i]) == Some(ResearchSections[i + 1])
  {
    IndexOfAt(i);
  }

  /** "Next" then "previous" comes back to the same section; "previous" then "next"
      comes back too, except from the first section, whose "previous" is home. */
  lemma NextPreviousInverse(s: string)
    requires s in ResearchSections
    ensures Next(s).Some? ==> Previous(Next(s).value) == s
    ensures Previous(s) != Home ==> Next(Previous(s)) == Some(s)
  {
    var i := IndexOf(s);
    NextMoves(i);
    PreviousMoves(i);
    if i + 1 < |ResearchSections| {
      PreviousMoves(i + 1);
    }
    if i > 0 {
      NextMoves(i - 1);
    }
  }

  /** What each section page does differently. `undoCheckKey` is the history the
      undo button tests for emptiness, `modifySaveKey` the section a submitted
      modification is saved under, and `strictEdit` marks the page whose "save
      edit" refuses empty input and records only non-empty content. */
  datatype Page = Page(section: string, undoCheckKey: string, modifySaveKey: string, strictEdit: bool)

  /** The session key of a section's undo history. */
  function HistoryKey(section: string): string {
    section + "_history"
  }

  /** The seven section pages, in `RESEARCH_SECTIONS` order. The third page's undo
      tests a history key no page creates, the fifth page saves a modification
      under a section name that does not exist. */
  const Pages: seq<Page> := [
    Page(ResearchSections[0], HistoryKey(ResearchSections[0]), ResearchSections[0], false),
    Page(ResearchSections[1], HistoryKey(ResearchSections[1]), ResearchSections[1], false),
    Page(ResearchSections[2], "4. 선정기준, 제외기준_history", ResearchSections[2], false),
    Page(ResearchSections[3], HistoryKey(ResearchSections[3]), ResearchSections[3], false),
    Page(ResearchSections[4], HistoryKey(ResearchSections[4]), "6. 자료분석과 통계적 방법", false),
    Page(ResearchSections[5], HistoryKey(ResearchSections[5]), ResearchSections[5], false),
    Page(ResearchSections[6], HistoryKey(ResearchSections[6]), ResearchSections[6], true)
  ]

  /** The key the third page's undo tests. */
  const MisnamedHistory: string := "4. 선정기준, 제외기준_history"

  /** Every page writes the section of the same position; only the third page's undo
      looks at another history, only the fifth page saves modifications elsewhere,
      and only the last page has the strict "save edit". */
  lemma PagesShape()
    ensures |Pages| == |ResearchSections|
    ensures forall p :: 0 <= p < |Pages| ==> Pages[p].section == ResearchSections[p]
    ensures forall p :: 0 <= p < |Pages| ==> (Pages[p].undoCheckKey == HistoryKey(Pages[p].section) <==> p != 2)
    ensures forall p :: 0 <= p < |Pages| ==> (Pages[p].modifySaveKey == Pages[p].section <==> p != 4)
    ensures forall p :: 0 <= p < |Pages| ==> (Pages[p].strictEdit <==> p == 6)
    ensures forall p :: 0 <= p < |Pages| ==> Pages[p].modifySaveKey !in ResearchSections[..p] + ResearchSections[p + 1..]
  {
    SectionsDistinct();
    assert MisnamedHistory[0] == '4' && HistoryKey(ResearchSections[2])[0] == '3';
    assert "6. 자료분석과 통계적 방법"[0] == '6' && ResearchSections[4][0] == '5';
    assert "6. 자료분석과 통계적 방법"[3] != ResearchSections[5][3];
  }

  /** `PagesShape` for one page. */
  lemma PageAt(p: nat)
    requires p < |Pages|
    ensures Pages[p].section == ResearchSections[p]
    ensures Pages[p].undoCheckKey == HistoryKey(Pages[p].section) <==> p != 2
    ensures Pages[p].modifySaveKey == Pages[p].section <==> p != 4
    ensures Pages[p].strictEdit <==> p == 6
  {
    PagesShape();
  }

  /** No page creates the history the third page's undo tests: every page's own
      history key differs from it. */
  lemma MisnamedHistoryUnused()
    ensures forall p :: 0 <= p < |Pages| ==> HistoryKey(Pages[p].section) != MisnamedHistory
  {
    forall p | 0 <= p < |Pages| ensures HistoryKey(Pages[p].section) != MisnamedHistory {
      var k := HistoryKey(Pages[p].section);
      if p == 3 {
        assert k[3] != MisnamedHistory[3];
      } else {
        assert k[0] != MisnamedHistory[0];
      }
    }
  }
}
