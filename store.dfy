/**
 * The session state of the drafting assistant: the research data (research id
 * to section to text), the per-section undo histories, the current section and
 * the view mode. Each section page's buttons are a step on a `Snapshot` of the
 * stored data; the `Session` class performs the same steps by updating its
 * fields in place, as the session dictionary is updated.
 */
module Store {
  import opened Wrappers
  import opened Text
  import opened Sections
  import Titles

  /** A research id (a fresh UUID string in the program). */
  type Id = string

  /** `research_data`: research id to section to text. A session without
      `research_data` reads like one whose map is empty. */
  type ResearchData = map<Id, map<string, string>>

  /** `load_section_content`: the text stored for `section` under the current
      research id, or "" when there is none. */
  function Load(data: ResearchData, id: Id, section: string): string {
    if id in data && section in data[id] then data[id][section] else ""
  }

  /** `save_section_content`: creates the research entry when missing and stores
      the text. Read-your-write; every other section and research is unchanged. */
  function Save(data: ResearchData, id: Id, section: string, content: string): (r: ResearchData)
    ensures Load(r, id, section) == content
    ensures forall s :: s != section ==> Load(r, id, s) == Load(data, id, s)
    ensures forall other, s :: other != id ==> Load(r, other, s) == Load(data, other, s)
    ensures r.Keys == data.Keys + {id}
  {
    var entry := if id in data then data[id] else map[];
    data[id := entry[section := content]]
  }

  /** A research that was never saved to, or a section of it that was never saved,
      reads back as "". */
  lemma LoadMissing(data: ResearchData, id: Id, section: string)
    requires id !in data || section !in data[id]
    ensures Load(data, id, section) == ""
  {
  }

  /** The part of the session the section pages read and write. */
  datatype Snapshot = Snapshot(data: ResearchData, id: Id, histories: map<string, seq<string>>)

  /** How a button press ends. */
  datatype Outcome =
    | Done               // the action took effect
    | Warned             // a warning is shown and nothing is stored
    | Hidden             // the control is not on the page in this state
    | Crashed(error: Error)  // an exception escapes the page

  function Content(st: Snapshot, section: string): string {
    Load(st.data, st.id, section)
  }

  function Stored(st: Snapshot, section: string, content: string): (r: Snapshot)
    ensures r.id == st.id && r.histories == st.histories
    ensures Content(r, section) == content
    ensures forall s :: s != section ==> Content(r, s) == Content(st, s)
  {
    st.(data := Save(st.data, st.id, section, content))
  }

  /** The section page's opening lines: its history starts as an empty list the
      first time the page is shown. */
  function Opened(st: Snapshot, p: nat): (r: Snapshot)
    requires p < |Pages|
    ensures r.data == st.data && r.id == st.id
    ensures HistoryKey(Pages[p].section) in r.histories
    ensures forall k :: k in st.histories ==> k in r.histories && r.histories[k] == st.histories[k]
    ensures r.histories.Keys == st.histories.Keys + {HistoryKey(Pages[p].section)}
  {
    var key := HistoryKey(Pages[p].section);
    if key in st.histories then st else st.(histories := st.histories[key := []])
  }

  /** `history.append(text)`. */
  function Pushed(st: Snapshot, key: string, text: string): (r: Snapshot)
    requires key in st.histories
    ensures r.data == st.data && r.id == st.id && r.histories.Keys == st.histories.Keys
    ensures r.histories[key] == st.histories[key] + [text]
    ensures forall k :: k in st.histories && k != key ==> r.histories[k] == st.histories[k]
  {
    st.(histories := st.histories[key := st.histories[key] + [text]])
  }

  // ---------------------------------------------------------------------------
  // The buttons of the section pages, as steps on a snapshot
  // ---------------------------------------------------------------------------

  /** The pages whose "generate" button keeps the current text in the history
      when it is not empty and stores the new response: all but the background
      and the title pages. */
  predicate PlainGeneratePage(p: nat) {
    p == 0 || p == 2 || p == 3 || p == 4 || p == 5
  }

  /** "generate" on a plain page. The purpose page asks for some user input first. */
  function GenerateStep(st: Snapshot, p: nat, userInput: string, response: string): (Snapshot, Outcome)
    requires PlainGeneratePage(p)
  {
    var s0 := Opened(st, p);
    var section := Pages[p].section;
    if p == 0 && userInput == "" then (s0, Warned)
    else
      var current := Content(s0, section);
      var s1 := if current != "" then Pushed(s0, HistoryKey(section), current) else s0;
      (Stored(s1, section, response), Done)
  }

  /** "generate" on the background page: the verified response is stored, read
      back and kept in the history when not empty, then the raw response
      overwrites it. Without uploaded papers a warning is shown. */
  function GenerateBackgroundStep(st: Snapshot, havePdfs: bool, response: string, verified: string): (Snapshot, Outcome) {
    var s0 := Opened(st, 1);
    var section := Pages[1].section;
    if !havePdfs then (s0, Warned)
    else
      var s1 := Stored(s0, section, verified);
      var current := Content(s1, section);
      var s2 := if current != "" then Pushed(s1, HistoryKey(section), current) else s1;
      (Stored(s2, section, response), Done)
  }

  /** "generate" on the title page: the parsed valid options joined by blank lines
      replace the stored text, without touching the history; a response with no
      valid option shows an error. */
  function GenerateTitlesStep(st: Snapshot, response: string): (Snapshot, Outcome) {
    var s0 := Opened(st, 6);
    var options := Titles.ParsedOptions(response);
    if options != [] then (Stored(s0, Pages[6].section, Join(options, "\n\n")), Done)
    else (s0, Warned)
  }

  /** "submit modification": on pages 1 to 6 the form exists only while the section
      has text. A non-empty request keeps the current text in the history and
      stores the modified response under the page's modification key. */
  function ModifyStep(st: Snapshot, p: nat, request: string, response: string): (Snapshot, Outcome)
    requires p < |Pages|
  {
    var s0 := Opened(st, p);
    var section := Pages[p].section;
    var current := Content(s0, section);
    if p != 6 && current == "" then (s0, Hidden)
    else if request == "" then (s0, Warned)
    else (Stored(Pushed(s0, HistoryKey(section), current), Pages[p].modifySaveKey, response), Done)
  }

  /** "save edit": the text shown in the editor is kept in the history (even when it
      is "") and the edited text is stored. On the title page an empty edit is
      refused and only a non-empty previous text is kept. */
  function SaveEditStep(st: Snapshot, p: nat, edited: string): (Snapshot, Outcome)
    requires p < |Pages|
  {
    var s0 := Opened(st, p);
    var section := Pages[p].section;
    var content := Content(s0, section);
    if !Pages[p].strictEdit then
      (Stored(Pushed(s0, HistoryKey(section), content), section, edited), Done)
    else if edited == "" then (s0, Warned)
    else
      var s1 := if content != "" then Pushed(s0, HistoryKey(section), content) else s0;
      (Stored(s1, section, edited), Done)
  }

  /** "undo": the page tests its undo key's history (a missing key raises
      KeyError); when that history is empty a warning is shown, otherwise the last
      entry of the section's own history is popped (raising IndexError when that
      one is empty) and stored. */
  function UndoStep(st: Snapshot, p: nat): (Snapshot, Outcome)
    requires p < |Pages|
  {
    var s0 := Opened(st, p);
    var section := Pages[p].section;
    var check := Pages[p].undoCheckKey;
    var key := HistoryKey(section);
    if check !in s0.histories then (s0, Crashed(KeyMissing(check)))
    else if s0.histories[check] == [] then (s0, Warned)
    else
      var h := s0.histories[key];
      if h == [] then (s0, Crashed(IndexOutOfRange))
      else (Stored(s0.(histories := s0.histories[key := h[..|h| - 1]]), section, h[|h| - 1]), Done)
  }

  /** The section name the chosen title is saved under. */
  const ChosenTitleKey: string := "1. 연구 과제명"

  /** "save selected title" on the title page. */
  function SelectTitleStep(st: Snapshot, option: string): (Snapshot, Outcome) {
    (Stored(Opened(st, 6), ChosenTitleKey, option), Done)
  }

  /** The pseudo-section holding the reference list. */
  const ReferencesKey: string := "참고문헌"

  /** "save references" on the preview page. */
  function SaveReferencesStep(st: Snapshot, content: string): (Snapshot, Outcome) {
    (Stored(st, ReferencesKey, content), Done)
  }

  /** `reset_session_state`: every stored text and history is dropped and a fresh
      research id is current. */
  function ResetStep(st: Snapshot, freshId: Id): (Snapshot, Outcome) {
    (Snapshot(map[], freshId, map[]), Done)
  }

  // ---------------------------------------------------------------------------
  // Properties of the steps
  // ---------------------------------------------------------------------------

  /** "save edit" on pages 1 to 6 always keeps the text it replaces, even "". */
  lemma SaveEditKeepsPrevious(st: Snapshot, p: nat, edited: string)
    requires p < |Pages| - 1
    ensures var (r, o) := SaveEditStep(st, p, edited);
      var key := HistoryKey(Pages[p].section);
      o == Done && Content(r, Pages[p].section) == edited
      && r.histories[key] == Opened(st, p).histories[key] + [Content(st, Pages[p].section)]
      && forall s :: s != Pages[p].section ==> Content(r, s) == Content(st, s)
  {
    PageAt(p);
  }

  /** "save edit" on the title page: an empty edit changes nothing; otherwise a
      previous "" is not kept. */
  lemma StrictSaveEdit(st: Snapshot, edited: string)
    ensures var (r, o) := SaveEditStep(st, 6, edited);
      var key := HistoryKey(Pages[6].section);
      var before := Content(st, Pages[6].section);
      (edited == "" ==> r == Opened(st, 6) && o == Warned)
      && (edited != "" ==>
            o == Done && Content(r, Pages[6].section) == edited
            && r.histories[key] == Opened(st, 6).histories[key] + (if before != "" then [before] else []))
  {
  }

  /** Undo on a page whose undo tests its own history: an empty history shows a
      warning and changes nothing; otherwise the last entry becomes the text and
      the history is one shorter, and no other section changes. */
  lemma UndoPopsOrWarns(st: Snapshot, p: nat)
    requires p < |Pages| && p != 2
    ensures var (r, o) := UndoStep(st, p);
      var key := HistoryKey(Pages[p].section);
      var h := Opened(st, p).histories[key];
      (h == [] ==> r == Opened(st, p) && o == Warned)
      && (h != [] ==>
            o == Done && Content(r, Pages[p].section) == h[|h| - 1]
            && r.histories == Opened(st, p).histories[key := h[..|h| - 1]]
            && |r.histories[key]| == |h| - 1
            && forall s :: s != Pages[p].section ==> Content(r, s) == Content(st, s))
  {
    PageAt(p);
  }

  /** Undo right after "save edit" restores the text shown before the edit and the
      history as it was, on every page where both act (pages 1 to 7 except the
      third, whose undo never runs; on the title page only for a non-empty edit of
      a non-empty text). */
  lemma UndoAfterSaveEdit(st: Snapshot, p: nat, edited: string)
    requires p < |Pages| && p != 2
    requires Pages[p].strictEdit ==> edited != "" && Content(st, Pages[p].section) != ""
    ensures var (r, o) := UndoStep(SaveEditStep(st, p, edited).0, p);
      o == Done
      && r.histories == Opened(st, p).histories
      && forall s :: Content(r, s) == Content(st, s)
  {
    PageAt(p);
    var section := Pages[p].section;
    var key := HistoryKey(section);
    var s0 := Opened(st, p);
    var e := SaveEditStep(st, p, edited).0;
    assert e.histories == s0.histories[key := s0.histories[key] + [Content(st, section)]];
    assert Opened(e, p) == e;
    UndoPopsOrWarns(e, p);
    var h := e.histories[key];
    assert h[..|h| - 1] == s0.histories[key];
  }

  /** The third page's undo tests a history no page creates: while that key is absent
      it raises KeyError and changes nothing else. */
  lemma ThirdPageUndoRaises(st: Snapshot)
    requires MisnamedHistory !in st.histories
    ensures UndoStep(st, 2) == (Opened(st, 2), Crashed(KeyMissing(MisnamedHistory)))
  {
    MisnamedHistoryUnused();
  }

  /** A submitted modification on the fifth page keeps the section's text in its
      history but stores the response under a sixth name, so the fifth section's
      text is unchanged. */
  lemma FifthPageModificationMisfiled(st: Snapshot, request: string, response: string)
    requires request != "" && Content(st, Pages[4].section) != ""
    ensures var (r, o) := ModifyStep(st, 4, request, response);
      var key := HistoryKey(Pages[4].section);
      o == Done
      && Content(r, Pages[4].section) == Content(st, Pages[4].section)
      && Content(r, "6. 자료분석과 통계적 방법") == response
      && r.histories[key] == Opened(st, 4).histories[key] + [Content(st, Pages[4].section)]
  {
    PageAt(4);
  }

  /** On every other page a submitted modification replaces the section's text and
      keeps the previous text in the history. */
  lemma ModificationReplaces(st: Snapshot, p: nat, request: string, response: string)
    requires p < |Pages| && p != 4
    requires request != "" && (p != 6 ==> Content(st, Pages[p].section) != "")
    ensures var (r, o) := ModifyStep(st, p, request, response);
      var key := HistoryKey(Pages[p].section);
      o == Done
      && Content(r, Pages[p].section) == response
      && r.histories[key] == Opened(st, p).histories[key] + [Content(st, Pages[p].section)]
  {
    PageAt(p);
  }

  /** Generating on the background page keeps the verified response in the history,
      not the text it replaces, and leaves the raw response as the text. */
  lemma BackgroundKeepsVerified(st: Snapshot, response: string, verified: string)
    ensures var (r, o) := GenerateBackgroundStep(st, true, response, verified);
      var key := HistoryKey(Pages[1].section);
      o == Done
      && Content(r, Pages[1].section) == response
      && r.histories[key] == Opened(st, 1).histories[key] + (if verified != "" then [verified] else [])
  {
  }

  /** Generating on a plain page keeps the replaced text only when it is not empty;
      the purpose page without user input only warns. */
  lemma GenerateKeepsNonEmpty(st: Snapshot, p: nat, userInput: string, response: string)
    requires PlainGeneratePage(p)
    ensures p == 0 && userInput == "" ==> GenerateStep(st, p, userInput, response) == (Opened(st, p), Warned)
    ensures !(p == 0 && userInput == "") ==>
      var (r, o) := GenerateStep(st, p, userInput, response);
      var key := HistoryKey(Pages[p].section);
      var before := Content(st, Pages[p].section);
      o == Done
      && Content(r, Pages[p].section) == response
      && r.histories[key] == Opened(st, p).histories[key] + (if before != "" then [before] else [])
  {
  }

  /** After a reset no section has text and no history exists. */
  lemma ResetClears(st: Snapshot, freshId: Id)
    ensures var (r, _) := ResetStep(st, freshId);
      r.id == freshId && r.histories == map[] && forall s :: Content(r, s) == ""
  {
  }

  // ---------------------------------------------------------------------------
  // Any sequence of button presses
  // ---------------------------------------------------------------------------

  /** One button press. */
  datatype Action =
    | Generate(page: nat, userInput: string, response: string)
    | GenerateBackground(havePdfs: bool, response: string, verified: string)
    | GenerateTitles(response: string)
    | SubmitModification(page: nat, request: string, response: string)
    | SaveEdit(page: nat, edited: string)
    | Undo(page: nat)
    | SelectTitle(option: string)
    | SaveReferences(content: string)
    | Reset(freshId: Id)

  predicate WellFormed(a: Action) {
    match a
    case Generate(p, _, _) => PlainGeneratePage(p)
    case SubmitModification(p, _, _) => p < |Pages|
    case SaveEdit(p, _) => p < |Pages|
    case Undo(p) => p < |Pages|
    case _ => true
  }

  function Apply(st: Snapshot, a: Action): (Snapshot, Outcome)
    requires WellFormed(a)
  {
    match a
    case Generate(p, input, response) => GenerateStep(st, p, input, response)
    case GenerateBackground(pdfs, response, verified) => GenerateBackgroundStep(st, pdfs, response, verified)
    case GenerateTitles(response) => GenerateTitlesStep(st, response)
    case SubmitModification(p, request, response) => ModifyStep(st, p, request, response)
    case SaveEdit(p, edited) => SaveEditStep(st, p, edited)
    case Undo(p) => UndoStep(st, p)
    case SelectTitle(option) => SelectTitleStep(st, option)
    case SaveReferences(content) => SaveReferencesStep(st, content)
    case Reset(freshId) => ResetStep(st, freshId)
  }

  /** The snapshot after pressing the buttons of `actions` in order (an escaping
      exception ends that run of the page and leaves the session as it was). */
  function Run(st: Snapshot, actions: seq<Action>): Snapshot
    requires forall a :: a in actions ==> WellFormed(a)
    decreases |actions|
  {
    if |actions| == 0 then st
    else Run(Apply(st, actions[0]).0, actions[1..])
  }

  /** The session every run starts from: no research data, no history. */
  function Fresh(id: Id): Snapshot {
    Snapshot(map[], id, map[])
  }

  /** No button creates the history key the third page's undo tests. */
  lemma ApplyKeepsMisnamedAbsent(st: Snapshot, a: Action)
    requires WellFormed(a) && MisnamedHistory !in st.histories
    ensures MisnamedHistory !in Apply(st, a).0.histories
  {
    match a
    case Generate(p, _, _) => PageKeyNotMisnamed(st, p, Apply(st, a).0);
    case GenerateBackground(_, _, _) => PageKeyNotMisnamed(st, 1, Apply(st, a).0);
    case GenerateTitles(_) => PageKeyNotMisnamed(st, 6, Apply(st, a).0);
    case SubmitModification(p, _, _) => PageKeyNotMisnamed(st, p, Apply(st, a).0);
    case SaveEdit(p, _) => PageKeyNotMisnamed(st, p, Apply(st, a).0);
    case Undo(p) => PageKeyNotMisnamed(st, p, Apply(st, a).0);
    case SelectTitle(_) => PageKeyNotMisnamed(st, 6, Apply(st, a).0);
    case SaveReferences(_) =>
    case Reset(_) =>
  }

  /** A step that adds at most its page's history key leaves the misnamed key out. */
  lemma PageKeyNotMisnamed(st: Snapshot, p: nat, r: Snapshot)
    requires p < |Pages| && MisnamedHistory !in st.histories
    requires r.histories.Keys <= st.histories.Keys + {HistoryKey(Pages[p].section)}
    ensures MisnamedHistory !in r.histories
  {
    MisnamedHistoryUnused();
  }

  /** Whatever the user has pressed since the session started, the third page's undo
      raises KeyError. */
  lemma {:induction false} ThirdPageUndoAlwaysRaises(st: Snapshot, actions: seq<Action>)
    requires forall a :: a in actions ==> WellFormed(a)
    requires MisnamedHistory !in st.histories
    ensures MisnamedHistory !in Run(st, actions).histories
    ensures UndoStep(Run(st, actions), 2).1 == Crashed(KeyMissing(MisnamedHistory))
    decreases |actions|
  {
    if |actions| > 0 {
      ApplyKeepsMisnamedAbsent(st, actions[0]);
      assert forall a :: a in actions[1..] ==> a in actions;
      ThirdPageUndoAlwaysRaises(Apply(st, actions[0]).0, actions[1..]);
    }
    ThirdPageUndoRaises(Run(st, actions));
  }

  // ---------------------------------------------------------------------------
  // generate_full_content
  // ---------------------------------------------------------------------------

  /** The sections of `secs` that have text, with their text, in the order of `secs`. */
  function Entries(st: Snapshot, secs: seq<string>): seq<(string, string)>
    decreases |secs|
  {
    if secs == [] then []
    else
      var last := secs[|secs| - 1];
      var text := Content(st, last);
      Entries(st, secs[..|secs| - 1]) + (if text != "" then [(last, text)] else [])
  }

  /** No name occurs twice in `secs`. */
  predicate Distinct(secs: seq<string>) {
    forall i, j :: 0 <= i < j < |secs| ==> secs[i] != secs[j]
  }

  /** The position of the first occurrence of `s` in `secs`. */
  function Position(secs: seq<string>, s: string): (i: nat)
    requires s in secs
    ensures i < |secs| && secs[i] == s
    ensures forall j :: 0 <= j < i ==> secs[j] != s
  {
    if secs[0] == s then 0 else 1 + Position(secs[1..], s)
  }

  /** Every entry is a section of `secs` with its own, non-empty text. */
  lemma {:induction false} EntriesSound(st: Snapshot, secs: seq<string>)
    ensures forall e :: e in Entries(st, secs) ==> e.0 in secs && e.1 == Content(st, e.0) && e.1 != ""
    decreases |secs|
  {
    if secs != [] {
      var n := |secs| - 1;
      EntriesSound(st, secs[..n]);
      forall s | s in secs[..n] ensures s in secs {
      }
    }
  }

  /** Every section of `secs` that has text has its entry. */
  lemma {:induction false} EntriesComplete(st: Snapshot, secs: seq<string>)
    ensures forall s :: s in secs && Content(st, s) != "" ==> (s, Content(st, s)) in Entries(st, secs)
    decreases |secs|
  {
    if secs != [] {
      var n := |secs| - 1;
      EntriesComplete(st, secs[..n]);
      forall s | s in secs && Content(st, s) != "" ensures (s, Content(st, s)) in Entries(st, secs) {
        if s != secs[n] {
          var m := Position(secs, s);
          assert secs[..n][m] == s;
        }
      }
    }
  }

  /** The names of `r` occur in `secs`, in strictly increasing position. */
  predicate InOrder(secs: seq<string>, r: seq<(string, string)>) {
    forall i, j :: 0 <= i < j < |r| ==>
      r[i].0 in secs && r[j].0 in secs && Position(secs, r[i].0) < Position(secs, r[j].0)
  }

  /** With no name twice in `secs`, the entries come in strictly increasing position
      in `secs`. */
  lemma {:induction false} EntriesOrdered(st: Snapshot, secs: seq<string>)
    requires Distinct(secs)
    ensures InOrder(secs, Entries(st, secs))
    decreases |secs|
  {
    if secs != [] {
      var n := |secs| - 1;
      var prefix := secs[..n];
      var rest := Entries(st, prefix);
      EntriesOrdered(st, prefix);
      EntriesSound(st, prefix);
      var text := Content(st, secs[n]);
      var r := rest + (if text != "" then [(secs[n], text)] else []);
      assert r == Entries(st, secs);
      assert Position(secs, secs[n]) == n;
      forall i, j | 0 <= i < j < |r|
        ensures r[i].0 in secs && r[j].0 in secs && Position(secs, r[i].0) < Position(secs, r[j].0)
      {
        assert r[i] == rest[i] && rest[i] in rest;
        PositionPrefix(secs, n, r[i].0);
        if j < |rest| {
          assert r[j] == rest[j] && rest[j] in rest;
          PositionPrefix(secs, n, r[j].0);
        } else {
          assert r[j].0 == secs[n];
        }
      }
    }
  }

  /** A name of the first `n` positions has the same first position in the prefix. */
  lemma PositionPrefix(secs: seq<string>, n: nat, s: string)
    requires n <= |secs| && s in secs[..n]
    ensures s in secs && Position(secs, s) == Position(secs[..n], s) < n
  {
    var i := Position(secs[..n], s);
    assert secs[i] == s;
  }

  /** One more section of the loop in `generate_full_content`. */
  lemma EntriesSnoc(st: Snapshot, secs: seq<string>, k: nat)
    requires k < |secs|
    ensures var text := Content(st, secs[k]);
      Entries(st, secs[..k + 1]) == Entries(st, secs[..k]) + (if text != "" then [(secs[k], text)] else [])
  {
    assert secs[..k + 1][..k] == secs[..k];
  }

  /** What `generate_full_content` returns and the session after it: the sections
      with text in list order, then the references, which are the saved list when
      there is one and otherwise the formatted list joined by newlines, which is
      then saved. */
  function FullContent(st: Snapshot, formatted: seq<string>): (r: (seq<(string, string)>, Snapshot))
    ensures |r.0| >= 1 && r.0[|r.0| - 1].0 == ReferencesKey
    ensures r.0[..|r.0| - 1] == Entries(st, ResearchSections)
    ensures r.0[|r.0| - 1].1 == (if Content(st, ReferencesKey) != "" then Content(st, ReferencesKey)
                                 else Join(formatted, "\n"))
    ensures Content(r.1, ReferencesKey) == r.0[|r.0| - 1].1
    ensures forall s :: s != ReferencesKey ==> Content(r.1, s) == Content(st, s)
  {
    var entries := Entries(st, ResearchSections);
    var saved := Content(st, ReferencesKey);
    if saved != "" then (entries + [(ReferencesKey, saved)], st)
    else
      var joined := Join(formatted, "\n");
      (entries + [(ReferencesKey, joined)], Stored(st, ReferencesKey, joined))
  }

  /** The references come last and nowhere else, and no name appears twice. */
  lemma FullContentKeysDistinct(st: Snapshot, formatted: seq<string>)
    ensures var r := FullContent(st, formatted).0;
      forall i, j :: 0 <= i < j < |r| ==> r[i].0 != r[j].0
  {
    var r := FullContent(st, formatted).0;
    var entries := Entries(st, ResearchSections);
    assert r == entries + [r[|r| - 1]];
    SectionsDistinct();
    EntriesSound(st, ResearchSections);
    EntriesOrdered(st, ResearchSections);
    ReferencesNotASection();
    forall i, j | 0 <= i < j < |r| ensures r[i].0 != r[j].0 {
      assert r[i] == entries[i] && entries[i] in entries;
      if j < |entries| {
        assert r[j] == entries[j];
        assert Position(ResearchSections, entries[i].0) < Position(ResearchSections, entries[j].0);
      }
    }
  }

  lemma ReferencesNotASection()
    ensures ReferencesKey !in ResearchSections
  {
    forall m | 0 <= m < |ResearchSections| ensures ResearchSections[m] != ReferencesKey {
      assert ResearchSections[m][0] != ReferencesKey[0];
    }
  }

  /** The chosen title is saved under a name that is neither a section nor the
      references, so it never reaches the full content or the filled template. */
  lemma ChosenTitleNotInFullContent(st: Snapshot, option: string, formatted: seq<string>)
    ensures FullContent(SelectTitleStep(st, option).0, formatted).0 == FullContent(st, formatted).0
  {
    var st1 := SelectTitleStep(st, option).0;
    assert ChosenTitleKey !in ResearchSections by {
      forall m | 0 <= m < |ResearchSections| ensures ResearchSections[m] != ChosenTitleKey {
        if m == 0 {
          assert ResearchSections[m][6] != ChosenTitleKey[6];
        } else {
          assert ResearchSections[m][0] != ChosenTitleKey[0];
        }
      }
    }
    assert ChosenTitleKey != ReferencesKey by {
      assert ChosenTitleKey[0] != ReferencesKey[0];
    }
    EntriesSame(st, st1, ResearchSections);
  }

  /** Two snapshots whose sections read the same give the same entries. */
  lemma {:induction false} EntriesSame(st: Snapshot, st1: Snapshot, secs: seq<string>)
    requires forall s :: s in secs ==> Content(st1, s) == Content(st, s)
    ensures Entries(st1, secs) == Entries(st, secs)
    decreases |secs|
  {
    if secs != [] {
      var n := |secs| - 1;
      forall s | s in secs[..n] ensures s in secs {
      }
      EntriesSame(st, st1, secs[..n]);
    }
  }

  // ---------------------------------------------------------------------------
  // The session object
  // ---------------------------------------------------------------------------

  /** `st.session_state`, for the keys the model covers. */
  class Session {
    var apiKey: string
    var researchData: ResearchData
    var currentId: Id
    var histories: map<string, seq<string>>
    var currentSection: string
    var previewMode: bool

    function State(): Snapshot
      reads this
    {
      Snapshot(researchData, currentId, histories)
    }

    /** The editing view always shows the home page or one section page. */
    predicate Valid()
      reads this
    {
      IsPlace(currentSection)
    }

    /** A session right after the API key was accepted: a fresh research id, the
        home page in the editing view. */
    constructor (key: string, freshId: Id)
      ensures Valid()
      ensures State() == Fresh(freshId) && apiKey == key
      ensures currentSection == Home && !previewMode
    {
      apiKey := key;
      researchData := map[];
      currentId := freshId;
      histories := map[];
      currentSection := Home;
      previewMode := false;
    }

    /** `save_section_content`. */
    method SaveSectionContent(section: string, content: string)
      modifies this
      ensures researchData == Save(old(researchData), currentId, section, content)
      ensures currentId == old(currentId) && histories == old(histories)
      ensures currentSection == old(currentSection) && previewMode == old(previewMode) && apiKey == old(apiKey)
    {
      if currentId !in researchData {
        researchData := researchData[currentId := map[]];
      }
      researchData := researchData[currentId := researchData[currentId][section := content]];
    }

    /** `load_section_content`. */
    method LoadSectionContent(section: string) returns (content: string)
      ensures content == Load(researchData, currentId, section)
      ensures content == "" <== currentId !in researchData || section !in researchData[currentId]
    {
      content := "";
      if currentId in researchData {
        var entry := researchData[currentId];
        if section in entry {
          content := entry[section];
        }
      }
    }

    /** `reset_session_state`: keeps the API key, starts a fresh research id and
        comes back to the home page in the editing view. */
    method ResetSessionState(freshId: Id)
      modifies this
      ensures Valid()
      ensures State() == ResetStep(old(State()), freshId).0
      ensures apiKey == old(apiKey) && currentSection == Home && !previewMode
    {
      researchData := map[];
      histories := map[];
      currentId := freshId;
      currentSection := Home;
      previewMode := false;
    }

    /** The opening lines of section page `p`. */
    method OpenPage(p: nat)
      requires p < |Pages|
      modifies this
      ensures State() == Opened(old(State()), p)
      ensures currentSection == old(currentSection) && previewMode == old(previewMode) && apiKey == old(apiKey)
    {
      var key := HistoryKey(Pages[p].section);
      if key !in histories {
        histories := histories[key := []];
      }
    }

    method Push(key: string, text: string)
      requires key in histories
      modifies this
      ensures State() == Pushed(old(State()), key, text)
      ensures currentSection == old(currentSection) && previewMode == old(previewMode) && apiKey == old(apiKey)
    {
      histories := histories[key := histories[key] + [text]];
    }

    /** "generate" on a plain section page. */
    method Generate(p: nat, userInput: string, response: string) returns (outcome: Outcome)
      requires PlainGeneratePage(p)
      modifies this
      ensures (State(), outcome) == GenerateStep(old(State()), p, userInput, response)
      ensures currentSection == old(currentSection) && previewMode == old(previewMode) && apiKey == old(apiKey)
    {
      var section := Pages[p].section;
      OpenPage(p);
      if p == 0 && userInput == "" {
        return Warned;
      }
      var current := LoadSectionContent(section);
      if current != "" {
        Push(HistoryKey(section), current);
      }
      SaveSectionContent(section, response);
      outcome := Done;
    }

    /** "generate" on the background page. */
    method GenerateBackground(havePdfs: bool, response: string, verified: string) returns (outcome: Outcome)
      modifies this
      ensures (State(), outcome) == GenerateBackgroundStep(old(State()), havePdfs, response, verified)
      ensures currentSection == old(currentSection) && previewMode == old(previewMode) && apiKey == old(apiKey)
    {
      var section := Pages[1].section;
      OpenPage(1);
      if !havePdfs {
        return Warned;
      }
      SaveSectionContent(section, verified);
      var current := LoadSectionContent(section);
      if current != "" {
        Push(HistoryKey(section), current);
      }
      SaveSectionContent(section, response);
      outcome := Done;
    }

    /** "generate" on the title page. */
    method GenerateTitles(response: string) returns (outcome: Outcome)
      modifies this
      ensures (State(), outcome) == GenerateTitlesStep(old(State()), response)
      ensures currentSection == old(currentSection) && previewMode == old(previewMode) && apiKey == old(apiKey)
    {
      OpenPage(6);
      var options := Titles.ParseAndValidateTitles(response);
      if options != [] {
        SaveSectionContent(Pages[6].section, Join(options, "\n\n"));
        outcome := Done;
      } else {
        outcome := Warned;
      }
    }

    /** "submit modification" on section page `p`. */
    method SubmitModification(p: nat, request: string, response: string) returns (outcome: Outcome)
      requires p < |Pages|
      modifies this
      ensures (State(), outcome) == ModifyStep(old(State()), p, request, response)
      ensures currentSection == old(currentSection) && previewMode == old(previewMode) && apiKey == old(apiKey)
    {
      var section := Pages[p].section;
      OpenPage(p);
      var current := LoadSectionContent(section);
      if p != 6 && current == "" {
        return Hidden;
      }
      if request == "" {
        return Warned;
      }
      Push(HistoryKey(section), current);
      SaveSectionContent(Pages[p].modifySaveKey, response);
      outcome := Done;
    }

    /** "save edit" on section page `p`. */
    method SaveEdit(p: nat, edited: string) returns (outcome: Outcome)
      requires p < |Pages|
      modifies this
      ensures (State(), outcome) == SaveEditStep(old(State()), p, edited)
      ensures currentSection == old(currentSection) && previewMode == old(previewMode) && apiKey == old(apiKey)
    {
      var section := Pages[p].section;
      OpenPage(p);
      var content := LoadSectionContent(section);
      if !Pages[p].strictEdit {
        Push(HistoryKey(section), content);
      } else if edited == "" {
        return Warned;
      } else if content != "" {
        Push(HistoryKey(section), content);
      }
      SaveSectionContent(section, edited);
      outcome := Done;
    }

    /** "undo" on section page `p`. */
    method Undo(p: nat) returns (outcome: Outcome)
      requires p < |Pages|
      modifies this
      ensures (State(), outcome) == UndoStep(old(State()), p)
      ensures currentSection == old(currentSection) && previewMode == old(previewMode) && apiKey == old(apiKey)
    {
      var section := Pages[p].section;
      var key := HistoryKey(section);
      OpenPage(p);
      var check := Pages[p].undoCheckKey;
      if check !in histories {
        return Crashed(KeyMissing(check));
      }
      if histories[check] == [] {
        return Warned;
      }
      var h := histories[key];
      if h == [] {
        return Crashed(IndexOutOfRange);
      }
      var previous := h[|h| - 1];
      histories := histories[key := h[..|h| - 1]];
      SaveSectionContent(section, previous);
      outcome := Done;
    }

    /** "save selected title" on the title page. */
    method SelectTitle(option: string) returns (outcome: Outcome)
      modifies this
      ensures (State(), outcome) == SelectTitleStep(old(State()), option)
      ensures currentSection == old(currentSection) && previewMode == old(previewMode) && apiKey == old(apiKey)
    {
      OpenPage(6);
      SaveSectionContent(ChosenTitleKey, option);
      outcome := Done;
    }

    /** The loop of `generate_full_content`: the sections with text, in list order. */
    method CollectSections() returns (sections: seq<(string, string)>)
      ensures sections == Entries(State(), ResearchSections)
    {
      sections := [];
      var k := 0;
      while k < |ResearchSections|
        invariant 0 <= k <= |ResearchSections|
        invariant sections == Entries(State(), ResearchSections[..k])
        decreases |ResearchSections| - k
      {
        var text := LoadSectionContent(ResearchSections[k]);
        EntriesSnoc(State(), ResearchSections, k);
        if text != "" {
          sections := sections + [(ResearchSections[k], text)];
        }
        k := k + 1;
      }
      assert ResearchSections[..k] == ResearchSections;
    }

    /** `generate_full_content`, given the formatted reference list. */
    method GenerateFullContent(formatted: seq<string>) returns (sections: seq<(string, string)>)
      modifies this
      ensures sections == FullContent(old(State()), formatted).0
      ensures forall s :: Content(State(), s) == Content(FullContent(old(State()), formatted).1, s)
      ensures currentId == old(currentId) && histories == old(histories)
      ensures currentSection == old(currentSection) && previewMode == old(previewMode) && apiKey == old(apiKey)
    {
      sections := CollectSections();
      var saved := LoadSectionContent(ReferencesKey);
      if saved != "" {
        sections := sections + [(ReferencesKey, saved)];
      } else {
        var joined := Join(formatted, "\n");
        sections := sections + [(ReferencesKey, joined)];
        SaveSectionContent(ReferencesKey, joined);
      }
    }

    /** "save references" on the preview page. */
    method SaveReferences(content: string)
      modifies this
      ensures (State(), Done) == SaveReferencesStep(old(State()), content)
      ensures currentSection == old(currentSection) && previewMode == old(previewMode) && apiKey == old(apiKey)
    {
      SaveSectionContent(ReferencesKey, content);
    }

    // -------------------------------------------------------------------------
    // Navigation
    // -------------------------------------------------------------------------

    /** A section button on the home page. */
    method OpenSection(section: string)
      requires Valid() && currentSection == Home && section in ResearchSections
      modifies this`currentSection
      ensures Valid() && currentSection == section
    {
      currentSection := section;
    }

    /** "previous section" on a section page. */
    method PreviousSection()
      requires Valid() && currentSection != Home
      modifies this`currentSection
      ensures Valid() && currentSection == Previous(old(currentSection))
    {
      var i := IndexOf(currentSection);
      if i > 0 {
        currentSection := ResearchSections[i - 1];
      } else {
        currentSection := Home;
      }
    }

    /** "next section" on a section page; not offered on the last section. */
    method NextSection() returns (offered: bool)
      requires Valid() && currentSection != Home
      modifies this`currentSection
      ensures Valid()
      ensures offered <==> Next(old(currentSection)).Some?
      ensures currentSection == if offered then Next(old(currentSection)).value else old(currentSection)
    {
      if currentSection == ResearchSections[|ResearchSections| - 1] {
        return false;
      }
      var i := IndexOf(currentSection);
      offered := i < |ResearchSections| - 1;
      if offered {
        currentSection := ResearchSections[i + 1];
      }
    }

    /** "back to home" on a section page. */
    method GoHome()
      requires Valid()
      modifies this`currentSection
      ensures Valid() && currentSection == Home
    {
      currentSection := Home;
    }

    /** "preview full content" in the sidebar and "back to editing" on the preview page. */
    method SetPreview(preview: bool)
      modifies this`previewMode
      ensures previewMode == preview
    {
      previewMode := preview;
    }
  }
}
