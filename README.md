# IRB research-proposal assistant: a verified model of its core

The program is a Streamlit application that helps a researcher write an IRB
research proposal, one section at a time. A language model drafts each section,
and the user edits it, asks for modifications, undoes changes and moves between
the seven sections. A preview shows the collected proposal, and a DOCX template
can be filled with the sections' texts. Uploaded papers and Google Scholar
results supply the background section and its references.

This project models the deterministic core of `app.py` in Dafny and proves
properties of it:

- **The section store and its undo histories** (`store.dfy`, module `Store`):
  - research id → section → text, with `save_section_content`,
    `load_section_content` and `reset_session_state`;
  - every button of the seven section pages, as a step on a snapshot of the
    session and as a method of the `Session` class;
  - any sequence of button presses (`Run`);
  - `generate_full_content`.
- **Navigation** (`sections.dfy`, module `Sections`): the home page and the
  seven sections of `RESEARCH_SECTIONS`, with "previous", "next" and "home".
  This module also holds the per-page table of what each section page does
  differently.
- **The heading matcher and the template filler** (`headings.dfy`, module
  `Headings`): `normalize_text`, `find_best_match` over an array of paragraph
  texts, `fill_docx_template`, which appends to paragraphs in place, and the
  preview's section check.
- **Edit distance** (`editdistance.dfy`, module `EditDistance`): the two-row
  `levenshtein_distance`, `similarity` and `find_closest_match`.
- **The research-title parser** (`titles.dfy`, module `Titles`):
  `parse_and_validate_titles`, `is_valid_title_option`, `format_title_option`,
  and the title page's split of the stored options on blank lines.
- **Text extractors** (`extract.dfy`, module `Extract`): `extract_references`
  and `extract_sections`, whose regular expressions are written out as
  searches.
- **Search post-processing** (`scholar.dfy`, module `Scholar`):
  - `is_likely_paper`;
  - the grouping of Scholar results into "every keyword" and "some keyword";
  - the stable newest-first sort and the `max_results` cap.
- **Supporting modules:** `text.dfy` (module `Text`) models the Python string
  operations the code relies on (`strip`, `split`, `join`, `lower`, `in`,
  `startswith`, `<` on `str`). `wrappers.dfy` (module `Wrappers`) holds
  `Option`, `Result` and the exceptions the code can raise.

Outside calls become parameters:

- the language model's response;
- the reference-verified response;
- the formatted reference list;
- the Scholar results;
- the fresh research id;
- the sequence matcher's ratio.

The model keeps the program's slips as they are written, and proves what they
lead to:

- The third section's undo tests the history key
  `"4. 선정기준, 제외기준_history"`, which no page creates. Whatever was pressed
  before, that undo raises `KeyError`.
- The fifth section's modification is saved under `"6. 자료분석과 통계적 방법"`.
  The fifth section's own text is therefore left unchanged.
- The chosen research title is saved under `"1. 연구 과제명"`, which is not a
  section name. It therefore never reaches the full content.
- The background page stores the reference-verified response and pushes it to
  the history. It then overwrites it with the raw response.
- The parser keeps the blank line that separates two options of a response, at
  the end of the first option. After the options are joined by `"\n\n"` and
  split again, the next option starts with a newline and fails validation.
  The title page therefore stops offering it (`Titles.TrailingBlankLineHidesNext`).

## Model

| member | source | states |
|---|---|---|
| Store.Save | app.py:33-38 | after saving, the section reads back the new text; every other section of the research and every other research reads as before; the research entry is created when missing |
| Store.LoadMissing | app.py:41-47 | a research id with no entry, or a section never saved, reads back as "" |
| Store.Stored | app.py:33-38 | storing a text under the current id changes that section's text only and leaves the id and histories alone |
| Store.Opened | app.py:497-499 | a section page's opening lines create its history as an empty list when missing and keep every existing history |
| Store.Pushed | app.py:513-514 | `append` adds the text at the end of one history and leaves the other histories and the research data unchanged |
| Store.GenerateKeepsNonEmpty | app.py:505-519 | "generate" stores the response and pushes the replaced text only when it is not empty; the purpose page without input warns and stores nothing |
| Store.BackgroundKeepsVerified | app.py:717-728 | "generate" on the background page leaves the raw response as the text and pushes the verified response (when not empty), not the text it replaced |
| Store.ModificationReplaces | app.py:544-571 | a non-empty modification request on any page but the fifth pushes the current text and stores the response as the section's text |
| Store.FifthPageModificationMisfiled | app.py:1147-1176 | on the fifth page the current text is pushed but the response is stored under the sixth name, so the fifth section's text does not change |
| Store.SaveEditKeepsPrevious | app.py:587-592 | "save edit" on pages 1 to 6 pushes the displayed text even when it is "", stores the edit and changes no other section |
| Store.StrictSaveEdit | app.py:1416-1425 | on the title page an empty edit only warns; otherwise the edit is stored and the previous text is pushed only when it is not empty |
| Store.UndoPopsOrWarns | app.py:594-602 | undo with an empty history warns and changes nothing; otherwise it restores the top entry, removes exactly it from the history and changes no other section |
| Store.UndoAfterSaveEdit | app.py:587-602 | undo right after "save edit" restores every section's text and the histories as they were before the edit |
| Store.ThirdPageUndoRaises | app.py:960-961 | while the misnamed key is absent, the third page's undo raises KeyError and changes nothing but its page's opening |
| Store.ApplyKeepsMisnamedAbsent | app.py:961 | no button press creates the history key the third page's undo tests |
| Store.ThirdPageUndoAlwaysRaises | app.py:960-968 | after any sequence of button presses from a session without that key, the third page's undo raises KeyError |
| Store.ResetClears | app.py:21-27 | after a reset the research id is the fresh one, no history exists and every section reads "" |
| Store.EntriesSound | app.py:1818-1821 | every collected entry is a section of the list with its own stored, non-empty text |
| Store.EntriesComplete | app.py:1818-1821 | every section of the list that has text is collected |
| Store.EntriesOrdered | app.py:1818-1821 | the collected sections follow the order of the list, each at most once |
| Store.FullContent | app.py:1814-1834 | the full content is the non-empty sections in list order followed by "참고문헌": the stored references, or the formatted list when none is stored, which is then saved; every other section reads as before |
| Store.FullContentKeysDistinct | app.py:1814-1834 | no section name appears twice in the full content, so a dictionary holds every entry |
| Store.ChosenTitleNotInFullContent | app.py:1451-1452 | saving the chosen title does not change the full content |
| Store.EntriesSame | app.py:1818-1821 | the collected entries depend only on the sections' stored texts |
| Store.Session.SaveSectionContent | app.py:33-38 | the session's research data becomes the saved map; the id, histories, page and mode are unchanged |
| Store.Session.LoadSectionContent | app.py:41-47 | returns the stored text, or "" when the research or the section is missing |
| Store.Session.ResetSessionState | app.py:21-27 | keeps the API key, sets the fresh id, drops research data and histories, and goes back to the home page in edit mode |
| Store.Session.OpenPage | app.py:497-499 | the page's history exists afterwards and nothing else changes |
| Store.Session.Generate | app.py:505-519 | the session after "generate" on a plain page is the step's snapshot |
| Store.Session.GenerateBackground | app.py:670-732 | the session after "generate" on the background page is the step's snapshot |
| Store.Session.GenerateTitles | app.py:1375-1402 | the valid parsed options, joined by blank lines, become the title text; with no valid option nothing is stored |
| Store.Session.SubmitModification | app.py:544-575 | the session after a modification request is the step's snapshot |
| Store.Session.SaveEdit | app.py:587-592 | the session after "save edit" is the step's snapshot |
| Store.Session.Undo | app.py:594-602 | the session after undo is the step's snapshot, including the third page's KeyError |
| Store.Session.SelectTitle | app.py:1451-1452 | the chosen option is stored under "1. 연구 과제명" |
| Store.Session.CollectSections | app.py:1818-1821 | the loop collects exactly the entries of the non-empty sections, in list order |
| Store.Session.GenerateFullContent | app.py:1814-1834 | returns the full content and leaves the session as the full-content step says |
| Store.Session.SaveReferences | app.py:1755-1759 | the edited references are stored under "참고문헌" |
| Store.Session.OpenSection | app.py:1700-1703 | from the home page a section button shows that section |
| Store.Session.PreviousSection | app.py:1726-1732 | "previous" moves to the navigation's previous place and keeps the view valid |
| Store.Session.NextSection | app.py:1734-1740 | "next" is offered exactly when the navigation has a next section, and then moves there |
| Store.Session.GoHome | app.py:1743-1745 | "back to home" shows the home page |
| Store.Session.SetPreview | app.py:1676-1679 | the preview button and "back to editing" set the view mode |
| Sections.SectionsDistinct | app.py:307-316 | the seven section names are pairwise distinct and none is "home" |
| Sections.IndexOf | app.py:1727 | `index` returns the first position holding the section |
| Sections.IndexOfAt | app.py:1727 | `index` finds every section at its own position |
| Sections.PreviousMoves | app.py:1726-1732 | "previous" goes home from the first section and from section i > 0 to section i - 1 |
| Sections.NextMoves | app.py:1734-1740 | "next" is offered on every section but the last and moves from section i to section i + 1 |
| Sections.NextPreviousInverse | app.py:1726-1740 | "next" then "previous" returns to the same section, and so does "previous" then "next" unless "previous" went home |
| Sections.PagesShape | app.py:307-316 | page p writes section p; only the third page's undo tests another key, only the fifth saves a modification elsewhere, only the title page has the strict "save edit" |
| Sections.PageAt | app.py:960-961 | the same facts for one page |
| Sections.MisnamedHistoryUnused | app.py:961 | no page's own history key equals the key the third page's undo tests |
| Headings.Normalize | app.py:1843-1845 | the result is no longer than the text and holds only lower-case word characters other than digits |
| Headings.NormalizeConcat | app.py:1843-1845 | normalizing distributes over concatenation |
| Headings.NormalizeFixed | app.py:1843-1845 | text that is already lower-case word characters without digits is unchanged |
| Headings.NormalizeIdempotent | app.py:1843-1845 | normalizing twice is normalizing once |
| Headings.NormalizeDeletes | app.py:1843-1845 | a character that is a digit or not a word character, once lower-cased, is deleted |
| Headings.NormalizeLowers | app.py:1843-1845 | text whose lower-cased characters are all word characters other than digits comes out whole and lower-cased, so capitals are lowered, not dropped |
| Headings.NormalizeDeletesAll | app.py:1843-1845 | a stretch of characters that are all deleted normalizes to "" |
| Headings.NumberingIgnored | app.py:1843-1845 | a heading's numbering "1. " does not change its normalized text, so it does not affect matching |
| Headings.FirstExactFrom | app.py:1858-1860 | the first paragraph from k on whose normalized text equals the title |
| Headings.BestFrom | app.py:1862-1867 | the earliest paragraph of highest score among those containing the normalized title |
| Headings.BestMatchMeetsContract | app.py:1850-1873 | the matcher returns r exactly when r is the first exact match; or, with no exact match, the earliest highest-scoring containing paragraph whose score exceeds 0.7; or nothing |
| Headings.IsBestMatchUnique | app.py:1850-1873 | at most one result meets that description |
| Headings.ScannedResult | app.py:1869-1873 | a complete scan that met no exact match returns the kept paragraph when its score exceeds 0.7, and nothing otherwise |
| Headings.FindBestMatch | app.py:1850-1873 | the loop returns the matcher's result |
| Headings.FillSection | app.py:1889-1907 | one section leaves the number of paragraphs unchanged |
| Headings.Fill | app.py:1887-1909 | the fill keeps the paragraph count and reports every section |
| Headings.FillTemplate | app.py:1887-1909 | the array after the loop and the report are those of the fill, section by section against the mutated text |
| Headings.FillOne | app.py:1889-1907 | one pass of the loop mutates the array and reports as one section of the fill says |
| Headings.FillSectionAppends | app.py:1895-1898 | one section appends "\n" + content to the paragraph it reports and changes no other |
| Headings.FillAppendsOnly | app.py:1887-1909 | after the fill, each paragraph is its old text followed by exactly the runs of the sections reported for it, in order; an unmatched or rejected section does not stop the rest |
| Headings.UntouchedParagraph | app.py:1887-1909 | a paragraph no section was inserted into is unchanged |
| Headings.InsertedHeadingGrows | app.py:1895-1898 | a heading that matched exactly still contains the title after the run is appended, and no longer matches exactly when the content normalizes to something |
| Headings.NormalizeAfterHeading | app.py:1895-1898 | the appended newline normalizes away |
| Headings.CheckSections | app.py:1768-1772 | for each title, the text of the matched paragraph or "Not found" |
| Headings.ContainedRatio | app.py:1847-1848 | the sequence matcher's ratio for a title inside a paragraph is at least 0, and at most 1 when the title is no longer than the paragraph |
| Headings.ContainedRatioThreshold | app.py:1869-1870 | with that ratio, the 0.7 threshold is the integer test 13·|title| > 7·|paragraph| |
| Headings.ContainedRatioSelf | app.py:1847-1848 | a title has ratio 1 with itself |
| EditDistance.DistanceSymmetric | app.py:848-849 | the distance does not depend on the order of the arguments, which justifies the swap |
| EditDistance.DistanceBounds | app.py:847-861 | the distance lies between the difference of the lengths and the longer length |
| EditDistance.DistanceSelf | app.py:847-861 | a string is at distance 0 from itself |
| EditDistance.DistanceStep | app.py:856-859 | a table cell is the minimum of insertion, deletion and substitution |
| EditDistance.NextRow | app.py:853-860 | the inner loop builds the row of distances from the next prefix of the first string to every prefix of the second |
| EditDistance.LevenshteinDistance | app.py:847-861 | the two-row programme returns the edit distance |
| EditDistance.Similarity | app.py:843-845 | two empty strings divide by zero; otherwise the similarity is in [0, 1] and is 1 for equal strings |
| EditDistance.Keys | app.py:841 | every candidate's key is its similarity to the reference, in order, or the division by zero one of them raises |
| EditDistance.FirstMax | app.py:841 | `max` picks a greatest key, and every earlier key is strictly smaller |
| EditDistance.ClosestIndex | app.py:835-841 | an empty list raises; otherwise the first candidate of greatest similarity, or a division by zero when the reference and a candidate are both empty |
| EditDistance.FindClosestMatch | app.py:835-841 | the first field of that candidate, or IndexError when it has no fields |
| EditDistance.ExactFieldsChosen | app.py:835-841 | with `format_metadata` joining a candidate's fields by ", ", the first candidate that spells the (non-empty) reference exactly wins and its first field is returned |
| EditDistance.DistanceZero | app.py:847-860 | only equal strings are at distance zero |
| EditDistance.SimilarityOne | app.py:843-845 | similarity 1 means equal strings |
| Titles.GroupsPartition | app.py:1596-1604 | the groups are non-empty, laid end to end they are the stripped lines, a header opens every group after the first and never appears inside a group |
| Titles.GroupsShape | app.py:1596-1604 | the grouping is well formed for every input |
| Titles.ParseAndValidateTitles | app.py:1591-1606 | the loop returns the valid options, in input order, of the stripped lines grouped at the header lines |
| Titles.ParsedOptionShape | app.py:1591-1610 | every returned option is a group of two or more stripped response lines, joined by newlines, the first two non-empty |
| Titles.ValidOptionOfLines | app.py:1608-1610 | for stripped lines, validity is: two or more lines, the first two non-empty |
| Titles.FilterValid | app.py:1606 | keeps exactly the options that pass validation |
| Titles.FormatTitleOption | app.py:1612-1616 | two or more lines give the English and the Korean title; one line gives the option in a paragraph |
| Titles.DisplayRoundTrip | app.py:1437-1439 | valid options without a blank line or trailing newline, joined by blank lines, are offered again exactly |
| Titles.TrailingBlankLineHidesNext | app.py:1437-1439 | an option ending in a blank line pushes a newline onto the next piece, which fails validation |
| Extract.BodiesFrom | app.py:1621 | every found body is non-empty, holds no ']' and occurs bracketed in the text |
| Extract.BodiesFromCitation | app.py:1621 | a bracketed body with no '[' before it is the first body found |
| Extract.ExtractReferences | app.py:1619-1623 | every reference is a bracketed body of the text split on ','; `ReferencesOfCited` gives the converse |
| Extract.BodiesFromCited | app.py:1621 | in text made of '['-free stretches and bracketed bodies (non-empty, without ']'), the scan finds exactly those bodies, in order |
| Extract.ReferencesOfCited | app.py:1619-1623 | for such text the references are exactly the bodies split on ',': every citation is reported and nothing else |
| Extract.CitationRoundTrip | app.py:1619-1623 | references written as citations [a,b,...] anywhere between '['-free stretches are extracted as exactly the references written |
| Extract.SearchSectionIsLeftmostShortest | app.py:475-487 | the search returns the leftmost, then shortest, match, and "" exactly when the pattern matches nowhere |
| Extract.ExtractSections | app.py:469-491 | each extracted section is "" or starts, lower-cased, with its keyword |
| Extract.ConclusionFoundWhenPresent | app.py:486-487 | with "$" among its end conditions, the conclusion is found whenever the keyword occurs |
| Scholar.LowerField | app.py:425 | a list raises AttributeError and nothing else does; a missing field reads ""; the result is lower case and as long as the string; it is "book" exactly for the casings of "book" |
| Scholar.IsLikelyPaper | app.py:420-446 | AttributeError exactly when `pub_type` is a list, or when the title is a list and the cascade reaches it; True exactly when not a book and a journal, conference or pages entry, a paper keyword in the title, or a missing publisher; False exactly for a book or when every reason fails |
| Scholar.AuthorsTextFirstTwo | app.py:397-400 | the authors' text never names an author after the second: lists agreeing on the first two names (and on having more than two) read the same, a longer list reads as its first two and "..."; a string is kept, a missing author reads "No author" |
| Scholar.Classify | app.py:388-410 | a likely paper with `bib` and a title that is not a list is kept exactly when its title holds some or every keyword, as the entry of its title (or 'No title'), year (or 'No year'), authors and link (or '#'); it joins the first group exactly when the title holds every keyword; a likely paper without `bib` raises KeyError; everything else is skipped |
| Scholar.Place | app.py:404-408 | an entry is kept exactly when its lower-cased title holds some keyword or every keyword (every keyword holds for an empty query), and joins the first group exactly when it holds every keyword |
| Scholar.BucketsFromBound | app.py:389-410 | the groups never hold more than max_results entries together, the first only titles with every keyword, the second only titles with some |
| Scholar.KeepWellBucketed | app.py:405-408 | appending a kept entry keeps the groups well formed |
| Scholar.Insert | app.py:414 | inserting adds exactly one entry |
| Scholar.SortNewestFirstCorrect | app.py:414 | the sort is in non-increasing year order and a permutation of its input |
| Scholar.InsertSorted | app.py:414 | inserting into a sorted list keeps it sorted |
| Scholar.SortNewestFirstStable | app.py:414 | entries of the same year keep their input order |
| Scholar.SliceTo | app.py:418 | `[:n]` is a prefix of the list, of length `n` clamped to the list's length, or for negative `n` the length minus `-n` (at least 0) |
| Scholar.SearchGoogleScholar | app.py:383-418 | the method returns the search's result |
| Scholar.CollectGroups | app.py:388-410 | the loop returns the two groups, or the exception that ends it |
| Scholar.SearchResultsUncut | app.py:413-418 | the cap never cuts: the result is the sorted first group followed by the sorted second, with at most max_results entries |
| Scholar.SearchResultsOrdered | app.py:383-418 | every all-keyword title precedes every partial one, each group is newest first, and equal years keep their arrival order |
| Scholar.GroupsOrdered | app.py:413-417 | sorting each group and concatenating gives that order |
| Text.Strip | app.py:1597 | the result neither starts nor ends with whitespace, is "" exactly for blank input, and occurs in the input |
| Text.StripFramed | app.py:1597 | the input is a blank prefix, the stripped text, and a blank suffix, so `strip` removes only the outer blank runs and keeps everything between them |
| Text.StripIdempotent | app.py:1601 | stripping twice is stripping once |
| Text.Split | app.py:1592 | `split` gives at least one piece, none holding the separator |
| Text.JoinSplit | app.py:1592-1604 | joining the split pieces with the separator gives the input |
| Text.SplitJoin | app.py:1609 | splitting joined pieces without the separator gives the pieces |
| Text.SplitOn | app.py:1438 | splitting on "\n\n" gives at least one piece |
| Text.JoinSplitOn | app.py:1438 | joining the "\n\n" pieces gives the input |
| Text.Words | app.py:386 | `split()` gives non-empty runs without whitespace that together hold every non-whitespace character of the input, in order, and nothing else |
| Text.WordsOfJoin | app.py:386 | words joined by single spaces split back into the same words, so runs are never merged |
| Text.Lower | app.py:386 | `lower` works character by character and keeps the length |
| Text.LowerCharIdempotent | app.py:1845 | lowering twice is lowering once |
| Text.LexLessTransitive | app.py:414 | the order of strings is transitive |
| Text.LexLessTotal | app.py:414 | distinct strings are ordered one way or the other |

## Left out

- The Streamlit rendering, widgets, `st.rerun`, messages, character counters and the `show_modification_request*` flags. Session state is modelled as the fields of `Store.Session`.
- The sidebar's "🔄 초기화면으로" (app.py:1665-1668), which deletes every session key including the API key. Only the key-keeping `reset_session_state` is modelled.
- The language model (`initialize_anthropic_client`, `generate_ai_response`, `extract_pdf_metadata`) and the prompt templates. Each response is a parameter.
- `verify_and_correct_references`: it depends on Python's `str()` of nested values and on `str.replace`. The background step takes its result as the `verified` parameter.
- Both `format_references`. The later one calls the language model, and the formatted list is a parameter of `Store.FullContent`.
- `insert_content_after_section` (app.py:1875-1885): it is never called.
- PDF upload and text extraction, the DOCX load, save and download, `scholarly.search_pubs` (its results are a sequence parameter), and `uuid4` (a fresh id parameter).
- The unreachable CSS block after `return`.
- `section_contents`, which `reset_session_state` sets but nothing reads.
- The Scholar results list the page keeps, and its delete buttons.
- Headings.ContainedRatio: `SequenceMatcher.ratio` is a caller-supplied scorer. The closed form `2|t|/(|t|+|p|)` is stated only for a title contained in a paragraph. The junk heuristic for strings of 200 characters or more is not modelled.
- EditDistance.Similarity: computed with exact `real` arithmetic, not floating point.
- Text.LowerChar: covers ASCII and the Latin-1 capitals. Every other character is its own lower case.
- Headings.Normalize: `\w` and `\d` are modelled for ASCII, Latin-1 letters, Hangul and the CJK unified ideographs. Other scripts count as non-word characters.
- Extract.ExtractReferences: returns a set. Python returns a list in set iteration order, which is unspecified.
- Scholar.SortNewestFirst: `list.sort` sorts in place. The model sorts on values, as an insertion sort with the same stable, newest-first result.
- Headings.FillSection: a run text the document library refuses is modelled as leaving the paragraph unchanged. python-docx (not part of this model) writes a run's text piece by piece, so the leading line break, and any lines of the content before the refused piece, may already be in the paragraph when it raises. `Headings.FillAppendsOnly` ("exactly the reported runs") relies on this choice.
- Extract.ExtractSections: under `(?i)` Python's `re` also matches İ (U+0130), ı (U+0131), ſ (U+017F) and the Kelvin sign (U+212A) against `[A-Z]` and the keywords' i, s and k. `Extract.KeywordAt` and `Extract.StopAt` compare with ASCII letters only, so a keyword or a line start spelled with those characters is not matched.
- Scholar.IsLikelyPaper: fields are modelled as a string, a list of strings, or absent. Other value types are not modelled.
