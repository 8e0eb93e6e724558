/**
 * The research-title page's option handling: `parse_and_validate_titles`,
 * `is_valid_title_option`, `format_title_option`, and the `"\n\n"` split the
 * page applies to the stored options before offering them for selection.
 */
module Titles {
  import opened Text

  /** A stripped line that opens a new option: it starts with "1.", "2." or "3.". */
  predicate IsHeader(line: string) {
    StartsWith(line, "1.") || StartsWith(line, "2.") || StartsWith(line, "3.")
  }

  /** The stripped lines of a response. */
  function StrippedLines(response: string): (r: seq<string>)
    ensures |r| == |Split(response, '\n')|
  {
    StripAll(Split(response, '\n'))
  }

  /** Every line stripped, in order. */
  function StripAll(lines: seq<string>): (r: seq<string>)
    ensures |r| == |lines|
  {
    if |lines| == 0 then [] else StripAll(lines[..|lines| - 1]) + [Strip(lines[|lines| - 1])]
  }

  lemma {:induction false} StripAllAt(lines: seq<string>, k: nat)
    requires k < |lines|
    ensures StripAll(lines)[k] == Strip(lines[k])
  {
    if k < |lines| - 1 {
      StripAllAt(lines[..|lines| - 1], k);
    }
  }

  /** How the loop of `parse_and_validate_titles` groups lines: each line joins
      the current group, and a header line first closes a non-empty current group. */
  function Groups(lines: seq<string>): (g: seq<seq<string>>)
    ensures |lines| > 0 <==> |g| > 0
    decreases |lines|
  {
    if |lines| == 0 then []
    else
      AddLine(Groups(lines[..|lines| - 1]), lines[|lines| - 1])
  }

  /** One iteration of the loop: line `x` opens a new group when it is a header or
      when there is no group yet, and joins the last group otherwise. */
  function AddLine(g: seq<seq<string>>, x: string): (r: seq<seq<string>>)
    ensures |r| > 0
  {
    if IsHeader(x) || |g| == 0 then g + [[x]]
    else g[..|g| - 1] + [g[|g| - 1] + [x]]
  }

  /** All groups laid end to end. */
  function Flatten(g: seq<seq<string>>): seq<string> {
    if |g| == 0 then [] else Flatten(g[..|g| - 1]) + g[|g| - 1]
  }

  /** The grouping is a partition of the lines in order: every line lands in exactly
      one group, no group is empty, every group after the first starts with a header,
      and a header appears only at the start of a group. */
  lemma GroupsPartition(lines: seq<string>)
    ensures Flatten(Groups(lines)) == lines
    ensures forall k :: 0 <= k < |Groups(lines)| ==> |Groups(lines)[k]| > 0
    ensures forall k :: 0 < k < |Groups(lines)| ==> IsHeader(Groups(lines)[k][0])
    ensures forall k, m :: 0 <= k < |Groups(lines)| && 0 < m < |Groups(lines)[k]| ==> !IsHeader(Groups(lines)[k][m])
  {
    GroupsFlatten(lines);
    GroupsShape(lines);
  }

  lemma {:induction false} GroupsFlatten(lines: seq<string>)
    ensures Flatten(Groups(lines)) == lines
    decreases |lines|
  {
    if |lines| > 0 {
      var init := lines[..|lines| - 1];
      GroupsFlatten(init);
      AddLineFlatten(Groups(init), lines[|lines| - 1]);
      assert lines == init + [lines[|lines| - 1]];
    }
  }

  lemma AddLineFlatten(g: seq<seq<string>>, x: string)
    ensures Flatten(AddLine(g, x)) == Flatten(g) + [x]
  {
    var r := AddLine(g, x);
    if IsHeader(x) || |g| == 0 {
      assert r[..|r| - 1] == g;
    } else {
      var h := g[..|g| - 1];
      assert r[..|r| - 1] == h;
      assert Flatten(g) == Flatten(h) + g[|g| - 1];
    }
  }

  /** The shape of a grouping: non-empty groups, headers exactly at the group starts
      (except possibly the first group). */
  predicate WellGrouped(g: seq<seq<string>>) {
    (forall k :: 0 <= k < |g| ==> |g[k]| > 0)
    && (forall k :: 0 < k < |g| ==> IsHeader(g[k][0]))
    && (forall k, m :: 0 <= k < |g| && 0 < m < |g[k]| ==> !IsHeader(g[k][m]))
  }

  lemma {:induction false} GroupsShape(lines: seq<string>)
    ensures WellGrouped(Groups(lines))
    decreases |lines|
  {
    if |lines| > 0 {
      var init := lines[..|lines| - 1];
      GroupsShape(init);
      AddLineShape(Groups(init), lines[|lines| - 1]);
    }
  }

  lemma AddLineShape(g: seq<seq<string>>, x: string)
    requires WellGrouped(g)
    ensures WellGrouped(AddLine(g, x))
  {
    var r := AddLine(g, x);
    if IsHeader(x) || |g| == 0 {
      assert forall k :: 0 <= k < |g| ==> r[k] == g[k];
    } else {
      var h := g[..|g| - 1];
      var last := g[|g| - 1] + [x];
      assert r == h + [last];
      assert forall k :: 0 <= k < |h| ==> r[k] == g[k];
      assert forall m :: 0 <= m < |g[|g| - 1]| ==> last[m] == g[|g| - 1][m];
    }
  }

  /** `is_valid_title_option`: at least two lines, and the first two are not blank. */
  predicate IsValidTitleOption(option: string) {
    var lines := Split(option, '\n');
    |lines| >= 2 && Strip(lines[0]) != "" && Strip(lines[1]) != ""
  }

  function JoinLines(g: seq<seq<string>>): (r: seq<string>)
    ensures |r| == |g| && forall k :: 0 <= k < |g| ==> r[k] == Join(g[k], "\n")
  {
    if |g| == 0 then [] else [Join(g[0], "\n")] + JoinLines(g[1..])
  }

  /** The options that pass `is_valid_title_option`, in their order. */
  function FilterValid(options: seq<string>): (r: seq<string>)
    ensures forall o :: o in r ==> o in options && IsValidTitleOption(o)
    ensures forall o :: o in options && IsValidTitleOption(o) ==> o in r
  {
    if |options| == 0 then []
    else (if IsValidTitleOption(options[0]) then [options[0]] else []) + FilterValid(options[1..])
  }

  /** The options `parse_and_validate_titles` returns: the stripped lines grouped
      at the header lines, each group joined by newlines, the valid ones kept. */
  function ParsedOptions(response: string): seq<string> {
    FilterValid(JoinLines(Groups(StrippedLines(response))))
  }

  /** `parse_and_validate_titles`. */
  method ParseAndValidateTitles(response: string) returns (options: seq<string>)
    ensures options == ParsedOptions(response)
  {
    var lines := Split(response, '\n');

    ghost var groups: seq<seq<string>> := [];
    var all: seq<string> := [];
    var currentOption: seq<string> := [];
    var k := 0;
    while k < |lines|
      invariant 0 <= k <= |lines|
      invariant groups == Groups(StripAll(lines[..k]))
      invariant Tracks(groups, all, currentOption)
      decreases |lines| - k
    {
      var line := Strip(lines[k]);
      GroupsStep(lines, k);
      AddLineJoined(groups, line, all, currentOption);
      if IsHeader(line) && currentOption != [] {
        all := all + [Join(currentOption, "\n")];
        currentOption := [line];
      } else {
        currentOption := currentOption + [line];
      }
      groups := AddLine(groups, line);
      k := k + 1;
    }
    if currentOption != [] {
      all := all + [Join(currentOption, "\n")];
    }
    assert lines[..k] == lines;
    options := FilterValid(all);
  }

  /** The groups of the stripped lines grow one line at a time. */
  lemma GroupsStep(lines: seq<string>, k: nat)
    requires k < |lines|
    ensures Groups(StripAll(lines[..k + 1])) == AddLine(Groups(StripAll(lines[..k])), Strip(lines[k]))
  {
    var s := StripAll(lines[..k + 1]);
    assert lines[..k + 1][..k] == lines[..k];
    assert s[..k] == StripAll(lines[..k]) && s[k] == Strip(lines[k]);
  }

  /** The loop's bookkeeping: `current` is the last group, and the options closed
      so far followed by the current one are the joined groups. */
  predicate Tracks(g: seq<seq<string>>, closed: seq<string>, current: seq<string>) {
    if |g| == 0 then closed == [] && current == []
    else current != [] && current == g[|g| - 1] && JoinLines(g) == closed + [Join(current, "\n")]
  }

  /** The bookkeeping holds after one more line: a header closes the current option
      and starts a new one, any other line joins the current option. */
  lemma AddLineJoined(g: seq<seq<string>>, x: string, closed: seq<string>, current: seq<string>)
    requires Tracks(g, closed, current)
    ensures IsHeader(x) && current != [] ==> Tracks(AddLine(g, x), closed + [Join(current, "\n")], [x])
    ensures !(IsHeader(x) && current != []) ==> Tracks(AddLine(g, x), closed, current + [x])
  {
    if IsHeader(x) || |g| == 0 {
      JoinLinesSnoc(g, [x]);
    } else {
      var h := g[..|g| - 1];
      assert g == h + [g[|g| - 1]];
      JoinLinesSnoc(h, g[|g| - 1]);
      assert JoinLines(h) == (JoinLines(h) + [Join(current, "\n")])[..|closed|];
      JoinLinesSnoc(h, current + [x]);
    }
  }

  lemma {:induction false} JoinLinesSnoc(g: seq<seq<string>>, x: seq<string>)
    ensures JoinLines(g + [x]) == JoinLines(g) + [Join(x, "\n")]
  {
  }

  /** For an option made of stripped lines, validity is exactly: two or more
      lines, the first two non-empty. */
  lemma ValidOptionOfLines(group: seq<string>)
    requires |group| >= 1
    requires forall k :: 0 <= k < |group| ==> '\n' !in group[k] && Strip(group[k]) == group[k]
    ensures IsValidTitleOption(Join(group, "\n")) <==> |group| >= 2 && group[0] != "" && group[1] != ""
  {
    SplitJoin(group, '\n');
  }

  /** Every option the parser returns is two or more stripped response lines
      joined by newlines, the first two of them non-empty: the English and the
      Korean title the page shows. */
  lemma ParsedOptionShape(response: string, o: string)
    requires o in ParsedOptions(response)
    ensures exists g :: (g in Groups(StrippedLines(response)) && o == Join(g, "\n")
      && |g| >= 2 && g[0] != "" && g[1] != ""
      && forall x :: x in g ==> x in StrippedLines(response))
  {
    var lines := StrippedLines(response);
    var groups := Groups(lines);
    var joined := JoinLines(groups);
    var k :| 0 <= k < |joined| && joined[k] == o;
    GroupLinesClean(response, k);
    ValidOptionOfLines(groups[k]);
  }

  /** Every line of a group is a stripped response line, with no newline in it and
      nothing left to strip. */
  lemma GroupLinesClean(response: string, k: nat)
    requires k < |Groups(StrippedLines(response))|
    ensures forall x :: x in Groups(StrippedLines(response))[k] ==>
      x in StrippedLines(response) && '\n' !in x && Strip(x) == x
  {
    var lines := StrippedLines(response);
    var groups := Groups(lines);
    GroupsFlatten(lines);
    forall x | x in groups[k] ensures x in lines && '\n' !in x && Strip(x) == x {
      FlattenMember(groups, k, x);
      StrippedLineClean(Split(response, '\n'), x);
    }
  }

  lemma {:induction false} FlattenMember(g: seq<seq<string>>, k: nat, x: string)
    requires k < |g| && x in g[k]
    ensures x in Flatten(g)
  {
    if k < |g| - 1 {
      FlattenMember(g[..|g| - 1], k, x);
    }
  }

  /** A stripped piece of a newline split holds no newline and is its own strip. */
  lemma {:induction false} StrippedLineClean(pieces: seq<string>, x: string)
    requires forall p :: p in pieces ==> '\n' !in p
    requires x in StripAll(pieces)
    ensures '\n' !in x && Strip(x) == x
  {
    var n := |pieces|;
    if x == Strip(pieces[n - 1]) {
      StripInside(pieces[n - 1], '\n');
      StripIdempotent(pieces[n - 1]);
    } else {
      StrippedLineClean(pieces[..n - 1], x);
    }
  }

  /** `format_title_option`: a paragraph naming the first line English and the
      second Korean, or the option as it is when it has a single line. */
  function FormatTitleOption(option: string): (r: string)
    ensures StartsWith(r, "<p>")
    ensures |Split(option, '\n')| < 2 ==> r == "<p>" + option + "</p>"
    ensures |Split(option, '\n')| >= 2 ==>
      var english := Split(option, '\n')[0];
      StartsWith(r, "<p><strong>영문:</strong> " + english + "<br>")
      && Contains(r, "<strong>한글:</strong> " + Split(option, '\n')[1] + "</p>")
  {
    var lines := Split(option, '\n');
    if |lines| >= 2 then
      var head := "<p><strong>영문:</strong> " + lines[0] + "<br>";
      var tail := "<strong>한글:</strong> " + lines[1] + "</p>";
      assert OccursAt(head + tail, tail, |head|);
      head + tail
    else "<p>" + option + "</p>"
  }

  /** The research-title page splits the stored options on blank lines and
      offers the valid pieces (app.py, section 7 page). */
  function DisplayedOptions(content: string): seq<string> {
    FilterValid(SplitOn(content, "\n\n"))
  }

  /** No "\n\n" in `s` starts before position `limit`. */
  predicate NoBlankLineBefore(s: string, limit: int) {
    forall p :: 0 <= p < limit && p + 1 < |s| ==> !(s[p] == '\n' && s[p + 1] == '\n')
  }

  /** Splitting on "\n\n" stops at the first place it occurs. */
  lemma {:induction false} SplitOnAt(o: string, rest: string)
    requires NoBlankLineBefore(o + "\n\n" + rest, |o|)
    ensures SplitOn(o + "\n\n" + rest, "\n\n") == [o] + SplitOn(rest, "\n\n")
    decreases |o|
  {
    var s := o + "\n\n" + rest;
    if |o| == 0 {
      assert StartsWith(s, "\n\n");
      assert s[2..] == rest;
    } else {
      assert s[..2] != "\n\n" by {
        assert s[..2][0] == s[0] && s[..2][1] == s[1];
      }
      var t := o[1..] + "\n\n" + rest;
      assert s[1..] == t;
      assert NoBlankLineBefore(t, |o[1..]|) by {
        forall p | 0 <= p < |o[1..]| && p + 1 < |t| ensures !(t[p] == '\n' && t[p + 1] == '\n') {
          assert t[p] == s[p + 1] && t[p + 1] == s[p + 2];
        }
      }
      SplitOnAt(o[1..], rest);
      assert [o[0]] + o[1..] == o;
    }
  }

  /** An option that the "\n\n" split leaves whole: it holds no blank line and
      does not end with a newline. */
  predicate Unbroken(o: string) {
    NoBlankLineBefore(o, |o|) && (o == "" || o[|o| - 1] != '\n')
  }

  /** Storing valid options joined by "\n\n" and splitting them again on the page
      offers exactly those options, when no option is broken by the split. */
  lemma {:induction false} DisplayRoundTrip(options: seq<string>)
    requires |options| > 0
    requires forall o :: o in options ==> Unbroken(o) && IsValidTitleOption(o)
    ensures DisplayedOptions(Join(options, "\n\n")) == options
  {
    SplitOnJoin(options);
    FilterValidAll(options);
  }

  lemma {:induction false} SplitOnJoin(options: seq<string>)
    requires |options| > 0
    requires forall o :: o in options ==> Unbroken(o)
    ensures SplitOn(Join(options, "\n\n"), "\n\n") == options
  {
    var o := options[0];
    assert o in options;
    if |options| == 1 {
      SplitOnNone(o);
    } else {
      var rest := Join(options[1..], "\n\n");
      JoinCons(o, options[1..], "\n\n");
      var s := o + "\n\n" + rest;
      forall p | 0 <= p < |o| && p + 1 < |s| ensures !(s[p] == '\n' && s[p + 1] == '\n') {
        if p + 1 < |o| {
          assert s[p] == o[p] && s[p + 1] == o[p + 1];
        } else {
          assert s[p] == o[|o| - 1];
        }
      }
      SplitOnAt(o, rest);
      assert forall q :: q in options[1..] ==> q in options;
      SplitOnJoin(options[1..]);
    }
  }

  /** A string without a blank line is one piece of the split. */
  lemma {:induction false} SplitOnNone(o: string)
    requires NoBlankLineBefore(o, |o|)
    ensures SplitOn(o, "\n\n") == [o]
    decreases |o|
  {
    if |o| > 0 {
      if |o| >= 2 {
        assert o[..2] != "\n\n" by {
          assert o[..2][0] == o[0] && o[..2][1] == o[1];
        }
      }
      var t := o[1..];
      assert NoBlankLineBefore(t, |t|) by {
        forall p | 0 <= p < |t| && p + 1 < |t| ensures !(t[p] == '\n' && t[p + 1] == '\n') {
          assert t[p] == o[p + 1] && t[p + 1] == o[p + 2];
        }
      }
      SplitOnNone(t);
      assert [o[0]] + t == o;
    }
  }

  lemma {:induction false} FilterValidAll(options: seq<string>)
    requires forall o :: o in options ==> IsValidTitleOption(o)
    ensures FilterValid(options) == options
  {
    if |options| > 0 {
      assert options[0] in options;
      FilterValidAll(options[1..]);
      assert [options[0]] + options[1..] == options;
    }
  }

  /** When an option's last line is blank (the parser keeps the blank line that
      separates two options in the response), storing the options joined by "\n\n"
      and splitting them again moves that newline to the front of the next piece,
      which then fails `is_valid_title_option`: the page no longer offers the next
      option. */
  lemma TrailingBlankLineHidesNext(first: string, next: string, rest: seq<string>)
    requires Unbroken(first)
    ensures SplitOn(first + "\n" + "\n\n" + Join([next] + rest, "\n\n"), "\n\n")
      == [first] + SplitOn("\n" + Join([next] + rest, "\n\n"), "\n\n")
    ensures !IsValidTitleOption(SplitOn("\n" + Join([next] + rest, "\n\n"), "\n\n")[0])
  {
    var tail := Join([next] + rest, "\n\n");
    var s := first + "\n" + "\n\n" + tail;
    assert s == first + "\n\n" + ("\n" + tail);
    assert NoBlankLineBefore(s, |first|) by {
      forall p | 0 <= p < |first| && p + 1 < |s| ensures !(s[p] == '\n' && s[p + 1] == '\n') {
        if p + 1 < |first| {
          assert s[p] == first[p] && s[p + 1] == first[p + 1];
        } else {
          assert s[p] == first[|first| - 1];
        }
      }
    }
    SplitOnAt(first, "\n" + tail);
    var piece := SplitOn("\n" + tail, "\n\n")[0];
    SplitOnPieceStartsWithNewline(tail);
    assert Split(piece, '\n')[0] == "";
  }

  /** The first piece of splitting "\n" + t on "\n\n" begins with a newline (or is "\n"
      followed by nothing of its own when t begins with a newline). */
  lemma SplitOnPieceStartsWithNewline(t: string)
    ensures var piece := SplitOn("\n" + t, "\n\n")[0];
      piece == "" || (|piece| > 0 && piece[0] == '\n')
  {
    var s := "\n" + t;
    if StartsWith(s, "\n\n") {
    } else {
      assert s[0] == '\n';
    }
  }
}
