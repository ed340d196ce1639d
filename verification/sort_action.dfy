/** `SortAction.Handler.executeWriteAction`: resolve the range of lines to sort,
    ignore trailing empty lines, extract the lines, sort and group them, and
    compute the replacement the editor applies. The replacement is returned as
    a plan instead of being applied to a live document. */
module SortAction {
  import opened JavaString
  import opened Sorting
  import opened Optional
  import opened LineGrouper
  import opened Document

  /** The editor's selection: none, or the offsets [start, end) of a non-empty
      selection (`hasSelection()` is false for an empty one). */
  datatype Selection = NoSelection | Selected(start: nat, end: nat)

  predicate ValidSelection(d: Doc, sel: Selection) {
    sel.Selected? ==> sel.start < sel.end <= |Text(d)|
  }

  /** What the action does to the document: nothing, nothing because sorting
      threw (a line that trims to backslashes only), or replace the characters
      [start, end) with `text`. */
  datatype Action = Unchanged | Failed | Replace(start: nat, end: nat, text: JString)

  // ---------------------------------------------------------------------------
  // Range resolution
  // ---------------------------------------------------------------------------

  /** The line holding the last selected character is the line of the
      selection end, less one when the selection ends where that line starts. */
  lemma LastSelectedLine(d: Doc, end: nat, last: nat)
    requires WellFormed(d) && 0 < end && HoldsOffset(d, last, end)
    ensures HoldsOffset(d, if LineStart(d, last) == end then last - 1 else last, end - 1)
  {
    if LineStart(d, last) == end {
      assert last > 0;
      LineOffsets(d, last - 1);
    }
  }

  /** The first and last line before trailing empty lines are ignored: the
      whole document without a selection; otherwise from the line holding the
      first selected character to the line holding the last selected one (a
      selection that ends at the very start of a line does not take that line). */
  function SelectedLines(d: Doc, sel: Selection): (r: (int, int))
    requires WellFormed(d) && ValidSelection(d, sel)
    ensures sel.NoSelection? ==> r == (0, |d| - 1)
    ensures sel.Selected? ==>
      && 0 <= r.0 <= r.1
      && HoldsOffset(d, r.0, sel.start)
      && HoldsOffset(d, r.1, sel.end - 1)
  {
    match sel
    case NoSelection => (0, |d| - 1)
    case Selected(start, end) =>
      assert d != [];
      var first := LineNumber(d, start);
      var last := LineNumber(d, end);
      LastSelectedLine(d, end, last);
      var r := if LineStart(d, last) == end then (first, last - 1) else (first, last);
      assert r.0 <= r.1 by {
        if r.1 < r.0 {
          TextOfLines(d, r.1 + 1, r.0);
        }
      }
      r
  }

  /** `ignoreLastEmptyLines`: the last line at or before `endLine` whose content
      is not empty, or -1 when there is none. */
  function IgnoreLastEmptyLines(d: Doc, endLine: int): (r: int)
    requires -1 <= endLine < |d|
    ensures -1 <= r <= endLine
    ensures r >= 0 ==> d[r].content != []
    ensures forall j :: r < j <= endLine ==> d[j].content == []
    decreases endLine + 1
  {
    if endLine < 0 then -1
    else if LineEnd(d, endLine) > LineStart(d, endLine) then endLine
    else IgnoreLastEmptyLines(d, endLine - 1)
  }

  // ---------------------------------------------------------------------------
  // Line extraction
  // ---------------------------------------------------------------------------

  /** `extractLine`: the characters of line `i` with its separator, and a line
      feed in place of a missing separator, so every extracted line is the
      line's content followed by a line feed. */
  function ExtractLine(d: Doc, i: nat): (r: JString)
    requires i < |d|
    ensures r == d[i].content + [LF]
  {
    var sepLen := SepLen(d[i]);
    LineOffsets(d, i);
    var line := Text(d)[LineStart(d, i)..LineEnd(d, i) + sepLen];
    if sepLen == 0 then line + [LF] else line
  }

  /** `extractLines`: lines `first` to `last`, inclusive, in document order. */
  function ExtractLines(d: Doc, first: nat, last: nat): (lines: seq<JString>)
    requires first <= last < |d|
    ensures |lines| == last - first + 1
    ensures forall k :: 0 <= k < |lines| ==> lines[k] == d[first + k].content + [LF]
    decreases last - first
  {
    (if first == last then [] else ExtractLines(d, first, last - 1)) + [ExtractLine(d, last)]
  }

  /** The strings put together, in order. */
  function Concat(lines: seq<JString>): JString {
    if lines == [] then [] else Concat(lines[..|lines| - 1]) + lines[|lines| - 1]
  }

  /** The extracted lines, put together, are the text of the lines they come
      from, plus a line feed when the last of them is the document's
      unterminated last line. */
  lemma ExtractLinesText(d: Doc, first: nat, last: nat)
    requires WellFormed(d) && first <= last < |d|
    ensures Concat(ExtractLines(d, first, last)) == Text(d[first..last + 1]) + if d[last].terminated then [] else [LF]
  {
    ConcatExtracted(d, first, last);
    TextSnoc(d, first, last);
    AppendLine(Text(d[first..last]), d[last]);
  }

  /** The extracted lines, put together, are the text of the lines before
      `last` followed by the content of `last` and a line feed. */
  lemma {:induction false} ConcatExtracted(d: Doc, first: nat, last: nat)
    requires WellFormed(d) && first <= last < |d|
    ensures Concat(ExtractLines(d, first, last)) == Text(d[first..last]) + (d[last].content + [LF])
    decreases last - first
  {
    var line := ExtractLine(d, last);
    if first < last {
      var m := last - 1;
      var before := ExtractLines(d, first, m);
      var prefix := Text(d[first..m]) + (d[m].content + [LF]);
      assert Concat(ExtractLines(d, first, last)) == Concat(before) + line by {
        assert ExtractLines(d, first, last) == before + [line];
        ConcatSnoc(before, line);
      }
      assert Concat(before) == prefix by {
        ConcatExtracted(d, first, m);
      }
      assert Text(d[first..last]) == prefix by {
        TextSnoc(d, first, m);
        assert d[first..m + 1] == d[first..last];
      }
    } else {
      assert ExtractLines(d, first, last) == [line];
      assert Concat([line]) == Concat([]) + line by {
        ConcatSnoc([], line);
      }
      assert d[first..last] == [];
    }
  }

  /** A line's text, with a line feed added when it has no separator, is its
      content followed by a line feed. */
  lemma AppendLine(prefix: JString, l: Line)
    ensures (prefix + LineText(l)) + (if l.terminated then [] else [LF]) == prefix + (l.content + [LF])
  {
    if l.terminated {
      assert (prefix + LineText(l)) + [] == prefix + LineText(l);
    }
  }

  lemma ConcatSnoc(xs: seq<JString>, x: JString)
    ensures Concat(xs + [x]) == Concat(xs) + x
  {
    assert (xs + [x])[..|xs|] == xs;
  }

  // ---------------------------------------------------------------------------
  // The action
  // ---------------------------------------------------------------------------

  /** How the action turns the extracted lines into the sorted text; `None`
      stands for an exception. */
  type LineSorter = seq<JString> -> Option<JString>

  /** The whole document is sorted and its last character is not a line feed:
      the output then loses its last character, the line feed that follows
      the last sorted line. */
  predicate DropsLastChar(d: Doc, sel: Selection) {
    sel.NoSelection? && Text(d) != [] && Text(d)[|Text(d)| - 1] != LF
  }

  /** The end of `executeWriteAction` once `sortLines` has returned `out`:
      replace [start, end) with it, less its last character when `dropLast`.
      Deleting the last character of an empty output would throw. */
  function Finish(out: Option<JString>, dropLast: bool, start: nat, end: nat): (a: Action)
    ensures a != Unchanged
    ensures a.Failed? <==> out.None? || (dropLast && out.value == [])
    ensures a.Replace? ==>
      && a.start == start && a.end == end
      && out.value == a.text + if dropLast then [out.value[|out.value| - 1]] else []
  {
    if out.None? || (dropLast && out.value == []) then Failed
    else
      var v := out.value;
      if dropLast then
        assert v == v[..|v| - 1] + [v[|v| - 1]];
        Replace(start, end, v[..|v| - 1])
      else Replace(start, end, v)
  }

  /** `executeWriteAction` with its `sortLines` step as a parameter, returning
      the replacement instead of applying it. */
  function Execute(d: Doc, sel: Selection, sortLines: LineSorter): (a: Action)
    requires WellFormed(d) && ValidSelection(d, sel)
    ensures a.Replace? ==> a.start < a.end <= |Text(d)|
  {
    var range := SelectedLines(d, sel);
    var first := range.0;
    var last := IgnoreLastEmptyLines(d, range.1);
    if first >= last then Unchanged
    else
      LineOffsets(d, last);
      TextOfLines(d, first, last);
      var out := sortLines(ExtractLines(d, first, last));
      Finish(out, DropsLastChar(d, sel), LineStart(d, first), LineEnd(d, last) + SepLen(d[last]))
  }

  /** The action as the plugin runs it, with `sortLines`. */
  function RunAction(d: Doc, sel: Selection): (a: Action)
    requires WellFormed(d) && ValidSelection(d, sel)
  {
    Execute(d, sel, SortLines)
  }

  /** The document's text once the editor has carried out the action. */
  function Apply(d: Doc, a: Action): JString
    requires a.Replace? ==> a.start <= a.end <= |Text(d)|
  {
    match a
    case Replace(start, end, text) => Text(d)[..start] + text + Text(d)[end..]
    case _ => Text(d)
  }

  // ---------------------------------------------------------------------------
  // Properties of the action
  // ---------------------------------------------------------------------------

  /** Whatever `sortLines` does, the action returns `Unchanged` exactly when
      every line of the range after its first one is empty: then at most one line is
      left to sort once the trailing empty lines are ignored. */
  lemma ExecuteUnchanged(d: Doc, sel: Selection, sortLines: LineSorter)
    requires WellFormed(d) && ValidSelection(d, sel)
    ensures var r := SelectedLines(d, sel);
      Execute(d, sel, sortLines).Unchanged? <==> forall j :: r.0 < j <= r.1 ==> d[j].content == []
  {
    var r := SelectedLines(d, sel);
    var last := IgnoreLastEmptyLines(d, r.1);
    if r.0 < last {
      assert d[last].content != [];
    }
  }

  /** Replacing the span of lines `first` to `last` keeps the text around it. */
  lemma ApplyLines(d: Doc, start: nat, end: nat, text: JString, first: nat, last: nat)
    requires first <= last < |d|
    requires start == LineStart(d, first) && end == LineStart(d, last + 1)
    ensures start <= end <= |Text(d)|
    ensures Apply(d, Replace(start, end, text)) == Text(d[..first]) + text + Text(d[last + 1..])
  {
    PrefixSuffix(d, first, last + 1);
    ApplyReplace(d, start, end, text);
  }

  lemma ApplyReplace(d: Doc, start: nat, end: nat, text: JString)
    requires start <= end <= |Text(d)|
    ensures Apply(d, Replace(start, end, text)) == Text(d)[..start] + text + Text(d)[end..]
  {
  }

  /** The span from the start of line `first` to the start of the line after
      `last` holds those lines; replacing it keeps the text around it. */
  lemma SpanText(d: Doc, start: nat, end: nat, text: JString, first: nat, last: nat)
    requires first <= last < |d|
    requires start == LineStart(d, first) && end == LineStart(d, last + 1)
    ensures start <= end <= |Text(d)|
    ensures ReplacesLines(d, start, end, text, first, last)
  {
    ApplyLines(d, start, end, text, first, last);
    TextOfLines(d, first, last + 1);
  }

  /** Replacing [start, end) with `text` replaces lines `first` to `last`: the
      replaced characters are exactly the text of those lines, and the text
      before and after them is kept. */
  predicate ReplacesLines(d: Doc, start: nat, end: nat, text: JString, first: nat, last: nat)
    requires first <= last < |d| && start <= end <= |Text(d)|
  {
    && Text(d)[start..end] == Text(d[first..last + 1])
    && Apply(d, Replace(start, end, text)) == Text(d[..first]) + text + Text(d[last + 1..])
  }

  /** A replacement changes nothing but the lines from the first line of the
      range to its last non-empty one. */
  lemma ExecuteReplaces(d: Doc, sel: Selection, sortLines: LineSorter, start: nat, end: nat, text: JString)
    requires WellFormed(d) && ValidSelection(d, sel)
    requires Execute(d, sel, sortLines) == Replace(start, end, text)
    ensures var r := SelectedLines(d, sel);
      var last := IgnoreLastEmptyLines(d, r.1);
      && 0 <= r.0 < last && start <= end <= |Text(d)|
      && ReplacesLines(d, start, end, text, r.0, last)
  {
    var r := SelectedLines(d, sel);
    var last := IgnoreLastEmptyLines(d, r.1);
    ReplacedSpan(d, sel, sortLines, start, end, text, r.0, last);
    SpanText(d, start, end, text, r.0, last);
  }

  /** The replacement text, for the range's first line and its last non-empty one. */
  lemma ReplacedOutput(d: Doc, sel: Selection, sortLines: LineSorter, start: nat, end: nat, text: JString,
                       first: int, last: int)
    requires WellFormed(d) && ValidSelection(d, sel)
    requires Execute(d, sel, sortLines) == Replace(start, end, text)
    requires first == SelectedLines(d, sel).0 && last == IgnoreLastEmptyLines(d, SelectedLines(d, sel).1)
    ensures 0 <= first < last < |d|
    ensures var out := sortLines(ExtractLines(d, first, last));
      && out.Some?
      && out.value == text + if DropsLastChar(d, sel) then [out.value[|out.value| - 1]] else []
  {
  }

  /** The replaced span, for the range's first line and its last non-empty one. */
  lemma ReplacedSpan(d: Doc, sel: Selection, sortLines: LineSorter, start: nat, end: nat, text: JString,
                     first: int, last: int)
    requires WellFormed(d) && ValidSelection(d, sel)
    requires Execute(d, sel, sortLines) == Replace(start, end, text)
    requires first == SelectedLines(d, sel).0 && last == IgnoreLastEmptyLines(d, SelectedLines(d, sel).1)
    ensures 0 <= first < last < |d|
    ensures start == LineStart(d, first) && end == LineStart(d, last + 1)
  {
    LineOffsets(d, last);
  }

  /** Without a selection, the action returns `Unchanged` exactly when every
      line but the first is empty; in particular a document of one line, and one whose
      lines are all empty. */
  lemma WholeDocumentUnchanged(d: Doc)
    requires WellFormed(d)
    ensures RunAction(d, NoSelection).Unchanged? <==> forall j :: 0 < j < |d| ==> d[j].content == []
  {
    ExecuteUnchanged(d, NoSelection, SortLines);
  }

  /** Line `k` of the extracted lines, trimmed, is the trimmed content of the
      document's line `first + k`. */
  lemma ExtractedTrimmed(d: Doc, first: nat, last: nat, k: nat)
    requires first <= last < |d| && k <= last - first
    ensures TrimAll(ExtractLines(d, first, last))[k] == Trim(d[first + k].content)
  {
    TrimIgnoresBlankSuffix(d[first + k].content, LF);
  }

  /** Some line from `from` to `to` trims to a run of backslashes. */
  predicate HasBackslashRun(d: Doc, from: int, to: int) {
    exists j :: from <= j <= to && 0 <= j < |d| && OnlyBackslashes(Trim(d[j].content))
  }

  /** Some line after `from`, up to `to`, is not empty. */
  predicate HasContentAfter(d: Doc, from: int, to: int) {
    exists j :: from < j <= to && 0 <= j < |d| && d[j].content != []
  }

  /** `sortLines` on the lines `first` to `last` fails exactly when one of them
      trims to a run of backslashes. */
  lemma SortExtractedFails(d: Doc, first: nat, last: nat)
    requires first <= last < |d|
    ensures SortLines(ExtractLines(d, first, last)).None? <==> HasBackslashRun(d, first, last)
  {
    var lines := ExtractLines(d, first, last);
    var ts := TrimAll(lines);
    SortLinesSpec(lines);
    if j :| first <= j <= last && OnlyBackslashes(Trim(d[j].content)) {
      ExtractedTrimmed(d, first, last, j - first);
      AncestorKeyReference(ts[j - first]);
    }
    if SortLines(lines).None? {
      var k :| 0 <= k < |ts| && AncestorKey(ts[k]).None?;
      ExtractedTrimmed(d, first, last, k);
      AncestorKeyReference(ts[k]);
      assert OnlyBackslashes(Trim(d[first + k].content));
    }
  }

  /** `sortLines` output, when there is one, is not empty and ends with a line feed. */
  predicate EndsWithNewline(out: Option<JString>) {
    out.Some? ==> out.value != [] && out.value[|out.value| - 1] == LF
  }

  /** On at least one line, `sortLines` succeeds with a text that ends with a
      line feed, or fails. */
  lemma SortLinesEndsWithNewline(lines: seq<JString>)
    requires lines != []
    ensures EndsWithNewline(SortLines(lines))
  {
  }

  /** Whatever `sortLines` does, the action fails exactly when there are lines
      to sort and `sortLines` fails on them, or returns nothing when a last
      character has to be deleted. */
  lemma ExecuteFails(d: Doc, sel: Selection, sortLines: LineSorter)
    requires WellFormed(d) && ValidSelection(d, sel)
    ensures var r := SelectedLines(d, sel);
      var last := IgnoreLastEmptyLines(d, r.1);
      Execute(d, sel, sortLines).Failed? <==>
        && r.0 < last
        && var out := sortLines(ExtractLines(d, r.0, last));
           out.None? || (DropsLastChar(d, sel) && out.value == [])
  {
  }

  /** Empty lines after `last` trim to nothing, so no line of the whole range
      that trims to a run of backslashes lies after `last`. */
  lemma NoBackslashRunAfter(d: Doc, first: int, last: int, end: int)
    requires 0 <= first <= last <= end < |d|
    requires forall j :: last < j <= end ==> d[j].content == []
    ensures HasBackslashRun(d, first, end) <==> HasBackslashRun(d, first, last)
  {
    forall j | last < j <= end
      ensures !OnlyBackslashes(Trim(d[j].content))
    {
      assert Trim(d[j].content) == [];
    }
  }

  /** The action fails (the sort throws and the document is left alone) exactly
      when it does not leave the document alone for lack of lines and some line
      of the range trims to a run of backslashes. */
  lemma RunFails(d: Doc, sel: Selection)
    requires WellFormed(d) && ValidSelection(d, sel)
    ensures var r := SelectedLines(d, sel);
      RunAction(d, sel).Failed? <==> HasContentAfter(d, r.0, r.1) && HasBackslashRun(d, r.0, r.1)
  {
    var r := SelectedLines(d, sel);
    var last := IgnoreLastEmptyLines(d, r.1);
    if r.0 < last {
      SortExtractedFails(d, r.0, last);
      SortLinesEndsWithNewline(ExtractLines(d, r.0, last));
    }
    ExecuteFailsWhen(d, sel, SortLines);
  }

  /** The same for any `sortLines` that fails exactly on a line that trims to a
      run of backslashes and otherwise ends its output with a line feed. */
  lemma ExecuteFailsWhen(d: Doc, sel: Selection, sortLines: LineSorter)
    requires WellFormed(d) && ValidSelection(d, sel)
    requires var r := SelectedLines(d, sel);
      var last := IgnoreLastEmptyLines(d, r.1);
      r.0 < last ==>
        var out := sortLines(ExtractLines(d, r.0, last));
        && (out.None? <==> HasBackslashRun(d, r.0, last))
        && EndsWithNewline(out)
    ensures var r := SelectedLines(d, sel);
      Execute(d, sel, sortLines).Failed? <==> HasContentAfter(d, r.0, r.1) && HasBackslashRun(d, r.0, r.1)
  {
    var r := SelectedLines(d, sel);
    var first := r.0;
    var last := IgnoreLastEmptyLines(d, r.1);
    var failed := Execute(d, sel, sortLines).Failed?;
    assert HasContentAfter(d, first, r.1) <==> first < last by {
      if first < last {
        assert first < last <= r.1 && d[last].content != [];
      }
    }
    if first < last {
      var out := sortLines(ExtractLines(d, first, last));
      assert failed <==> out.None? by {
        ExecuteFails(d, sel, sortLines);
      }
      NoBackslashRunAfter(d, first, last, r.1);
    } else {
      assert !failed by {
        ExecuteFails(d, sel, sortLines);
      }
    }
  }

  /** The replacement text is the output of `sortLines` on the extracted lines,
      less its final line feed when the whole document is sorted and does not
      end with a line feed. */
  lemma RunReplacementText(d: Doc, sel: Selection)
    requires WellFormed(d) && ValidSelection(d, sel)
    requires RunAction(d, sel).Replace?
    ensures var r := SelectedLines(d, sel);
      var last := IgnoreLastEmptyLines(d, r.1);
      var a := RunAction(d, sel);
      var out := SortLines(ExtractLines(d, r.0, last));
      && out.Some?
      && out.value == a.text + if DropsLastChar(d, sel) then [LF] else []
  {
    var a := RunAction(d, sel);
    var r := SelectedLines(d, sel);
    var last := IgnoreLastEmptyLines(d, r.1);
    ReplacedOutput(d, sel, SortLines, a.start, a.end, a.text, r.0, last);
    SortLinesEndsWithNewline(ExtractLines(d, r.0, last));
  }

  /** A sorted selection, and a sorted document that ends with a line feed, end
      with a line feed. */
  lemma ReplacementEndsWithNewline(d: Doc, sel: Selection)
    requires WellFormed(d) && ValidSelection(d, sel)
    requires RunAction(d, sel).Replace?
    requires !DropsLastChar(d, sel)
    ensures var t := RunAction(d, sel).text; t != [] && t[|t| - 1] == LF
  {
    RunReplacementText(d, sel);
    var r := SelectedLines(d, sel);
    var last := IgnoreLastEmptyLines(d, r.1);
    SortLinesEndsWithNewline(ExtractLines(d, r.0, last));
  }

  /** A document whose last line is empty has no text or ends with a line feed. */
  lemma EmptyLastLine(d: Doc)
    requires WellFormed(d) && d != [] && d[|d| - 1].content == []
    ensures Text(d) == [] || Text(d)[|Text(d)| - 1] == LF
  {
    var n := |d|;
    assert Text(d) == Text(d[..n - 1]);
    if n > 1 {
      assert d[..n - 1][..n - 2] == d[..n - 2];
      assert Text(d[..n - 1]) == Text(d[..n - 2]) + LineText(d[n - 2]);
    }
  }

  /** A replacement of the whole document that does not end with a line feed
      covers all of its lines, and its text is the output of `sortLines` less
      that output's final line feed, whenever `sortLines` ends its output with
      one. */
  lemma WholeDocumentReplaced(d: Doc, sortLines: LineSorter, start: nat, end: nat, text: JString)
    requires WellFormed(d) && DropsLastChar(d, NoSelection)
    requires Execute(d, NoSelection, sortLines) == Replace(start, end, text)
    requires EndsWithNewline(sortLines(ExtractLines(d, 0, |d| - 1)))
    ensures |d| > 1
    ensures start == 0 && end == |Text(d)|
    ensures sortLines(ExtractLines(d, 0, |d| - 1)) == Some(text + [LF])
  {
    var n := |d|;
    assert IgnoreLastEmptyLines(d, n - 1) == n - 1 by {
      if d[n - 1].content == [] { EmptyLastLine(d); }
    }
    ReplacedSpan(d, NoSelection, sortLines, start, end, text, 0, n - 1);
    ReplacedOutput(d, NoSelection, sortLines, start, end, text, 0, n - 1);
    assert end == |Text(d)| by {
      assert d[..n] == d;
    }
    var out := sortLines(ExtractLines(d, 0, n - 1));
    DropLastLF(out.value, text);
  }

  /** A text ending with a line feed, which is `text` plus its last character,
      is `text` plus a line feed. */
  lemma DropLastLF(v: JString, text: JString)
    requires v != [] && v[|v| - 1] == LF && v == text + [v[|v| - 1]]
    ensures v == text + [LF]
  {
  }

  /** Replacing the whole text leaves only the new text. */
  lemma ApplyWhole(d: Doc, text: JString)
    ensures Apply(d, Replace(0, |Text(d)|, text)) == text
  {
    ApplyReplace(d, 0, |Text(d)|, text);
  }

  lemma WholeDocumentText(d: Doc)
    requires WellFormed(d) && RunAction(d, NoSelection).Replace?
    requires DropsLastChar(d, NoSelection)
    ensures var a := RunAction(d, NoSelection);
      && |d| > 1
      && Apply(d, a) == a.text
      && SortLines(ExtractLines(d, 0, |d| - 1)) == Some(a.text + [LF])
  {
    var a := RunAction(d, NoSelection);
    var lines := ExtractLines(d, 0, |d| - 1);
    SortLinesEndsWithNewline(lines);
    WholeDocumentReplaced(d, SortLines, a.start, a.end, a.text);
    ApplyWhole(d, a.text);
  }

  /** Sorting a whole document that does not end with a line feed replaces all
      of its text, and the new text ends with a line feed exactly when the
      greatest raw line is blank: the final line feed removed is then not the
      one added to the unterminated last line, so the document's missing final
      line feed is not kept in that case. */
  lemma WholeDocumentWithoutFinalNewline(d: Doc)
    requires WellFormed(d) && RunAction(d, NoSelection).Replace?
    requires DropsLastChar(d, NoSelection)
    ensures var a := RunAction(d, NoSelection);
      var sorted := Sort(ExtractLines(d, 0, |d| - 1));
      && Apply(d, a) == a.text
      && (a.text != [] && a.text[|a.text| - 1] == LF <==> AllBlank(sorted[|sorted| - 1]))
  {
    var a := RunAction(d, NoSelection);
    WholeDocumentText(d);
    SortedFinal(ExtractLines(d, 0, |d| - 1), a.text);
  }

  /** A whole document of blank lines, with content after its first line, is
      replaced: there is more than one line to sort and no line trims to a run
      of backslashes. */
  lemma BlankDocumentReplaced(d: Doc)
    requires WellFormed(d)
    requires forall j :: 0 <= j < |d| ==> AllBlank(d[j].content)
    requires HasContentAfter(d, 0, |d| - 1)
    ensures RunAction(d, NoSelection).Replace?
  {
    WholeDocumentUnchanged(d);
    RunFails(d, NoSelection);
    assert forall j :: 0 <= j < |d| ==> Trim(d[j].content) == [];
  }

  /** A whole document of blank lines, with content after its first line, that
      does not end with a line feed ends with one once sorted. */
  lemma BlankDocumentGainsFinalNewline(d: Doc)
    requires WellFormed(d) && DropsLastChar(d, NoSelection)
    requires forall j :: 0 <= j < |d| ==> AllBlank(d[j].content)
    requires HasContentAfter(d, 0, |d| - 1)
    ensures RunAction(d, NoSelection).Replace?
    ensures var t := Apply(d, RunAction(d, NoSelection)); t != [] && t[|t| - 1] == LF
  {
    BlankDocumentReplaced(d);
    var a := RunAction(d, NoSelection);
    assert Apply(d, a) == a.text && a.text != [] && a.text[|a.text| - 1] == LF by {
      BlankSortedLast(d);
      WholeDocumentWithoutFinalNewline(d);
    }
  }

  /** The greatest extracted line of a document of blank lines is blank. */
  lemma BlankSortedLast(d: Doc)
    requires d != [] && forall j :: 0 <= j < |d| ==> AllBlank(d[j].content)
    ensures var sorted := Sort(ExtractLines(d, 0, |d| - 1));
      sorted != [] && AllBlank(sorted[|sorted| - 1])
  {
    var lines := ExtractLines(d, 0, |d| - 1);
    forall k | 0 <= k < |lines| ensures AllBlank(lines[k]) {
      assert lines[k] == d[k].content + [LF];
    }
    SortedBlank(lines);
  }

  /** A document of a tab line and an unterminated space line, which does not
      end with a line feed, ends with one once sorted. */
  lemma BlankLinesGainFinalNewline()
    ensures var d := [Line([0x09], true), Line([SPACE], false)];
      && WellFormed(d)
      && Text(d) == [0x09, LF, SPACE]
      && RunAction(d, NoSelection).Replace?
      && var t := Apply(d, RunAction(d, NoSelection)); t != [] && t[|t| - 1] == LF
  {
    var d := [Line([0x09], true), Line([SPACE], false)];
    assert Text(d) == [0x09, LF, SPACE] by {
      assert d[..1] == [d[0]];
      assert Text(d[..1]) == [0x09, LF];
    }
    assert d[1].content != [];
    BlankDocumentGainsFinalNewline(d);
  }
}
