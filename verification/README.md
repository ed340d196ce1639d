# Lines sorter and grouper, modelled in Dafny

The repository is a single IntelliJ editor action, `SortAction`. It takes the
selected lines, or the whole document when nothing is selected, and sorts them.
It then trims every line and puts an empty line in front of each run of lines
that share an *ancestor key*. The key of a line is found by ignoring the
backslashes at its end, keeping what precedes the last remaining backslash
(nothing when there is none), turning backslashes into underscores and
trimming; so "a\b\" has the key "a", and "a\b\c" the key "a_b".

This project models the pure transform under the editor plumbing, in five
modules:

- `JavaString`: Java strings as sequences of UTF-16 code units, with the
  `String` operations the action uses. These are `trim`, `compareTo`,
  `split("[\\\\]")` and `String.join`.
- `Sorting`: `Arrays.sort` on strings, specified by its result. The result is
  the unique ascending permutation under `compareTo`.
- `LineGrouper`: `sortLines` and the ancestor key.
- `Document`: the editor document as a sequence of lines. Each line has its
  content and an optional line-feed separator, and the document derives the
  offsets `getLineStartOffset`, `getLineEndOffset`, `getLineSeparatorLength`
  and `getLineNumber` from them.
- `SortAction`: `executeWriteAction`, `ignoreLastEmptyLines`, `extractLines`
  and `extractLine`. The action returns a plan instead of editing the
  document. The plan is `Unchanged`, `Failed` (sorting threw, and the
  document is left alone), or `Replace(start, end, text)`.

The main properties proved are these:

- The sort is a sorted permutation, and it is unique.
- The ancestor key computed through `split`/`copyOf`/`join` equals the direct
  reference definition above.
- The output of `sortLines` is the trimmed lines, in the order of the
  ascending raw lines, cut into maximal runs of equal keys. Each run follows
  an empty line. The output does not depend on the order of the input.
- The action returns `Unchanged` exactly when every line of the range after
  its first one is empty, so that at most one line remains to sort.
- The action returns `Failed` exactly when some line of the range after its
  first one has content and some line of the range trims to a run of
  backslashes.
- A replacement changes exactly the lines from the first one of the range to
  its last non-empty one.
- When the whole document is sorted and does not end with a line feed, the
  output loses its final line feed.

## Notes on the program's behaviour

- **`sortLines` sorts the raw lines before trimming them.** `Arrays.sort`
  runs on the extracted lines, with their line feeds and leading blanks.
  Since U+0020 is below every letter, " b" comes before "a", so the output
  lists "b" before "a". `SortLinesSpec` states the order in terms of the raw
  lines. So the action is not idempotent: a second run on that output sorts
  the trimmed lines and puts "a" before "b". `Sorting.SortIdempotent` is about
  `Arrays.sort` alone.
- **A line `u\v`, with `v` not empty and no other backslash, has the key
  `trim(u)`.** So "c\x" has the key "c", while a line without a backslash
  has the empty key, and so do "\x" and "c\" (`KeyOfOneBackslash`,
  `KeyOfPair`, `AncestorKeyReference`).
- **A line that trims to backslashes only makes the sort throw.** `split` leaves no
  piece for it, so `Arrays.copyOf(parts, -1)` throws
  `NegativeArraySizeException`. The model represents this as `None` from
  `AncestorKey` and as the action `Failed`, which leaves the document alone.
  The sort is not reached when at most one line remains, so the one-line
  document "\" is `Unchanged`.
- **The whole-document newline fix does not always keep the document without
  a final line feed.** Sorting a whole document that does not end with a line feed
  removes the output's last character. That character is the line feed that
  follows the greatest raw line, while the line feed added to the
  unterminated last line may have been sorted elsewhere. When the greatest raw
  line is blank, the trimmed output ends with an empty line, and the document
  gains a final line feed it did not have. `WholeDocumentWithoutFinalNewline`
  states when this happens, and `BlankLinesGainFinalNewline` shows a two-line
  document where it does.

## Model

| member | source | states |
|---|---|---|
| JavaString.Trim | src/org/robiul/jetbrain/plugins/linesorganizer/SortAction.java:87 | `trim`: the input with a blank prefix and a blank suffix removed (blank meaning ≤ U+0020), leaving no blank code unit at either end, and empty exactly when every code unit is blank |
| JavaString.TrimLeading | src/org/robiul/jetbrain/plugins/linesorganizer/SortAction.java:87 | the leading trim is a suffix of the input, everything before it is blank, and it does not start with a blank |
| JavaString.TrimTrailing | src/org/robiul/jetbrain/plugins/linesorganizer/SortAction.java:87 | the trailing trim is a prefix of the input, everything after it is blank, and it does not end with a blank |
| JavaString.TrimIgnoresBlankSuffix | src/org/robiul/jetbrain/plugins/linesorganizer/SortAction.java:87 | trimming ignores a blank code unit at the end, so the line feed that extraction appends does not survive the trim |
| JavaString.CompareTo | src/org/robiul/jetbrain/plugins/linesorganizer/SortAction.java:83 | `compareTo`: the difference of the first differing code units, or of the lengths; its order is proved antisymmetric, zero only on equal strings and transitive by the next three lemmas |
| JavaString.CompareToAntisymmetric | src/org/robiul/jetbrain/plugins/linesorganizer/SortAction.java:83 | `compareTo` of two strings is the negation of the comparison the other way round |
| JavaString.CompareToZero | src/org/robiul/jetbrain/plugins/linesorganizer/SortAction.java:83 | `compareTo` is zero exactly for equal strings |
| JavaString.CompareToTransitive | src/org/robiul/jetbrain/plugins/linesorganizer/SortAction.java:83 | the order `compareTo` induces is transitive |
| JavaString.Pieces | src/org/robiul/jetbrain/plugins/linesorganizer/SortAction.java:89 | cutting at every backslash gives at least one piece, and no piece holds a backslash |
| JavaString.ReplaceBackslashes | src/org/robiul/jetbrain/plugins/linesorganizer/SortAction.java:93 | replacing backslashes by a separator keeps the length, changes every backslash and nothing else |
| JavaString.Join | src/org/robiul/jetbrain/plugins/linesorganizer/SortAction.java:93 | `String.join`: the parts with the separator between them; `JoinPieces` and `PiecesOfJoin` prove the round trip with cutting at backslashes |
| JavaString.Split | src/org/robiul/jetbrain/plugins/linesorganizer/SortAction.java:89 | `split("[\\\\]")`: the string alone when it has no backslash, otherwise the pieces between backslashes without the trailing empty ones (`DropTrailingEmpty`, `DropTrailingEmptyPieces`) |
| JavaString.JoinPieces | src/org/robiul/jetbrain/plugins/linesorganizer/SortAction.java:89-93 | joining the pieces with a separator replaces each backslash by it; joining them with a backslash gives the string back |
| JavaString.PiecesOfJoin | src/org/robiul/jetbrain/plugins/linesorganizer/SortAction.java:89-93 | cutting a backslash-join of backslash-free parts gives the parts back, the other half of the round trip |
| JavaString.DropTrailingEmpty | src/org/robiul/jetbrain/plugins/linesorganizer/SortAction.java:89 | `split` removes a maximal suffix of empty pieces: what is left is a prefix, ends with a non-empty piece, and everything dropped is empty |
| Sorting.BelowTotal | src/org/robiul/jetbrain/plugins/linesorganizer/SortAction.java:83 | `compareTo` order is total and antisymmetric |
| Sorting.Sort | src/org/robiul/jetbrain/plugins/linesorganizer/SortAction.java:83 | the sorted array is a permutation of the input |
| Sorting.SortSorted | src/org/robiul/jetbrain/plugins/linesorganizer/SortAction.java:83 | the sorted array is ascending under `compareTo` |
| Sorting.SortedPermutationUnique | src/org/robiul/jetbrain/plugins/linesorganizer/SortAction.java:83 | two ascending permutations of the same strings are equal, so the sort's result is determined |
| Sorting.SortIdempotent | src/org/robiul/jetbrain/plugins/linesorganizer/SortAction.java:83 | sorting a sorted array changes nothing |
| Sorting.SortIgnoresInputOrder | src/org/robiul/jetbrain/plugins/linesorganizer/SortAction.java:83 | permuting the input does not change the sorted result |
| LineGrouper.StripTrailingBackslashes | src/org/robiul/jetbrain/plugins/linesorganizer/SortAction.java:89 | a prefix with no backslash at its end, after which there is nothing but backslashes |
| LineGrouper.BeforeLastBackslash | src/org/robiul/jetbrain/plugins/linesorganizer/SortAction.java:91 | the prefix in front of the last backslash, which is empty when there is none |
| LineGrouper.JoinAllButLastPiece | src/org/robiul/jetbrain/plugins/linesorganizer/SortAction.java:91-93 | dropping the last piece and joining with '_' gives the part before the last backslash, with backslashes turned into '_' |
| LineGrouper.DropTrailingEmptyPieces | src/org/robiul/jetbrain/plugins/linesorganizer/SortAction.java:89 | removing trailing empty pieces is cutting the string without its trailing backslashes; nothing is left when it is all backslashes |
| LineGrouper.AncestorKey | src/org/robiul/jetbrain/plugins/linesorganizer/SortAction.java:89-93 | the key of lines 89-93, missing where `copyOf` throws; `AncestorKeyReference` proves it equal to the reference key |
| LineGrouper.AncestorKeyReference | src/org/robiul/jetbrain/plugins/linesorganizer/SortAction.java:89-93 | the key computed by `split`, `copyOf` and `join` equals the reference key; it is missing (the copy throws) exactly for a non-empty line of backslashes only; a line without a backslash has the empty key |
| LineGrouper.KeyOfOneBackslash | src/org/robiul/jetbrain/plugins/linesorganizer/SortAction.java:89-93 | a line `u\v` with `v` non-empty and no other backslash has the key `trim(u)` |
| LineGrouper.KeyOfPair | src/org/robiul/jetbrain/plugins/linesorganizer/SortAction.java:89-93 | a line such as "c\x" has the key "c" |
| LineGrouper.Emit | src/org/robiul/jetbrain/plugins/linesorganizer/SortAction.java:81-103 | the loop succeeds exactly when every line has a key; its output is empty exactly when there are no lines; otherwise it ends with a line feed, and it starts with one when there is no previous key (`null`) |
| LineGrouper.EmitEnding | src/org/robiul/jetbrain/plugins/linesorganizer/SortAction.java:95-102 | the output ends with a line feed, the last line and another line feed |
| LineGrouper.MapLines | src/org/robiul/jetbrain/plugins/linesorganizer/SortAction.java:85-87 | the loop's trim reaches every line, in order, one result per line |
| LineGrouper.Groups | src/org/robiul/jetbrain/plugins/linesorganizer/SortAction.java:95-102 | cutting into runs loses and reorders nothing, and the runs are maximal runs of equal keys |
| LineGrouper.EmitRendersGroups | src/org/robiul/jetbrain/plugins/linesorganizer/SortAction.java:81-102 | the loop puts one empty line in front of every maximal run of equal keys, and one line feed after every line; a first run that continues the previous key gets no empty line |
| LineGrouper.MapLinesPermutation | src/org/robiul/jetbrain/plugins/linesorganizer/SortAction.java:83-87 | trimming the sorted lines gives a permutation of the trimmed input lines |
| LineGrouper.KeyedPermutation | src/org/robiul/jetbrain/plugins/linesorganizer/SortAction.java:83-93 | sorting does not change whether some line lacks a key |
| LineGrouper.SortLines | src/org/robiul/jetbrain/plugins/linesorganizer/SortAction.java:75-106 | `sortLines`: sort, trim, then the emitting loop; its meaning is stated by `SortLinesSpec` and `SortLinesIgnoresInputOrder` |
| LineGrouper.SortLinesSpec | src/org/robiul/jetbrain/plugins/linesorganizer/SortAction.java:75-106 | `sortLines` fails exactly when some trimmed line has no key; otherwise its output holds the trimmed input lines, each once, in the order of an ascending permutation of the raw lines, cut into maximal runs of equal keys, every run after an empty line and every line followed by a line feed |
| LineGrouper.SortLinesIgnoresInputOrder | src/org/robiul/jetbrain/plugins/linesorganizer/SortAction.java:83 | the output of `sortLines` does not depend on the order of its input |
| LineGrouper.EmitFinalChar | src/org/robiul/jetbrain/plugins/linesorganizer/SortAction.java:95-102 | for two lines or more, the last but one character of the output is a line feed exactly when the last trimmed line is empty |
| LineGrouper.SortedFinal | src/org/robiul/jetbrain/plugins/linesorganizer/SortAction.java:83-102 | on two lines or more, the `sortLines` output less its final line feed ends with a line feed exactly when the greatest raw line is blank |
| Document.SepLen | src/org/robiul/jetbrain/plugins/linesorganizer/SortAction.java:140 | `getLineSeparatorLength`: 1 for a line followed by a line feed, 0 for the unterminated last line; `LineOffsets` relates it to the offsets |
| Document.LineStart | src/org/robiul/jetbrain/plugins/linesorganizer/SortAction.java:69 | `getLineStartOffset`: the length of the text before the line; `TextOfLines` and `LineOffsets` state what lies between line starts |
| Document.LineEnd | src/org/robiul/jetbrain/plugins/linesorganizer/SortAction.java:70 | `getLineEndOffset`: the offset after the line's content; `LineOffsets` proves that adding the separator length gives the next line's start |
| Document.TextOfLines | src/org/robiul/jetbrain/plugins/linesorganizer/SortAction.java:69-70 | the characters from the start of one line to the start of a later one are the text of the lines in between, and line starts never decrease |
| Document.LineOffsets | src/org/robiul/jetbrain/plugins/linesorganizer/SortAction.java:140-144 | a line's end offset plus its separator length is the next line's start, and the characters in between are the line with its separator |
| Document.LineNumber | src/org/robiul/jetbrain/plugins/linesorganizer/SortAction.java:34-35 | `getLineNumber` returns the line that holds the offset |
| Document.HoldsOffsetUnique | src/org/robiul/jetbrain/plugins/linesorganizer/SortAction.java:34-35 | at most one line holds an offset, so the line number is determined |
| SortAction.LastSelectedLine | src/org/robiul/jetbrain/plugins/linesorganizer/SortAction.java:35-38 | after the decrement, the end line is the line holding the last selected character |
| SortAction.SelectedLines | src/org/robiul/jetbrain/plugins/linesorganizer/SortAction.java:32-42 | without a selection the range is line 0 to the last line; with one, it runs from the line holding the first selected character to the line holding the last, and is not reversed |
| SortAction.IgnoreLastEmptyLines | src/org/robiul/jetbrain/plugins/linesorganizer/SortAction.java:108-121 | the result is at most the end line and at least -1; a line it returns has content; every line after it, up to the end line, is empty |
| SortAction.ExtractLine | src/org/robiul/jetbrain/plugins/linesorganizer/SortAction.java:138-155 | an extracted line is the line's content followed by a line feed, whether the separator was there or was appended |
| SortAction.ExtractLines | src/org/robiul/jetbrain/plugins/linesorganizer/SortAction.java:123-136 | `endLine - startLine + 1` lines, in document order, each the content of its line and a line feed |
| SortAction.ExtractLinesText | src/org/robiul/jetbrain/plugins/linesorganizer/SortAction.java:123-155 | the extracted lines, put together, are the document's text of those lines, plus a line feed when the last of them is the unterminated last line |
| SortAction.Finish | src/org/robiul/jetbrain/plugins/linesorganizer/SortAction.java:54-72 | the end of the action never returns `Unchanged`; it returns `Failed` exactly when `sortLines` threw or the last character of an empty output is deleted; otherwise it replaces the span with the output less its last character when the character is dropped |
| SortAction.RunAction | src/org/robiul/jetbrain/plugins/linesorganizer/SortAction.java:26-73 | `executeWriteAction` with the plugin's `sortLines`; its effect is stated by `WholeDocumentUnchanged`, `RunFails`, `RunReplacementText` and `WholeDocumentWithoutFinalNewline` |
| SortAction.Execute | src/org/robiul/jetbrain/plugins/linesorganizer/SortAction.java:26-73 | a replacement's span lies within the document's text |
| SortAction.ExecuteUnchanged | src/org/robiul/jetbrain/plugins/linesorganizer/SortAction.java:45-49 | for any `sortLines`, the action returns `Unchanged` exactly when every line of the range after its first one is empty |
| SortAction.WholeDocumentUnchanged | src/org/robiul/jetbrain/plugins/linesorganizer/SortAction.java:40-49 | without a selection, the action returns `Unchanged` exactly when every line but the first is empty, which covers one-line and all-empty documents |
| SortAction.ApplyLines | src/org/robiul/jetbrain/plugins/linesorganizer/SortAction.java:69-72 | replacing from a line's start to the start of the line after another keeps the text before and after those lines |
| SortAction.SpanText | src/org/robiul/jetbrain/plugins/linesorganizer/SortAction.java:69-72 | such a span holds exactly the text of those lines, and replacing it keeps the rest |
| SortAction.ReplacedSpan | src/org/robiul/jetbrain/plugins/linesorganizer/SortAction.java:45-70 | a replacement starts at the start of the range's first line and ends at the start of the line after its last non-empty line, which comes after the first |
| SortAction.ExecuteReplaces | src/org/robiul/jetbrain/plugins/linesorganizer/SortAction.java:45-72 | a replacement changes exactly the lines from the range's first line to its last non-empty one, and keeps the text around them |
| SortAction.ExtractedTrimmed | src/org/robiul/jetbrain/plugins/linesorganizer/SortAction.java:87 | an extracted line, trimmed, is its document line's trimmed content |
| SortAction.SortExtractedFails | src/org/robiul/jetbrain/plugins/linesorganizer/SortAction.java:87-91 | `sortLines` on extracted lines throws exactly when one of them trims to a run of backslashes |
| SortAction.SortLinesEndsWithNewline | src/org/robiul/jetbrain/plugins/linesorganizer/SortAction.java:100 | on at least one line, `sortLines` fails or returns a non-empty text that ends with a line feed |
| SortAction.NoBackslashRunAfter | src/org/robiul/jetbrain/plugins/linesorganizer/SortAction.java:45 | the ignored trailing empty lines never trim to a run of backslashes |
| SortAction.RunFails | src/org/robiul/jetbrain/plugins/linesorganizer/SortAction.java:45-66 | the action throws exactly when some line of the range after its first one has content and some line of the range trims to a run of backslashes |
| SortAction.ExecuteFailsWhen | src/org/robiul/jetbrain/plugins/linesorganizer/SortAction.java:45-66 | the same holds for any `sortLines` that throws exactly on such lines and otherwise ends its output with a line feed |
| SortAction.RunReplacementText | src/org/robiul/jetbrain/plugins/linesorganizer/SortAction.java:54-66 | the replacement text is the output of `sortLines`, less a final line feed exactly when the whole document is sorted and does not end with a line feed |
| SortAction.ReplacementEndsWithNewline | src/org/robiul/jetbrain/plugins/linesorganizer/SortAction.java:60-66 | a sorted selection, or a sorted document that ends with a line feed, is replaced by a text that ends with a line feed |
| SortAction.EmptyLastLine | src/org/robiul/jetbrain/plugins/linesorganizer/SortAction.java:44-45 | a document whose last line is empty has no text or ends with a line feed, so the ignored lines never hide a missing final line feed |
| SortAction.WholeDocumentReplaced | src/org/robiul/jetbrain/plugins/linesorganizer/SortAction.java:40-72 | for any `sortLines` that ends its output with a line feed, when the action replaces a whole document without a final line feed, that document has more than one line, the replacement covers all of its text, and the new text is the output less its final line feed |
| SortAction.WholeDocumentText | src/org/robiul/jetbrain/plugins/linesorganizer/SortAction.java:40-72 | the sorted document without a final line feed is exactly the `sortLines` output less its final line feed |
| SortAction.WholeDocumentWithoutFinalNewline | src/org/robiul/jetbrain/plugins/linesorganizer/SortAction.java:60-66 | the sorted whole document, when it had no final line feed, ends with one exactly when the greatest raw line is blank |
| SortAction.BlankDocumentReplaced | src/org/robiul/jetbrain/plugins/linesorganizer/SortAction.java:45-54 | a whole document of blank lines, with content after its first line, is replaced |
| SortAction.BlankSortedLast | src/org/robiul/jetbrain/plugins/linesorganizer/SortAction.java:83 | the greatest extracted line of a document of blank lines is blank |
| SortAction.BlankDocumentGainsFinalNewline | src/org/robiul/jetbrain/plugins/linesorganizer/SortAction.java:60-66 | a whole document of blank lines without a final line feed, with content after its first line, ends with a line feed once sorted |
| SortAction.BlankLinesGainFinalNewline | src/org/robiul/jetbrain/plugins/linesorganizer/SortAction.java:60-66 | the document "\t\n " gains a final line feed when sorted |

## Left out

- The IntelliJ wiring is not modelled: `Editor`, `DataContext`, `EditorWriteActionHandler`, `TextComponentEditorAction` and the constructor. The document is a value, the selection is a pair of offsets, and the action returns its replacement instead of calling `replaceString`.
- The write-action transaction and undo are left out. They belong to the host.
- The `ArrayList` and `ArrayUtils.EMPTY_STRING_ARRAY` conversion in `extractLines` is left out. It has no behaviour of its own.
- The algorithm of `Arrays.sort` is not modelled. Only its result is: the unique ascending permutation under `compareTo`, computed by insertion sort as a reference.
- Java regular expressions in general are not modelled. `split("[\\\\]")` is modelled directly, as cutting at every backslash and dropping trailing empty pieces.
- Line separators other than "\n" are left out. IntelliJ documents normalise separators to "\n", so `getLineSeparatorLength` is 0 or 1.
- Java `int` offsets and their 32-bit range are not modelled. Offsets are unbounded naturals.
- Exceptions are not modelled as Java exceptions. A thrown exception becomes `Failed`, meaning the document is left alone. This covers `NegativeArraySizeException` from `copyOf` and `deleteCharAt` on an empty output.
- `Execute` takes `sortLines` as a parameter, so several lemmas hold for any line sorter. `RunAction` fixes it to the plugin's own.
- SortAction.Execute: its own contract only bounds the replaced span. The effect of the action is stated by `ExecuteUnchanged`, `RunFails`, `ExecuteFailsWhen`, `ExecuteReplaces` and `RunReplacementText`.
