/** The editor document as the sort action reads it: a sequence of lines, each
    with its content and an optional "\n" separator, and the character offsets
    that the document derives from them (`getLineStartOffset`,
    `getLineEndOffset`, `getLineSeparatorLength`, `getLineNumber`). */
module Document {
  import opened JavaString

  /** One line: its content and whether a "\n" separator follows it. */
  datatype Line = Line(content: JString, terminated: bool)

  type Doc = seq<Line>

  /** The shape every editor document has: no line feed inside a line's content,
      every line but the last followed by a separator, the last one not. */
  predicate WellFormed(d: Doc) {
    && (forall i :: 0 <= i < |d| ==> LF !in d[i].content)
    && (forall i :: 0 <= i < |d| - 1 ==> d[i].terminated)
    && (|d| > 0 ==> !d[|d| - 1].terminated)
  }

  /** `getLineSeparatorLength`. */
  function SepLen(l: Line): nat {
    if l.terminated then 1 else 0
  }

  /** The characters of one line, separator included. */
  function LineText(l: Line): JString {
    l.content + if l.terminated then [LF] else []
  }

  /** The whole text of the document. */
  function Text(d: Doc): JString {
    if d == [] then [] else Text(d[..|d| - 1]) + LineText(d[|d| - 1])
  }

  /** `getLineStartOffset(i)`: the length of the text before line `i`. */
  function LineStart(d: Doc, i: nat): nat
    requires i <= |d|
  {
    |Text(d[..i])|
  }

  /** `getLineEndOffset(i)`: the offset just after line `i`'s content. */
  function LineEnd(d: Doc, i: nat): nat
    requires i < |d|
  {
    LineStart(d, i) + |d[i].content|
  }

  lemma {:induction false} TextAppend(a: Doc, b: Doc)
    ensures Text(a + b) == Text(a) + Text(b)
    decreases |b|
  {
    if b != [] {
      var b' := b[..|b| - 1];
      assert (a + b)[..|a + b| - 1] == a + b';
      TextAppend(a, b');
    } else {
      assert a + b == a;
    }
  }

  /** The lines between `from` and `to` (exclusive) occupy the text from the
      start of `from` to the start of `to`; in particular line `i` occupies
      [LineStart(i), LineEnd(i) + SepLen(i)), and the next line starts there. */
  lemma TextOfLines(d: Doc, from: nat, to: nat)
    requires from <= to <= |d|
    ensures LineStart(d, from) <= LineStart(d, to) <= |Text(d)|
    ensures Text(d)[LineStart(d, from)..LineStart(d, to)] == Text(d[from..to])
  {
    assert d[..to] == d[..from] + d[from..to];
    assert d == d[..to] + d[to..];
    TextAppend(d[..from], d[from..to]);
    TextAppend(d[..to], d[to..]);
  }

  lemma LineOffsets(d: Doc, i: nat)
    requires i < |d|
    ensures LineStart(d, i + 1) == LineEnd(d, i) + SepLen(d[i])
    ensures LineEnd(d, i) + SepLen(d[i]) <= |Text(d)|
    ensures Text(d)[LineStart(d, i)..LineEnd(d, i) + SepLen(d[i])] == LineText(d[i])
  {
    var upTo := d[..i + 1];
    assert upTo[..i] == d[..i];
    assert Text(upTo) == Text(d[..i]) + LineText(d[i]);
    assert LineStart(d, i + 1) == LineEnd(d, i) + SepLen(d[i]);
    assert Text(d[i..i + 1]) == LineText(d[i]) by {
      assert d[i..i + 1] == [d[i]];
      assert [d[i]][..0] == [];
    }
    TextOfLines(d, i, i + 1);
  }

  /** Line `i` holds character offset `offset`: it starts at or before it, and
      the next line, if any, starts after it. */
  predicate HoldsOffset(d: Doc, i: nat, offset: nat) {
    && i < |d|
    && LineStart(d, i) <= offset
    && (i + 1 < |d| ==> offset < LineStart(d, i + 1))
  }

  function LineNumberFrom(d: Doc, offset: nat, i: nat): (r: nat)
    requires i < |d| && LineStart(d, i) <= offset
    ensures i <= r && HoldsOffset(d, r, offset)
    decreases |d| - i
  {
    if i + 1 < |d| && LineStart(d, i + 1) <= offset then LineNumberFrom(d, offset, i + 1) else i
  }

  /** `getLineNumber(offset)`: the line holding character offset `offset`. */
  function LineNumber(d: Doc, offset: nat): (r: nat)
    requires |d| > 0
    ensures HoldsOffset(d, r, offset)
  {
    LineNumberFrom(d, offset, 0)
  }

  /** Line starts never decrease, so at most one line holds a given offset. */
  lemma HoldsOffsetUnique(d: Doc, i: nat, j: nat, offset: nat)
    requires HoldsOffset(d, i, offset) && HoldsOffset(d, j, offset)
    ensures i == j
  {
    if i < j {
      TextOfLines(d, i + 1, j);
    } else if j < i {
      TextOfLines(d, j + 1, i);
    }
  }

  /** The text before line `i` and from line `j` on. */
  lemma PrefixSuffix(d: Doc, i: nat, j: nat)
    requires i <= j <= |d|
    ensures LineStart(d, i) <= LineStart(d, j) <= |Text(d)|
    ensures Text(d)[..LineStart(d, i)] == Text(d[..i])
    ensures Text(d)[LineStart(d, j)..] == Text(d[j..])
  {
    TextOfLines(d, i, j);
    SplitText(d, i);
    SplitText(d, j);
  }

  /** The text is that of the lines before `i` followed by that of the rest. */
  lemma SplitText(d: Doc, i: nat)
    requires i <= |d|
    ensures Text(d) == Text(d[..i]) + Text(d[i..])
    ensures Text(d)[..LineStart(d, i)] == Text(d[..i])
    ensures Text(d)[LineStart(d, i)..] == Text(d[i..])
  {
    assert d == d[..i] + d[i..];
    TextAppend(d[..i], d[i..]);
  }

  /** The text of lines `first` to `last` is that of the lines before `last`
      followed by line `last`. */
  lemma TextSnoc(d: Doc, first: nat, last: nat)
    requires first <= last < |d|
    ensures Text(d[first..last + 1]) == Text(d[first..last]) + LineText(d[last])
  {
    assert d[first..last + 1][..last - first] == d[first..last];
  }
}
