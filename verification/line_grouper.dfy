/** A value that may be missing. */
module Optional {
  datatype Option<T> = None | Some(value: T)
}

/** `sortLines` of the sort action: sort the raw lines, trim them, and emit
    them one per line, with an empty line in front of every run of lines that
    share an ancestor key (the very first run included). */
module LineGrouper {
  import opened JavaString
  import opened Sorting
  import opened Optional

  // ---------------------------------------------------------------------------
  // Ancestor keys
  // ---------------------------------------------------------------------------

  /** The ancestor key of a trimmed line: split on backslashes, drop the last
      segment, join the rest with '_' and trim. `None` stands for the
      `NegativeArraySizeException` that `Arrays.copyOf(parts, parts.length - 1)`
      raises when the split leaves no segment at all. */
  function AncestorKey(line: JString): Option<JString>
  {
    var parts := Split(line);
    if |parts| == 0 then None
    else Some(Trim(Join(UNDERSCORE, parts[..|parts| - 1])))
  }

  /** `s` without the backslashes at its end. */
  function StripTrailingBackslashes(s: JString): (r: JString)
    ensures |r| <= |s| && r == s[..|r|]
    ensures r != [] ==> r[|r| - 1] != BACKSLASH
    ensures forall i :: |r| <= i < |s| ==> s[i] == BACKSLASH
  {
    if s != [] && s[|s| - 1] == BACKSLASH then StripTrailingBackslashes(s[..|s| - 1]) else s
  }

  /** The part of `s` in front of its last backslash, or nothing when it has none. */
  function BeforeLastBackslash(s: JString): (r: JString)
    ensures |r| <= |s| && r == s[..|r|]
    ensures BACKSLASH !in s ==> r == []
    ensures BACKSLASH in s ==> |r| < |s| && s[|r|] == BACKSLASH
    ensures forall i :: |r| < i < |s| ==> s[i] != BACKSLASH
  {
    if s == [] then []
    else if s[|s| - 1] == BACKSLASH then s[..|s| - 1]
    else BeforeLastBackslash(s[..|s| - 1])
  }

  /** The ancestor key read directly off the line: ignore trailing backslashes,
      keep what precedes the last remaining backslash, turn backslashes into
      underscores and trim. A non-empty line of backslashes only has no key. */
  function ReferenceKey(line: JString): Option<JString>
  {
    var stripped := StripTrailingBackslashes(line);
    if line != [] && stripped == [] then None
    else Some(Trim(ReplaceBackslashes(BeforeLastBackslash(stripped), UNDERSCORE)))
  }

  /** Joining all pieces but the last gives the part before the last backslash. */
  lemma {:induction false} JoinAllButLastPiece(s: JString)
    ensures var ps := Pieces(s);
      Join(UNDERSCORE, ps[..|ps| - 1]) == ReplaceBackslashes(BeforeLastBackslash(s), UNDERSCORE)
    decreases |s|
  {
    if s != [] {
      var s' := s[..|s| - 1];
      var init := Pieces(s');
      if s[|s| - 1] == BACKSLASH {
        assert (init + [[]])[..|init|] == init;
        JoinPieces(s', UNDERSCORE);
      } else {
        var ps := init[..|init| - 1] + [init[|init| - 1] + [s[|s| - 1]]];
        assert ps[..|ps| - 1] == init[..|init| - 1];
        JoinAllButLastPiece(s');
      }
    }
  }

  /** Dropping the trailing empty pieces is splitting without the trailing backslashes. */
  lemma {:induction false} DropTrailingEmptyPieces(s: JString)
    ensures DropTrailingEmpty(Pieces(s)) ==
      if StripTrailingBackslashes(s) == [] then [] else Pieces(StripTrailingBackslashes(s))
    decreases |s|
  {
    if s != [] {
      var s' := s[..|s| - 1];
      var init := Pieces(s');
      if s[|s| - 1] == BACKSLASH {
        assert (init + [[]])[..|init|] == init;
        DropTrailingEmptyPieces(s');
      } else {
        var ps := init[..|init| - 1] + [init[|init| - 1] + [s[|s| - 1]]];
        assert ps[|ps| - 1] != [];
      }
    } else {
      assert Pieces(s) == [[]];
      assert DropTrailingEmpty([[]]) == DropTrailingEmpty([[]][..0]);
    }
  }

  /** A non-empty line made of backslashes only: `split` leaves no segment. */
  predicate OnlyBackslashes(s: JString) {
    s != [] && forall i :: 0 <= i < |s| ==> s[i] == BACKSLASH
  }

  /** The key computed through `split`, `copyOf` and `join` is the reference key;
      it is missing exactly for a non-empty line made only of backslashes, and a
      line without a backslash has the empty key. */
  lemma AncestorKeyReference(line: JString)
    ensures AncestorKey(line) == ReferenceKey(line)
    ensures AncestorKey(line).None? <==> OnlyBackslashes(line)
    ensures BACKSLASH !in line ==> AncestorKey(line) == Some([])
  {
    var stripped := StripTrailingBackslashes(line);
    if BACKSLASH !in line {
      assert stripped == line;
      if line != [] {
        assert BeforeLastBackslash(line) == [];
      }
    } else {
      DropTrailingEmptyPieces(line);
      if stripped != [] {
        JoinAllButLastPiece(stripped);
      }
    }
  }

  /** A line with a single backslash, followed by something, has the trimmed
      part before the backslash as its key. */
  lemma KeyOfOneBackslash(u: JString, v: JString)
    requires v != [] && BACKSLASH !in u && BACKSLASH !in v
    ensures AncestorKey(u + [BACKSLASH] + v) == Some(Trim(u))
  {
    var s := u + [BACKSLASH] + v;
    PiecesAppend(u, v);
    PiecesWithoutBackslash(u);
    PiecesWithoutBackslash(v);
    assert Pieces(s) == [u, v];
    assert BACKSLASH in s by {
      assert s[|u|] == BACKSLASH;
    }
    assert Split(s) == [u, v];
    assert Split(s)[..1] == [u];
  }

  /** So a line such as "c\x" has the key "c": the text before its only
      backslash, not the empty key of a line without one. */
  lemma KeyOfPair(p: CodeUnit, q: CodeUnit)
    requires !IsBlank(p) && p != BACKSLASH && q != BACKSLASH
    ensures AncestorKey([p, BACKSLASH, q]) == Some([p])
  {
    assert [p] + [BACKSLASH] + [q] == [p, BACKSLASH, q];
    KeyOfOneBackslash([p], [q]);
    TrimUnchanged([p]);
  }

  // ---------------------------------------------------------------------------
  // The emitting loop
  // ---------------------------------------------------------------------------

  /** How the loop derives a line's key; `None` means the derivation throws. */
  type KeyFunction = JString -> Option<JString>

  /** Every line has a key. */
  predicate Keyed(ts: seq<JString>, key: KeyFunction) {
    forall i :: 0 <= i < |ts| ==> key(ts[i]).Some?
  }

  lemma KeyedCons(ts: seq<JString>, key: KeyFunction)
    requires ts != []
    ensures Keyed(ts, key) <==> key(ts[0]).Some? && Keyed(ts[1..], key)
  {
    if key(ts[0]).Some? && Keyed(ts[1..], key) {
      forall i | 0 < i < |ts| ensures key(ts[i]).Some? {
        assert ts[i] == ts[1..][i - 1];
      }
    }
  }

  /** The loop of `sortLines` over the remaining sorted, trimmed lines, given
      the previous line's key (`None` before the first line, where the source
      holds `null`). The result is `None` when a key cannot be computed. */
  function Emit(ts: seq<JString>, key: KeyFunction, previous: Option<JString>): (r: Option<JString>)
    ensures r.Some? <==> Keyed(ts, key)
    ensures r.Some? ==> (r.value == [] <==> ts == [])
    ensures r.Some? && ts != [] ==> r.value[|r.value| - 1] == LF
    ensures r.Some? && ts != [] && previous.None? ==> r.value[0] == LF
  {
    if ts == [] then Some([])
    else
      KeyedCons(ts, key);
      var k := key(ts[0]);
      if k.None? then None
      else
        var rest := Emit(ts[1..], key, k);
        if rest.None? then None
        else Some((if k != previous then [LF] else []) + ts[0] + [LF] + rest.value)
  }

  /** `v` ends with `suffix`. */
  predicate EndsWith(v: JString, suffix: JString) {
    |suffix| <= |v| && v[|v| - |suffix|..] == suffix
  }

  lemma EndsWithPrepend(head: JString, v: JString, suffix: JString)
    requires EndsWith(v, suffix)
    ensures EndsWith(head + v, suffix)
  {
    assert (head + v)[|head + v| - |suffix|..] == v[|v| - |suffix|..];
  }

  /** The output ends with the last line and its line feed, preceded by another
      line feed (of the line before it, or of the empty line that opens its run). */
  lemma {:induction false} EmitEnding(ts: seq<JString>, key: KeyFunction, previous: Option<JString>)
    requires Keyed(ts, key) && ts != [] && (previous.None? || |ts| > 1)
    ensures EndsWith(Emit(ts, key, previous).value, [LF] + ts[|ts| - 1] + [LF])
    decreases |ts|
  {
    var suffix := [LF] + ts[|ts| - 1] + [LF];
    if |ts| == 1 {
      EmitLast(ts, key, previous);
      assert Emit(ts, key, previous).value == suffix;
      EndsWithPrepend([], suffix, suffix);
    } else if |ts| == 2 {
      EmitPairEnding(ts, key, previous);
    } else {
      KeyedCons(ts, key);
      var k := key(ts[0]);
      var tail := ts[1..];
      var rest := Emit(tail, key, k).value;
      var head := (if k != previous then [LF] else []) + ts[0] + [LF];
      assert Emit(ts, key, previous).value == head + rest;
      assert EndsWith(rest, suffix) by {
        EmitEnding(tail, key, k);
        assert tail[|tail| - 1] == ts[|ts| - 1];
      }
      EndsWithPrepend(head, rest, suffix);
    }
  }

  /** The output for two lines ends with the second one between line feeds:
      that of the first line, or that of the empty line opening a new run. */
  lemma EmitPairEnding(ts: seq<JString>, key: KeyFunction, previous: Option<JString>)
    requires |ts| == 2 && Keyed(ts, key)
    ensures EndsWith(Emit(ts, key, previous).value, [LF] + ts[1] + [LF])
  {
    KeyedCons(ts, key);
    var k := key(ts[0]);
    var tail := ts[1..];
    var rest := Emit(tail, key, k).value;
    var marker := if k != previous then [LF] else [];
    var suffix := [LF] + ts[1] + [LF];
    assert Emit(ts, key, previous).value == marker + ts[0] + [LF] + rest;
    EmitLast(tail, key, k);
    if key(tail[0]) != k {
      assert rest == suffix;
      EndsWithPrepend(marker + ts[0] + [LF], suffix, suffix);
    } else {
      assert rest == ts[1] + [LF];
      assert marker + ts[0] + [LF] + rest == (marker + ts[0]) + suffix;
      EndsWithPrepend(marker + ts[0], suffix, suffix);
    }
  }

  /** The output for a single line. */
  lemma EmitLast(ts: seq<JString>, key: KeyFunction, previous: Option<JString>)
    requires |ts| == 1 && Keyed(ts, key)
    ensures Emit(ts, key, previous).value == (if key(ts[0]) != previous then [LF] else []) + ts[0] + [LF]
  {
    assert ts[1..] == [];
  }

  /** `f` applied to every line, in the same order. */
  function MapLines(f: JString -> JString, lines: seq<JString>): (r: seq<JString>)
    ensures |r| == |lines|
    ensures forall i :: 0 <= i < |lines| ==> r[i] == f(lines[i])
  {
    if lines == [] then [] else [f(lines[0])] + MapLines(f, lines[1..])
  }

  /** Every line trimmed, in the same order. */
  function TrimAll(lines: seq<JString>): seq<JString>
  {
    MapLines(Trim, lines)
  }

  /** `sortLines(lines)`: sort the raw lines, then trim and emit them. */
  function SortLines(lines: seq<JString>): Option<JString>
  {
    Emit(TrimAll(Sort(lines)), AncestorKey, None)
  }

  // ---------------------------------------------------------------------------
  // Reference: maximal runs of equal keys
  // ---------------------------------------------------------------------------

  function Flatten(gs: seq<seq<JString>>): seq<JString>
  {
    if gs == [] then [] else gs[0] + Flatten(gs[1..])
  }

  /** `gs` are maximal runs under `key`: none is empty, all lines of a run
      share one key, and neighbouring runs have different keys. */
  predicate MaximalRuns<K(==)>(gs: seq<seq<JString>>, key: JString -> K) {
    && (forall i :: 0 <= i < |gs| ==> gs[i] != [])
    && (forall i, j :: 0 <= i < |gs| && 0 <= j < |gs[i]| ==> key(gs[i][j]) == key(gs[i][0]))
    && (forall i :: 0 <= i < |gs| - 1 ==> key(gs[i][0]) != key(gs[i + 1][0]))
  }

  /** A line with the key of the first run joins that run. */
  lemma MaximalRunsExtend<K>(t: JString, gs: seq<seq<JString>>, key: JString -> K)
    requires MaximalRuns(gs, key) && gs != [] && key(gs[0][0]) == key(t)
    ensures MaximalRuns([[t] + gs[0]] + gs[1..], key)
  {
    var r := [[t] + gs[0]] + gs[1..];
    forall i, j | 0 <= i < |r| && 0 <= j < |r[i]|
      ensures key(r[i][j]) == key(r[i][0])
    {
      if i == 0 && j > 0 {
        assert r[0][j] == gs[0][j - 1];
      } else if i > 0 {
        assert r[i] == gs[i];
      }
    }
    forall i | 0 <= i < |r| - 1
      ensures key(r[i][0]) != key(r[i + 1][0])
    {
      assert r[i + 1] == gs[i + 1];
      if i > 0 {
        assert r[i] == gs[i];
      }
    }
  }

  /** A line with a key other than the first run's starts a run of its own. */
  lemma MaximalRunsPrepend<K>(t: JString, gs: seq<seq<JString>>, key: JString -> K)
    requires MaximalRuns(gs, key) && (gs != [] ==> key(gs[0][0]) != key(t))
    ensures MaximalRuns([[t]] + gs, key)
  {
    var r := [[t]] + gs;
    forall i, j | 0 <= i < |r| && 0 <= j < |r[i]|
      ensures key(r[i][j]) == key(r[i][0])
    {
      if i > 0 {
        assert r[i] == gs[i - 1];
      }
    }
    forall i | 0 <= i < |r| - 1
      ensures key(r[i][0]) != key(r[i + 1][0])
    {
      assert r[i + 1] == gs[i];
    }
  }

  /** `ts` cut into its maximal runs of lines with equal `key`. */
  function Groups<K(==)>(ts: seq<JString>, key: JString -> K): (gs: seq<seq<JString>>)
    ensures Flatten(gs) == ts
    ensures MaximalRuns(gs, key)
  {
    if ts == [] then []
    else
      var gs := Groups(ts[1..], key);
      assert ts == [ts[0]] + ts[1..];
      if gs != [] && key(gs[0][0]) == key(ts[0]) then
        var r := [[ts[0]] + gs[0]] + gs[1..];
        assert r[1..] == gs[1..];
        assert Flatten(gs) == gs[0] + Flatten(gs[1..]);
        MaximalRunsExtend(ts[0], gs, key);
        r
      else
        var r := [[ts[0]]] + gs;
        assert r[1..] == gs;
        MaximalRunsPrepend(ts[0], gs, key);
        r
  }

  /** The lines of one run, each followed by a line feed. */
  function Block(g: seq<JString>): JString
  {
    if g == [] then [] else g[0] + [LF] + Block(g[1..])
  }

  /** Every run preceded by an empty line. */
  function RenderGroups(gs: seq<seq<JString>>): JString
  {
    if gs == [] then [] else [LF] + Block(gs[0]) + RenderGroups(gs[1..])
  }

  // ---------------------------------------------------------------------------
  // Properties of sortLines
  // ---------------------------------------------------------------------------

  /** One step of the loop when the line joins the run that follows it. */
  lemma RenderJoinsRun(t: JString, gs: seq<seq<JString>>, marked: bool)
    requires gs != []
    ensures var run := [[t] + gs[0]] + gs[1..];
      (if marked then [LF] else []) + t + [LF] + (Block(gs[0]) + RenderGroups(gs[1..]))
      == if marked then RenderGroups(run) else Block(run[0]) + RenderGroups(run[1..])
  {
    var run := [[t] + gs[0]] + gs[1..];
    assert run[0][1..] == gs[0];
    assert run[1..] == gs[1..];
  }

  /** One step of the loop when the line starts a run of its own. */
  lemma RenderStartsRun(t: JString, gs: seq<seq<JString>>, marked: bool)
    ensures var run := [[t]] + gs;
      (if marked then [LF] else []) + t + [LF] + RenderGroups(gs)
      == if marked then RenderGroups(run) else Block(run[0]) + RenderGroups(run[1..])
  {
    var run := [[t]] + gs;
    assert Block(run[0]) == t + [LF] + Block([]);
    assert run[1..] == gs;
  }

  /** The emitting loop renders the maximal runs of equal keys, each preceded by
      an empty line, except that a first run continuing the previous key gets
      none. */
  lemma {:induction false} EmitRendersGroups(ts: seq<JString>, key: KeyFunction, previous: Option<JString>)
    requires Keyed(ts, key)
    ensures var gs := Groups(ts, key);
      Emit(ts, key, previous) == Some(
        if ts != [] && previous == key(ts[0]) then Block(gs[0]) + RenderGroups(gs[1..])
        else RenderGroups(gs))
    decreases |ts|
  {
    if ts != [] {
      KeyedCons(ts, key);
      var t := ts[0];
      var k := key(t);
      var tail := ts[1..];
      var gs' := Groups(tail, key);
      EmitRendersGroups(tail, key, k);
      assert tail != [] ==> gs'[0][0] == tail[0] by {
        if tail != [] { assert Flatten(gs') == gs'[0] + Flatten(gs'[1..]); }
      }
      var rest := Emit(tail, key, k).value;
      assert Emit(ts, key, previous) == Some((if k != previous then [LF] else []) + t + [LF] + rest);
      if tail != [] && k == key(tail[0]) {
        assert Groups(ts, key) == [[t] + gs'[0]] + gs'[1..];
        RenderJoinsRun(t, gs', k != previous);
      } else {
        assert Groups(ts, key) == [[t]] + gs';
        RenderStartsRun(t, gs', k != previous);
      }
    }
  }

  /** Removing element `j > 0` commutes with removing the head. */
  lemma RemoveAfterHead(b: seq<JString>, j: nat)
    requires 0 < j < |b|
    ensures b[..j] + b[j + 1..] == [b[0]] + (b[1..][..j - 1] + b[1..][j..])
  {
    assert b[..j] == [b[0]] + b[1..][..j - 1];
  }

  lemma {:induction false} MapLinesRemove(f: JString -> JString, b: seq<JString>, j: nat)
    requires j < |b|
    ensures multiset(MapLines(f, b)) == multiset(MapLines(f, b[..j] + b[j + 1..])) + multiset{f(b[j])}
    decreases j
  {
    if j == 0 {
      assert b[..0] + b[1..] == b[1..];
      MapLinesCons(f, b);
    } else {
      MapLinesRemove(f, b[1..], j - 1);
      MapLinesRemoveStep(f, b, j);
    }
  }

  /** The inductive step of `MapLinesRemove`: removing element `j` of the tail. */
  lemma MapLinesRemoveStep(f: JString -> JString, b: seq<JString>, j: nat)
    requires 0 < j < |b|
    requires var t := b[1..];
      multiset(MapLines(f, t)) == multiset(MapLines(f, t[..j - 1] + t[j..])) + multiset{f(t[j - 1])}
    ensures multiset(MapLines(f, b)) == multiset(MapLines(f, b[..j] + b[j + 1..])) + multiset{f(b[j])}
  {
    var t := b[1..];
    var rest := t[..j - 1] + t[j..];
    var removed := [b[0]] + rest;
    assert b[..j] + b[j + 1..] == removed by {
      RemoveAfterHead(b, j);
    }
    var m := multiset(MapLines(f, rest));
    assert multiset(MapLines(f, removed)) == m + multiset{f(b[0])} by {
      assert removed[1..] == rest;
      MapLinesCons(f, removed);
    }
    assert multiset(MapLines(f, b)) == (m + multiset{f(b[j])}) + multiset{f(b[0])} by {
      assert t[j - 1] == b[j];
      MapLinesCons(f, b);
    }
    UnionSwap(m, f(b[j]), f(b[0]));
  }

  lemma UnionSwap(m: multiset<JString>, x: JString, y: JString)
    ensures (m + multiset{x}) + multiset{y} == (m + multiset{y}) + multiset{x}
  {
  }

  lemma MapLinesCons(f: JString -> JString, a: seq<JString>)
    requires a != []
    ensures multiset(MapLines(f, a)) == multiset(MapLines(f, a[1..])) + multiset{f(a[0])}
  {
    assert MapLines(f, a) == [f(a[0])] + MapLines(f, a[1..]);
  }

  lemma MultisetRemove(b: seq<JString>, j: nat)
    requires j < |b|
    ensures multiset(b[..j] + b[j + 1..]) == multiset(b) - multiset{b[j]}
  {
    assert b == b[..j] + [b[j]] + b[j + 1..];
  }

  /** Mapping two orderings of the same lines gives two orderings of the same
      mapped lines. */
  lemma {:induction false} MapLinesPermutation(f: JString -> JString, a: seq<JString>, b: seq<JString>)
    requires multiset(a) == multiset(b)
    ensures multiset(MapLines(f, a)) == multiset(MapLines(f, b))
    decreases |a|
  {
    if a == [] {
      assert |b| == |multiset(b)| == 0;
    } else {
      assert a[0] in multiset(b);
      var j :| 0 <= j < |b| && b[j] == a[0];
      var rest := b[..j] + b[j + 1..];
      assert multiset(a[1..]) == multiset(rest) by {
        MultisetRemove(b, j);
        assert a == [a[0]] + a[1..];
      }
      MapLinesPermutation(f, a[1..], rest);
      MapLinesRemove(f, b, j);
      MapLinesCons(f, a);
    }
  }

  lemma KeyedPermutation(a: seq<JString>, b: seq<JString>, key: KeyFunction)
    requires multiset(a) == multiset(b)
    ensures Keyed(a, key) <==> Keyed(b, key)
  {
    if Keyed(a, key) {
      forall i | 0 <= i < |b| ensures key(b[i]).Some? {
        assert b[i] in multiset(a);
      }
    }
    if Keyed(b, key) {
      forall i | 0 <= i < |a| ensures key(a[i]).Some? {
        assert a[i] in multiset(b);
      }
    }
  }

  /** `sortLines` fails exactly when some trimmed line has no ancestor key.
      Otherwise its output is, for an ascending ordering of the RAW lines, the
      trimmed lines cut into maximal runs of equal keys, every run preceded by an
      empty line and every line followed by a line feed; the trimmed lines are
      exactly those of the input, each once. */
  lemma SortLinesSpec(lines: seq<JString>)
    ensures SortLines(lines).Some? <==> Keyed(TrimAll(lines), AncestorKey)
    ensures SortLines(lines).Some? ==>
      exists p ::
        && Sorted(p)
        && multiset(p) == multiset(lines)
        && multiset(TrimAll(p)) == multiset(TrimAll(lines))
        && SortLines(lines).value == RenderGroups(Groups(TrimAll(p), AncestorKey))
  {
    var p := Sort(lines);
    SortSorted(lines);
    MapLinesPermutation(Trim, p, lines);
    KeyedPermutation(TrimAll(p), TrimAll(lines), AncestorKey);
    if Keyed(TrimAll(p), AncestorKey) {
      EmitRendersGroups(TrimAll(p), AncestorKey, None);
    }
  }

  /** The output does not depend on the order of the input lines. */
  lemma SortLinesIgnoresInputOrder(a: seq<JString>, b: seq<JString>)
    requires multiset(a) == multiset(b)
    ensures SortLines(a) == SortLines(b)
  {
    SortIgnoresInputOrder(a, b);
  }

  // ---------------------------------------------------------------------------
  // The final characters of the output
  // ---------------------------------------------------------------------------

  /** The output of emitting two trimmed lines or more ends with a line feed,
      and its last but one character is a line feed exactly when the last line
      is empty: otherwise it is that line's last character, which is not blank. */
  lemma EmitFinalChar(ts: seq<JString>, t: JString, out: JString)
    requires |ts| > 1 && Emit(ts, AncestorKey, None) == Some(out)
    requires ts[|ts| - 1] == t && (t != [] ==> !IsBlank(t[|t| - 1]))
    ensures |out| >= 2 && out[|out| - 1] == LF
    ensures out[|out| - 2] == LF <==> t == []
  {
    EmitEnding(ts, AncestorKey, None);
    LastButOne(out, t);
  }

  /** A text that ends with a line feed, a trimmed line and a line feed has a
      line feed as its last but one character exactly when that line is empty. */
  lemma LastButOne(out: JString, t: JString)
    requires EndsWith(out, [LF] + t + [LF])
    requires t != [] ==> !IsBlank(t[|t| - 1])
    ensures |out| >= 2 && out[|out| - 1] == LF
    ensures out[|out| - 2] == LF <==> t == []
  {
    var suffix := [LF] + t + [LF];
    assert out[|out| - 1] == suffix[|suffix| - 1];
    assert out[|out| - 2] == suffix[|suffix| - 2];
  }

  lemma DropFinal(text: JString, out: JString, p: bool)
    requires out == text + [LF] && |out| >= 2 && (out[|out| - 2] == LF <==> p)
    ensures text != [] && (text[|text| - 1] == LF <==> p)
  {
    assert text[|text| - 1] == out[|out| - 2];
  }

  lemma SortedFinal(lines: seq<JString>, text: JString)
    requires |lines| > 1 && SortLines(lines) == Some(text + [LF])
    ensures var sorted := Sort(lines);
      sorted != [] && text != [] && (text[|text| - 1] == LF <==> AllBlank(sorted[|sorted| - 1]))
  {
    var sorted := Sort(lines);
    TrimmedLast(sorted);
    EmittedFinal(TrimAll(sorted), Trim(sorted[|sorted| - 1]), AllBlank(sorted[|sorted| - 1]), text);
  }

  /** The last trimmed line is the trimmed last line, which is empty exactly
      when that line is blank. */
  lemma TrimmedLast(lines: seq<JString>)
    requires lines != []
    ensures |TrimAll(lines)| == |lines|
    ensures TrimAll(lines)[|lines| - 1] == Trim(lines[|lines| - 1])
    ensures Trim(lines[|lines| - 1]) == [] <==> AllBlank(lines[|lines| - 1])
  {
  }

  /** The same for emitted trimmed lines less the final line feed, the last of
      them `t`, which is empty exactly when `blank` holds. */
  lemma EmittedFinal(ts: seq<JString>, t: JString, blank: bool, text: JString)
    requires |ts| > 1 && Emit(ts, AncestorKey, None) == Some(text + [LF])
    requires ts[|ts| - 1] == t && (t != [] ==> !IsBlank(t[|t| - 1]))
    requires t == [] <==> blank
    ensures text != [] && (text[|text| - 1] == LF <==> blank)
  {
    var out := text + [LF];
    EmitFinalChar(ts, t, out);
    DropFinal(text, out, blank);
  }
}
