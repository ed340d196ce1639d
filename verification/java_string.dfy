/** Java strings as the sort action sees them: sequences of UTF-16 code units,
    with the few `java.lang.String` operations the action relies on
    (`trim`, `compareTo`, `split` on a backslash and `String.join`). */
module JavaString {

  /** One UTF-16 code unit, the element type of a Java `String`. */
  newtype CodeUnit = x: int | 0 <= x < 0x1_0000

  type JString = seq<CodeUnit>

  const LF: CodeUnit := 0x0A
  const SPACE: CodeUnit := 0x20
  const BACKSLASH: CodeUnit := 0x5C
  const UNDERSCORE: CodeUnit := 0x5F

  // ---------------------------------------------------------------------------
  // String.trim
  // ---------------------------------------------------------------------------

  /** `String.trim` treats every code unit up to and including U+0020 as blank. */
  predicate IsBlank(c: CodeUnit) {
    c <= SPACE
  }

  predicate AllBlank(s: JString) {
    forall i :: 0 <= i < |s| ==> IsBlank(s[i])
  }

  /** The suffix of `s` that starts at its first non-blank code unit. */
  function TrimLeading(s: JString): (r: JString)
    ensures |r| <= |s| && r == s[|s| - |r|..]
    ensures AllBlank(s[..|s| - |r|])
    ensures r != [] ==> !IsBlank(r[0])
  {
    if s != [] && IsBlank(s[0]) then TrimLeading(s[1..]) else s
  }

  /** The prefix of `s` that ends at its last non-blank code unit. */
  function TrimTrailing(s: JString): (r: JString)
    ensures |r| <= |s| && r == s[..|r|]
    ensures AllBlank(s[|r|..])
    ensures r != [] ==> !IsBlank(r[|r| - 1])
  {
    if s != [] && IsBlank(s[|s| - 1]) then TrimTrailing(s[..|s| - 1]) else s
  }

  /** `String.trim`: `s` without its leading and trailing blank code units. */
  function Trim(s: JString): (r: JString)
    ensures |r| <= |s|
    ensures r != [] ==> !IsBlank(r[0]) && !IsBlank(r[|r| - 1])
    ensures r == [] <==> AllBlank(s)
    ensures exists a, b :: 0 <= a <= b <= |s| && r == s[a..b] && AllBlank(s[..a]) && AllBlank(s[b..])
  {
    var t := TrimLeading(s);
    var u := TrimTrailing(t);
    TrimSlice(s, t, u);
    u
  }

  /** A prefix `u` of a suffix `t` of `s`, each cut leaving only blank code
      units behind, with no blank code unit at either end, is a slice of `s`
      with blank code units only around it, empty exactly when `s` is blank. */
  lemma TrimSlice(s: JString, t: JString, u: JString)
    requires |t| <= |s| && t == s[|s| - |t|..] && AllBlank(s[..|s| - |t|])
    requires |u| <= |t| && u == t[..|u|] && AllBlank(t[|u|..])
    requires t != [] ==> !IsBlank(t[0])
    requires u != [] ==> !IsBlank(u[|u| - 1])
    ensures |u| <= |s|
    ensures u != [] ==> !IsBlank(u[0]) && !IsBlank(u[|u| - 1])
    ensures u == [] <==> AllBlank(s)
    ensures exists a, b :: 0 <= a <= b <= |s| && u == s[a..b] && AllBlank(s[..a]) && AllBlank(s[b..])
  {
    var a := |s| - |t|;
    SliceOfSuffix(s, a, |u|);
    assert 0 <= a <= a + |u| <= |s| && u == s[a..a + |u|] && AllBlank(s[..a]) && AllBlank(s[a + |u|..]);
    if u == [] {
      assert s == s[..a] + t;
    } else {
      assert u[0] == t[0];
      assert s[a] == u[0];
    }
  }

  /** Slicing a suffix of `s` is slicing `s` itself. */
  lemma SliceOfSuffix(s: JString, a: nat, n: nat)
    requires a + n <= |s|
    ensures s[a..][..n] == s[a..a + n] && s[a..][n..] == s[a + n..]
  {
  }

  /** A string that neither starts nor ends with a blank code unit is its own trim. */
  lemma TrimUnchanged(s: JString)
    requires s != [] ==> !IsBlank(s[0]) && !IsBlank(s[|s| - 1])
    ensures Trim(s) == s
  {
  }

  lemma {:induction false} TrimLeadingAppend(s: JString, c: CodeUnit)
    ensures TrimLeading(s + [c]) == if TrimLeading(s) == [] then TrimLeading([c]) else TrimLeading(s) + [c]
    decreases |s|
  {
    if s != [] && IsBlank(s[0]) {
      assert (s + [c])[1..] == s[1..] + [c];
      TrimLeadingAppend(s[1..], c);
    }
  }

  /** Trimming ignores a blank code unit appended at the end, such as a line separator. */
  lemma TrimIgnoresBlankSuffix(s: JString, c: CodeUnit)
    requires IsBlank(c)
    ensures Trim(s + [c]) == Trim(s)
  {
    if TrimLeading(s) == [] {
      BlankSnoc(s, c);
    } else {
      TrimNonBlankSnoc(s, c);
    }
  }

  /** A string with nothing left after its leading trim stays blank with a
      blank code unit appended. */
  lemma BlankSnoc(s: JString, c: CodeUnit)
    requires IsBlank(c) && TrimLeading(s) == []
    ensures Trim(s + [c]) == [] && Trim(s) == []
  {
    assert s[..|s|] == s;
    assert AllBlank(s + [c]);
  }

  /** Appending a blank code unit to a string that is not blank leaves its trim alone. */
  lemma TrimNonBlankSnoc(s: JString, c: CodeUnit)
    requires IsBlank(c) && TrimLeading(s) != []
    ensures Trim(s + [c]) == Trim(s)
  {
    TrimLeadingAppend(s, c);
    TrimPair(s + [c], TrimLeading(s) + [c]);
    TrimPair(s, TrimLeading(s));
    TrimTrailingBlankSnoc(TrimLeading(s), c);
  }

  /** `trim` is the trailing trim of the leading trim. */
  lemma TrimPair(s: JString, t: JString)
    requires t == TrimLeading(s)
    ensures Trim(s) == TrimTrailing(t)
  {
  }

  /** The trailing trim ignores a blank code unit at the end. */
  lemma TrimTrailingBlankSnoc(t: JString, c: CodeUnit)
    requires IsBlank(c)
    ensures TrimTrailing(t + [c]) == TrimTrailing(t)
  {
    assert (t + [c])[..|t + [c]| - 1] == t;
  }

  // ---------------------------------------------------------------------------
  // String.compareTo
  // ---------------------------------------------------------------------------

  /** `String.compareTo`: the first differing code unit decides; when one string
      is a prefix of the other, the shorter one comes first. */
  function CompareTo(a: JString, b: JString): int
  {
    if a == [] || b == [] then |a| - |b|
    else if a[0] != b[0] then a[0] as int - b[0] as int
    else CompareTo(a[1..], b[1..])
  }

  lemma {:induction false} CompareToAntisymmetric(a: JString, b: JString)
    ensures CompareTo(a, b) == -CompareTo(b, a)
    decreases |a|
  {
    if a != [] && b != [] && a[0] == b[0] {
      CompareToAntisymmetric(a[1..], b[1..]);
    }
  }

  lemma {:induction false} CompareToZero(a: JString, b: JString)
    ensures CompareTo(a, b) == 0 <==> a == b
    decreases |a|
  {
    if a != [] && b != [] && a[0] == b[0] {
      CompareToZero(a[1..], b[1..]);
      assert a == [a[0]] + a[1..] && b == [b[0]] + b[1..];
    }
  }

  lemma {:induction false} CompareToTransitive(a: JString, b: JString, c: JString)
    requires CompareTo(a, b) <= 0 && CompareTo(b, c) <= 0
    ensures CompareTo(a, c) <= 0
    decreases |a|
  {
    if a != [] && b != [] && c != [] && a[0] == b[0] == c[0] {
      CompareToTransitive(a[1..], b[1..], c[1..]);
    }
  }

  // ---------------------------------------------------------------------------
  // Splitting on the backslash and String.join
  // ---------------------------------------------------------------------------

  /** `String.join(sep, parts)`: the parts with `sep` between neighbours. */
  function Join(sep: CodeUnit, parts: seq<JString>): JString
  {
    if |parts| == 0 then []
    else if |parts| == 1 then parts[0]
    else Join(sep, parts[..|parts| - 1]) + [sep] + parts[|parts| - 1]
  }

  /** Every piece between backslashes, empty ones included: a string with k
      backslashes has k + 1 pieces. */
  function Pieces(s: JString): (r: seq<JString>)
    ensures |r| >= 1
    ensures forall i :: 0 <= i < |r| ==> BACKSLASH !in r[i]
  {
    if s == [] then [[]]
    else
      var init := Pieces(s[..|s| - 1]);
      var c := s[|s| - 1];
      if c == BACKSLASH then init + [[]]
      else init[..|init| - 1] + [init[|init| - 1] + [c]]
  }

  /** `s` with every backslash replaced by `sep`. */
  function ReplaceBackslashes(s: JString, sep: CodeUnit): (r: JString)
    ensures |r| == |s|
    ensures forall i :: 0 <= i < |s| ==> r[i] == if s[i] == BACKSLASH then sep else s[i]
  {
    if s == [] then []
    else ReplaceBackslashes(s[..|s| - 1], sep) + [if s[|s| - 1] == BACKSLASH then sep else s[|s| - 1]]
  }

  /** Joining the pieces with `sep` replaces each backslash by `sep`; with the
      backslash itself as `sep` it gives the string back. */
  lemma {:induction false} JoinPieces(s: JString, sep: CodeUnit)
    ensures Join(sep, Pieces(s)) == ReplaceBackslashes(s, sep)
    ensures Join(BACKSLASH, Pieces(s)) == s
    decreases |s|
  {
    if s != [] {
      var s' := s[..|s| - 1];
      var c := s[|s| - 1];
      JoinPieces(s', sep);
      assert Join(sep, Pieces(s)) == Join(sep, Pieces(s')) + [if c == BACKSLASH then sep else c] by {
        JoinPiecesStep(s, sep);
      }
      assert Join(BACKSLASH, Pieces(s)) == Join(BACKSLASH, Pieces(s')) + [c] by {
        JoinPiecesStep(s, BACKSLASH);
      }
      assert s == s' + [c];
      assert ReplaceBackslashes(s, sep) == ReplaceBackslashes(s', sep) + [if c == BACKSLASH then sep else c];
    }
  }

  /** The joined pieces grow by one code unit (or separator) per code unit. */
  lemma JoinPiecesStep(s: JString, sep: CodeUnit)
    requires s != []
    ensures var c := s[|s| - 1];
      Join(sep, Pieces(s)) == Join(sep, Pieces(s[..|s| - 1])) + [if c == BACKSLASH then sep else c]
  {
    var init := Pieces(s[..|s| - 1]);
    var c := s[|s| - 1];
    if c == BACKSLASH {
      assert (init + [[]])[..|init|] == init;
    } else {
      JoinLastGrows(init, c, sep);
    }
  }

  /** Appending to the last part appends to the joined string. */
  lemma JoinLastGrows(parts: seq<JString>, c: CodeUnit, sep: CodeUnit)
    requires |parts| >= 1
    ensures var r := parts[..|parts| - 1] + [parts[|parts| - 1] + [c]];
      Join(sep, r) == Join(sep, parts) + [c]
  {
    var r := parts[..|parts| - 1] + [parts[|parts| - 1] + [c]];
    if |r| > 1 {
      assert r[..|r| - 1] == parts[..|parts| - 1];
    }
  }

  lemma {:induction false} PiecesWithoutBackslash(s: JString)
    requires BACKSLASH !in s
    ensures Pieces(s) == [s]
    decreases |s|
  {
    if s != [] {
      assert BACKSLASH !in s[..|s| - 1];
      PiecesWithoutBackslash(s[..|s| - 1]);
      assert s == s[..|s| - 1] + [s[|s| - 1]];
    }
  }

  lemma {:induction false} PiecesAppend(a: JString, b: JString)
    ensures Pieces(a + [BACKSLASH] + b) == Pieces(a) + Pieces(b)
    decreases |b|
  {
    var s := a + [BACKSLASH] + b;
    var pa := Pieces(a);
    if b == [] {
      assert s[..|s| - 1] == a;
      assert Pieces(s) == pa + [[]];
    } else {
      var b' := b[..|b| - 1];
      var c := b[|b| - 1];
      var pb := Pieces(b');
      assert s[..|s| - 1] == a + [BACKSLASH] + b';
      assert s[|s| - 1] == c;
      assert Pieces(s[..|s| - 1]) == pa + pb by {
        PiecesAppend(a, b');
      }
      if c == BACKSLASH {
        assert Pieces(s) == (pa + pb) + [[]];
        assert Pieces(b) == pb + [[]];
        ConcatAssoc(pa, pb, [[]]);
      } else {
        var piece := pb[|pb| - 1] + [c];
        PiecesGrowLast(s, pa, pb);
        assert Pieces(b) == pb[..|pb| - 1] + [piece];
        ConcatAssoc(pa, pb[..|pb| - 1], [piece]);
      }
    }
  }

  /** A last code unit other than a backslash extends the last piece. */
  lemma PiecesGrowLast(s: JString, pa: seq<JString>, pb: seq<JString>)
    requires s != [] && s[|s| - 1] != BACKSLASH && pb != []
    requires Pieces(s[..|s| - 1]) == pa + pb
    ensures Pieces(s) == (pa + pb[..|pb| - 1]) + [pb[|pb| - 1] + [s[|s| - 1]]]
  {
    LastOfConcat(pa, pb);
  }

  /** The last element of a concatenation comes from its second part. */
  lemma LastOfConcat<T>(x: seq<T>, y: seq<T>)
    requires y != []
    ensures (x + y)[..|x + y| - 1] == x + y[..|y| - 1]
    ensures (x + y)[|x + y| - 1] == y[|y| - 1]
  {
  }

  lemma ConcatAssoc<T>(x: seq<T>, y: seq<T>, z: seq<T>)
    ensures (x + y) + z == x + (y + z)
  {
  }

  /** Splitting a joined sequence of backslash-free pieces gives the pieces back. */
  lemma {:induction false} PiecesOfJoin(parts: seq<JString>)
    requires |parts| >= 1
    requires forall i :: 0 <= i < |parts| ==> BACKSLASH !in parts[i]
    ensures Pieces(Join(BACKSLASH, parts)) == parts
    decreases |parts|
  {
    if |parts| == 1 {
      PiecesWithoutBackslash(parts[0]);
    } else {
      var init := parts[..|parts| - 1];
      PiecesOfJoin(init);
      PiecesAppend(Join(BACKSLASH, init), parts[|parts| - 1]);
      PiecesWithoutBackslash(parts[|parts| - 1]);
    }
  }

  /** The pieces with the trailing empty ones removed. */
  function DropTrailingEmpty(ps: seq<JString>): (r: seq<JString>)
    ensures |r| <= |ps| && r == ps[..|r|]
    ensures r != [] ==> r[|r| - 1] != []
    ensures forall i :: |r| <= i < |ps| ==> ps[i] == []
  {
    if ps != [] && ps[|ps| - 1] == [] then DropTrailingEmpty(ps[..|ps| - 1]) else ps
  }

  /** `s.split("[\\\\]")`: when no backslash occurs the string itself is the only
      element (even the empty string); otherwise the pieces between backslashes,
      with trailing empty pieces removed. */
  function Split(s: JString): seq<JString>
  {
    if BACKSLASH !in s then [s] else DropTrailingEmpty(Pieces(s))
  }
}
