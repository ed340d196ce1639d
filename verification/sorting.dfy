/** `Arrays.sort` on an array of strings, specified by its result: the unique
    permutation of the input that is ascending under `String.compareTo`. */
module Sorting {
  import opened JavaString

  /** `a` may precede `b` in ascending `compareTo` order. */
  predicate Below(a: JString, b: JString) {
    CompareTo(a, b) <= 0
  }

  predicate Sorted(s: seq<JString>) {
    forall i, j :: 0 <= i < j < |s| ==> Below(s[i], s[j])
  }

  /** `Below` is a total order on strings. */
  lemma BelowTotal(a: JString, b: JString)
    ensures Below(a, b) || Below(b, a)
    ensures Below(a, b) && Below(b, a) ==> a == b
  {
    CompareToAntisymmetric(a, b);
    CompareToZero(a, b);
  }

  /** Every element of `s` is at or above `y`. */
  predicate AllAbove(y: JString, s: seq<JString>) {
    forall k :: 0 <= k < |s| ==> Below(y, s[k])
  }

  lemma AllAbovePermutation(y: JString, a: seq<JString>, b: seq<JString>)
    requires AllAbove(y, a) && multiset(a) == multiset(b)
    ensures AllAbove(y, b)
  {
    forall k | 0 <= k < |b| ensures Below(y, b[k]) {
      assert b[k] in multiset(a);
      var i :| 0 <= i < |a| && a[i] == b[k];
    }
  }

  /** `s` with `x` placed before the first element it is below. */
  function Insert(x: JString, s: seq<JString>): (r: seq<JString>)
    ensures multiset(r) == multiset(s) + multiset{x}
  {
    if s == [] then [x]
    else if Below(x, s[0]) then [x] + s
    else
      assert s == [s[0]] + s[1..];
      [s[0]] + Insert(x, s[1..])
  }

  /** Inserting into an ascending sequence keeps it ascending. */
  lemma {:induction false} InsertSorted(x: JString, s: seq<JString>)
    requires Sorted(s)
    ensures Sorted(Insert(x, s))
    decreases |s|
  {
    if s == [] {
    } else if Below(x, s[0]) {
      forall j | 0 <= j < |s| ensures Below(x, s[j]) {
        if j > 0 { CompareToTransitive(x, s[0], s[j]); }
      }
    } else {
      BelowTotal(x, s[0]);
      var rest := Insert(x, s[1..]);
      InsertSorted(x, s[1..]);
      assert s == [s[0]] + s[1..];
      assert AllAbove(s[0], s[1..] + [x]);
      AllAbovePermutation(s[0], s[1..] + [x], rest);
    }
  }

  /** The result of `Arrays.sort`: a permutation of `s` (ascending, by
      `SortSorted`). */
  function Sort(s: seq<JString>): (r: seq<JString>)
    ensures multiset(r) == multiset(s)
    ensures |r| == |s|
  {
    if s == [] then []
    else
      assert s == [s[0]] + s[1..];
      var r := Insert(s[0], Sort(s[1..]));
      assert |r| == |multiset(r)| == |multiset(s)| == |s|;
      r
  }

  /** The result of the sort is ascending. */
  lemma {:induction false} SortSorted(s: seq<JString>)
    ensures Sorted(Sort(s))
    decreases |s|
  {
    if s != [] {
      SortSorted(s[1..]);
      InsertSorted(s[0], Sort(s[1..]));
    }
  }

  /** Two ascending permutations of the same strings are equal, so the result of
      the sort depends on nothing but the strings being sorted. */
  lemma {:induction false} SortedPermutationUnique(a: seq<JString>, b: seq<JString>)
    requires Sorted(a) && Sorted(b)
    requires multiset(a) == multiset(b)
    ensures a == b
    decreases |a|
  {
    assert |a| == |multiset(a)| == |multiset(b)| == |b|;
    if a != [] {
      SortedHeads(a, b);
      SameTails(a, b);
      SortedTail(a);
      SortedTail(b);
      SortedPermutationUnique(a[1..], b[1..]);
      assert a == [a[0]] + a[1..] && b == [b[0]] + b[1..];
    }
  }

  /** Two non-empty ascending permutations of each other start alike. */
  lemma SortedHeads(a: seq<JString>, b: seq<JString>)
    requires Sorted(a) && Sorted(b) && a != []
    requires multiset(a) == multiset(b)
    ensures b != [] && a[0] == b[0]
  {
    assert a[0] in multiset(b);
    var j :| 0 <= j < |b| && b[j] == a[0];
    assert b[0] in multiset(a);
    var i :| 0 <= i < |a| && a[i] == b[0];
    assert Below(b[0], a[0]) by { if j > 0 { assert Below(b[0], b[j]); } else { BelowTotal(b[0], b[0]); } }
    assert Below(a[0], b[0]) by { if i > 0 { assert Below(a[0], a[i]); } else { BelowTotal(a[0], a[0]); } }
    BelowTotal(a[0], b[0]);
  }

  /** Permutations of each other with the same first element have permuted tails. */
  lemma SameTails(a: seq<JString>, b: seq<JString>)
    requires a != [] && b != [] && a[0] == b[0]
    requires multiset(a) == multiset(b)
    ensures multiset(a[1..]) == multiset(b[1..])
  {
    assert a == [a[0]] + a[1..] && b == [b[0]] + b[1..];
    assert multiset(a[1..]) == multiset(a) - multiset{a[0]};
    assert multiset(b[1..]) == multiset(b) - multiset{b[0]};
  }

  /** Dropping the first element keeps a sequence ascending. */
  lemma SortedTail(a: seq<JString>)
    requires Sorted(a) && a != []
    ensures Sorted(a[1..])
  {
    forall i, j | 0 <= i < j < |a| - 1 ensures Below(a[1..][i], a[1..][j]) {
      assert a[1..][i] == a[i + 1] && a[1..][j] == a[j + 1];
    }
  }

  /** Sorting is idempotent. */
  lemma SortIdempotent(s: seq<JString>)
    ensures Sort(Sort(s)) == Sort(s)
  {
    SortSorted(Sort(s));
    SortSorted(s);
    SortedPermutationUnique(Sort(Sort(s)), Sort(s));
  }

  /** Reordering the input does not change the sorted result. */
  lemma SortIgnoresInputOrder(a: seq<JString>, b: seq<JString>)
    requires multiset(a) == multiset(b)
    ensures Sort(a) == Sort(b)
  {
    SortSorted(a);
    SortSorted(b);
    SortedPermutationUnique(Sort(a), Sort(b));
  }

  /** Every line of a sorted permutation of blank lines is blank, so the
      greatest one is. */
  lemma SortedBlank(lines: seq<JString>)
    requires lines != [] && forall k :: 0 <= k < |lines| ==> AllBlank(lines[k])
    ensures var sorted := Sort(lines); sorted != [] && AllBlank(sorted[|sorted| - 1])
  {
    var sorted := Sort(lines);
    BlankPermutation(lines, sorted);
  }

  /** A permutation of non-empty blank lines ends with a blank line. */
  lemma BlankPermutation(a: seq<JString>, b: seq<JString>)
    requires multiset(a) == multiset(b) && a != []
    requires forall k :: 0 <= k < |a| ==> AllBlank(a[k])
    ensures b != [] && AllBlank(b[|b| - 1])
  {
    assert |b| == |multiset(b)| == |multiset(a)| == |a|;
    assert b[|b| - 1] in multiset(a);
    var k :| 0 <= k < |a| && a[k] == b[|b| - 1];
  }
}
