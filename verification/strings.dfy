/** The few `java.lang.String` operations the core relies on, over
    `seq<char>`: blank test, trim, upper-casing, splitting on a character,
    joining with a separator, and sorting by `compareTo`. */
module Strings {

  /** `Character.isWhitespace`: the Unicode space, line and paragraph
      separators other than the no-break spaces, plus the ASCII controls
      TAB, LF, VT, FF, CR and FS, GS, RS, US. */
  predicate IsWhitespace(c: char)
  {
    || c == ' ' || ('\t' <= c <= '\r') || ('\U{1C}' <= c <= '\U{1F}')
    || c == '\U{1680}' || ('\U{2000}' <= c <= '\U{2006}') || ('\U{2008}' <= c <= '\U{200A}')
    || c == '\U{2028}' || c == '\U{2029}' || c == '\U{205F}' || c == '\U{3000}'
  }

  /** `String.isBlank`: the scan for a first non-whitespace character
      reaches the end, so the string is empty or whitespace only. */
  function IsBlank(s: string): (b: bool)
    ensures b <==> forall i :: 0 <= i < |s| ==> IsWhitespace(s[i])
  {
    if |s| == 0 then true
    else if !IsWhitespace(s[0]) then false
    else
      assert forall i :: 0 < i < |s| ==> s[i] == s[1..][i - 1];
      IsBlank(s[1..])
  }

  /** `String.trim` drops leading and trailing characters up to U+0020. */
  function Trim(s: string): (r: string)
    ensures |r| <= |s|
    ensures |r| > 0 ==> r[0] > ' ' && r[|r| - 1] > ' '
    ensures (forall i :: 0 <= i < |s| ==> s[i] <= ' ') ==> r == []
    ensures TrimStart(s) == s[|s| - |TrimStart(s)|..]
    ensures |r| <= |TrimStart(s)| && r == TrimStart(s)[..|r|]
  {
    TrimEnd(TrimStart(s))
  }

  /** What `trim` drops at the end are characters up to U+0020. */
  lemma TrimDropsTrailing(s: string)
    ensures forall i :: |Trim(s)| <= i < |TrimStart(s)| ==> TrimStart(s)[i] <= ' '
  {
  }

  /** Drops the leading characters up to U+0020: what is left is a suffix
      of `s` and everything dropped was such a character. */
  function TrimStart(s: string): (r: string)
    ensures |r| <= |s| && r == s[|s| - |r|..]
    ensures forall i :: 0 <= i < |s| - |r| ==> s[i] <= ' '
    ensures |r| > 0 ==> r[0] > ' '
  {
    if |s| > 0 && s[0] <= ' ' then TrimStart(s[1..]) else s
  }

  /** Drops the trailing characters up to U+0020. */
  function TrimEnd(s: string): (r: string)
    ensures |r| <= |s| && r == s[..|r|]
    ensures forall i :: |r| <= i < |s| ==> s[i] <= ' '
    ensures |r| > 0 ==> r[|r| - 1] > ' '
    ensures |s| > 0 && s[0] > ' ' ==> |r| > 0 && r[0] == s[0]
  {
    if |s| > 0 && s[|s| - 1] <= ' ' then TrimEnd(s[..|s| - 1]) else s
  }

  /** `Character.toUpperCase` on the ASCII letters; other characters are
      left alone (see README: case mapping beyond ASCII is not modelled). */
  function UpperChar(c: char): char
  {
    if 'a' <= c <= 'z' then (c as int - 32) as char else c
  }

  function ToUpper(s: string): (r: string)
    ensures |r| == |s|
    ensures forall i :: 0 <= i < |s| ==> r[i] == UpperChar(s[i])
  {
    if |s| == 0 then [] else [UpperChar(s[0])] + ToUpper(s[1..])
  }

  /** The pieces of `s` between occurrences of `sep`, empty pieces included
      (`"/a//b"` gives `["", "a", "", "b"]`). */
  function Split(s: string, sep: char): (parts: seq<string>)
    ensures |parts| >= 1
    ensures forall i :: 0 <= i < |parts| ==> sep !in parts[i]
    decreases |s|
  {
    if |s| == 0 then [""]
    else
      var rest := Split(s[1..], sep);
      if s[0] == sep then [""] + rest
      else [[s[0]] + rest[0]] + rest[1..]
  }

  /** `String.join(sep, parts)`. */
  function Join(parts: seq<string>, sep: string): string
  {
    if |parts| == 0 then ""
    else if |parts| == 1 then parts[0]
    else parts[0] + sep + Join(parts[1..], sep)
  }

  /** Splitting a join recovers the parts when no part contains the separator. */
  lemma {:induction false} SplitJoin(parts: seq<string>, sep: char)
    requires |parts| >= 1
    requires forall i :: 0 <= i < |parts| ==> sep !in parts[i]
    ensures Split(Join(parts, [sep]), sep) == parts
    decreases |parts|, |parts[0]|
  {
    if |parts| == 1 {
      SplitNoSep(parts[0], sep);
    } else {
      var p := parts[0];
      var s := Join(parts, [sep]);
      if |p| == 0 {
        assert s == [sep] + Join(parts[1..], [sep]);
        assert s[1..] == Join(parts[1..], [sep]);
        SplitJoin(parts[1..], sep);
      } else {
        var parts' := [p[1..]] + parts[1..];
        assert forall i :: 0 <= i < |parts'| ==> sep !in parts'[i] by {
          assert forall c :: c in p[1..] ==> c in p;
        }
        assert Join(parts', [sep]) == p[1..] + [sep] + Join(parts[1..], [sep]);
        assert s == [p[0]] + Join(parts', [sep]);
        assert s[1..] == Join(parts', [sep]);
        SplitJoin(parts', sep);
        assert [p[0]] + p[1..] == p;
      }
    }
  }

  lemma {:induction false} SplitNoSep(p: string, sep: char)
    requires sep !in p
    ensures Split(p, sep) == [p]
  {
    if |p| > 0 {
      assert sep !in p[1..] by {
        assert forall c :: c in p[1..] ==> c in p;
      }
      SplitNoSep(p[1..], sep);
      assert [p[0]] + p[1..] == p;
    }
  }

  /** `String.compareTo(a, b) <= 0`: lexicographic by character, a proper
      prefix first. */
  predicate LessEq(a: string, b: string)
  {
    if |a| == 0 then true
    else if |b| == 0 then false
    else if a[0] != b[0] then a[0] < b[0]
    else LessEq(a[1..], b[1..])
  }

  lemma LessEqReflexive(a: string)
    ensures LessEq(a, a)
  {
  }

  lemma LessEqTotal(a: string, b: string)
    ensures LessEq(a, b) || LessEq(b, a)
  {
  }

  lemma LessEqAntisymmetric(a: string, b: string)
    requires LessEq(a, b) && LessEq(b, a)
    ensures a == b
  {
    if |a| > 0 && |b| > 0 {
      LessEqAntisymmetric(a[1..], b[1..]);
      assert a == [a[0]] + a[1..] && b == [b[0]] + b[1..];
    }
  }

  lemma LessEqTransitive(a: string, b: string, c: string)
    requires LessEq(a, b) && LessEq(b, c)
    ensures LessEq(a, c)
  {
    if |a| > 0 && |b| > 0 && |c| > 0 && a[0] == b[0] && b[0] == c[0] {
      LessEqTransitive(a[1..], b[1..], c[1..]);
    }
  }

  predicate Sorted(s: seq<string>)
  {
    forall i, j :: 0 <= i < j < |s| ==> LessEq(s[i], s[j])
  }

  /** Insert `x` into a sorted sequence. */
  function InsertSorted(x: string, s: seq<string>): (r: seq<string>)
    requires Sorted(s)
    ensures Sorted(r)
    ensures multiset(r) == multiset(s) + multiset{x}
    ensures |r| == |s| + 1
  {
    if |s| == 0 then [x]
    else if LessEq(x, s[0]) then
      assert forall j :: 0 < j < |s| ==> LessEq(s[0], s[j]);
      forall j | 0 <= j < |s| ensures LessEq(x, s[j]) {
        if j > 0 { LessEqTransitive(x, s[0], s[j]); }
      }
      assert s == [s[0]] + s[1..];
      [x] + s
    else
      LessEqTotal(x, s[0]);
      var tail := InsertSorted(x, s[1..]);
      assert s == [s[0]] + s[1..];
      HeadBelowInsert(x, s, tail);
      [s[0]] + tail
  }

  /** The head of a sorted sequence stays below everything once a larger
      string is inserted into its tail. */
  lemma HeadBelowInsert(x: string, s: seq<string>, tail: seq<string>)
    requires Sorted(s) && |s| > 0 && LessEq(s[0], x)
    requires multiset(tail) == multiset(s[1..]) + multiset{x}
    ensures forall k :: 0 <= k < |tail| ==> LessEq(s[0], tail[k])
  {
    forall k | 0 <= k < |tail| ensures LessEq(s[0], tail[k]) {
      assert tail[k] in multiset(tail);
      if tail[k] != x {
        assert tail[k] in multiset(s[1..]);
        var j :| 0 <= j < |s[1..]| && s[1..][j] == tail[k];
        assert s[j + 1] == tail[k];
      }
    }
  }

  /** Insertion sort by `compareTo`, as `stream().sorted()` orders strings. */
  function Sort(s: seq<string>): (r: seq<string>)
    ensures Sorted(r)
    ensures multiset(r) == multiset(s)
    ensures |r| == |s|
  {
    if |s| == 0 then []
    else
      assert s == [s[0]] + s[1..];
      InsertSorted(s[0], Sort(s[1..]))
  }

  /** Two sorted arrangements of the same strings are the same sequence, so
      a sorted listing depends only on which strings there are. */
  lemma {:induction false} SortedUnique(a: seq<string>, b: seq<string>)
    requires Sorted(a) && Sorted(b)
    requires multiset(a) == multiset(b)
    ensures a == b
    decreases |a|
  {
    assert |a| == |multiset(a)| == |b|;
    if |a| > 0 {
      SortedHeadsAgree(a, b);
      TailMultiset(a);
      TailMultiset(b);
      SortedTail(a);
      SortedTail(b);
      SortedUnique(a[1..], b[1..]);
      assert a == [a[0]] + a[1..] && b == [b[0]] + b[1..];
    }
  }

  lemma SortedHeadsAgree(a: seq<string>, b: seq<string>)
    requires Sorted(a) && Sorted(b)
    requires multiset(a) == multiset(b)
    requires |a| > 0 && |b| > 0
    ensures a[0] == b[0]
  {
    assert a[0] in multiset(b) && b[0] in multiset(a);
    var i :| 0 <= i < |b| && b[i] == a[0];
    var j :| 0 <= j < |a| && a[j] == b[0];
    assert LessEq(b[0], a[0]) by {
      if i > 0 { assert LessEq(b[0], b[i]); } else { LessEqReflexive(a[0]); }
    }
    assert LessEq(a[0], b[0]) by {
      if j > 0 { assert LessEq(a[0], a[j]); } else { LessEqReflexive(b[0]); }
    }
    LessEqAntisymmetric(a[0], b[0]);
  }

  lemma TailMultiset(a: seq<string>)
    requires |a| > 0
    ensures multiset(a[1..]) == multiset(a) - multiset{a[0]}
  {
    assert a == [a[0]] + a[1..];
  }

  lemma SortedTail(a: seq<string>)
    requires Sorted(a) && |a| > 0
    ensures Sorted(a[1..])
  {
    forall i, j | 0 <= i < j < |a[1..]| ensures LessEq(a[1..][i], a[1..][j]) {
      assert a[1..][i] == a[i + 1] && a[1..][j] == a[j + 1];
    }
  }

  /** The distinct elements of `s`, in order of first occurrence: the
      contents of a `HashSet` built from a list. */
  function Distinct(s: seq<string>): (r: seq<string>)
    ensures forall x :: x in r <==> x in s
    ensures forall i, j :: 0 <= i < j < |r| ==> r[i] != r[j]
  {
    if |s| == 0 then []
    else
      var rest := Distinct(s[..|s| - 1]);
      assert forall x :: x in s <==> x in s[..|s| - 1] || x == s[|s| - 1];
      if s[|s| - 1] in rest then rest else rest + [s[|s| - 1]]
  }
}
