/**
  The Python `str` operations that the key translation relies on, with the
  same meaning: `startswith`, `endswith`, the substring test `p in s`,
  `replace(p, "")` and `split(sep)` for a one-character separator.
 */
module Strings {

  /** `s.startswith(p)` */
  predicate StartsWith(s: string, p: string) {
    |p| <= |s| && s[..|p|] == p
  }

  /** `s.endswith(p)` */
  predicate EndsWith(s: string, p: string) {
    |p| <= |s| && s[|s| - |p|..] == p
  }

  /** `p in s`: some position of `s` starts an occurrence of `p`. */
  predicate Contains(s: string, p: string) {
    exists i :: 0 <= i <= |s| && StartsWith(s[i..], p)
  }

  /**
    `s.replace(p, "")`: scanning from the left, every occurrence of `p` that
    does not overlap an occurrence already deleted is deleted.
   */
  function RemoveAll(s: string, p: string): (r: string)
    requires p != []
    ensures |r| <= |s|
    decreases |s|
  {
    if s == [] then []
    else if StartsWith(s, p) then RemoveAll(s[|p|..], p)
    else [s[0]] + RemoveAll(s[1..], p)
  }

  /** `s.split(sep)`: the maximal runs between separators, empty runs included. */
  function Split(s: string, sep: char): (parts: seq<string>)
    ensures |parts| > 0
    ensures forall i :: 0 <= i < |parts| ==> sep !in parts[i]
    decreases |s|
  {
    if s == [] then [""]
    else
      var rest := Split(s[1..], sep);
      if s[0] == sep then [""] + rest
      else [[s[0]] + rest[0]] + rest[1..]
  }

  /** `sep.join(parts)` */
  function Join(parts: seq<string>, sep: char): string
    requires |parts| > 0
  {
    if |parts| == 1 then parts[0] else parts[0] + [sep] + Join(parts[1..], sep)
  }

  // ---------------------------------------------------------------------
  // Character-level facts used to evaluate the predicates on fixed names
  // ---------------------------------------------------------------------

  lemma StartsWithCharAt(s: string, p: string, d: nat)
    requires d < |p|
    ensures StartsWith(s, p) ==> s[d] == p[d]
  {
    if StartsWith(s, p) {
      assert s[..|p|][d] == p[d];
    }
  }

  lemma EndsWithCharAt(s: string, p: string, d: nat)
    requires d < |p|
    ensures EndsWith(s, p) ==> s[|s| - 1 - d] == p[|p| - 1 - d]
  {
    if EndsWith(s, p) {
      assert s[|s| - |p|..][|p| - 1 - d] == p[|p| - 1 - d];
    }
  }

  /** Every character of `p` occurs in a string that contains `p`; so a string lacking one cannot contain `p`. */
  lemma ContainedChar(s: string, p: string, c: char)
    requires c in p
    ensures Contains(s, p) ==> c in s
  {
    if Contains(s, p) {
      var i :| 0 <= i <= |s| && StartsWith(s[i..], p);
      var j :| 0 <= j < |p| && p[j] == c;
      StartsWithCharAt(s[i..], p, j);
      assert s[i + j] == c;
    }
  }

  /**
    An occurrence of `p` in `x + [c] + y`, where `c` is the first character of
    `p` and occurs nowhere else, must start at that `c`; so it needs `y` to
    continue with the second character of `p`.
   */
  lemma ContainedAroundChar(x: string, c: char, y: string, p: string)
    requires |p| >= 2 && p[0] == c
    ensures Contains(x + [c] + y, p) ==> c in x || c in y || (|y| > 0 && y[0] == p[1])
  {
    var s := x + [c] + y;
    if Contains(s, p) {
      var i :| 0 <= i <= |s| && StartsWith(s[i..], p);
      StartsWithCharAt(s[i..], p, 0);
      StartsWithCharAt(s[i..], p, 1);
      if i < |x| {
        assert x[i] == c;
      } else if i > |x| {
        assert y[i - |x| - 1] == c;
      } else {
        assert y[0] == p[1];
      }
    }
  }

  lemma AppendEndsWith(a: string, p: string)
    ensures EndsWith(a + p, p)
  {
    assert (a + p)[|a + p| - |p|..] == p;
  }

  lemma AppendStartsWith(p: string, a: string)
    ensures StartsWith(p + a, p)
  {
    assert (p + a)[..|p|] == p;
  }

  lemma ContainsMiddle(x: string, p: string, y: string)
    ensures Contains(x + p + y, p)
  {
    var s := x + p + y;
    assert s[|x|..] == p + y;
    AppendStartsWith(p, y);
  }

  /** An occurrence of `p` in the tail of `s` is an occurrence in `s`. */
  lemma ContainsInSuffix(s: string, k: nat, p: string)
    requires k <= |s| && Contains(s[k..], p)
    ensures Contains(s, p)
  {
    var i :| 0 <= i <= |s[k..]| && StartsWith(s[k..][i..], p);
    assert s[k..][i..] == s[k + i..];
  }

  // ---------------------------------------------------------------------
  // replace(p, "")
  // ---------------------------------------------------------------------

  /** Deleting the occurrences of `p` shortens `s` by at least `|p|` when `p` occurs. */
  lemma {:induction false} RemoveAllShrinks(s: string, p: string)
    requires p != [] && Contains(s, p)
    ensures |RemoveAll(s, p)| <= |s| - |p|
    decreases |s|
  {
    var i :| 0 <= i <= |s| && StartsWith(s[i..], p);
    if StartsWith(s, p) {
    } else {
      assert i != 0;
      assert s[1..][i - 1..] == s[i..];
      RemoveAllShrinks(s[1..], p);
    }
  }

  /** Without an occurrence of `p`, `replace(p, "")` returns `s` itself. */
  lemma {:induction false} RemoveAllAbsent(s: string, p: string)
    requires p != [] && !Contains(s, p)
    ensures RemoveAll(s, p) == s
    decreases |s|
  {
    if s != [] {
      assert s[0..] == s;
      if Contains(s[1..], p) {
        ContainsInSuffix(s, 1, p);
      }
      RemoveAllAbsent(s[1..], p);
    }
  }

  /** `replace(p, "")` leaves `s` unchanged exactly when `p` does not occur in it. */
  lemma RemoveAllUnchangedIff(s: string, p: string)
    requires p != []
    ensures RemoveAll(s, p) == s <==> !Contains(s, p)
  {
    if Contains(s, p) {
      RemoveAllShrinks(s, p);
    } else {
      RemoveAllAbsent(s, p);
    }
  }

  /** A leading occurrence of `p` is deleted and the scan resumes right after it. */
  lemma RemoveAllLeading(p: string, s: string)
    requires p != []
    ensures RemoveAll(p + s, p) == RemoveAll(s, p)
  {
    AppendStartsWith(p, s);
    assert (p + s)[|p|..] == s;
  }

  // ---------------------------------------------------------------------
  // split and join
  // ---------------------------------------------------------------------

  /** Splitting at the first separator: the part before it, then the split of the rest. */
  lemma {:induction false} SplitAtSeparator(a: string, sep: char, b: string)
    requires sep !in a
    ensures Split(a + [sep] + b, sep) == [a] + Split(b, sep)
    decreases |a|
  {
    if a == [] {
      assert a + [sep] + b == [sep] + b;
      assert ([sep] + b)[1..] == b;
    } else {
      assert (a + [sep] + b)[1..] == a[1..] + [sep] + b;
      SplitAtSeparator(a[1..], sep, b);
      assert [a[0]] + a[1..] == a;
    }
  }

  /** A string without the separator splits into itself alone. */
  lemma {:induction false} SplitWithoutSeparator(a: string, sep: char)
    requires sep !in a
    ensures Split(a, sep) == [a]
    decreases |a|
  {
    if a != [] {
      SplitWithoutSeparator(a[1..], sep);
      assert [a[0]] + a[1..] == a;
    }
  }

  /** Joining the parts of a split gives the string back. */
  lemma {:induction false} JoinSplit(s: string, sep: char)
    ensures Join(Split(s, sep), sep) == s
    decreases |s|
  {
    if s != [] {
      var rest := Split(s[1..], sep);
      JoinSplit(s[1..], sep);
      if s[0] == sep {
        assert Split(s, sep)[1..] == rest;
      } else {
        var parts := Split(s, sep);
        if |rest| == 1 {
          assert parts == [[s[0]] + rest[0]];
        } else {
          assert parts[1..] == rest[1..];
          assert Join(rest, sep) == rest[0] + [sep] + Join(rest[1..], sep);
        }
      }
    }
  }

  /** Splitting a join of separator-free parts gives the parts back. */
  lemma {:induction false} SplitJoin(parts: seq<string>, sep: char)
    requires |parts| > 0
    requires forall i :: 0 <= i < |parts| ==> sep !in parts[i]
    ensures Split(Join(parts, sep), sep) == parts
    decreases |parts|
  {
    if |parts| == 1 {
      SplitWithoutSeparator(parts[0], sep);
    } else {
      SplitJoin(parts[1..], sep);
      SplitAtSeparator(parts[0], sep, Join(parts[1..], sep));
      assert parts == [parts[0]] + parts[1..];
    }
  }
}
