/**
 * The few pieces of JavaScript's String behaviour the updater relies on:
 * `split` on a one-character separator, `Array.prototype.join`, `trim`,
 * and the idiom `s.split(c).pop()` (the last segment).
 */
module Strings {

  import opened Wrappers

  /** Number of occurrences of `c` in `s`. */
  function Count(s: string, c: char): (n: nat)
    ensures n <= |s|
  {
    if s == [] then 0
    else
      assert s == [s[0]] + s[1..];
      (if s[0] == c then 1 else 0) + Count(s[1..], c)
  }

  /** No occurrence means no such character. */
  lemma {:induction false} CountZero(s: string, c: char)
    ensures Count(s, c) == 0 <==> c !in s
  {
    if s != [] {
      CountZero(s[1..], c);
      assert s == [s[0]] + s[1..];
    }
  }

  /**
   * `s.split(sep)` for a one-character separator: the maximal pieces between
   * separators, always one more piece than separators ("".split(sep) is [""]).
   */
  function Split(s: string, sep: char): (parts: seq<string>)
    ensures |parts| == Count(s, sep) + 1
    ensures forall i :: 0 <= i < |parts| ==> sep !in parts[i]
  {
    if s == [] then [""]
    else
      var rest := Split(s[1..], sep);
      if s[0] == sep then [""] + rest
      else [[s[0]] + rest[0]] + rest[1..]
  }

  /** `parts.join(sep)`. */
  function Join(parts: seq<string>, sep: char): string
  {
    if |parts| == 0 then ""
    else if |parts| == 1 then parts[0]
    else parts[0] + [sep] + Join(parts[1..], sep)
  }

  /** Joining the pieces of a split gives back the string. */
  lemma {:induction false} JoinSplit(s: string, sep: char)
    ensures Join(Split(s, sep), sep) == s
  {
    if s != [] {
      var rest := Split(s[1..], sep);
      JoinSplit(s[1..], sep);
      if s[0] == sep {
        assert Split(s, sep) == [""] + rest;
        assert s == [sep] + s[1..];
      } else if |rest| == 1 {
        assert Split(s, sep) == [[s[0]] + rest[0]];
        assert s == [s[0]] + s[1..];
      } else {
        var parts := Split(s, sep);
        assert parts == [[s[0]] + rest[0]] + rest[1..];
        assert parts[1..] == rest[1..];
        assert Join(rest, sep) == rest[0] + [sep] + Join(rest[1..], sep);
        assert s == [s[0]] + s[1..];
      }
    }
  }

  /** A string without the separator splits into itself alone. */
  lemma {:induction false} SplitNoSeparator(s: string, sep: char)
    requires sep !in s
    ensures Split(s, sep) == [s]
  {
    if s != [] {
      assert sep !in s[1..] by { assert forall x :: x in s[1..] ==> x in s; }
      SplitNoSeparator(s[1..], sep);
      assert [s[0]] + s[1..] == s;
    }
  }

  /** A separator after a separator-free prefix cuts exactly there. */
  lemma {:induction false} SplitAppend(a: string, sep: char, b: string)
    requires sep !in a
    ensures Split(a + [sep] + b, sep) == [a] + Split(b, sep)
  {
    var s := a + [sep] + b;
    if a == [] {
      assert s == [sep] + b;
      assert s[1..] == b;
    } else {
      assert s[1..] == a[1..] + [sep] + b;
      SplitAppend(a[1..], sep, b);
      assert [a[0]] + a[1..] == a;
    }
  }

  /** Splitting a join of separator-free pieces gives back the pieces. */
  lemma {:induction false} SplitJoin(parts: seq<string>, sep: char)
    requires |parts| > 0
    requires forall i :: 0 <= i < |parts| ==> sep !in parts[i]
    ensures Split(Join(parts, sep), sep) == parts
  {
    if |parts| == 1 {
      SplitNoSeparator(parts[0], sep);
    } else {
      SplitJoin(parts[1..], sep);
      SplitAppend(parts[0], sep, Join(parts[1..], sep));
      assert [parts[0]] + parts[1..] == parts;
    }
  }

  /** Every character of a join satisfies `p` when the separator and every piece's characters do. */
  lemma {:induction false} JoinChars(parts: seq<string>, sep: char, p: char -> bool)
    requires p(sep)
    requires forall i, j :: 0 <= i < |parts| && 0 <= j < |parts[i]| ==> p(parts[i][j])
    ensures forall j :: 0 <= j < |Join(parts, sep)| ==> p(Join(parts, sep)[j])
  {
    if |parts| > 1 {
      JoinChars(parts[1..], sep, p);
      var rest := Join(parts[1..], sep);
      var s := Join(parts, sep);
      assert s == parts[0] + [sep] + rest;
      forall j | 0 <= j < |s| ensures p(s[j]) {
        if j < |parts[0]| {
          assert s[j] == parts[0][j];
        } else if j > |parts[0]| {
          assert s[j] == rest[j - |parts[0]| - 1];
        }
      }
    }
  }

  /**
   * The text before the first `sep` and, when there is one, the text after it
   * (how a regular expression such as `core(-pre)?(+build)?` divides a string).
   */
  function SplitFirst(s: string, sep: char): (r: (string, Option<string>))
    ensures r.1.None? ==> r.0 == s && sep !in s
    ensures r.1.Some? ==> s == r.0 + [sep] + r.1.value && sep !in r.0
  {
    if s == [] then ("", None)
    else if s[0] == sep then ("", Some(s[1..]))
    else
      var r := SplitFirst(s[1..], sep);
      assert s == [s[0]] + s[1..];
      ([s[0]] + r.0, r.1)
  }

  /** A separator after a separator-free prefix is the first one. */
  lemma {:induction false} SplitFirstAt(a: string, sep: char, b: string)
    requires sep !in a
    ensures SplitFirst(a + [sep] + b, sep) == (a, Some(b))
  {
    var s := a + [sep] + b;
    if a == [] {
      assert s == [sep] + b;
    } else {
      assert s[1..] == a[1..] + [sep] + b;
      SplitFirstAt(a[1..], sep, b);
      assert [a[0]] + a[1..] == a;
    }
  }

  /** A string without the separator has no second half. */
  lemma SplitFirstNone(s: string, sep: char)
    requires sep !in s
    ensures SplitFirst(s, sep) == (s, None)
  {
  }

  /** Last element of a non-empty sequence (`Array.prototype.pop`'s value). */
  function Last<T>(s: seq<T>): T
    requires |s| > 0
  {
    s[|s| - 1]
  }

  /**
   * `s.split(sep).pop()`: the text after the last separator, or all of `s`
   * when it has none.
   */
  function LastSegment(s: string, sep: char): (seg: string)
    ensures sep !in seg
    ensures |seg| <= |s| && s[|s| - |seg|..] == seg
    ensures |seg| < |s| ==> s[|s| - |seg| - 1] == sep
  {
    var parts := Split(s, sep);
    LastSegmentIsSuffix(s, sep);
    Last(parts)
  }

  /** `seg` ends `s`, and is all of `s` or follows a separator. */
  predicate EndsSegment(s: string, seg: string, sep: char)
  {
    |seg| <= |s| && s[|s| - |seg|..] == seg && (|seg| < |s| ==> s[|s| - |seg| - 1] == sep)
  }

  lemma {:induction false} LastSegmentIsSuffix(s: string, sep: char)
    ensures EndsSegment(s, Last(Split(s, sep)), sep)
  {
    if s != [] {
      LastSegmentIsSuffix(s[1..], sep);
      LastSegmentStep(s, sep);
    }
  }

  /** One character in front keeps the last piece of a split a segment that ends the string. */
  lemma LastSegmentStep(s: string, sep: char)
    requires s != []
    requires EndsSegment(s[1..], Last(Split(s[1..], sep)), sep)
    ensures EndsSegment(s, Last(Split(s, sep)), sep)
  {
    var t := s[1..];
    var rest := Split(t, sep);
    var seg := Last(rest);
    if s[0] == sep {
      assert Split(s, sep) == [""] + rest;
      assert Last(Split(s, sep)) == seg;
      EndsSegmentCons(s[0], t, seg, sep);
    } else if |rest| > 1 {
      assert Split(s, sep) == [[s[0]] + rest[0]] + rest[1..];
      assert Last(Split(s, sep)) == seg;
      CountZero(t, sep);
      assert sep in t && sep !in seg;
      assert |seg| < |t|;
      EndsSegmentCons(s[0], t, seg, sep);
    } else {
      CountZero(t, sep);
      assert seg == t;
      assert s == [s[0]] + t;
      assert Split(s, sep) == [s];
      assert s[|s| - |s|..] == s;
    }
  }

  /** A segment that ends `t` after a separator, or any segment of `t` when `c` is one, also ends `[c] + t`. */
  lemma EndsSegmentCons(c: char, t: string, seg: string, sep: char)
    requires EndsSegment(t, seg, sep)
    requires |seg| < |t| || c == sep
    ensures EndsSegment([c] + t, seg, sep)
  {
    var s := [c] + t;
    assert s[|s| - |seg|..] == t[|t| - |seg|..];
    if |seg| < |t| {
      assert s[|s| - |seg| - 1] == t[|t| - |seg| - 1];
    }
  }

  /** The text after a final separator is the last segment. */
  lemma LastSegmentAfter(a: string, sep: char, b: string)
    requires sep !in b
    ensures LastSegment(a + [sep] + b, sep) == b
  {
    var s := a + [sep] + b;
    assert s[|s| - |b|..] == b;
    assert s[|s| - |b| - 1] == sep;
  }

  /** Cancel a common prefix and suffix. */
  lemma Cancel(a: string, x: string, y: string, b: string)
    requires a + x + b == a + y + b
    ensures x == y
  {
    var s := a + x + b;
    assert |x| == |y|;
    assert x == s[|a|..|a| + |x|];
    assert y == (a + y + b)[|a|..|a| + |y|];
  }

  /** The characters JavaScript's `String.prototype.trim` removes. */
  predicate IsSpace(c: char)
  {
    || c == ' ' || c == '\t' || c == '\n' || c == '\U{000B}' || c == '\U{000C}' || c == '\r'
    || c == '\U{00A0}' || c == '\U{1680}' || ('\U{2000}' <= c <= '\U{200A}')
    || c == '\U{2028}' || c == '\U{2029}' || c == '\U{202F}' || c == '\U{205F}'
    || c == '\U{3000}' || c == '\U{FEFF}'
  }

  /** `s` without its leading white space. */
  function TrimStart(s: string): (r: string)
    ensures |r| <= |s|
    ensures r != [] ==> !IsSpace(r[0])
  {
    if s != [] && IsSpace(s[0]) then TrimStart(s[1..]) else s
  }

  /** `s` without its trailing white space. */
  function TrimEnd(s: string): (r: string)
    ensures |r| <= |s|
    ensures r != [] ==> !IsSpace(r[|r| - 1])
  {
    if s != [] && IsSpace(s[|s| - 1]) then TrimEnd(s[..|s| - 1]) else s
  }

  /** TrimStart removes exactly the leading white space: what it keeps ends `s`, and all it drops is space. */
  lemma {:induction false} TrimStartDropsSpaces(s: string)
    ensures var r := TrimStart(s);
      && s[|s| - |r|..] == r
      && forall k :: 0 <= k < |s| - |r| ==> IsSpace(s[k])
  {
    if s != [] && IsSpace(s[0]) {
      var t := s[1..];
      TrimStartDropsSpaces(t);
      var r := TrimStart(s);
      assert r == TrimStart(t);
      forall k | 0 <= k < |s| - |r| ensures IsSpace(s[k]) {
        if k > 0 {
          assert s[k] == t[k - 1];
        }
      }
      assert s[|s| - |r|..] == t[|t| - |r|..];
    }
  }

  /** TrimEnd removes exactly the trailing white space: what it keeps starts `s`, and all it drops is space. */
  lemma {:induction false} TrimEndDropsSpaces(s: string)
    ensures var r := TrimEnd(s);
      && s[..|r|] == r
      && forall k :: |r| <= k < |s| ==> IsSpace(s[k])
  {
    if s != [] && IsSpace(s[|s| - 1]) {
      var t := s[..|s| - 1];
      TrimEndDropsSpaces(t);
      var r := TrimEnd(s);
      assert r == TrimEnd(t);
      forall k | |r| <= k < |s| ensures IsSpace(s[k]) {
        if k < |s| - 1 {
          assert s[k] == t[k];
        }
      }
      assert s[..|r|] == t[..|r|];
    }
  }

  /** `s.trim()`. */
  function Trim(s: string): (r: string)
    ensures |r| <= |s|
    ensures r != [] ==> !IsSpace(r[0]) && !IsSpace(r[|r| - 1])
  {
    var t := TrimStart(s);
    TrimEndDropsSpaces(t);
    TrimEnd(t)
  }

  /**
   * `trim()` keeps one stretch of `s` and drops only white space on either
   * side of it; with Trim's own ensures (the kept stretch neither starts nor
   * ends with white space) this is exactly the removal of the leading and
   * trailing white space.
   */
  lemma TrimDropsSpaces(s: string)
    ensures var r := Trim(s);
      var i := |s| - |TrimStart(s)|;
      && i + |r| <= |s| && s[i..i + |r|] == r
      && (forall k :: 0 <= k < i ==> IsSpace(s[k]))
      && (forall k :: i + |r| <= k < |s| ==> IsSpace(s[k]))
  {
    var t := TrimStart(s);
    var i := |s| - |t|;
    TrimStartDropsSpaces(s);
    TrimEndDropsSpaces(t);
    var r := TrimEnd(t);
    assert r == Trim(s);
    SliceOfSuffix(s, i, t, |r|);
  }

  /** What a suffix of `s` says about `s`: its prefix is a slice, and its characters sit `i` further on. */
  lemma SliceOfSuffix(s: string, i: nat, t: string, n: nat)
    requires i <= |s| && s[i..] == t && n <= |t|
    requires forall k :: n <= k < |t| ==> IsSpace(t[k])
    ensures i + n <= |s| && s[i..i + n] == t[..n]
    ensures forall k :: i + n <= k < |s| ==> IsSpace(s[k])
  {
    forall k | i + n <= k < |s| ensures IsSpace(s[k]) {
      assert s[k] == t[k - i];
    }
  }

  /** Trimming never changes a string with no space at either end. */
  lemma TrimUnchanged(s: string)
    requires s != [] ==> !IsSpace(s[0]) && !IsSpace(s[|s| - 1])
    ensures Trim(s) == s
  {
  }
}
