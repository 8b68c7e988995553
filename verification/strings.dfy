/**
 The slice of Python's `str` behaviour the checker relies on: `startswith`,
 `in`, `index`, `split`, `strip`, `replace` of one character, `int()` on
 digit strings, `str()` on naturals and the code-point order used by `sorted`.
 */
module Strings {
  import opened Outcomes

  /** `s.startswith(p)` */
  predicate StartsWith(s: string, p: string) {
    |p| <= |s| && s[..|p|] == p
  }

  /** A string differing from `s` within `s`'s length, or longer than `s`,
      is not a prefix of `s`. */
  lemma DifferenceBlocksPrefix(s: string, p: string)
    ensures (|p| > |s| || exists k | 0 <= k < |p| && k < |s| :: p[k] != s[k]) ==> !StartsWith(s, p)
  {
    if StartsWith(s, p) {
      assert forall k | 0 <= k < |p| :: s[..|p|][k] == s[k];
    }
  }

  /** `t` occurs in `s` beginning at index `i`. */
  predicate OccursAt(s: string, t: string, i: int) {
    0 <= i && i + |t| <= |s| && s[i..i + |t|] == t
  }

  /** Python's substring test `t in s`. */
  predicate Contains(s: string, t: string) {
    exists i | 0 <= i <= |s| - |t| :: OccursAt(s, t, i)
  }

  /** `s.index(t, start)`: the first occurrence of `t` at or after `start`,
      or `None` where Python raises `ValueError`. */
  function IndexFrom(s: string, t: string, start: nat): (r: Option<nat>)
    ensures r.Some? ==> start <= r.value && OccursAt(s, t, r.value)
    ensures r.Some? ==> forall j :: start <= j < r.value ==> !OccursAt(s, t, j)
    ensures r.None? ==> forall j :: start <= j ==> !OccursAt(s, t, j)
    decreases |s| - start
  {
    if start + |t| > |s| then None
    else if s[start..start + |t|] == t then Some(start)
    else IndexFrom(s, t, start + 1)
  }

  /** `s.index(t)` succeeds exactly when `t in s`. */
  lemma IndexFindsContained(s: string, t: string)
    ensures IndexFrom(s, t, 0).Some? <==> Contains(s, t)
  {
    if Contains(s, t) {
      var i :| 0 <= i <= |s| - |t| && OccursAt(s, t, i);
      assert OccursAt(s, t, i);
    }
  }

  /** An occurrence with none before it, from `start` on, is the one
      `s.index(t, start)` finds. */
  lemma IndexFromFirst(s: string, t: string, start: nat, i: nat)
    requires start <= i && OccursAt(s, t, i)
    requires forall j :: start <= j < i ==> !OccursAt(s, t, j)
    ensures IndexFrom(s, t, start) == Some(i)
  {
  }

  /** A one-character string occurs exactly where that character stands. */
  lemma OccursAtChar(s: string, c: char, i: nat)
    requires i < |s|
    ensures OccursAt(s, [c], i) <==> s[i] == c
  {
    assert s[i..i + 1] == [s[i]];
  }

  // ---------------------------------------------------------------------
  // split and join on a one-character separator
  // ---------------------------------------------------------------------

  /** `sep.join(parts)` */
  function Join(parts: seq<string>, sep: char): string
    requires |parts| > 0
  {
    if |parts| == 1 then parts[0] else parts[0] + [sep] + Join(parts[1..], sep)
  }

  /** `s.split(sep)` for a one-character separator: the pieces between
      separators, empty pieces included, so there is always at least one. */
  function Split(s: string, sep: char): (parts: seq<string>)
    ensures |parts| > 0
    ensures forall k :: 0 <= k < |parts| ==> sep !in parts[k]
    ensures Join(parts, sep) == s
    decreases |s|
  {
    if |s| == 0 then [""]
    else
      var rest := Split(s[1..], sep);
      if s[0] == sep then
        assert s == [sep] + s[1..];
        [""] + rest
      else
        var parts := [[s[0]] + rest[0]] + rest[1..];
        assert parts[1..] == rest[1..];
        assert s == [s[0]] + s[1..];
        parts
  }

  /** A piece without separator splits to itself. */
  lemma {:induction false} SplitNoSeparator(p: string, sep: char)
    requires sep !in p
    ensures Split(p, sep) == [p]
    decreases |p|
  {
    if |p| > 0 {
      assert sep !in p[1..];
      SplitNoSeparator(p[1..], sep);
      assert [p[0]] + p[1..] == p;
    }
  }

  /** A separator-free piece followed by the separator splits off as one part. */
  lemma {:induction false} SplitAfterPiece(p: string, sep: char, t: string)
    requires sep !in p
    ensures Split(p + [sep] + t, sep) == [p] + Split(t, sep)
    decreases |p|
  {
    if |p| == 0 {
      assert p + [sep] + t == [sep] + t;
      assert ([sep] + t)[1..] == t;
    } else {
      var s := p + [sep] + t;
      assert s[1..] == p[1..] + [sep] + t;
      assert sep !in p[1..];
      SplitAfterPiece(p[1..], sep, t);
      assert [p[0]] + p[1..] == p;
    }
  }

  /** Splitting undoes joining when no part holds the separator. */
  lemma {:induction false} SplitJoin(parts: seq<string>, sep: char)
    requires |parts| > 0
    requires forall k :: 0 <= k < |parts| ==> sep !in parts[k]
    ensures Split(Join(parts, sep), sep) == parts
    decreases |parts|
  {
    if |parts| == 1 {
      SplitNoSeparator(parts[0], sep);
    } else {
      SplitJoin(parts[1..], sep);
      SplitAfterPiece(parts[0], sep, Join(parts[1..], sep));
      assert [parts[0]] + parts[1..] == parts;
    }
  }

  /** The separator is absent exactly when splitting yields one part. */
  lemma SplitOnePart(s: string, sep: char)
    ensures |Split(s, sep)| == 1 <==> sep !in s
  {
    if sep !in s {
      SplitNoSeparator(s, sep);
    }
  }

  /** `sep.join([a, b])` */
  lemma JoinTwo(a: string, b: string, sep: char)
    ensures Join([a, b], sep) == a + [sep] + b
  {
    assert [a, b][1..] == [b];
  }

  /** `sep.join([a, b, c, d])` */
  lemma JoinFour(a: string, b: string, c: string, d: string, sep: char)
    ensures Join([a, b, c, d], sep) == a + [sep] + b + [sep] + c + [sep] + d
  {
    assert [a, b, c, d][1..] == [b, c, d];
    assert [b, c, d][1..] == [c, d];
    JoinTwo(c, d, sep);
  }

  /** The last part of a split is a suffix of the string. */
  lemma {:induction false} JoinEndsWithLast(parts: seq<string>, sep: char)
    requires |parts| > 1
    ensures var j := Join(parts, sep);
            var last := parts[|parts| - 1];
            |last| < |j| && j[|j| - |last| - 1] == sep && j[|j| - |last|..] == last
    decreases |parts|
  {
    if |parts| > 2 {
      JoinEndsWithLast(parts[1..], sep);
    }
  }

  // ---------------------------------------------------------------------
  // strip
  // ---------------------------------------------------------------------

  /** `c.isspace()` for every character Python treats as whitespace. */
  predicate IsSpace(c: char) {
    || c == ' '
    || ('\t' <= c <= '\r')
    || ('\U{1C}' <= c <= '\U{1F}')
    || c == '\U{85}' || c == '\U{A0}' || c == '\U{1680}'
    || ('\U{2000}' <= c <= '\U{200A}')
    || c == '\U{2028}' || c == '\U{2029}' || c == '\U{202F}' || c == '\U{205F}'
    || c == '\U{3000}'
  }

  /** The first index from `i` on that does not hold whitespace, or `|s|`. */
  function SkipSpaces(s: string, i: nat): (j: nat)
    requires i <= |s|
    ensures i <= j <= |s|
    ensures forall k :: i <= k < j ==> IsSpace(s[k])
    ensures j < |s| ==> !IsSpace(s[j])
    decreases |s| - i
  {
    if i < |s| && IsSpace(s[i]) then SkipSpaces(s, i + 1) else i
  }

  /** The end of `s[lo..j]` once its trailing whitespace is cut off. */
  function SkipSpacesBack(s: string, lo: nat, j: nat): (e: nat)
    requires lo <= j <= |s|
    ensures lo <= e <= j
    ensures forall k :: e <= k < j ==> IsSpace(s[k])
    ensures e > lo ==> !IsSpace(s[e - 1])
    decreases j
  {
    if j > lo && IsSpace(s[j - 1]) then SkipSpacesBack(s, lo, j - 1) else j
  }

  /** `r` is `s` with whitespace removed before index `i` and after `r`. */
  predicate TrimmedAt(s: string, r: string, i: int) {
    && 0 <= i <= |s| - |r| && r == s[i..i + |r|]
    && (forall k :: 0 <= k < i ==> IsSpace(s[k]))
    && (forall k :: i + |r| <= k < |s| ==> IsSpace(s[k]))
  }

  /** `s.strip()`: the slice of `s` left after removing every leading and
      trailing whitespace character. */
  function Strip(s: string): (r: string)
    ensures exists i :: TrimmedAt(s, r, i)
    ensures |r| > 0 ==> !IsSpace(r[0]) && !IsSpace(r[|r| - 1])
  {
    var i := SkipSpaces(s, 0);
    var e := SkipSpacesBack(s, i, |s|);
    assert TrimmedAt(s, s[i..e], i);
    s[i..e]
  }

  // ---------------------------------------------------------------------
  // character removal (`s.replace(c, "")`)
  // ---------------------------------------------------------------------

  /** `s.replace(c, "")` for a one-character `c`. */
  function Without(s: string, c: char): (r: string)
    ensures c !in r
    ensures |r| <= |s|
    ensures forall x :: x != c ==> (x in r <==> x in s)
    decreases |s|
  {
    if |s| == 0 then ""
    else (if s[0] == c then "" else [s[0]]) + Without(s[1..], c)
  }

  lemma {:induction false} WithoutConcat(a: string, b: string, c: char)
    ensures Without(a + b, c) == Without(a, c) + Without(b, c)
    decreases |a|
  {
    if |a| > 0 {
      assert (a + b)[1..] == a[1..] + b;
      WithoutConcat(a[1..], b, c);
    } else {
      assert a + b == b;
    }
  }

  lemma {:induction false} WithoutAbsent(s: string, c: char)
    requires c !in s
    ensures Without(s, c) == s
    decreases |s|
  {
    if |s| > 0 {
      assert c !in s[1..];
      WithoutAbsent(s[1..], c);
      assert [s[0]] + s[1..] == s;
    }
  }

  // ---------------------------------------------------------------------
  // decimal numerals (`int()` and `str()` on naturals)
  // ---------------------------------------------------------------------

  predicate IsDigit(c: char) {
    '0' <= c <= '9'
  }

  predicate AllDigits(s: string) {
    forall k :: 0 <= k < |s| ==> IsDigit(s[k])
  }

  /** The number a string of digits denotes, most significant digit first. */
  function DigitsValue(s: string): nat
    requires AllDigits(s)
  {
    if |s| == 0 then 0
    else DigitsValue(s[..|s| - 1]) * 10 + ((s[|s| - 1] as int) - ('0' as int))
  }

  /** Python's `int(s)`, restricted to non-empty strings of ASCII digits;
      anything else is the `ValueError` Python raises for a malformed literal. */
  function ParseInt(s: string): (r: Result<nat>)
    ensures r.Ok? <==> |s| > 0 && AllDigits(s)
  {
    if |s| > 0 && AllDigits(s) then Ok(DigitsValue(s))
    else Err(ValueError("invalid literal for int() with base 10"))
  }

  /** `str(n)` for a natural number. */
  function Decimal(n: nat): (r: string)
    ensures |r| > 0 && AllDigits(r)
    ensures DigitsValue(r) == n
  {
    var last := [('0' as int + n % 10) as char];
    if n < 10 then last else Decimal(n / 10) + last
  }

  /** `int(str(n)) == n` */
  lemma DecimalRoundTrip(n: nat)
    ensures ParseInt(Decimal(n)) == Ok(n)
  {
  }

  // ---------------------------------------------------------------------
  // code-point order, as used by `sorted` on strings
  // ---------------------------------------------------------------------

  /** Python's `a < b` on strings: lexicographic by code point, a proper
      prefix coming first. */
  predicate Less(a: string, b: string)
    decreases |a|
  {
    if |a| == 0 then |b| > 0
    else |b| > 0 && (a[0] < b[0] || (a[0] == b[0] && Less(a[1..], b[1..])))
  }

  lemma LessIrreflexive(a: string)
    ensures !Less(a, a)
  {
  }

  lemma {:induction false} LessTransitive(a: string, b: string, c: string)
    requires Less(a, b) && Less(b, c)
    ensures Less(a, c)
    decreases |a|
  {
    if |a| > 0 && a[0] == b[0] && b[0] == c[0] {
      LessTransitive(a[1..], b[1..], c[1..]);
    }
  }

  lemma {:induction false} LessTotal(a: string, b: string)
    ensures a == b || Less(a, b) || Less(b, a)
    decreases |a|
  {
    if |a| > 0 && |b| > 0 && a[0] == b[0] {
      LessTotal(a[1..], b[1..]);
      if a[1..] == b[1..] {
        assert a == [a[0]] + a[1..] && b == [b[0]] + b[1..];
      }
    }
  }

  lemma {:induction false} LessAsymmetric(a: string, b: string)
    requires Less(a, b)
    ensures !Less(b, a)
    decreases |a|
  {
    if |a| > 0 && a[0] == b[0] {
      LessAsymmetric(a[1..], b[1..]);
    }
  }

  /** Strictly increasing, hence also free of duplicates. */
  predicate StrictlySorted(s: seq<string>) {
    forall i, j :: 0 <= i < j < |s| ==> Less(s[i], s[j])
  }

  /** Adds `x` to a strictly sorted list, keeping it strictly sorted. */
  function Insert(x: string, s: seq<string>): (r: seq<string>)
    requires StrictlySorted(s)
    ensures StrictlySorted(r)
    ensures forall y :: y in r <==> y in s || y == x
    decreases |s|
  {
    if |s| == 0 then [x]
    else if x == s[0] then s
    else if Less(x, s[0]) then
      assert forall j :: 0 < j < |s| ==> Less(x, s[j]) by {
        forall j | 0 < j < |s| ensures Less(x, s[j]) {
          LessTransitive(x, s[0], s[j]);
        }
      }
      [x] + s
    else
      var t := Insert(x, s[1..]);
      LessTotal(x, s[0]);
      assert forall y :: y in t ==> Less(s[0], y);
      [s[0]] + t
  }

  /** `sorted(lines)` for a set of strings: the list of its elements in
      strictly increasing order. */
  method SortedDistinct(lines: set<string>) returns (r: seq<string>)
    ensures StrictlySorted(r)
    ensures forall y :: y in r <==> y in lines
  {
    r := [];
    var rest := lines;
    while rest != {}
      invariant rest <= lines
      invariant StrictlySorted(r)
      invariant forall y :: y in r <==> y in lines && y !in rest
      decreases |rest|
    {
      var x :| x in rest;
      r := Insert(x, r);
      rest := rest - {x};
    }
  }

  /** A set has only one strictly increasing enumeration, so the output of
      `SortedDistinct` is fully determined by its input. */
  lemma {:induction false} StrictlySortedUnique(a: seq<string>, b: seq<string>)
    requires StrictlySorted(a) && StrictlySorted(b)
    requires forall y :: y in a <==> y in b
    ensures a == b
    decreases |a|
  {
    SameElementsSameEmptiness(a, b);
    if |a| > 0 {
      // the least elements coincide
      if a[0] != b[0] {
        assert b[0] in a;
        var i :| 0 <= i < |a| && a[i] == b[0];
        assert a[0] in b;
        var j :| 0 <= j < |b| && b[j] == a[0];
        assert i > 0 && j > 0;
        assert Less(a[0], b[0]) && Less(b[0], a[0]);
        LessAsymmetric(a[0], b[0]);
        assert false;
      }
      forall y ensures y in a[1..] <==> y in b[1..] {
        if y in a[1..] {
          var i :| 1 <= i < |a| && a[i] == y;
          assert Less(a[0], y);
          LessIrreflexive(y);
          assert y in a && y in b;
          var j :| 0 <= j < |b| && b[j] == y;
          assert j != 0;
          assert b[1..][j - 1] == y;
        }
        if y in b[1..] {
          var j :| 1 <= j < |b| && b[j] == y;
          assert Less(b[0], y);
          LessIrreflexive(y);
          assert y in b && y in a;
          var i :| 0 <= i < |a| && a[i] == y;
          assert i != 0;
          assert a[1..][i - 1] == y;
        }
      }
      StrictlySortedUnique(a[1..], b[1..]);
      assert a == [a[0]] + a[1..] && b == [b[0]] + b[1..];
    }
  }

  lemma SameElementsSameEmptiness(a: seq<string>, b: seq<string>)
    requires forall y :: y in a <==> y in b
    ensures |a| == 0 <==> |b| == 0
  {
    if |a| > 0 {
      assert a[0] in b;
    }
    if |b| > 0 {
      assert b[0] in a;
    }
  }
}
