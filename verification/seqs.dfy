/**
 Sequence helpers: order-preserving subsequences, flattening, and the stable
 descending sort Python's `sorted(xs, key=lambda x: -k(x))` performs.
 */
module Seqs {

  /** `a` is obtained from `b` by deleting elements, keeping the order. */
  ghost predicate IsSubsequence<T>(a: seq<T>, b: seq<T>)
    decreases |b|
  {
    if |a| == 0 then true
    else if |b| == 0 then false
    else (a[0] == b[0] && IsSubsequence(a[1..], b[1..])) || IsSubsequence(a, b[1..])
  }

  lemma {:induction false} SubsequenceOfSelf<T>(a: seq<T>)
    ensures IsSubsequence(a, a)
    decreases |a|
  {
    if |a| > 0 {
      SubsequenceOfSelf(a[1..]);
    }
  }

  /** Extra elements in front of the longer sequence keep a subsequence. */
  lemma {:induction false} SubsequenceSkipPrefix<T>(a: seq<T>, p: seq<T>, b: seq<T>)
    requires IsSubsequence(a, b)
    ensures IsSubsequence(a, p + b)
    decreases |p|
  {
    if |p| > 0 {
      SubsequenceSkipPrefix(a, p[1..], b);
      assert (p + b)[1..] == p[1..] + b;
    } else {
      assert p + b == b;
    }
  }

  /** The same prefix in front of both sides keeps a subsequence. */
  lemma {:induction false} SubsequenceSharedPrefix<T>(a: seq<T>, p: seq<T>, b: seq<T>)
    requires IsSubsequence(a, b)
    ensures IsSubsequence(p + a, p + b)
    decreases |p|
  {
    if |p| > 0 {
      SubsequenceSharedPrefix(a, p[1..], b);
      assert (p + a)[1..] == p[1..] + a;
      assert (p + b)[1..] == p[1..] + b;
      assert (p + a)[0] == (p + b)[0];
    } else {
      assert p + a == a && p + b == b;
    }
  }

  /** Extra elements behind the longer sequence keep a subsequence. */
  lemma {:induction false} SubsequenceSkipSuffix<T>(a: seq<T>, b: seq<T>, s: seq<T>)
    requires IsSubsequence(a, b)
    ensures IsSubsequence(a, b + s)
    decreases |b|
  {
    if |a| > 0 {
      assert (b + s)[1..] == b[1..] + s;
      if a[0] == b[0] && IsSubsequence(a[1..], b[1..]) {
        SubsequenceSkipSuffix(a[1..], b[1..], s);
      } else {
        SubsequenceSkipSuffix(a, b[1..], s);
      }
    }
  }

  /** A subsequence is never longer than the sequence it comes from. */
  lemma {:induction false} SubsequenceLength<T>(a: seq<T>, b: seq<T>)
    requires IsSubsequence(a, b)
    ensures |a| <= |b|
    decreases |b|
  {
    if |a| > 0 {
      if a[0] == b[0] && IsSubsequence(a[1..], b[1..]) {
        SubsequenceLength(a[1..], b[1..]);
      } else {
        SubsequenceLength(a, b[1..]);
      }
    }
  }

  /** Concatenation of a list of lists, in order. */
  function Concat<T>(xss: seq<seq<T>>): (r: seq<T>)
    ensures forall xs, x :: xs in xss && x in xs ==> x in r
    decreases |xss|
  {
    if |xss| == 0 then [] else xss[0] + Concat(xss[1..])
  }

  /** An element of the concatenation comes from one of the lists, and the
      other way round. */
  lemma {:induction false} InConcat<T>(xss: seq<seq<T>>, x: T)
    ensures x in Concat(xss) <==> exists i | 0 <= i < |xss| :: x in xss[i]
    decreases |xss|
  {
    if |xss| > 0 {
      InConcat(xss[1..], x);
      if x in Concat(xss[1..]) {
        var i :| 0 <= i < |xss[1..]| && x in xss[1..][i];
        assert x in xss[i + 1];
      }
      if exists i | 0 <= i < |xss| :: x in xss[i] {
        var i :| 0 <= i < |xss| && x in xss[i];
        if i > 0 {
          assert x in xss[1..][i - 1];
        }
      }
    }
  }

  /** The total length of the first `n` lists. */
  function Offset<T>(xss: seq<seq<T>>, n: nat): nat
    requires n <= |xss|
  {
    if n == 0 then 0 else Offset(xss, n - 1) + |xss[n - 1]|
  }

  lemma {:induction false} ConcatAppend<T>(a: seq<seq<T>>, b: seq<seq<T>>)
    ensures Concat(a + b) == Concat(a) + Concat(b)
    decreases |a|
  {
    if |a| > 0 {
      assert (a + b)[1..] == a[1..] + b;
      ConcatAppend(a[1..], b);
    } else {
      assert a + b == b;
    }
  }

  /** The first `n` lists fill the first `Offset(xss, n)` places. */
  lemma {:induction false} ConcatPrefixLength<T>(xss: seq<seq<T>>, n: nat)
    requires n <= |xss|
    ensures |Concat(xss[..n])| == Offset(xss, n)
  {
    if n > 0 {
      ConcatPrefixLength(xss, n - 1);
      assert xss[..n] == xss[..n - 1] + [xss[n - 1]];
      ConcatAppend(xss[..n - 1], [xss[n - 1]]);
      assert Concat([xss[n - 1]]) == xss[n - 1] + Concat([xss[n - 1]][1..]);
    }
  }

  /** Each list sits, whole and in place, as one block of the
      concatenation, after the blocks of the lists before it. */
  lemma ConcatBlock<T>(xss: seq<seq<T>>, i: nat)
    requires i < |xss|
    ensures Offset(xss, i + 1) <= |Concat(xss)|
    ensures Concat(xss)[Offset(xss, i)..Offset(xss, i + 1)] == xss[i]
  {
    var before, after := xss[..i], xss[i + 1..];
    assert xss == before + ([xss[i]] + after);
    ConcatAppend(before, [xss[i]] + after);
    ConcatAppend([xss[i]], after);
    assert Concat([xss[i]]) == xss[i] + Concat([xss[i]][1..]);
    ConcatPrefixLength(xss, i);
  }

  /** The same block in any sequence that starts with the concatenation. */
  lemma BlockOfPrefix<T>(xss: seq<seq<T>>, ws: seq<T>, i: nat)
    requires i < |xss| && |Concat(xss)| <= |ws| && ws[..|Concat(xss)|] == Concat(xss)
    ensures Offset(xss, i + 1) <= |ws|
    ensures ws[Offset(xss, i)..Offset(xss, i + 1)] == xss[i]
  {
    var c := Concat(xss);
    ConcatBlock(xss, i);
    assert ws[Offset(xss, i)..Offset(xss, i + 1)] == c[Offset(xss, i)..Offset(xss, i + 1)];
  }

  /** The concatenation is exactly as long as all lists together. */
  lemma ConcatLength<T>(xss: seq<seq<T>>)
    ensures |Concat(xss)| == Offset(xss, |xss|)
  {
    ConcatPrefixLength(xss, |xss|);
    assert xss[..|xss|] == xss;
  }

  /** The concatenation is empty exactly when every list is. */
  lemma {:induction false} ConcatEmpty<T>(xss: seq<seq<T>>)
    ensures Concat(xss) == [] <==> forall i | 0 <= i < |xss| :: xss[i] == []
    decreases |xss|
  {
    if |xss| > 0 {
      ConcatEmpty(xss[1..]);
      assert forall i | 1 <= i < |xss| :: xss[i] == xss[1..][i - 1];
    }
  }

  // ---------------------------------------------------------------------
  // stable sort by a key, largest key first
  // ---------------------------------------------------------------------

  /** Keys never increase along `s`. */
  predicate NonIncreasing<T>(s: seq<T>, key: T -> int) {
    forall i, j :: 0 <= i < j < |s| ==> key(s[i]) >= key(s[j])
  }

  /** The elements of `s` whose key is `k`, in their order in `s`. */
  function WithKey<T>(s: seq<T>, key: T -> int, k: int): (r: seq<T>)
    ensures |r| <= |s|
    decreases |s|
  {
    if |s| == 0 then []
    else (if key(s[0]) == k then [s[0]] else []) + WithKey(s[1..], key, k)
  }

  lemma {:induction false} WithKeyConcat<T>(a: seq<T>, b: seq<T>, key: T -> int, k: int)
    ensures WithKey(a + b, key, k) == WithKey(a, key, k) + WithKey(b, key, k)
    decreases |a|
  {
    if |a| > 0 {
      assert (a + b)[1..] == a[1..] + b;
      WithKeyConcat(a[1..], b, key, k);
    } else {
      assert a + b == b;
    }
  }

  lemma {:induction false} WithKeyNone<T>(s: seq<T>, key: T -> int, k: int)
    requires forall i :: 0 <= i < |s| ==> key(s[i]) != k
    ensures WithKey(s, key, k) == []
    decreases |s|
  {
    if |s| > 0 {
      WithKeyNone(s[1..], key, k);
    }
  }

  /** Places `x` behind every element whose key is at least `key(x)`. */
  function InsertAfterNotSmaller<T>(x: T, s: seq<T>, key: T -> int): (r: seq<T>)
    requires NonIncreasing(s, key)
    ensures NonIncreasing(r, key)
    ensures |r| == |s| + 1
    ensures forall j :: 0 <= j < |r| ==> r[j] in s || r[j] == x
    decreases |s|
  {
    if |s| == 0 then [x]
    else if key(s[0]) >= key(x) then
      var t := InsertAfterNotSmaller(x, s[1..], key);
      assert forall j :: 0 <= j < |t| ==> key(s[0]) >= key(t[j]) by {
        forall j | 0 <= j < |t| ensures key(s[0]) >= key(t[j]) {
          if t[j] != x {
            var i :| 0 <= i < |s[1..]| && s[1..][i] == t[j];
            assert s[i + 1] == t[j];
          }
        }
      }
      var r := [s[0]] + t;
      assert forall j :: 0 < j < |r| ==> r[j] == t[j - 1];
      r
    else
      [x] + s
  }

  lemma {:induction false} InsertIsPermutation<T>(x: T, s: seq<T>, key: T -> int)
    requires NonIncreasing(s, key)
    ensures multiset(InsertAfterNotSmaller(x, s, key)) == multiset(s) + multiset{x}
    decreases |s|
  {
    if |s| > 0 && key(s[0]) >= key(x) {
      InsertIsPermutation(x, s[1..], key);
      assert s == [s[0]] + s[1..];
    }
  }

  /** The elements of a one-element sequence carrying key `k`. */
  lemma WithKeySingle<T>(x: T, key: T -> int, k: int)
    ensures WithKey([x], key, k) == if key(x) == k then [x] else []
  {
    assert [x][1..] == [];
  }

  /** Inserting `x` adds it behind the elements of equal key. */
  lemma {:induction false} InsertKeepsKeyOrder<T>(x: T, s: seq<T>, key: T -> int, k: int)
    requires NonIncreasing(s, key)
    ensures WithKey(InsertAfterNotSmaller(x, s, key), key, k)
            == WithKey(s, key, k) + (if key(x) == k then [x] else [])
    decreases |s|
  {
    WithKeySingle(x, key, k);
    if |s| == 0 {
      assert InsertAfterNotSmaller(x, s, key) == [x];
    } else if key(s[0]) >= key(x) {
      InsertKeepsKeyOrder(x, s[1..], key, k);
      InsertBehindHead(x, s, key, k);
    } else {
      InsertInFront(x, s, key, k);
    }
  }

  /** The step of `InsertKeepsKeyOrder` where `x` goes behind the head. */
  lemma {:induction false} InsertBehindHead<T>(x: T, s: seq<T>, key: T -> int, k: int)
    requires NonIncreasing(s, key) && |s| > 0 && key(s[0]) >= key(x)
    requires WithKey(InsertAfterNotSmaller(x, s[1..], key), key, k)
             == WithKey(s[1..], key, k) + (if key(x) == k then [x] else [])
    ensures WithKey(InsertAfterNotSmaller(x, s, key), key, k)
            == WithKey(s, key, k) + (if key(x) == k then [x] else [])
  {
    var t := InsertAfterNotSmaller(x, s[1..], key);
    var tail := if key(x) == k then [x] else [];
    var head := WithKey([s[0]], key, k);
    InsertShape(x, s, key);
    WithKeyConcat([s[0]], t, key, k);
    WithKeyHead(s, key, k);
    assert head + (WithKey(s[1..], key, k) + tail) == (head + WithKey(s[1..], key, k)) + tail;
  }

  lemma {:induction false} InsertShape<T>(x: T, s: seq<T>, key: T -> int)
    requires NonIncreasing(s, key) && |s| > 0 && key(s[0]) >= key(x)
    ensures InsertAfterNotSmaller(x, s, key) == [s[0]] + InsertAfterNotSmaller(x, s[1..], key)
  {
  }

  lemma {:induction false} WithKeyHead<T>(s: seq<T>, key: T -> int, k: int)
    requires |s| > 0
    ensures WithKey(s, key, k) == WithKey([s[0]], key, k) + WithKey(s[1..], key, k)
  {
    WithKeyConcat([s[0]], s[1..], key, k);
    assert s == [s[0]] + s[1..];
  }

  /** The step of `InsertKeepsKeyOrder` where `x` goes in front. */
  lemma {:induction false} InsertInFront<T>(x: T, s: seq<T>, key: T -> int, k: int)
    requires NonIncreasing(s, key) && |s| > 0 && key(s[0]) < key(x)
    ensures WithKey(InsertAfterNotSmaller(x, s, key), key, k)
            == WithKey(s, key, k) + (if key(x) == k then [x] else [])
  {
    assert InsertAfterNotSmaller(x, s, key) == [x] + s;
    WithKeyConcat([x], s, key, k);
    WithKeySingle(x, key, k);
    if key(x) == k {
      WithKeyNone(s, key, k);
    }
  }

  /** Python's `sorted(s, key=lambda e: -key(e))`: ordered by descending key. */
  function SortByKeyDescending<T>(s: seq<T>, key: T -> int): (r: seq<T>)
    ensures NonIncreasing(r, key)
    ensures |r| == |s|
    decreases |s|
  {
    if |s| == 0 then []
    else
      InsertAfterNotSmaller(s[|s| - 1], SortByKeyDescending(s[..|s| - 1], key), key)
  }

  /** The sort only rearranges: its result is a permutation of the input. */
  lemma {:induction false} SortIsPermutation<T>(s: seq<T>, key: T -> int)
    ensures multiset(SortByKeyDescending(s, key)) == multiset(s)
    decreases |s|
  {
    if |s| > 0 {
      var init := s[..|s| - 1];
      SortIsPermutation(init, key);
      InsertIsPermutation(s[|s| - 1], SortByKeyDescending(init, key), key);
      assert s == init + [s[|s| - 1]];
    }
  }

  /** The sort is stable: for every key, the elements carrying it appear in
      the same relative order before and after sorting. */
  lemma {:induction false} SortIsStable<T>(s: seq<T>, key: T -> int, k: int)
    ensures WithKey(SortByKeyDescending(s, key), key, k) == WithKey(s, key, k)
    decreases |s|
  {
    if |s| > 0 {
      var init := s[..|s| - 1];
      var last := s[|s| - 1];
      var sorted := SortByKeyDescending(init, key);
      SortIsStable(init, key, k);
      InsertKeepsKeyOrder(last, sorted, key, k);
      SortStep(s, key);
      WithKeyLast(s, key, k);
    }
  }

  lemma {:induction false} SortStep<T>(s: seq<T>, key: T -> int)
    requires |s| > 0
    ensures SortByKeyDescending(s, key)
            == InsertAfterNotSmaller(s[|s| - 1], SortByKeyDescending(s[..|s| - 1], key), key)
  {
  }

  lemma {:induction false} WithKeyLast<T>(s: seq<T>, key: T -> int, k: int)
    requires |s| > 0
    ensures WithKey(s, key, k)
            == WithKey(s[..|s| - 1], key, k) + (if key(s[|s| - 1]) == k then [s[|s| - 1]] else [])
  {
    WithKeyConcat(s[..|s| - 1], [s[|s| - 1]], key, k);
    WithKeySingle(s[|s| - 1], key, k);
    assert s == s[..|s| - 1] + [s[|s| - 1]];
  }
}
