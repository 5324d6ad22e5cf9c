/** Sequence operations the server borrows from the Kotlin collections library:
    permutation by an explicit index order (the deterministic stand-in for
    `shuffled()`), removal of the first occurrence (`List - element`) and
    order-preserving set difference (`Set - Iterable`). */
module Seqs {

  /** No element occurs twice: the shape of a Kotlin `Set` read in iteration order. */
  predicate NoDuplicates<T(==)>(s: seq<T>) {
    forall i, j :: 0 <= i < j < |s| ==> s[i] != s[j]
  }

  /** The index sequence [0, 1, ..., n-1]. */
  function Range(n: nat): (r: seq<nat>)
    ensures |r| == n
    ensures forall i :: 0 <= i < n ==> r[i] == i
  {
    if n == 0 then [] else Range(n - 1) + [n - 1]
  }

  /** `p` lists every index below `n` exactly once. */
  predicate IsPermutation(p: seq<nat>, n: nat) {
    multiset(p) == multiset(Range(n))
  }

  lemma PermutationBounds(p: seq<nat>, n: nat)
    requires IsPermutation(p, n)
    ensures |p| == n
    ensures forall i :: 0 <= i < |p| ==> p[i] < n
  {
    assert |multiset(p)| == |multiset(Range(n))|;
    forall i | 0 <= i < |p|
      ensures p[i] < n
    {
      assert p[i] in multiset(p);
      assert p[i] in multiset(Range(n));
      assert p[i] in Range(n);
    }
  }

  /** The elements of `s` in the order `p` gives. */
  function Permute<T>(s: seq<T>, p: seq<nat>): (r: seq<T>)
    requires IsPermutation(p, |s|)
    ensures |r| == |s| == |p|
    ensures forall i :: 0 <= i < |r| ==> p[i] < |s| && r[i] == s[p[i]]
  {
    PermutationBounds(p, |s|);
    seq(|p|, i requires 0 <= i < |p| => s[p[i]])
  }

  /** The result of one `shuffled()` call whose random outcome is `p`: an order
      that is not a permutation of the indices of `s` is read as the identity. */
  function Shuffled<T>(s: seq<T>, p: seq<nat>): (r: seq<T>)
    ensures multiset(r) == multiset(s)
    ensures IsPermutation(p, |s|) ==> r == Permute(s, p)
  {
    if IsPermutation(p, |s|) then
      PermuteKeepsMultiset(s, p);
      Permute(s, p)
    else s
  }

  /** Taking the largest index out of a permutation leaves a permutation of the rest. */
  lemma DropLargestIndex(p: seq<nat>, n: nat) returns (j: nat, q: seq<nat>)
    requires IsPermutation(p, n + 1)
    ensures j < |p| && p[j] == n && q == p[..j] + p[j + 1..]
    ensures IsPermutation(q, n)
  {
    assert Range(n + 1) == Range(n) + [n];
    assert multiset(Range(n + 1)) == multiset(Range(n)) + multiset{n};
    assert n in multiset(p);
    j := FirstIndex(p, n);
    q := RemoveFirst(p, n);
    RemoveFirstMultiset(p, n);
    RemoveFirstSplices(p, n);
  }

  /** Permuting `s + [x]` by `p` equals permuting `s` by `q`, the order `p`
      without the largest index, with `x` put back where that index stood. */
  lemma PermuteSplit<T>(s: seq<T>, x: T, p: seq<nat>, j: nat, q: seq<nat>)
    requires IsPermutation(p, |s| + 1) && IsPermutation(q, |s|)
    requires j < |p| && p[j] == |s| && q == p[..j] + p[j + 1..]
    ensures Permute(s + [x], p) == Permute(s, q)[..j] + [x] + Permute(s, q)[j..]
  {
    var r := Permute(s + [x], p);
    var r' := Permute(s, q);
    var t := r'[..j] + [x] + r'[j..];
    assert |t| == |r|;
    forall i | 0 <= i < |r|
      ensures r[i] == t[i]
    {
      PermuteSplitAt(s, x, p, j, q, i);
    }
  }

  /** One position of the equation in `PermuteSplit`. */
  lemma PermuteSplitAt<T>(s: seq<T>, x: T, p: seq<nat>, j: nat, q: seq<nat>, i: nat)
    requires IsPermutation(p, |s| + 1) && IsPermutation(q, |s|)
    requires j < |p| && p[j] == |s| && q == p[..j] + p[j + 1..]
    requires i < |p|
    ensures Permute(s + [x], p)[i] == (Permute(s, q)[..j] + [x] + Permute(s, q)[j..])[i]
  {
    var n := |s|;
    var r := Permute(s + [x], p);
    var r' := Permute(s, q);
    var a := r'[..j] + [x];
    assert |a| == j + 1;
    var t := a + r'[j..];
    if i < j {
      assert q[i] == p[i] && q[i] < n;
      assert t[i] == r'[i] == s[q[i]];
      assert r[i] == (s + [x])[p[i]];
    } else if i == j {
      assert r[i] == (s + [x])[n];
    } else {
      assert q[i - 1] == p[j + 1..][i - 1 - j] == p[i];
      assert q[i - 1] < n;
      assert t[i] == r'[j..][i - |a|];
      assert r'[j..][i - |a|] == r'[i - 1];
      assert r'[i - 1] == s[q[i - 1]];
      assert r[i] == (s + [x])[p[i]];
    }
  }

  lemma {:induction false} PermuteKeepsMultiset<T>(s: seq<T>, p: seq<nat>)
    requires IsPermutation(p, |s|)
    ensures multiset(Permute(s, p)) == multiset(s)
    decreases |s|
  {
    if |s| > 0 {
      var s' := s[..|s| - 1];
      var x := s[|s| - 1];
      var j, q := DropLargestIndex(p, |s'|);
      PermuteKeepsMultiset(s', q);
      PermuteAppendMultiset(s', x, p, j, q);
      assert s == s' + [x];
    }
  }

  /** The inductive step of `PermuteKeepsMultiset`: putting `x` back into a
      permutation of `s` adds one `x` to its multiset. */
  lemma PermuteAppendMultiset<T>(s: seq<T>, x: T, p: seq<nat>, j: nat, q: seq<nat>)
    requires IsPermutation(p, |s| + 1) && IsPermutation(q, |s|)
    requires j < |p| && p[j] == |s| && q == p[..j] + p[j + 1..]
    requires multiset(Permute(s, q)) == multiset(s)
    ensures multiset(Permute(s + [x], p)) == multiset(s + [x])
  {
    PermuteSplit(s, x, p, j, q);
    MultisetInsert(Permute(s, q), j, x);
  }

  lemma MultisetInsert<T>(r: seq<T>, j: nat, x: T)
    requires j <= |r|
    ensures multiset(r[..j] + [x] + r[j..]) == multiset(r) + multiset{x}
  {
    assert r == r[..j] + r[j..];
  }

  /** A prefix of a duplicate-free sequence is duplicate-free. */
  lemma NoDuplicatesPrefix<T>(s: seq<T>, k: nat)
    requires NoDuplicates(s) && k <= |s|
    ensures NoDuplicates(s[..k])
    ensures forall x :: x in s[..k] ==> x !in s[k..]
  {
    forall x | x in s[..k] ensures x !in s[k..] {
      var a :| 0 <= a < k && s[a] == x;
      forall b | k <= b < |s| ensures s[b] != x {}
    }
  }

  /** A sequence that agrees with `a` and then with `b`, index by index, is `a + b`. */
  lemma ConcatOfParts<T>(s: seq<T>, a: seq<T>, b: seq<T>)
    requires |s| == |a| + |b|
    requires forall i :: 0 <= i < |a| ==> s[i] == a[i]
    requires forall j :: 0 <= j < |b| ==> s[|a| + j] == b[j]
    ensures s == a + b
  {
    forall i | |a| <= i < |s| ensures s[i] == (a + b)[i] {
      assert s[|a| + (i - |a|)] == b[i - |a|];
    }
  }

  /** Where the parts of `a + b + [x]` sit. */
  lemma ConcatIndices<T>(a: seq<T>, b: seq<T>, x: T)
    ensures |a + b + [x]| == |a| + |b| + 1
    ensures forall i :: 0 <= i < |a| ==> (a + b + [x])[i] == a[i]
    ensures forall j :: 0 <= j < |b| ==> (a + b + [x])[|a| + j] == b[j]
  {
  }

  /** A prefix holds no more of any element than the whole sequence. */
  lemma MultisetOfPrefix<T>(s: seq<T>, k: nat)
    requires k <= |s|
    ensures multiset(s[..k]) <= multiset(s)
    ensures multiset(s[..k]) == multiset(s) - multiset(s[k..])
  {
    assert s == s[..k] + s[k..];
  }

  /** A sequence has no duplicates exactly when no element is counted twice. */
  lemma {:induction false} NoDuplicatesCounts<T>(s: seq<T>)
    ensures NoDuplicates(s) <==> forall x :: multiset(s)[x] <= 1
  {
    if |s| > 0 {
      var t := s[1..];
      assert s == [s[0]] + t;
      NoDuplicatesCounts(t);
      if NoDuplicates(s) {
        assert NoDuplicates(t) by {
          forall i, j | 0 <= i < j < |t| ensures t[i] != t[j] {
            assert t[i] == s[i + 1] && t[j] == s[j + 1];
          }
        }
        assert s[0] !in t;
        forall x ensures multiset(s)[x] <= 1 {
          assert multiset(s)[x] == multiset([s[0]])[x] + multiset(t)[x];
        }
      }
      if forall x :: multiset(s)[x] <= 1 {
        forall x ensures multiset(t)[x] <= 1 {
          assert multiset(s)[x] == multiset([s[0]])[x] + multiset(t)[x];
        }
        assert multiset(s)[s[0]] == 1 + multiset(t)[s[0]];
        assert s[0] !in t;
        forall i, j | 0 <= i < j < |s| ensures s[i] != s[j] {
          if i == 0 {
            assert s[j] == t[j - 1];
          } else {
            assert s[i] == t[i - 1] && s[j] == t[j - 1];
          }
        }
      }
    }
  }

  /** Reordering keeps a duplicate-free sequence duplicate-free. */
  lemma SameMultisetNoDuplicates<T>(s: seq<T>, r: seq<T>)
    requires multiset(r) == multiset(s)
    requires NoDuplicates(s)
    ensures NoDuplicates(r)
  {
    NoDuplicatesCounts(s);
    NoDuplicatesCounts(r);
  }

  /** Concatenating two duplicate-free, disjoint sequences leaves no duplicates. */
  lemma NoDuplicatesConcat<T>(a: seq<T>, b: seq<T>)
    requires NoDuplicates(a) && NoDuplicates(b)
    requires forall x :: x in a ==> x !in b
    ensures NoDuplicates(a + b)
  {
    var c := a + b;
    forall i, j | 0 <= i < j < |c| ensures c[i] != c[j] {
      if j < |a| {
      } else if i >= |a| {
        assert c[i] == b[i - |a|] && c[j] == b[j - |a|];
      } else {
        assert c[i] in a && c[j] == b[j - |a|];
      }
    }
  }

  /** Position of the first occurrence of `x` in `s`. */
  function FirstIndex<T(==)>(s: seq<T>, x: T): (i: nat)
    requires x in s
    ensures i < |s| && s[i] == x
    ensures forall k :: 0 <= k < i ==> s[k] != x
  {
    if s[0] == x then 0 else 1 + FirstIndex(s[1..], x)
  }

  /** Kotlin's `list - element`: the list without the first occurrence of the
      element; a list that does not hold the element comes back unchanged. */
  function RemoveFirst<T(==)>(s: seq<T>, x: T): (r: seq<T>)
    ensures x !in s ==> r == s
    ensures x in s ==> |r| == |s| - 1
    ensures x in s ==> forall k :: 0 <= k < FirstIndex(s, x) ==> r[k] == s[k]
    ensures x in s ==> forall k :: FirstIndex(s, x) <= k < |r| ==> r[k] == s[k + 1]
  {
    if |s| == 0 then []
    else if s[0] == x then s[1..]
    else
      var rest := RemoveFirst(s[1..], x);
      assert x in s ==> x in s[1..] && FirstIndex(s, x) == FirstIndex(s[1..], x) + 1;
      [s[0]] + rest
  }

  /** Removing the first occurrence takes exactly one copy of `x` out of the
      multiset, and nothing when `x` is absent. */
  lemma {:induction false} RemoveFirstMultiset<T>(s: seq<T>, x: T)
    ensures multiset(RemoveFirst(s, x)) == multiset(s) - multiset{x}
  {
    if |s| > 0 {
      assert s == [s[0]] + s[1..];
      if s[0] != x {
        RemoveFirstMultiset(s[1..], x);
        assert RemoveFirst(s, x) == [s[0]] + RemoveFirst(s[1..], x);
      }
    }
  }

  /** The result of `RemoveFirst` is the list spliced around the first occurrence. */
  lemma RemoveFirstSplices<T>(s: seq<T>, x: T)
    requires x in s
    ensures RemoveFirst(s, x) == s[..FirstIndex(s, x)] + s[FirstIndex(s, x) + 1..]
  {
    var i := FirstIndex(s, x);
    var r := RemoveFirst(s, x);
    assert r[..i] == s[..i];
    assert r[i..] == s[i + 1..];
    assert r == r[..i] + r[i..];
  }

  /** On a duplicate-free sequence, removing the first occurrence is the same
      as filtering the element out: `MutableSet.remove` on an insertion-ordered set. */
  lemma RemoveFirstIsMinus<T(!new)>(s: seq<T>, x: T)
    requires NoDuplicates(s)
    ensures RemoveFirst(s, x) == Minus(s, [x])
  {
    if x in s {
      RemoveFirstSplices(s, x);
      SpliceIsMinus(s, FirstIndex(s, x));
    } else {
      MinusAbsent(s, [x]);
    }
  }

  /** Kotlin's `set - elements` on an insertion-ordered set: the elements of `s`
      that are not in `t`, in their order in `s`. */
  function Minus<T(==,!new)>(s: seq<T>, t: seq<T>): (r: seq<T>)
    ensures forall x :: x in r <==> x in s && x !in t
    ensures |r| <= |s|
  {
    if |s| == 0 then []
    else
      assert s == [s[0]] + s[1..];
      if s[0] in t then Minus(s[1..], t) else [s[0]] + Minus(s[1..], t)
  }

  /** On a duplicate-free sequence the filter keeps the survivors in their
      original order: earlier in the result means earlier in `s`. */
  lemma {:induction false} MinusKeepsOrder<T(!new)>(s: seq<T>, t: seq<T>)
    requires NoDuplicates(s)
    ensures forall i, j :: 0 <= i < j < |Minus(s, t)| ==>
              FirstIndex(s, Minus(s, t)[i]) < FirstIndex(s, Minus(s, t)[j])
    decreases |s|
  {
    if |s| > 0 {
      var u := s[1..];
      NoDuplicatesTail(s);
      MinusKeepsOrder(u, t);
      var ru := Minus(u, t);
      forall x | x in u ensures FirstIndex(s, x) == 1 + FirstIndex(u, x) {
        assert s[0] != x;
      }
      if s[0] !in t {
        var r := Minus(s, t);
        assert r == [s[0]] + ru;
        forall i, j | 0 <= i < j < |r| ensures FirstIndex(s, r[i]) < FirstIndex(s, r[j]) {
          assert r[j] == ru[j - 1] && r[j] in u;
          if i > 0 {
            assert r[i] == ru[i - 1] && r[i] in u;
          }
        }
      }
    }
  }

  /** Appending the elements of `b` that `a` lacks to `a` repeats nothing,
      when neither repeats anything. */
  lemma AppendMissingNoDuplicates<T(!new)>(a: seq<T>, b: seq<T>)
    ensures NoDuplicates(a) && NoDuplicates(b) ==> NoDuplicates(a + Minus(b, a))
  {
    if NoDuplicates(a) && NoDuplicates(b) {
      MinusNoDuplicates(b, a);
      NoDuplicatesConcat(a, Minus(b, a));
    }
  }

  /** Each element keeps its count, unless it is filtered out. */
  lemma {:induction false} MinusCounts<T(!new)>(s: seq<T>, t: seq<T>)
    ensures forall x :: multiset(Minus(s, t))[x] == if x in t then 0 else multiset(s)[x]
  {
    if |s| > 0 {
      assert s == [s[0]] + s[1..];
      MinusCounts(s[1..], t);
      if s[0] !in t {
        assert Minus(s, t) == [s[0]] + Minus(s[1..], t);
      }
    }
  }

  lemma MinusNoDuplicates<T(!new)>(s: seq<T>, t: seq<T>)
    requires NoDuplicates(s)
    ensures NoDuplicates(Minus(s, t))
  {
    MinusCounts(s, t);
    NoDuplicatesCounts(s);
    NoDuplicatesCounts(Minus(s, t));
  }

  /** A prefix of a reordering of `t` takes at most what `t` holds, and all
      of it when the prefix is the whole sequence. */
  lemma PrefixOfReordering<T>(s: seq<T>, t: seq<T>, m: nat)
    requires multiset(s) == multiset(t) && m <= |s|
    ensures multiset(s[..m]) <= multiset(t)
    ensures m == |t| ==> multiset(s[..m]) == multiset(t)
  {
    MultisetOfPrefix(s, m);
    if m == |t| {
      assert |s| == |t| by { assert |multiset(s)| == |multiset(t)|; }
      assert s[..m] == s;
    }
  }

  /** The tail of a duplicate-free sequence is duplicate-free and misses its head. */
  lemma NoDuplicatesTail<T>(s: seq<T>)
    requires NoDuplicates(s) && |s| > 0
    ensures NoDuplicates(s[1..])
    ensures s[0] !in s[1..]
  {
    var t := s[1..];
    forall a, b | 0 <= a < b < |t| ensures t[a] != t[b] {
      assert t[a] == s[a + 1] && t[b] == s[b + 1];
    }
    forall k | 0 <= k < |t| ensures t[k] != s[0] {
      assert t[k] == s[k + 1];
    }
  }

  /** Cutting one position out of a duplicate-free sequence is the same as
      filtering its element out. */
  lemma {:induction false} SpliceIsMinus<T(!new)>(s: seq<T>, i: nat)
    requires NoDuplicates(s) && i < |s|
    ensures s[..i] + s[i + 1..] == Minus(s, [s[i]])
    decreases |s|
  {
    var t := s[1..];
    assert s == [s[0]] + t;
    NoDuplicatesTail(s);
    if i == 0 {
      MinusAbsent(t, [s[0]]);
    } else {
      assert s[0] != s[i];
      assert t[i - 1] == s[i];
      SpliceIsMinus(t, i - 1);
      assert Minus(s, [s[i]]) == [s[0]] + Minus(t, [s[i]]);
      assert s[..i] == [s[0]] + t[..i - 1];
      assert s[i + 1..] == t[i..];
    }
  }

  /** Filtering out elements that do not occur changes nothing. */
  lemma {:induction false} MinusAbsent<T(!new)>(s: seq<T>, t: seq<T>)
    requires forall x :: x in s ==> x !in t
    ensures Minus(s, t) == s
  {
    if |s| > 0 {
      assert s == [s[0]] + s[1..];
      MinusAbsent(s[1..], t);
    }
  }

  /** Filtering the first `k` elements of a reordering of a duplicate-free `s`
      out of `s` leaves the other elements of the reordering. */
  lemma MinusPrefix<T(!new)>(s: seq<T>, order: seq<T>, k: nat)
    requires NoDuplicates(s) && multiset(order) == multiset(s) && k <= |order|
    ensures multiset(Minus(s, order[..k])) == multiset(order[k..])
  {
    var front := order[..k];
    var rest := order[k..];
    assert order == front + rest;
    NoDuplicatesCounts(s);
    MinusCounts(s, front);
    forall x
      ensures multiset(Minus(s, front))[x] == multiset(rest)[x]
    {
      assert multiset(order)[x] == multiset(front)[x] + multiset(rest)[x];
      if x in front {
        assert x in multiset(front);
      }
    }
  }
}
