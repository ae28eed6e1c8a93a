/**
 * The array operations the system builds its pipelines from: `filter`,
 * counting, `slice(0, n)`, `Array.from(new Set(xs))`, and the notion of an
 * order-preserving subsequence used to state what they keep.
 */
module Seqs {

  /** `xs.filter(p)`: the elements satisfying `p`, in their original order. */
  function Filter<T>(p: T -> bool, s: seq<T>): (r: seq<T>)
    ensures |r| <= |s|
    ensures forall x :: x in r ==> x in s && p(x)
    ensures forall x :: x in s && p(x) ==> x in r
  {
    if s == [] then [] else (if p(s[0]) then [s[0]] else []) + Filter(p, s[1..])
  }

  /** How many elements of `s` satisfy `p`. */
  function CountIf<T>(p: T -> bool, s: seq<T>): (n: nat)
    ensures n <= |s|
  {
    if s == [] then 0 else (if p(s[0]) then 1 else 0) + CountIf(p, s[1..])
  }

  /** `s.slice(0, n)` */
  function Take<T>(s: seq<T>, n: int): (r: seq<T>)
    ensures |r| == if n < 0 then 0 else if n < |s| then n else |s|
    ensures forall i :: 0 <= i < |r| ==> r[i] == s[i]
  {
    if n <= 0 then [] else if n < |s| then s[..n] else s
  }

  predicate Distinct<T(==)>(s: seq<T>) {
    forall i, j :: 0 <= i < j < |s| ==> s[i] != s[j]
  }

  /** Two sequences without repeats and with no element in common concatenate to one without repeats. */
  lemma DistinctConcat<T>(a: seq<T>, b: seq<T>)
    requires Distinct(a) && Distinct(b)
    requires forall x :: x in b ==> x !in a
    ensures Distinct(a + b)
  {
    var h := a + b;
    forall i, j | 0 <= i < j < |h| ensures h[i] != h[j] {
      if j < |a| {
        assert h[i] == a[i] && h[j] == a[j];
      } else if i < |a| {
        assert h[j] == b[j - |a|] && b[j - |a|] in b;
        assert h[i] == a[i] && a[i] in a;
      } else {
        assert h[j] == b[j - |a|] && h[i] == b[i - |a|];
      }
    }
  }

  /** A rearrangement of a sequence without repeats has none either. */
  lemma DistinctByMultiset<T>(a: seq<T>, b: seq<T>)
    requires Distinct(a) && multiset(a) == multiset(b)
    ensures Distinct(b)
  {
    forall i, j | 0 <= i < j < |b| ensures b[i] != b[j] {
      var v := b[i];
      assert v in multiset(a);
      var k :| 0 <= k < |a| && a[k] == v;
      assert a == a[..k] + [a[k]] + a[k + 1..];
      assert v !in a[..k] && v !in a[k + 1..];
      assert multiset(a)[v] == 1;
      assert b == b[..j] + [b[j]] + b[j + 1..];
      assert v in b[..j];
      assert multiset(b)[v] >= multiset(b[..j])[v] + (if b[j] == v then 1 else 0);
    }
  }

  // ----- subsequences -----

  /** `idx` picks, in increasing positions of `b`, the elements of `a`. */
  ghost predicate Embeds<T>(idx: seq<nat>, a: seq<T>, b: seq<T>) {
    && |idx| == |a|
    && (forall i :: 0 <= i < |idx| ==> idx[i] < |b| && a[i] == b[idx[i]])
    && (forall i, j :: 0 <= i < j < |idx| ==> idx[i] < idx[j])
  }

  /** `a` is `b` with some elements removed and the rest left in order. */
  ghost predicate IsSubsequence<T>(a: seq<T>, b: seq<T>) {
    exists idx: seq<nat> :: Embeds(idx, a, b)
  }

  function Shift(idx: seq<nat>): (r: seq<nat>)
    ensures |r| == |idx| && forall i :: 0 <= i < |idx| ==> r[i] == idx[i] + 1
  {
    seq(|idx|, i requires 0 <= i < |idx| => idx[i] + 1)
  }

  /** An embedding into the tail of `b` is one into `b`, one position further on. */
  lemma EmbedsSkip<T>(idx: seq<nat>, a: seq<T>, b: seq<T>)
    requires b != [] && Embeds(idx, a, b[1..])
    ensures Embeds(Shift(idx), a, b)
  {
  }

  /** ... and, with position 0 in front, an embedding of `a` behind the head of `b`. */
  lemma EmbedsKeep<T>(idx: seq<nat>, a: seq<T>, b: seq<T>)
    requires b != [] && Embeds(idx, a, b[1..])
    ensures Embeds([0] + Shift(idx), [b[0]] + a, b)
  {
    var r := [0] + Shift(idx);
    forall i | 0 <= i < |r| ensures r[i] < |b| && ([b[0]] + a)[i] == b[r[i]] {
      if i > 0 { assert r[i] == idx[i - 1] + 1; }
    }
  }

  lemma {:induction false} FilterIsSubsequence<T>(p: T -> bool, s: seq<T>)
    ensures IsSubsequence(Filter(p, s), s)
  {
    if s == [] {
      assert Embeds([], Filter(p, s), s);
    } else {
      FilterIsSubsequence(p, s[1..]);
      var rest := Filter(p, s[1..]);
      var idx :| Embeds(idx, rest, s[1..]);
      if p(s[0]) {
        assert Filter(p, s) == [s[0]] + rest;
        EmbedsKeep(idx, rest, s);
      } else {
        assert Filter(p, s) == rest;
        EmbedsSkip(idx, rest, s);
      }
    }
  }

  lemma PrefixIsSubsequence<T>(s: seq<T>, n: nat)
    requires n <= |s|
    ensures IsSubsequence(s[..n], s)
  {
    var idx := seq(n, i requires 0 <= i < n => i as nat);
    assert Embeds(idx, s[..n], s);
  }

  lemma SubsequenceTransitive<T>(a: seq<T>, b: seq<T>, c: seq<T>)
    requires IsSubsequence(a, b) && IsSubsequence(b, c)
    ensures IsSubsequence(a, c)
  {
    var ab :| Embeds(ab, a, b);
    var bc :| Embeds(bc, b, c);
    var ac := seq(|ab|, i requires 0 <= i < |ab| => bc[ab[i]]);
    assert Embeds(ac, a, c);
  }

  // ----- what a filter keeps -----

  /** Each element is kept exactly as often as it occurs, if it satisfies `p`, and never otherwise. */
  lemma {:induction false} FilterMultiplicity<T>(p: T -> bool, s: seq<T>, x: T)
    ensures multiset(Filter(p, s))[x] == if p(x) then multiset(s)[x] else 0
  {
    if s != [] {
      FilterMultiplicity(p, s[1..], x);
      assert s == [s[0]] + s[1..];
    }
  }

  /** Every element is kept or rejected: the kept count plus the count of those failing `p` is the total. */
  lemma {:induction false} FilterLength<T>(p: T -> bool, q: T -> bool, s: seq<T>)
    requires forall x :: q(x) == !p(x)
    ensures |Filter(p, s)| + CountIf(q, s) == |s|
  {
    if s != [] {
      FilterLength(p, q, s[1..]);
    }
  }

  lemma {:induction false} FilterKeepsAll<T>(p: T -> bool, s: seq<T>)
    requires forall x :: x in s ==> p(x)
    ensures Filter(p, s) == s
  {
    if s != [] {
      FilterKeepsAll(p, s[1..]);
    }
  }

  lemma {:induction false} FilterConcat<T>(p: T -> bool, a: seq<T>, b: seq<T>)
    ensures Filter(p, a + b) == Filter(p, a) + Filter(p, b)
  {
    if a != [] {
      FilterConcat(p, a[1..], b);
      assert (a + b)[1..] == a[1..] + b;
    } else {
      assert a + b == b;
    }
  }

  /** Filters by predicates that agree everywhere keep the same elements. */
  lemma {:induction false} FilterExtensional<T>(p: T -> bool, q: T -> bool, s: seq<T>)
    requires forall x :: p(x) == q(x)
    ensures Filter(p, s) == Filter(q, s)
  {
    if s != [] {
      FilterExtensional(p, q, s[1..]);
    }
  }

  /** Filtering by `q` and then by `p` is filtering once by their conjunction. */
  lemma {:induction false} FilterCompose<T>(p: T -> bool, q: T -> bool, s: seq<T>)
    ensures Filter(p, Filter(q, s)) == Filter(x => q(x) && p(x), s)
  {
    if s != [] {
      FilterCompose(p, q, s[1..]);
      var rest := Filter(q, s[1..]);
      if q(s[0]) {
        assert Filter(q, s) == [s[0]] + rest;
        assert ([s[0]] + rest)[1..] == rest;
      } else {
        assert Filter(q, s) == rest;
      }
    }
  }

  /** Two filters in a row are one filter by any predicate equivalent to their conjunction. */
  lemma FilterTwice<T>(p: T -> bool, q: T -> bool, both: T -> bool, s: seq<T>)
    requires forall x :: both(x) == (q(x) && p(x))
    ensures Filter(p, Filter(q, s)) == Filter(both, s)
  {
    FilterCompose(p, q, s);
    FilterExtensional(x => q(x) && p(x), both, s);
  }

  lemma {:induction false} FilterNone<T>(p: T -> bool, s: seq<T>)
    requires forall x :: x in s ==> !p(x)
    ensures Filter(p, s) == []
  {
    if s != [] {
      FilterNone(p, s[1..]);
    }
  }

  /** `s.filter(p).length` counts the elements satisfying `p`. */
  lemma {:induction false} FilterCount<T>(p: T -> bool, s: seq<T>)
    ensures |Filter(p, s)| == CountIf(p, s)
  {
    if s != [] {
      FilterCount(p, s[1..]);
    }
  }

  /** Elements satisfying two exclusive predicates are counted at most once between them. */
  lemma {:induction false} CountExclusive<T>(p: T -> bool, q: T -> bool, s: seq<T>)
    requires forall x :: !(p(x) && q(x))
    ensures CountIf(p, s) + CountIf(q, s) <= |s|
  {
    if s != [] {
      CountExclusive(p, q, s[1..]);
    }
  }

  // ----- Array.from(new Set(xs)) -----

  /** The position of the first occurrence of `x`. */
  function FirstIndex<T(==)>(s: seq<T>, x: T): (i: nat)
    requires x in s
    ensures i < |s| && s[i] == x && forall j :: 0 <= j < i ==> s[j] != x
  {
    if s[0] == x then 0 else 1 + FirstIndex(s[1..], x)
  }

  lemma FirstIndexOfPrefix<T>(s: seq<T>, n: nat, x: T)
    requires n <= |s| && x in s[..n]
    ensures FirstIndex(s[..n], x) == FirstIndex(s, x)
  {
  }

  /**
   * `Array.from(new Set(s))`: every element once, in the order of its first
   * appearance.
   */
  function Dedup<T(==)>(s: seq<T>): (r: seq<T>)
    ensures Distinct(r)
    ensures forall x :: x in r ==> x in s
    ensures forall x :: x in s ==> x in r
    ensures |r| <= |s|
    decreases |s|
  {
    if s == [] then []
    else
      var d := Dedup(s[..|s| - 1]);
      if s[|s| - 1] in d then d else d + [s[|s| - 1]]
  }

  /** The elements of `Dedup(s)` come in the order of their first appearance in `s`. */
  lemma {:induction false} DedupFirstAppearanceOrder<T>(s: seq<T>)
    ensures forall i, j :: 0 <= i < j < |Dedup(s)| ==>
              FirstIndex(s, Dedup(s)[i]) < FirstIndex(s, Dedup(s)[j])
    decreases |s|
  {
    if s != [] {
      var init := s[..|s| - 1];
      var last := s[|s| - 1];
      DedupFirstAppearanceOrder(init);
      var d := Dedup(init);
      forall x | x in d ensures FirstIndex(init, x) == FirstIndex(s, x) {
        FirstIndexOfPrefix(s, |s| - 1, x);
        assert s[..|s| - 1] == init;
      }
      if last !in d {
        assert FirstIndex(s, last) == |s| - 1 by {
          assert forall j :: 0 <= j < |s| - 1 ==> s[j] in init;
        }
      }
    }
  }
}
