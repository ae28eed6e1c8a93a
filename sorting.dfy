/** `xs.sort()` on strings: JavaScript's default comparison, by `Text.Less`. */
module Sorting {
  import opened Text
  import opened Seqs

  /** No later element is smaller than an earlier one. */
  predicate Sorted(s: seq<string>) {
    forall i, j :: 0 <= i < j < |s| ==> !Less(s[j], s[i])
  }

  /** Each element is smaller than every later one. */
  predicate StrictlySorted(s: seq<string>) {
    forall i, j :: 0 <= i < j < |s| ==> Less(s[i], s[j])
  }

  function Insert(x: string, s: seq<string>): (r: seq<string>)
    requires Sorted(s)
    ensures Sorted(r)
    ensures multiset(r) == multiset(s) + multiset{x}
  {
    if s == [] then [x]
    else if !Less(s[0], x) then
      NotBelowHead(x, s);
      PrependSorted(x, s);
      [x] + s
    else
      var rest := Insert(x, s[1..]);
      assert s == [s[0]] + s[1..];
      HeadBelowInserted(s[0], x, s[1..], rest);
      PrependSorted(s[0], rest);
      [s[0]] + rest
  }

  /** Nothing in a sorted sequence is below an element its head is not below. */
  lemma NotBelowHead(x: string, s: seq<string>)
    requires Sorted(s) && s != [] && !Less(s[0], x)
    ensures forall k :: 0 <= k < |s| ==> !Less(s[k], x)
  {
    forall k | 0 < k < |s| ensures !Less(s[k], x) {
      assert !Less(s[k], s[0]);
      LessTotal(s[0], s[k]);
      if Less(s[0], s[k]) && Less(s[k], x) { LessTransitive(s[0], s[k], x); }
    }
  }

  /** An element below nothing of a sorted sequence can be put in front of it. */
  lemma PrependSorted(x: string, s: seq<string>)
    requires Sorted(s)
    requires forall k :: 0 <= k < |s| ==> !Less(s[k], x)
    ensures Sorted([x] + s)
  {
    forall i, j | 0 <= i < j < |s| + 1 ensures !Less(([x] + s)[j], ([x] + s)[i]) {
      if i > 0 { assert !Less(s[j - 1], s[i - 1]); }
    }
  }

  /** Inserting an element above `y` into a sequence with nothing below `y` keeps nothing below `y`. */
  lemma HeadBelowInserted(y: string, x: string, t: seq<string>, rest: seq<string>)
    requires Sorted([y] + t) && Less(y, x)
    requires multiset(rest) == multiset(t) + multiset{x}
    ensures forall j :: 0 <= j < |rest| ==> !Less(rest[j], y)
  {
    forall j | 0 <= j < |rest| ensures !Less(rest[j], y) {
      assert rest[j] in multiset(rest);
      if rest[j] == x {
        LessAsymmetric(y, x);
      } else {
        assert rest[j] in multiset(t);
        var k :| 0 <= k < |t| && t[k] == rest[j];
        assert ([y] + t)[k + 1] == rest[j] && ([y] + t)[0] == y;
        assert !Less(([y] + t)[k + 1], ([y] + t)[0]);
      }
    }
  }

  /** `xs.sort()`: an ordered permutation of `xs`. */
  function Sort(s: seq<string>): (r: seq<string>)
    ensures Sorted(r)
    ensures multiset(r) == multiset(s)
  {
    if s == [] then [] else
      assert s == [s[0]] + s[1..];
      Insert(s[0], Sort(s[1..]))
  }

  /** A sorted permutation of a sequence without repeats is strictly increasing. */
  lemma SortedDistinct(s: seq<string>)
    requires Sorted(s)
    requires Distinct(s)
    ensures StrictlySorted(s)
  {
    forall i, j | 0 <= i < j < |s| ensures Less(s[i], s[j]) {
      LessTotal(s[i], s[j]);
    }
  }

  /** Sorting a sequence without repeats gives a strictly increasing one. */
  lemma SortDistinct(s: seq<string>)
    requires Distinct(s)
    ensures Distinct(Sort(s)) && StrictlySorted(Sort(s))
  {
    DistinctByMultiset(s, Sort(s));
    SortedDistinct(Sort(s));
  }

  /** Two sorted arrangements of one multiset start with the same element. */
  lemma SortedSameHead(a: seq<string>, b: seq<string>)
    requires Sorted(a) && Sorted(b) && multiset(a) == multiset(b) && a != [] && b != []
    ensures a[0] == b[0]
  {
    assert a[0] in multiset(b) && b[0] in multiset(a);
    var i :| 0 <= i < |b| && b[i] == a[0];
    var j :| 0 <= j < |a| && a[j] == b[0];
    assert !Less(b[0], a[0]) by { if j == 0 { LessIrreflexive(a[0]); } }
    assert !Less(a[0], b[0]) by { if i == 0 { LessIrreflexive(a[0]); } }
    LessTotal(a[0], b[0]);
  }

  /** Removing the same head from two arrangements of one multiset leaves arrangements of one multiset. */
  lemma SameTailMultiset(a: seq<string>, b: seq<string>)
    requires multiset(a) == multiset(b) && a != [] && b != [] && a[0] == b[0]
    ensures multiset(a[1..]) == multiset(b[1..])
  {
    assert a == [a[0]] + a[1..] && b == [b[0]] + b[1..];
    assert multiset(a) == multiset{a[0]} + multiset(a[1..]);
    assert multiset(b) == multiset{b[0]} + multiset(b[1..]);
    assert multiset(a[1..]) == multiset(a) - multiset{a[0]};
    assert multiset(b[1..]) == multiset(b) - multiset{b[0]};
  }

  /** There is only one sorted arrangement of a multiset of strings. */
  lemma {:induction false} SortedUnique(a: seq<string>, b: seq<string>)
    requires Sorted(a) && Sorted(b) && multiset(a) == multiset(b)
    ensures a == b
    decreases |a|
  {
    assert |b| == |a| by { assert |multiset(a)| == |a| && |multiset(b)| == |b|; }
    if a != [] {
      SortedSameHead(a, b);
      SameTailMultiset(a, b);
      SortedUnique(a[1..], b[1..]);
      assert a == [a[0]] + a[1..] && b == [b[0]] + b[1..];
    }
  }
}
