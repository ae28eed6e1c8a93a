/**
 * The "Top Doctors" panel of the dashboard (`topDocs` in `src/app/page.tsx`):
 * a `Map` from doctor name to the number of rows naming that doctor, built
 * in one pass over the rows, then its entries sorted by count, largest
 * first, and cut to ten.
 */
module TopDocs {
  import opened Text
  import opened Seqs
  import Dashboard

  /** `(r.referring_doctor || "Unknown").trim()` */
  function DoctorKey(r: Dashboard.Object): string {
    var d := Dashboard.TextOf(r, "referring_doctor");
    Trim(if d != "" then d else "Unknown")
  }

  function DoctorKeys(rows: seq<Dashboard.Object>): (keys: seq<string>)
    ensures |keys| == |rows| && forall i :: 0 <= i < |rows| ==> keys[i] == DoctorKey(rows[i])
  {
    seq(|rows|, i requires 0 <= i < |rows| => DoctorKey(rows[i]))
  }

  /** One entry of the tally: a doctor and a count. */
  type Entry = (string, nat)

  /** How many of `keys` are `d`. */
  function Occurrences(keys: seq<string>, d: string): nat
    decreases |keys|
  {
    if keys == [] then 0
    else Occurrences(keys[..|keys| - 1], d) + (if keys[|keys| - 1] == d then 1 else 0)
  }

  function EntryKeys(t: seq<Entry>): (ks: seq<string>)
    ensures |ks| == |t| && forall i :: 0 <= i < |t| ==> ks[i] == t[i].0
  {
    seq(|t|, i requires 0 <= i < |t| => t[i].0)
  }

  /** `m.get(d)`'s position: the entry for `d`, or -1 when there is none. */
  function Position(t: seq<Entry>, d: string): (j: int)
    ensures -1 <= j < |t|
    ensures j >= 0 ==> t[j].0 == d
    ensures j < 0 ==> forall i :: 0 <= i < |t| ==> t[i].0 != d
  {
    if t == [] then -1
    else if t[|t| - 1].0 == d then |t| - 1
    else Position(t[..|t| - 1], d)
  }

  /** `m.set(d, (m.get(d) || 0) + 1)`: one more for `d`, which joins at the end when new. */
  function Bump(t: seq<Entry>, d: string): seq<Entry> {
    var j := Position(t, d);
    if j >= 0 then t[j := (d, t[j].1 + 1)] else t + [(d, 1)]
  }

  /** The map after counting `keys`, as its entries in insertion order. */
  function Tally(keys: seq<string>): seq<Entry>
    decreases |keys|
  {
    if keys == [] then [] else Bump(Tally(keys[..|keys| - 1]), keys[|keys| - 1])
  }

  /**
   * The tally holds each key once, in the order of first appearance, and
   * with the number of times it occurs.
   */
  lemma {:induction false} TallyCounts(keys: seq<string>)
    ensures EntryKeys(Tally(keys)) == Dedup(keys)
    ensures forall i :: 0 <= i < |Tally(keys)| ==> Tally(keys)[i].1 == Occurrences(keys, Tally(keys)[i].0)
    decreases |keys|
  {
    if keys != [] {
      var init := keys[..|keys| - 1];
      var d := keys[|keys| - 1];
      TallyCounts(init);
      var t := Tally(init);
      var j := Position(t, d);
      assert d in Dedup(init) <==> j >= 0 by {
        if j >= 0 {
          assert EntryKeys(t)[j] == d;
        } else {
          assert forall i :: 0 <= i < |t| ==> EntryKeys(t)[i] != d;
        }
      }
      if j >= 0 {
        assert EntryKeys(Tally(keys)) == EntryKeys(t);
      } else {
        assert EntryKeys(Tally(keys)) == EntryKeys(t) + [d];
        OccurrencesAbsent(init, d);
      }
    }
  }

  lemma {:induction false} OccurrencesAbsent(keys: seq<string>, d: string)
    requires d !in Dedup(keys)
    ensures Occurrences(keys, d) == 0
    decreases |keys|
  {
    if keys != [] {
      var init := keys[..|keys| - 1];
      assert forall x :: x in init ==> x in keys;
      OccurrencesAbsent(init, d);
    }
  }

  lemma TallyStep(keys: seq<string>, i: nat)
    requires i < |keys|
    ensures Tally(keys[..i + 1]) == Bump(Tally(keys[..i]), keys[i])
  {
    assert keys[..i + 1][..i] == keys[..i];
  }

  /** Counting the rows one by one, as the page's loop does. */
  method CountDoctors(rows: seq<Dashboard.Object>) returns (m: seq<Entry>)
    ensures m == Tally(DoctorKeys(rows))
  {
    m := [];
    ghost var keys := DoctorKeys(rows);
    for i := 0 to |rows|
      invariant m == Tally(keys[..i])
    {
      var doc := DoctorKey(rows[i]);
      TallyStep(keys, i);
      var j := Position(m, doc);
      if j >= 0 {
        m := m[j := (doc, m[j].1 + 1)];
      } else {
        m := m + [(doc, 1)];
      }
      assert m == Bump(Tally(keys[..i]), keys[i]);
    }
    assert keys[..|rows|] == keys;
  }

  // ----- sort((a, b) => b[1] - a[1]) -----

  /** Counts never increase along the sequence. */
  predicate ByCount(s: seq<Entry>) {
    forall i, j :: 0 <= i < j < |s| ==> s[i].1 >= s[j].1
  }

  /** Places `e` before the first entry whose count is not larger. */
  function InsertByCount(e: Entry, s: seq<Entry>): (r: seq<Entry>)
    requires ByCount(s)
    ensures ByCount(r)
    ensures multiset(r) == multiset(s) + multiset{e}
  {
    if s == [] || s[0].1 <= e.1 then
      PrependByCount(e, s);
      [e] + s
    else
      var rest := InsertByCount(e, s[1..]);
      assert s == [s[0]] + s[1..];
      HeadCountsBound(s[0], e, s[1..], rest);
      PrependByCount(s[0], rest);
      [s[0]] + rest
  }

  /** An entry counted at least as often as the head of a ranked sequence can go in front. */
  lemma PrependByCount(x: Entry, s: seq<Entry>)
    requires ByCount(s) && (s == [] || s[0].1 <= x.1)
    ensures ByCount([x] + s)
  {
    forall i, j | 0 <= i < j < |s| + 1 ensures ([x] + s)[i].1 >= ([x] + s)[j].1 {
      if i > 0 {
        assert ([x] + s)[i] == s[i - 1] && ([x] + s)[j] == s[j - 1];
      } else if j > 1 {
        assert s[0].1 >= s[j - 1].1;
      }
    }
  }

  /** Inserting an entry counted less than `y` among entries counted at most `y` keeps them at most `y`. */
  lemma HeadCountsBound(y: Entry, e: Entry, t: seq<Entry>, rest: seq<Entry>)
    requires ByCount([y] + t) && e.1 < y.1
    requires multiset(rest) == multiset(t) + multiset{e}
    ensures rest == [] || rest[0].1 <= y.1
  {
    if rest != [] {
      assert rest[0] in multiset(rest);
      if rest[0] != e {
        assert rest[0] in multiset(t);
        var m :| 0 <= m < |t| && t[m] == rest[0];
        assert ([y] + t)[m + 1] == rest[0] && ([y] + t)[0] == y;
      }
    }
  }

  /** The entries reordered by count, largest first. */
  function SortByCount(s: seq<Entry>): (r: seq<Entry>)
    ensures ByCount(r)
    ensures multiset(r) == multiset(s)
  {
    if s == [] then []
    else
      assert s == [s[0]] + s[1..];
      InsertByCount(s[0], SortByCount(s[1..]))
  }

  /** `topDocs`: the ten doctors (or fewer) with the most rows. */
  function TopDoctors(rows: seq<Dashboard.Object>): seq<Entry> {
    Take(SortByCount(Tally(DoctorKeys(rows))), 10)
  }

  /** Every sorted entry is a tally entry: a key with the number of times it occurs, at least once. */
  lemma SortedEntriesCounted(keys: seq<string>)
    ensures forall e :: e in SortByCount(Tally(keys)) ==> e in Tally(keys)
    ensures forall e :: e in SortByCount(Tally(keys)) ==> e.1 == Occurrences(keys, e.0) > 0
  {
    var t := Tally(keys);
    var sorted := SortByCount(t);
    TallyCounts(keys);
    forall e | e in sorted ensures e in t {
      assert e in multiset(sorted);
    }
    forall e | e in sorted ensures e.1 == Occurrences(keys, e.0) > 0 {
      var i :| 0 <= i < |t| && t[i] == e;
      assert EntryKeys(t)[i] == e.0;
      assert e.0 in Dedup(keys);
      OccurrencesPositive(keys, e.0);
    }
  }

  /** No doctor appears twice among the sorted entries. */
  lemma SortedKeysDistinct(keys: seq<string>)
    ensures forall i, j :: 0 <= i < j < |SortByCount(Tally(keys))| ==>
              SortByCount(Tally(keys))[i].0 != SortByCount(Tally(keys))[j].0
  {
    var t := Tally(keys);
    var sorted := SortByCount(t);
    TallyCounts(keys);
    SortedEntriesCounted(keys);
    assert Distinct(t) by {
      forall i, j | 0 <= i < j < |t| ensures t[i] != t[j] {
        assert EntryKeys(t)[i] != EntryKeys(t)[j];
      }
    }
    DistinctByMultiset(t, sorted);
    forall i, j | 0 <= i < j < |sorted| ensures sorted[i].0 != sorted[j].0 {
      assert sorted[i] != sorted[j];
      assert sorted[i] in sorted && sorted[j] in sorted;
      assert sorted[i].1 == Occurrences(keys, sorted[i].0);
      assert sorted[j].1 == Occurrences(keys, sorted[j].0);
    }
  }

  /** Every doctor named by some row has its entry, with its number of rows, among the sorted entries. */
  lemma EntryForEachDoctor(keys: seq<string>, d: string)
    requires d in keys
    ensures (d, Occurrences(keys, d)) in SortByCount(Tally(keys))
  {
    var t := Tally(keys);
    TallyCounts(keys);
    assert d in EntryKeys(t);
    var i :| 0 <= i < |t| && EntryKeys(t)[i] == d;
    assert t[i] == (d, Occurrences(keys, d));
    assert t[i] in multiset(SortByCount(t));
  }

  /** A doctor missing from the ten listed has no more rows than any of them, and ten are listed. */
  lemma LeftOutRankedLower(keys: seq<string>, d: string)
    requires d in keys && d !in EntryKeys(Take(SortByCount(Tally(keys)), 10))
    ensures |Take(SortByCount(Tally(keys)), 10)| == 10
    ensures forall e :: e in Take(SortByCount(Tally(keys)), 10) ==> e.1 >= Occurrences(keys, d)
  {
    var sorted := SortByCount(Tally(keys));
    var top := Take(sorted, 10);
    EntryForEachDoctor(keys, d);
    var p :| 0 <= p < |sorted| && sorted[p] == (d, Occurrences(keys, d));
    forall q | 0 <= q < |top| ensures top[q].0 != d {
      assert EntryKeys(top)[q] == top[q].0;
    }
    assert p >= 10;
    forall e | e in top ensures e.1 >= Occurrences(keys, d) {
      var q :| 0 <= q < |top| && top[q] == e;
      assert sorted[q] == e;
    }
  }

  /**
   * At most ten entries, counts never increasing, each doctor once with the
   * number of rows naming it, and no doctor left out who has more rows than
   * one that is listed.
   */
  lemma TopDoctorsRanked(rows: seq<Dashboard.Object>)
    ensures var top := TopDoctors(rows);
            && |top| <= 10
            && ByCount(top)
            && (forall i, j :: 0 <= i < j < |top| ==> top[i].0 != top[j].0)
            && (forall e :: e in top ==> e.1 == Occurrences(DoctorKeys(rows), e.0) > 0)
            && (forall d :: d in DoctorKeys(rows) && d !in EntryKeys(top) ==>
                  |top| == 10 && forall e :: e in top ==> e.1 >= Occurrences(DoctorKeys(rows), d))
  {
    var keys := DoctorKeys(rows);
    var sorted := SortByCount(Tally(keys));
    var top := TopDoctors(rows);
    SortedEntriesCounted(keys);
    SortedKeysDistinct(keys);
    assert forall e :: e in top ==> e in sorted;
    forall d | d in keys && d !in EntryKeys(top)
      ensures |top| == 10 && forall e :: e in top ==> e.1 >= Occurrences(keys, d)
    {
      LeftOutRankedLower(keys, d);
    }
  }

  lemma OccurrencesPositive(keys: seq<string>, d: string)
    requires d in Dedup(keys)
    ensures Occurrences(keys, d) > 0
    decreases |keys|
  {
    var init := keys[..|keys| - 1];
    if keys[|keys| - 1] != d {
      assert d in Dedup(init) by {
        assert d in keys;
        var i :| 0 <= i < |keys| && keys[i] == d;
        assert init[i] == d;
      }
      OccurrencesPositive(init, d);
    }
  }

  /** The page's computation: count, sort, keep ten. */
  method Top(rows: seq<Dashboard.Object>) returns (top: seq<Entry>)
    ensures top == TopDoctors(rows)
    ensures |top| <= 10 && ByCount(top)
    ensures forall e :: e in top ==> e.1 == Occurrences(DoctorKeys(rows), e.0) > 0
  {
    var m := CountDoctors(rows);
    top := Take(SortByCount(m), 10);
    TopDoctorsRanked(rows);
  }
}
