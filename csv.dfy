/**
 * The dashboard's CSV export (`toCSV` in `src/app/page.tsx`). The header
 * row holds the fourteen field names in their fixed order, followed by
 * every other key of any row, sorted. Each row follows as one line with one
 * JSON-encoded cell per header; only the creation date is re-formatted.
 */
module Csv {
  import opened Wrappers
  import opened Text
  import opened Seqs
  import opened Sorting
  import opened Records
  import opened Dates
  import opened Json
  import Dashboard

  /** `parts.join(sep)` */
  function Join(sep: string, parts: seq<string>): string {
    if parts == [] then ""
    else if |parts| == 1 then parts[0]
    else parts[0] + sep + Join(sep, parts[1..])
  }

  /** The lines of a text: the pieces between line breaks. */
  function SplitLines(s: string): (lines: seq<string>)
    ensures |lines| >= 1
  {
    if s == [] then [""]
    else
      var rest := SplitLines(s[1..]);
      if s[0] == '\n' then [""] + rest else [[s[0]] + rest[0]] + rest[1..]
  }

  lemma {:induction false} SplitUnbroken(l: string, rest: string)
    requires '\n' !in l
    ensures SplitLines(l + rest)[0] == l + SplitLines(rest)[0]
    ensures SplitLines(l + rest)[1..] == SplitLines(rest)[1..]
  {
    if l != [] {
      SplitUnbroken(l[1..], rest);
      assert (l + rest)[1..] == l[1..] + rest;
    } else {
      assert l + rest == rest;
    }
  }

  /** Lines without breaks, joined by breaks, split back into those lines. */
  lemma {:induction false} SplitJoin(lines: seq<string>)
    requires |lines| >= 1
    requires forall l :: l in lines ==> '\n' !in l
    ensures SplitLines(Join("\n", lines)) == lines
  {
    if |lines| == 1 {
      SplitUnbroken(lines[0], "");
      assert lines[0] + "" == lines[0];
    } else {
      var tail := Join("\n", lines[1..]);
      SplitJoin(lines[1..]);
      SplitUnbroken(lines[0], "\n" + tail);
      assert lines[0] + "\n" + tail == lines[0] + ("\n" + tail);
      assert ("\n" + tail)[1..] == tail;
      assert SplitLines("\n" + tail) == [""] + SplitLines(tail);
      assert lines[0] + "" == lines[0];
      assert lines == [lines[0]] + lines[1..];
    }
  }

  lemma {:induction false} JoinUnbroken(parts: seq<string>)
    requires forall p :: p in parts ==> '\n' !in p
    ensures '\n' !in Join(",", parts)
  {
    if |parts| > 1 {
      JoinUnbroken(parts[1..]);
    }
  }

  // ----- cells -----

  /** `JSON.stringify(v ?? "")`: a missing or null value is written as the empty string `""`. */
  function Esc(v: Option<Json>): (cell: string)
    ensures '\n' !in cell
    ensures v.None? || v == Some(JNull) ==> cell == Quote("")
    ensures v.Some? && v.value.JString? ==> ParseString(cell) == Some(v.value.s)
    ensures v.Some? && v.value.JNumber? ==> ParseInt(cell) == Some(v.value.n)
    ensures v.Some? && v.value.JBool? ==> cell == (if v.value.b then "true" else "false")
  {
    if v.None? || v == Some(JNull) then Quote("") else Stringify(v.value)
  }

  /** `r[h]`, `undefined` when the row has no such key. */
  function Get(r: Dashboard.Object, h: string): Option<Json> {
    if h in r then Some(r[h]) else None
  }

  /**
   * The cell under `h`: the value itself, except that the creation date is
   * passed through `asISO` first (so it is `""` when it is not a date).
   */
  function Cell(parse: Json -> Option<Date>, h: string, r: Dashboard.Object): (cell: string)
    ensures '\n' !in cell
    ensures h != "created_date" && Get(r, h).Some? && Get(r, h).value.JString? ==> ParseString(cell) == Some(Get(r, h).value.s)
    ensures h != "created_date" && Get(r, h).Some? && Get(r, h).value.JNumber? ==> ParseInt(cell) == Some(Get(r, h).value.n)
    ensures h != "created_date" && Get(r, h).Some? && Get(r, h).value.JBool? ==>
              cell == (if Get(r, h).value.b then "true" else "false")
    ensures h != "created_date" && (Get(r, h).None? || Get(r, h) == Some(JNull)) ==> cell == Quote("")
    ensures h == "created_date" ==>
              var iso := Dashboard.AsISO(parse, Get(r, h));
              if iso.Some? then ParseString(cell) == Some(iso.value) else cell == Quote("")
  {
    if h == "created_date" then
      var iso := Dashboard.AsISO(parse, Get(r, h));
      Esc(if iso.Some? then Some(JString(iso.value)) else None)
    else Esc(Get(r, h))
  }

  function Cells(parse: Json -> Option<Date>, headers: seq<string>, r: Dashboard.Object): (cells: seq<string>)
    ensures |cells| == |headers|
    ensures forall i :: 0 <= i < |headers| ==> cells[i] == Cell(parse, headers[i], r)
  {
    seq(|headers|, i requires 0 <= i < |headers| => Cell(parse, headers[i], r))
  }

  /** One data line: the cells joined by commas; it never holds a line break. */
  function Line(parse: Json -> Option<Date>, headers: seq<string>, r: Dashboard.Object): (line: string)
    ensures '\n' !in line
  {
    var cells := Cells(parse, headers, r);
    JoinUnbroken(cells);
    Join(",", cells)
  }

  function DataLines(parse: Json -> Option<Date>, headers: seq<string>, rows: seq<Dashboard.Object>): (lines: seq<string>)
    ensures |lines| == |rows|
    ensures forall i :: 0 <= i < |rows| ==> lines[i] == Line(parse, headers, rows[i])
  {
    seq(|rows|, i requires 0 <= i < |rows| => Line(parse, headers, rows[i]))
  }

  /** The text of the export for given header columns: the header line, then one line per row. */
  function CsvText(parse: Json -> Option<Date>, headers: seq<string>, rows: seq<Dashboard.Object>): string {
    Join("\n", [Join(",", headers)] + DataLines(parse, headers, rows))
  }

  /**
   * When no header holds a line break, the export splits back into the
   * header line followed by exactly one line per row. The requirement is
   * one `toCSV` itself needs: the header line joins the row keys as they
   * are, unquoted, so a key holding a line break (or a comma) breaks the
   * export's shape.
   */
  lemma CsvLines(parse: Json -> Option<Date>, headers: seq<string>, rows: seq<Dashboard.Object>)
    requires forall h :: h in headers ==> '\n' !in h
    ensures SplitLines(CsvText(parse, headers, rows)) == [Join(",", headers)] + DataLines(parse, headers, rows)
    ensures |SplitLines(CsvText(parse, headers, rows))| == |rows| + 1
  {
    JoinUnbroken(headers);
    var lines := [Join(",", headers)] + DataLines(parse, headers, rows);
    forall l | l in lines ensures '\n' !in l {
      if l != Join(",", headers) {
        var i :| 0 <= i < |lines| && lines[i] == l;
        assert lines[i] == DataLines(parse, headers, rows)[i - 1];
      }
    }
    SplitJoin(lines);
  }

  // ----- the header columns -----

  /** Every key of any of `rows`. */
  function KeysIn(rows: seq<Dashboard.Object>): (ks: set<string>)
    ensures forall k :: k in ks <==> exists r :: r in rows && k in r
    decreases |rows|
  {
    if rows == [] then {}
    else
      var init := rows[..|rows| - 1];
      assert forall r :: r in rows <==> r in init || r == rows[|rows| - 1];
      KeysIn(init) + rows[|rows| - 1].Keys
  }

  /** `rest`: the keys of the rows that are not field names, in increasing order. */
  predicate OtherColumns(rows: seq<Dashboard.Object>, rest: seq<string>) {
    && StrictlySorted(rest)
    && (forall k :: k in rest ==> k !in FieldKeys && exists r :: r in rows && k in r)
    && (forall r, k :: r in rows && k in r && k !in FieldKeys ==> k in rest)
  }

  /** There is one such arrangement only. */
  lemma OtherColumnsUnique(rows: seq<Dashboard.Object>, a: seq<string>, b: seq<string>)
    requires OtherColumns(rows, a) && OtherColumns(rows, b)
    ensures a == b
  {
    StrictlySortedDistinct(a);
    StrictlySortedDistinct(b);
    SameElementsSameMultiset(a, b);
    SortedUnique(a, b);
  }

  lemma StrictlySortedDistinct(s: seq<string>)
    requires StrictlySorted(s)
    ensures Sorted(s) && Distinct(s)
  {
    forall i, j | 0 <= i < j < |s| ensures !Less(s[j], s[i]) && s[i] != s[j] {
      LessAsymmetric(s[i], s[j]);
      LessIrreflexive(s[i]);
    }
  }

  lemma SameElementsSameMultiset(a: seq<string>, b: seq<string>)
    requires Distinct(a) && Distinct(b)
    requires forall x :: x in a <==> x in b
    ensures multiset(a) == multiset(b)
  {
    forall x ensures multiset(a)[x] == multiset(b)[x] {
      DistinctOnce(a, x);
      DistinctOnce(b, x);
    }
  }

  lemma DistinctOnce(s: seq<string>, x: string)
    requires Distinct(s)
    ensures multiset(s)[x] == if x in s then 1 else 0
  {
    if x in s {
      var k :| 0 <= k < |s| && s[k] == x;
      assert s == s[..k] + [s[k]] + s[k + 1..];
      assert x !in s[..k] by {
        forall m | 0 <= m < k ensures s[m] != x {}
      }
      assert x !in s[k + 1..] by {
        forall m | k < m < |s| ensures s[m] != x {}
      }
    }
  }

  /** The header columns are all different: the field names and the sorted others. */
  lemma HeadersDistinct(rows: seq<Dashboard.Object>, rest: seq<string>)
    requires OtherColumns(rows, rest)
    ensures Distinct(FieldKeys + rest)
  {
    StrictlySortedDistinct(rest);
    FieldKeysDistinct();
    DistinctConcat(FieldKeys, rest);
  }

  lemma FieldKeysDistinct()
    ensures Distinct(FieldKeys)
  {
  }

  /** `Array.from(keys).sort()` for the keys outside the field names. */
  method SortedOthers(others: set<string>) returns (rest: seq<string>)
    ensures StrictlySorted(rest)
    ensures forall k :: k in rest <==> k in others
  {
    var items: seq<string> := [];
    var left := others;
    while left != {}
      invariant left <= others
      invariant forall k :: k in items <==> k in others && k !in left
      invariant Distinct(items)
      decreases |left|
    {
      var k :| k in left;
      items := items + [k];
      left := left - {k};
    }
    SortDistinct(items);
    rest := Sort(items);
    forall k ensures k in rest <==> k in items {
      assert k in rest <==> k in multiset(rest);
      assert k in items <==> k in multiset(items);
    }
  }

  /**
   * The header columns of `toCSV`: `new Set(preferred)`, grown by the keys
   * of every row, then the field names followed by the other keys sorted.
   */
  method HeaderColumns(rows: seq<Dashboard.Object>) returns (headers: seq<string>)
    ensures |headers| >= |FieldKeys| && headers[..|FieldKeys|] == FieldKeys
    ensures OtherColumns(rows, headers[|FieldKeys|..])
  {
    var preferred := set k | k in FieldKeys;
    var headerSet := preferred;
    for i := 0 to |rows|
      invariant headerSet == preferred + KeysIn(rows[..i])
    {
      assert rows[..i + 1][..i] == rows[..i];
      headerSet := headerSet + rows[i].Keys;
    }
    assert rows[..|rows|] == rows;
    var rest := SortedOthers(headerSet - preferred);
    headers := FieldKeys + rest;
    assert headers[|FieldKeys|..] == rest;
  }

  /** The lines of `toCSV`: the header line, then one line pushed per row, joined by line breaks. */
  method WriteLines(parse: Json -> Option<Date>, headers: seq<string>, rows: seq<Dashboard.Object>) returns (csv: string)
    ensures csv == CsvText(parse, headers, rows)
  {
    var lines := [Join(",", headers)];
    for i := 0 to |rows|
      invariant lines == [Join(",", headers)] + DataLines(parse, headers, rows[..i])
    {
      DataLinesStep(parse, headers, rows, i);
      lines := lines + [Line(parse, headers, rows[i])];
    }
    assert rows[..|rows|] == rows;
    csv := Join("\n", lines);
  }

  /** The data lines of one more row are those before it and its own line. */
  lemma DataLinesStep(parse: Json -> Option<Date>, headers: seq<string>, rows: seq<Dashboard.Object>, i: nat)
    requires i < |rows|
    ensures DataLines(parse, headers, rows[..i + 1]) == DataLines(parse, headers, rows[..i]) + [Line(parse, headers, rows[i])]
  {
    var a := DataLines(parse, headers, rows[..i + 1]);
    var b := DataLines(parse, headers, rows[..i]) + [Line(parse, headers, rows[i])];
    assert |a| == |b|;
    forall k | 0 <= k < |a| ensures a[k] == b[k] {
      assert rows[..i + 1][k] == rows[k];
    }
  }

  /**
   * `toCSV(rows)`: the export with the field names, then the rows' other
   * keys sorted, as its columns.
   */
  method ToCsv(parse: Json -> Option<Date>, rows: seq<Dashboard.Object>) returns (csv: string)
    ensures exists rest :: OtherColumns(rows, rest) && csv == CsvText(parse, FieldKeys + rest, rows)
  {
    var headers := HeaderColumns(rows);
    csv := WriteLines(parse, headers, rows);
    assert headers == FieldKeys + headers[|FieldKeys|..];
  }
}
