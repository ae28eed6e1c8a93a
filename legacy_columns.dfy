/**
 * The older column resolver that `src/app/column_mapping.js` writes out as
 * `src/lib/columns.ts`: headers are trimmed and compared, ignoring case,
 * with a list of candidate spellings per field, and when several headers
 * match a field the FIRST of them is kept.
 */
module LegacyColumns {
  import opened Text
  import opened Records

  /** `COLUMN_CANDIDATES`: the spellings accepted for each canonical field. */
  function Candidates(key: string): seq<string> {
    match key
    case "created_date" => ["Created Date", "created_date", "created", "Case Created", "Date Created", "createddate"]
    case "referring_doctor" => ["Referring Doctor", "referring_doctor", "Doctor", "Physician", "Referrer"]
    case "referring_doctor_npi" => ["Referring Doctor NPI", "referring_doctor_npi", "NPI"]
    case "facility" => ["Case Facility", "Facility", "Location", "clinic", "facility"]
    case "primary_insurance" => ["Primary Insurance", "primary_insurance", "Insurance", "Plan", "Payer"]
    case "discipline" => ["Discipline", "discipline", "Dept", "Department"]
    case "therapist" => ["Case Therapist", "Therapist", "Provider"]
    case "arrived_visits" => ["Arrived Visits", "arrived_visits"]
    case "scheduled_visits" => ["Scheduled Visits", "scheduled_visits"]
    case "initial_eval_date" => ["Date of Initial Eval", "Initial Eval", "IE Date"]
    case "first_scheduled_date" => ["Date of First Scheduled Visit"]
    case "first_arrived_date" => ["Date of First Arrived Visit"]
    case "discharge_date" => ["Discharge Date"]
    case "case_status" => ["Case Status"]
    case _ => []
  }

  /** A candidate table: the canonical fields in declaration order and the spellings of each. */
  datatype CandidateTable = CandidateTable(keys: seq<string>, candidates: string -> seq<string>)

  const ColumnCandidates := CandidateTable(FieldKeys, Candidates)

  /** `headers.map(h => String(h || '').trim())` */
  function TrimAll(headers: seq<string>): (r: seq<string>)
    ensures |r| == |headers| && forall i :: 0 <= i < |r| ==> r[i] == Trim(headers[i])
  {
    seq(|headers|, i requires 0 <= i < |headers| => Trim(headers[i]))
  }

  /** `cands.some(c => h.toLowerCase() === c.toLowerCase())` */
  predicate IsCandidate(h: string, cands: seq<string>) {
    exists c :: c in cands && ToLower(h) == ToLower(c)
  }

  /** `lower.findIndex(h => IsCandidate(h, cands))`: the first position satisfying it, or -1. */
  function FindIndex(lower: seq<string>, cands: seq<string>): (r: int)
    ensures -1 <= r < |lower|
    ensures r >= 0 ==> IsCandidate(lower[r], cands)
    ensures forall j :: 0 <= j < |lower| && (r == -1 || j < r) ==> !IsCandidate(lower[j], cands)
  {
    if lower == [] then -1
    else if IsCandidate(lower[0], cands) then 0
    else
      var r := FindIndex(lower[1..], cands);
      if r == -1 then -1 else r + 1
  }

  /** Header `h`, once trimmed, equals a spelling of `key` up to case. */
  predicate HeaderMatches(table: CandidateTable, h: string, key: string) {
    IsCandidate(Trim(h), table.candidates(key))
  }

  /** `headers[i]` matches `key` and no earlier header does. */
  predicate IsFirstMatch(table: CandidateTable, headers: seq<string>, key: string, i: int) {
    && 0 <= i < |headers| && HeaderMatches(table, headers[i], key)
    && forall j :: 0 <= j < i ==> !HeaderMatches(table, headers[j], key)
  }

  /**
   * What the older `buildColumnMap(headers)` returns: a field is bound iff
   * some header matches it, and then to the first such header as given
   * (untrimmed).
   */
  function LegacyColumnMapOf(table: CandidateTable, headers: seq<string>): (m: map<string, string>)
    ensures forall k :: k in m <==> k in table.keys && exists i :: 0 <= i < |headers| && HeaderMatches(table, headers[i], k)
    ensures forall k :: k in m ==> exists i :: IsFirstMatch(table, headers, k, i) && m[k] == headers[i]
  {
    var lower := TrimAll(headers);
    FirstMatchesFound(table, headers);
    map k | k in table.keys && FindIndex(lower, table.candidates(k)) >= 0 :: headers[FindIndex(lower, table.candidates(k))]
  }

  /** The index `findIndex` gives each field is its first matching header, or -1 when none matches. */
  lemma FirstMatchesFound(table: CandidateTable, headers: seq<string>)
    ensures forall k :: FindIndex(TrimAll(headers), table.candidates(k)) >= 0 ==>
              IsFirstMatch(table, headers, k, FindIndex(TrimAll(headers), table.candidates(k)))
    ensures forall k :: FindIndex(TrimAll(headers), table.candidates(k)) < 0 ==>
              forall j :: 0 <= j < |headers| ==> !HeaderMatches(table, headers[j], k)
  {
    var lower := TrimAll(headers);
    forall k | FindIndex(lower, table.candidates(k)) >= 0
      ensures IsFirstMatch(table, headers, k, FindIndex(lower, table.candidates(k)))
    {
      var i := FindIndex(lower, table.candidates(k));
      assert lower[i] == Trim(headers[i]);
      forall j | 0 <= j < i ensures !HeaderMatches(table, headers[j], k) {
        assert lower[j] == Trim(headers[j]);
      }
    }
    forall k, j | FindIndex(lower, table.candidates(k)) < 0 && 0 <= j < |headers|
      ensures !HeaderMatches(table, headers[j], k)
    {
      assert lower[j] == Trim(headers[j]);
    }
  }

  /** A trimmed header matches a field iff it equals one of its candidates, ignoring case. */
  lemma MatchesTrimmed(table: CandidateTable, h: string, key: string)
    requires IsTrimmed(h)
    ensures HeaderMatches(table, h, key) <==> IsCandidate(h, table.candidates(key))
  {
    TrimOfTrimmed(h);
  }

  /** A field the first header matches is bound to that header. */
  lemma FirstHeaderBinds(table: CandidateTable, headers: seq<string>, k: string)
    requires k in table.keys && |headers| > 0 && HeaderMatches(table, headers[0], k)
    ensures k in LegacyColumnMapOf(table, headers)
    ensures LegacyColumnMapOf(table, headers)[k] == headers[0]
  {
    var m := LegacyColumnMapOf(table, headers);
    var i :| IsFirstMatch(table, headers, k, i) && m[k] == headers[i];
    assert i == 0;
  }

  /** `m` binds `k` exactly as the first header of `lower` matching it says. */
  predicate BindsAsFirstMatch(m: map<string, string>, table: CandidateTable, headers: seq<string>, lower: seq<string>, k: string)
    requires |lower| == |headers|
  {
    var i := FindIndex(lower, table.candidates(k));
    (k in m <==> i >= 0) && (k in m ==> i >= 0 && m[k] == headers[i])
  }

  lemma LegacyColumnMapOfCharacterised(m: map<string, string>, table: CandidateTable, headers: seq<string>)
    requires forall k :: k in m ==> k in table.keys
    requires forall k :: k in table.keys ==> BindsAsFirstMatch(m, table, headers, TrimAll(headers), k)
    ensures m == LegacyColumnMapOf(table, headers)
  {
  }

  /**
   * The older `buildColumnMap`: trim every header, then for each field in
   * turn look up the first header that matches and bind the field to it.
   */
  method BuildColumnMap(table: CandidateTable, headers: seq<string>) returns (m: map<string, string>)
    ensures m == LegacyColumnMapOf(table, headers)
  {
    var lower := TrimAll(headers);
    m := BindFirstMatches(table, headers, lower);
    LegacyColumnMapOfCharacterised(m, table, headers);
  }

  /** The loop over the fields of `table`, given the trimmed headers `lower`. */
  method BindFirstMatches(table: CandidateTable, headers: seq<string>, lower: seq<string>) returns (m: map<string, string>)
    requires |lower| == |headers|
    ensures forall k :: k in m ==> k in table.keys
    ensures forall k :: k in table.keys ==> BindsAsFirstMatch(m, table, headers, lower, k)
  {
    m := map[];
    for t := 0 to |table.keys|
      invariant forall k :: k in m ==> k in table.keys[..t]
      invariant forall k :: k in table.keys[..t] ==> BindsAsFirstMatch(m, table, headers, lower, k)
    {
      var key := table.keys[t];
      var idx := FindIndex(lower, table.candidates(key));
      if idx != -1 {
        m := m[key := headers[idx]];
      }
      assert table.keys[..t + 1] == table.keys[..t] + [key];
    }
    assert table.keys[..|table.keys|] == table.keys;
  }

  // ----- what the match ignores, and what it does not -----

  /** Headers equal up to case match the same fields. */
  lemma MatchIgnoresCase(table: CandidateTable, h1: string, h2: string, key: string)
    requires ToUpper(h1) == ToUpper(h2)
    ensures HeaderMatches(table, h1, key) == HeaderMatches(table, h2, key)
  {
    TrimToUpper(h1);
    TrimToUpper(h2);
    LowerOfUpper(Trim(h1));
    LowerOfUpper(Trim(h2));
  }

  lemma LowerOfUpper(s: string)
    ensures ToLower(ToUpper(s)) == ToLower(s)
  {
  }

  /** White space around a header does not change which fields it matches. */
  lemma MatchIgnoresPadding(table: CandidateTable, a: string, h: string, b: string, key: string)
    requires AllWhitespace(a) && AllWhitespace(b)
    ensures HeaderMatches(table, a + h + b, key) == HeaderMatches(table, h, key)
  {
    TrimIgnoresPadding(a, h, b);
  }

  /** A padded header is stored as given, padding included, not in its trimmed form. */
  lemma PaddedHeaderStoredAsGiven(table: CandidateTable, a: string, h: string, b: string, key: string)
    requires AllWhitespace(a) && AllWhitespace(b)
    requires key in table.keys && HeaderMatches(table, h, key)
    ensures key in LegacyColumnMapOf(table, [a + h + b])
    ensures LegacyColumnMapOf(table, [a + h + b])[key] == a + h + b
  {
    MatchIgnoresPadding(table, a, h, b, key);
  }

  /**
   * Each field is resolved on its own: a field's binding is the one a table
   * holding that field alone would give, so one header may serve several
   * fields.
   */
  lemma FieldsResolvedIndependently(table: CandidateTable, headers: seq<string>, k: string)
    requires k in table.keys
    ensures var single := LegacyColumnMapOf(CandidateTable([k], table.candidates), headers);
            var m := LegacyColumnMapOf(table, headers);
            (k in m <==> k in single) && (k in m ==> m[k] == single[k])
  {
  }

  predicate NonEmptySpellings(cands: seq<string>) {
    forall c :: c in cands ==> |c| > 0
  }

  /** No spelling in `COLUMN_CANDIDATES` is empty. */
  lemma CandidatesNonEmpty(k: string)
    ensures NonEmptySpellings(Candidates(k))
  {
    match k
    case "created_date" => assert NonEmptySpellings(Candidates("created_date"));
    case "referring_doctor" => assert NonEmptySpellings(Candidates("referring_doctor"));
    case "referring_doctor_npi" => assert NonEmptySpellings(Candidates("referring_doctor_npi"));
    case "facility" => assert NonEmptySpellings(Candidates("facility"));
    case "primary_insurance" => assert NonEmptySpellings(Candidates("primary_insurance"));
    case "discipline" => assert NonEmptySpellings(Candidates("discipline"));
    case "therapist" => assert NonEmptySpellings(Candidates("therapist"));
    case "arrived_visits" => assert NonEmptySpellings(Candidates("arrived_visits"));
    case "scheduled_visits" => assert NonEmptySpellings(Candidates("scheduled_visits"));
    case "initial_eval_date" => assert NonEmptySpellings(Candidates("initial_eval_date"));
    case "first_scheduled_date" => assert NonEmptySpellings(Candidates("first_scheduled_date"));
    case "first_arrived_date" => assert NonEmptySpellings(Candidates("first_arrived_date"));
    case "discharge_date" => assert NonEmptySpellings(Candidates("discharge_date"));
    case "case_status" => assert NonEmptySpellings(Candidates("case_status"));
    case _ =>
  }

  /** An empty or all-white-space header (a missing header reads as "") matches no field. */
  lemma BlankHeaderMatchesNothing(h: string, key: string)
    requires AllWhitespace(h)
    ensures !HeaderMatches(ColumnCandidates, h, key)
  {
    TrimSurrounded(h, [], []);
    assert h + [] + [] == h;
    CandidatesNonEmpty(key);
  }

  // ----- the two resolvers break ties differently -----

  lemma FacilityCandidates()
    ensures "Facility" in ColumnCandidates.candidates("facility")
    ensures "Location" in ColumnCandidates.candidates("facility")
  {
  }

  /** "Facility" matches `facility` in the older table. */
  lemma FacilityMatchesLegacy()
    ensures HeaderMatches(ColumnCandidates, "Facility", "facility")
  {
    FacilityCandidates();
    MatchesTrimmed(ColumnCandidates, "Facility", "facility");
  }

  /**
   * With "Facility" and then "Location", both spellings of `facility`, the
   * older resolver keeps the first header (the current one keeps "Location",
   * `Columns.LaterHeaderWins`).
   */
  lemma EarlierHeaderWins()
    ensures "facility" in LegacyColumnMapOf(ColumnCandidates, ["Facility", "Location"])
    ensures LegacyColumnMapOf(ColumnCandidates, ["Facility", "Location"])["facility"] == "Facility"
  {
    FacilityMatchesLegacy();
    FirstHeaderBinds(ColumnCandidates, ["Facility", "Location"], "facility");
  }

  /**
   * Only case and surrounding white space are ignored: "Date_Created" is not
   * "Date Created", so it does not match `created_date`.
   */
  lemma SeparatorsMatter()
    ensures !HeaderMatches(ColumnCandidates, "Date_Created", "created_date")
  {
    var h := "Date_Created";
    MatchesTrimmed(ColumnCandidates, h, "created_date");
    forall c | c in Candidates("created_date") ensures ToLower(h) != ToLower(c) {
      if |c| == |h| {
        assert ToLower(h)[4] == '_' != ToLower(c)[4];
      }
    }
  }
}
