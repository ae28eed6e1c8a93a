/**
 * The column resolver of `src/lib/columns.ts`: headers are compared after
 * lower-casing them and deleting every character outside `[a-z0-9]`, and
 * when several headers match a field the LAST of them is kept.
 */
module Columns {
  import opened Wrappers
  import opened Text
  import opened Seqs
  import opened Records

  /** Canonical field name -> the header of the sheet that holds it. */
  type ColumnMap = map<string, string>

  /** `header.toLowerCase().replace(/[^a-z0-9]/g, '')` */
  function NormalizeHeader(h: string): (r: string)
    ensures |r| <= |h|
    ensures forall i :: 0 <= i < |r| ==> IsLowerAlnum(r[i])
  {
    var r := Filter(IsLowerAlnum, ToLower(h));
    assert forall i :: 0 <= i < |r| ==> r[i] in r;
    r
  }

  /** The accepted spellings of each canonical field (`columnVariations`). */
  function Variations(key: string): seq<string> {
    match key
    case "created_date" => ["created_date", "createddate", "created date", "date_created", "datecreated"]
    case "referring_doctor" => ["referring_doctor", "referringdoctor", "referring doctor", "doctor", "physician", "referring_physician"]
    case "referring_doctor_npi" => ["referring_doctor_npi", "referringdoctornpi", "referring doctor npi", "doctor_npi", "npi", "physician_npi"]
    case "facility" => ["facility", "location", "clinic", "center", "case facility", "casefacility"]
    case "primary_insurance" => ["primary_insurance", "primaryinsurance", "primary insurance", "insurance", "payer"]
    case "discipline" => ["discipline", "therapy_type", "therapytype", "treatment_type"]
    case "therapist" => ["therapist", "provider", "clinician", "treating_therapist", "case therapist", "casetherapist"]
    case "arrived_visits" => ["arrived_visits", "arrivedvisits", "arrived visits", "completed_visits", "visits_completed"]
    case "scheduled_visits" => ["scheduled_visits", "scheduledvisits", "scheduled visits", "total_visits", "visits_scheduled"]
    case "initial_eval_date" => ["initial_eval_date", "initialevaldate", "date of initial eval", "eval_date", "evaluation_date"]
    case "first_scheduled_date" => ["first_scheduled_date", "firstscheduleddate", "date of first scheduled visit", "first_visit_date"]
    case "first_arrived_date" => ["first_arrived_date", "firstarriveddate", "date of first arrived visit", "first_treatment_date"]
    case "discharge_date" => ["discharge_date", "dischargedate", "discharge date", "end_date", "completion_date"]
    case "case_status" => ["case_status", "casestatus", "case status", "status", "treatment_status"]
    case _ => []
  }

  /**
   * A synonym table: the canonical fields in declaration order and the
   * spellings accepted for each. The resolver is stated for any table;
   * `ColumnVariations` is the one the system uses.
   */
  datatype SynonymTable = SynonymTable(keys: seq<string>, spellings: string -> seq<string>) {
    /** The keys of an object are distinct. */
    predicate Valid() {
      Distinct(keys)
    }
  }

  /** `columnVariations`: the fourteen record fields and their spellings. */
  const ColumnVariations := SynonymTable(FieldKeys, Variations)

  /** `header` normalises to the same text as one of `variations`. */
  predicate MatchesAny(header: string, variations: seq<string>) {
    exists v :: v in variations && NormalizeHeader(header) == NormalizeHeader(v)
  }

  /** `header` normalises to the same text as some spelling of `key`. */
  predicate Matches(table: SynonymTable, header: string, key: string) {
    MatchesAny(header, table.spellings(key))
  }

  /** The position of the last header matching one of `variations`, or -1 when none does. */
  function LastMatch(headers: seq<string>, variations: seq<string>): (r: int)
    ensures -1 <= r < |headers|
    ensures r >= 0 ==> MatchesAny(headers[r], variations)
    ensures forall j :: r < j < |headers| ==> !MatchesAny(headers[j], variations)
  {
    if headers == [] then -1
    else if MatchesAny(headers[|headers| - 1], variations) then |headers| - 1
    else LastMatch(headers[..|headers| - 1], variations)
  }

  /** `headers[i]` matches `key` and no later header does. */
  predicate IsLastMatch(table: SynonymTable, headers: seq<string>, key: string, i: int) {
    && 0 <= i < |headers| && Matches(table, headers[i], key)
    && forall j :: i < j < |headers| ==> !Matches(table, headers[j], key)
  }

  /**
   * What `buildColumnMap(headers)` returns: a canonical field is bound iff
   * some header matches it, and then to the last header that does.
   */
  function ColumnMapOf(table: SynonymTable, headers: seq<string>): (m: ColumnMap)
    ensures forall k :: k in m <==> k in table.keys && exists i :: 0 <= i < |headers| && Matches(table, headers[i], k)
    ensures forall k :: k in m ==> exists i :: IsLastMatch(table, headers, k, i) && m[k] == headers[i]
  {
    var m := map k | k in table.keys && LastMatch(headers, table.spellings(k)) >= 0 :: headers[LastMatch(headers, table.spellings(k))];
    assert forall k :: k in m ==> IsLastMatch(table, headers, k, LastMatch(headers, table.spellings(k)));
    m
  }

  /** `m` binds `k` exactly as the last header of `headers` matching it says. */
  predicate BindsAsLastMatch(m: ColumnMap, table: SynonymTable, headers: seq<string>, k: string) {
    var i := LastMatch(headers, table.spellings(k));
    (k in m <==> i >= 0) && (k in m ==> i >= 0 && m[k] == headers[i])
  }

  lemma LastMatchStep(headers: seq<string>, i: nat, variations: seq<string>)
    requires i < |headers|
    ensures LastMatch(headers[..i + 1], variations) ==
              if MatchesAny(headers[i], variations) then i else LastMatch(headers[..i], variations)
  {
    assert headers[..i + 1][..i] == headers[..i];
  }

  lemma ColumnMapOfCharacterised(m: ColumnMap, table: SynonymTable, headers: seq<string>)
    requires forall k :: k in m ==> k in table.keys
    requires forall k :: k in table.keys ==> BindsAsLastMatch(m, table, headers, k)
    ensures m == ColumnMapOf(table, headers)
  {
  }

  /** Updating `key` for one more header keeps `key` bound as the last match says. */
  lemma BindStep(m: ColumnMap, table: SynonymTable, headers: seq<string>, i: nat, key: string, found: bool)
    requires i < |headers|
    requires BindsAsLastMatch(m, table, headers[..i], key)
    requires found == MatchesAny(headers[i], table.spellings(key))
    ensures BindsAsLastMatch(if found then m[key := headers[i]] else m, table, headers[..i + 1], key)
  {
    LastMatchStep(headers, i, table.spellings(key));
  }

  /** Updating `key` leaves every other field bound as before. */
  lemma BindOther(m: ColumnMap, table: SynonymTable, headers: seq<string>, key: string, v: string, k: string)
    requires k != key
    ensures BindsAsLastMatch(m[key := v], table, headers, k) == BindsAsLastMatch(m, table, headers, k)
  {
  }

  /**
   * The inner scan of `buildColumnMap`: whether some spelling normalises to
   * `normalized`, stopping at the first one that does.
   */
  method AnySpellingMatches(normalized: string, variations: seq<string>) returns (found: bool)
    ensures found <==> exists v :: v in variations && normalized == NormalizeHeader(v)
  {
    found := false;
    var j := 0;
    while j < |variations| && !found
      invariant 0 <= j <= |variations|
      invariant found <==> exists v :: v in variations[..j] && normalized == NormalizeHeader(v)
    {
      assert variations[..j + 1] == variations[..j] + [variations[j]];
      found := normalized == NormalizeHeader(variations[j]);
      j := j + 1;
    }
    assert !found ==> variations[..j] == variations;
  }

  /**
   * `buildColumnMap`: for every header in order, for every field, when one
   * of its spellings matches, bind the field to the header, overwriting any
   * earlier binding.
   */
  method BuildColumnMap(table: SynonymTable, headers: seq<string>) returns (m: ColumnMap)
    requires table.Valid()
    ensures m == ColumnMapOf(table, headers)
  {
    m := map[];
    for i := 0 to |headers|
      invariant forall k :: k in m ==> k in table.keys
      invariant forall k :: k in table.keys ==> BindsAsLastMatch(m, table, headers[..i], k)
    {
      m := BindHeader(table, headers, i, m);
    }
    assert headers[..|headers|] == headers;
    ColumnMapOfCharacterised(m, table, headers);
  }

  /**
   * Midway through the field loop for `headers[i]`: the first `t` fields are
   * bound as the headers up to `i` say, the others as the headers before it.
   */
  predicate FieldsBound(m: ColumnMap, table: SynonymTable, headers: seq<string>, i: nat, t: nat)
    requires i < |headers| && t <= |table.keys|
  {
    && (forall j :: 0 <= j < t ==> BindsAsLastMatch(m, table, headers[..i + 1], table.keys[j]))
    && (forall j :: t <= j < |table.keys| ==> BindsAsLastMatch(m, table, headers[..i], table.keys[j]))
  }

  /** Handling field `t` for `headers[i]` moves it from the second group to the first. */
  lemma BindFieldStep(m: ColumnMap, table: SynonymTable, headers: seq<string>, i: nat, t: nat, found: bool)
    requires table.Valid() && i < |headers| && t < |table.keys|
    requires FieldsBound(m, table, headers, i, t)
    requires found == MatchesAny(headers[i], table.spellings(table.keys[t]))
    ensures FieldsBound(if found then m[table.keys[t] := headers[i]] else m, table, headers, i, t + 1)
  {
    var key := table.keys[t];
    var m' := if found then m[key := headers[i]] else m;
    forall j | 0 <= j < t + 1
      ensures BindsAsLastMatch(m', table, headers[..i + 1], table.keys[j])
    {
      if j == t {
        BindStep(m, table, headers, i, key, found);
      } else if found {
        BindOther(m, table, headers[..i + 1], key, headers[i], table.keys[j]);
      }
    }
    forall j | t + 1 <= j < |table.keys|
      ensures BindsAsLastMatch(m', table, headers[..i], table.keys[j])
    {
      if found {
        BindOther(m, table, headers[..i], key, headers[i], table.keys[j]);
      }
    }
  }

  /** The field loop for `headers[i]`: afterwards every field is bound as the headers up to `i` say. */
  method BindHeader(table: SynonymTable, headers: seq<string>, i: nat, m0: ColumnMap) returns (m: ColumnMap)
    requires table.Valid() && i < |headers|
    requires forall k :: k in m0 ==> k in table.keys
    requires forall k :: k in table.keys ==> BindsAsLastMatch(m0, table, headers[..i], k)
    ensures forall k :: k in m ==> k in table.keys
    ensures forall k :: k in table.keys ==> BindsAsLastMatch(m, table, headers[..i + 1], k)
  {
    m := m0;
    var header := headers[i];
    var normalized := NormalizeHeader(header);
    for t := 0 to |table.keys|
      invariant forall k :: k in m ==> k in table.keys
      invariant FieldsBound(m, table, headers, i, t)
    {
      var found := AnySpellingMatches(normalized, table.spellings(table.keys[t]));
      BindFieldStep(m, table, headers, i, t, found);
      if found {
        m := m[table.keys[t] := header];
      }
    }
    forall k | k in table.keys
      ensures BindsAsLastMatch(m, table, headers[..i + 1], k)
    {
      var j :| 0 <= j < |table.keys| && table.keys[j] == k;
    }
  }

  // ----- the normal form -----

  /** A text made only of `[a-z0-9]` is its own normal form. */
  lemma {:induction false} NormalizeFixedPoint(s: string)
    requires forall i :: 0 <= i < |s| ==> IsLowerAlnum(s[i])
    ensures NormalizeHeader(s) == s
  {
    assert ToLower(s) == s;
    assert forall x :: x in s ==> IsLowerAlnum(x);
    FilterKeepsAll(IsLowerAlnum, s);
  }

  /** Normalising twice is normalising once. */
  lemma {:induction false} NormalizeIdempotent(h: string)
    ensures NormalizeHeader(NormalizeHeader(h)) == NormalizeHeader(h)
  {
    NormalizeFixedPoint(NormalizeHeader(h));
  }

  /** The normal form of a concatenation is the concatenation of the normal forms. */
  lemma {:induction false} NormalizeConcat(a: string, b: string)
    ensures NormalizeHeader(a + b) == NormalizeHeader(a) + NormalizeHeader(b)
  {
    assert ToLower(a + b) == ToLower(a) + ToLower(b);
    FilterConcat(IsLowerAlnum, ToLower(a), ToLower(b));
  }

  /** Case does not matter: upper- and lower-casing keep the normal form. */
  lemma {:induction false} NormalizeIgnoresCase(h: string)
    ensures NormalizeHeader(ToUpper(h)) == NormalizeHeader(h)
    ensures NormalizeHeader(ToLower(h)) == NormalizeHeader(h)
  {
    assert ToLower(ToUpper(h)) == ToLower(h);
    assert ToLower(ToLower(h)) == ToLower(h);
  }

  /** The normal form of a single character. */
  lemma NormalizeChar(c: char)
    ensures NormalizeHeader([c]) == if IsLowerAlnum(LowerChar(c)) then [LowerChar(c)] else []
  {
    var l := ToLower([c]);
    assert l == [LowerChar(c)];
    assert l[1..] == [];
  }

  /** A space, underscore or punctuation character anywhere is dropped. */
  lemma {:induction false} NormalizeIgnoresSeparator(a: string, c: char, b: string)
    requires !IsLowerAlnum(LowerChar(c))
    ensures NormalizeHeader(a + [c] + b) == NormalizeHeader(a + b)
  {
    NormalizeConcat(a + [c], b);
    NormalizeConcat(a, [c]);
    NormalizeConcat(a, b);
    NormalizeChar(c);
    assert NormalizeHeader(a) + [] == NormalizeHeader(a);
  }

  /** A spelling that ends in a lower-case letter has a non-empty normal form. */
  lemma {:induction false} NormalFormNonEmpty(v: string)
    requires EndsLower(v)
    ensures NormalizeHeader(v) != ""
  {
    assert ToLower(v)[|v| - 1] in ToLower(v);
  }

  // ----- bindings -----

  /** Headers with the same normal forms, position by position, match alike. */
  lemma {:induction false} LastMatchRespectsNormalForm(headers: seq<string>, others: seq<string>, variations: seq<string>)
    requires |headers| == |others|
    requires forall i :: 0 <= i < |headers| ==> NormalizeHeader(headers[i]) == NormalizeHeader(others[i])
    ensures LastMatch(headers, variations) == LastMatch(others, variations)
  {
    if headers != [] {
      var n := |headers| - 1;
      assert MatchesAny(headers[n], variations) == MatchesAny(others[n], variations);
      LastMatchRespectsNormalForm(headers[..n], others[..n], variations);
    }
  }

  /**
   * Renaming headers without changing their normal forms (case, spaces,
   * underscores, punctuation) binds the same fields, each at the same position.
   */
  lemma SameNormalFormSameBindings(table: SynonymTable, headers: seq<string>, others: seq<string>)
    requires |headers| == |others|
    requires forall i :: 0 <= i < |headers| ==> NormalizeHeader(headers[i]) == NormalizeHeader(others[i])
    ensures ColumnMapOf(table, headers).Keys == ColumnMapOf(table, others).Keys
    ensures forall k :: k in ColumnMapOf(table, headers) ==>
              exists i :: 0 <= i < |headers| && ColumnMapOf(table, headers)[k] == headers[i] && ColumnMapOf(table, others)[k] == others[i]
  {
    forall k | k in table.keys {
      LastMatchRespectsNormalForm(headers, others, table.spellings(k));
    }
  }

  /** A header whose lower-case form is already `[a-z0-9]` only normalises to that form. */
  lemma SpelledInCase(h: string, l: string)
    requires ToLower(h) == l
    requires forall i :: 0 <= i < |l| ==> IsLowerAlnum(l[i])
    ensures NormalizeHeader(h) == l
  {
    NormalizeIgnoresCase(h);
    NormalizeFixedPoint(l);
  }

  /** When the last header matches `k`, `k` is bound to it. */
  lemma LastHeaderBinds(table: SynonymTable, headers: seq<string>, k: string)
    requires k in table.keys && |headers| > 0
    requires Matches(table, headers[|headers| - 1], k)
    ensures k in ColumnMapOf(table, headers)
    ensures ColumnMapOf(table, headers)[k] == headers[|headers| - 1]
  {
  }

  /** A header with the normal form of one of `k`'s spellings matches `k`. */
  lemma MatchesBySpelling(table: SynonymTable, h: string, k: string, v: string)
    requires v in table.spellings(k)
    requires NormalizeHeader(h) == NormalizeHeader(v)
    ensures Matches(table, h, k)
  {
  }

  /** "casefacility", "facility" and "location" are spellings of `facility`. */
  lemma FacilitySpellings()
    ensures "casefacility" in ColumnVariations.spellings("facility")
    ensures "facility" in ColumnVariations.spellings("facility")
    ensures "location" in ColumnVariations.spellings("facility")
  {
  }

  /** Any header normalising to "casefacility" ("Case Facility", "CASEFACILITY", "case_facility", ...), alone in a sheet, binds `facility`. */
  lemma CaseFacilityBindsFacility(h: string)
    requires NormalizeHeader(h) == "casefacility"
    ensures "facility" in ColumnMapOf(ColumnVariations, [h])
    ensures ColumnMapOf(ColumnVariations, [h])["facility"] == h
  {
    FacilitySpellings();
    CaseFacilitySpellingNormalForm();
    MatchesBySpelling(ColumnVariations, h, "facility", "casefacility");
    LastHeaderBinds(ColumnVariations, [h], "facility");
  }

  lemma CaseFacilitySpellingNormalForm()
    ensures NormalizeHeader("casefacility") == "casefacility"
  {
    SpelledInCase("casefacility", "casefacility");
  }

  lemma FacilityNormalForm()
    ensures NormalizeHeader("Facility") == "facility"
  {
    SpelledInCase("Facility", "facility");
  }

  lemma FacilitySpellingNormalForm()
    ensures NormalizeHeader("facility") == "facility"
  {
    NormalizeFixedPoint("facility");
  }

  lemma LocationNormalForm()
    ensures NormalizeHeader("Location") == "location"
  {
    SpelledInCase("Location", "location");
  }

  lemma LocationSpellingNormalForm()
    ensures NormalizeHeader("location") == "location"
  {
    NormalizeFixedPoint("location");
  }

  /** "Facility" and "Location" both spell `facility`. */
  lemma FacilityAndLocationMatch()
    ensures Matches(ColumnVariations, "Facility", "facility")
    ensures Matches(ColumnVariations, "Location", "facility")
  {
    FacilitySpellings();
    FacilityNormalForm();
    LocationNormalForm();
    FacilitySpellingNormalForm();
    LocationSpellingNormalForm();
    MatchesBySpelling(ColumnVariations, "Facility", "facility", "facility");
    MatchesBySpelling(ColumnVariations, "Location", "facility", "location");
  }

  /** With "Facility" and then "Location", both spellings of `facility`, the later header wins. */
  lemma LaterHeaderWins()
    ensures "facility" in ColumnMapOf(ColumnVariations, ["Facility", "Location"])
    ensures ColumnMapOf(ColumnVariations, ["Facility", "Location"])["facility"] == "Location"
  {
    FacilityAndLocationMatch();
    LastHeaderBinds(ColumnVariations, ["Facility", "Location"], "facility");
  }

  /** Every spelling of every field has a non-empty normal form. */
  predicate SpellingsNonEmpty(table: SynonymTable) {
    forall k, v :: k in table.keys && v in table.spellings(k) ==> NormalizeHeader(v) != ""
  }

  predicate EndsLower(v: string) {
    |v| > 0 && IsLowerLetter(v[|v| - 1])
  }

  /** Every spelling in `columnVariations` ends in a lower-case letter. */
  lemma SpellingsEndLower(k: string)
    ensures forall v :: v in Variations(k) ==> EndsLower(v)
  {
    Group0SpellingsEndLower(k);
    Group1SpellingsEndLower(k);
    Group2SpellingsEndLower(k);
    Group3SpellingsEndLower(k);
  }

  /**
   * Which quarter of the table a field lies in, cased in the table's own
   * order so that each quarter's spellings are checked on their own.
   */
  function FieldGroup(k: string): nat {
    match k
    case "created_date" => 0
    case "referring_doctor" => 0
    case "referring_doctor_npi" => 0
    case "facility" => 0
    case "primary_insurance" => 1
    case "discipline" => 1
    case "therapist" => 1
    case "arrived_visits" => 2
    case "scheduled_visits" => 2
    case "initial_eval_date" => 2
    case "first_scheduled_date" => 2
    case "first_arrived_date" => 3
    case "discharge_date" => 3
    case "case_status" => 3
    case _ => 4
  }

  lemma Group0SpellingsEndLower(k: string)
    ensures FieldGroup(k) == 0 ==> forall v :: v in Variations(k) ==> EndsLower(v)
  {
    match k
    case "created_date" => assert forall v :: v in Variations("created_date") ==> EndsLower(v);
    case "referring_doctor" => assert forall v :: v in Variations("referring_doctor") ==> EndsLower(v);
    case "referring_doctor_npi" => assert forall v :: v in Variations("referring_doctor_npi") ==> EndsLower(v);
    case "facility" => assert forall v :: v in Variations("facility") ==> EndsLower(v);
    case _ =>
  }

  lemma Group1SpellingsEndLower(k: string)
    ensures FieldGroup(k) == 1 ==> forall v :: v in Variations(k) ==> EndsLower(v)
  {
    match k
    case "created_date" | "referring_doctor" | "referring_doctor_npi" | "facility" =>
    case "primary_insurance" => assert forall v :: v in Variations("primary_insurance") ==> EndsLower(v);
    case "discipline" => assert forall v :: v in Variations("discipline") ==> EndsLower(v);
    case "therapist" => assert forall v :: v in Variations("therapist") ==> EndsLower(v);
    case _ =>
  }

  lemma Group2SpellingsEndLower(k: string)
    ensures FieldGroup(k) == 2 ==> forall v :: v in Variations(k) ==> EndsLower(v)
  {
    match k
    case "created_date" | "referring_doctor" | "referring_doctor_npi" | "facility" | "primary_insurance" | "discipline" | "therapist" =>
    case "arrived_visits" => assert forall v :: v in Variations("arrived_visits") ==> EndsLower(v);
    case "scheduled_visits" => assert forall v :: v in Variations("scheduled_visits") ==> EndsLower(v);
    case "initial_eval_date" => assert forall v :: v in Variations("initial_eval_date") ==> EndsLower(v);
    case "first_scheduled_date" => assert forall v :: v in Variations("first_scheduled_date") ==> EndsLower(v);
    case _ =>
  }

  lemma Group3SpellingsEndLower(k: string)
    ensures FieldGroup(k) == 3 ==> forall v :: v in Variations(k) ==> EndsLower(v)
  {
    match k
    case "created_date" | "referring_doctor" | "referring_doctor_npi" | "facility" | "primary_insurance" | "discipline" | "therapist" | "arrived_visits" | "scheduled_visits" | "initial_eval_date" | "first_scheduled_date" =>
    case "first_arrived_date" => assert forall v :: v in Variations("first_arrived_date") ==> EndsLower(v);
    case "discharge_date" => assert forall v :: v in Variations("discharge_date") ==> EndsLower(v);
    case "case_status" => assert forall v :: v in Variations("case_status") ==> EndsLower(v);
    case _ =>
  }

  /** `columnVariations` has distinct keys and no spelling that normalises to "". */
  lemma ColumnVariationsWellFormed()
    ensures ColumnVariations.Valid()
    ensures SpellingsNonEmpty(ColumnVariations)
  {
    forall k, v | k in FieldKeys && v in Variations(k) ensures NormalizeHeader(v) != "" {
      SpellingsEndLower(k);
      NormalFormNonEmpty(v);
    }
  }

  /**
   * When no spelling normalises to "", a header that does (an empty header,
   * or one of punctuation only) is never bound.
   */
  lemma BoundHeadersHaveNormalForm(table: SynonymTable, headers: seq<string>)
    requires SpellingsNonEmpty(table)
    ensures forall k :: k in ColumnMapOf(table, headers) ==> NormalizeHeader(ColumnMapOf(table, headers)[k]) != ""
  {
  }

  // ----- getAvailableColumns, validateRequiredColumns -----

  /** The keys of `buildColumnMap(headers)`: the fields some header matches. */
  function AvailableColumns(table: SynonymTable, headers: seq<string>): (r: set<string>)
    ensures forall k :: k in r <==> k in table.keys && exists i :: 0 <= i < |headers| && Matches(table, headers[i], k)
  {
    ColumnMapOf(table, headers).Keys
  }

  const RequiredColumns: seq<string> := ["created_date", "referring_doctor"]

  datatype Validation = Validation(isValid: bool, missing: seq<string>)

  /**
   * `validateRequiredColumns`: the required fields whose binding is falsy
   * (absent, or bound to ""), in their listed order; valid iff there is none.
   */
  function ValidateRequiredColumns(table: SynonymTable, headers: seq<string>): (v: Validation)
    ensures IsSubsequence(v.missing, RequiredColumns)
    ensures forall col :: col in v.missing <==>
              col in RequiredColumns && (col !in ColumnMapOf(table, headers) || ColumnMapOf(table, headers)[col] == "")
    ensures v.isValid <==> v.missing == []
  {
    var m := ColumnMapOf(table, headers);
    var missing := Filter(col => !(col in m && m[col] != ""), RequiredColumns);
    FilterIsSubsequence(col => !(col in m && m[col] != ""), RequiredColumns);
    Validation(|missing| == 0, missing)
  }

  /** With `columnVariations`, a required field is missing exactly when it is unbound. */
  lemma MissingMeansUnbound(headers: seq<string>)
    ensures forall col :: col in ValidateRequiredColumns(ColumnVariations, headers).missing <==>
              col in RequiredColumns && col !in ColumnMapOf(ColumnVariations, headers)
  {
    ColumnVariationsWellFormed();
    BoundHeadersHaveNormalForm(ColumnVariations, headers);
    assert NormalizeHeader("") == "";
  }
}
