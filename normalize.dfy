/**
 * `normalizeWorkbook` (`src/app/Normalizer.ts`, which writes out
 * `src/lib/normalize.ts`): every row of the first sheet is read through the
 * column map into a `Row`, coercing text, count and date fields, and the
 * rows without a creation date or a referring doctor are dropped.
 *
 * Decoding the workbook is the spreadsheet library's business: the model
 * starts from the rows it yields. Reading a cell as a date (`new Date(d)`)
 * and a text as a number (`Number(s)`) are host behaviour and are given as
 * parameters.
 */
module Normalize {
  import opened Wrappers
  import opened Text
  import opened Seqs
  import opened Records
  import opened Dates
  import Columns
  import LegacyColumns

  /** A cell as the spreadsheet library yields it, or `undefined` where there is none. */
  datatype Value = Undefined | Null | Text(s: string) | Number(n: int) | Bool(b: bool)

  /** JavaScript falsiness: `undefined`, `null`, `""`, `0` and `false`. */
  predicate Falsy(v: Value) {
    match v
    case Undefined => true
    case Null => true
    case Text(s) => s == ""
    case Number(n) => n == 0
    case Bool(b) => !b
  }

  /** One row of the sheet: header and cell, in the order of the sheet's columns. */
  type RawRow = seq<(string, Value)>

  /** `Object.keys(row)` */
  function KeysOf(row: RawRow): (r: seq<string>)
    ensures |r| == |row| && forall i :: 0 <= i < |r| ==> r[i] == row[i].0
  {
    seq(|row|, i requires 0 <= i < |row| => row[i].0)
  }

  /** `row[header]`: the cell under `header`, or `undefined` when the row has none. */
  function Lookup(row: RawRow, header: string): (v: Value)
    ensures v == Undefined || exists i :: 0 <= i < |row| && row[i] == (header, v)
    ensures (forall i :: 0 <= i < |row| ==> row[i].0 != header) ==> v == Undefined
    ensures (exists i :: 0 <= i < |row| && row[i].0 == header) ==>
              exists i :: 0 <= i < |row| && row[i] == (header, v) && forall j :: 0 <= j < i ==> row[j].0 != header
  {
    if row == [] then Undefined
    else if row[0].0 == header then row[0].1
    else Lookup(row[1..], header)
  }

  /** The host's readings of a cell as a date and of a text as a number (`None` is an invalid date or `NaN`). */
  datatype Parsers = Parsers(parseDate: Value -> Option<Date>, parseNumber: string -> Option<int>)

  /**
   * `toISO(d)`: nothing for a falsy cell or one that is not a date, and
   * otherwise the date's fields as `yyyy-mm-dd`, which read back to those
   * same fields; the year is written without padding.
   */
  function ToISO(p: Parsers, v: Value): (r: Option<string>)
    ensures Falsy(v) ==> r == None
    ensures r.Some? <==> !Falsy(v) && p.parseDate(v).Some?
    ensures r.Some? ==> r.value != "" && DecodeISO(r.value) == Some(p.parseDate(v).value)
    ensures r.Some? ==> CanonicalISO(r.value)
  {
    if Falsy(v) then None
    else match p.parseDate(v)
      case None => None
      case Some(d) =>
        FormatRoundTrip(d);
        FormatCanonical(d);
        Some(FormatISO(d))
  }

  /** `a || b` on values that are a string or `null`. */
  function OrElse(a: Option<string>, b: Option<string>): Option<string> {
    if a.Some? && a.value != "" then a else b
  }

  /** `String(v ?? '')` */
  function CellString(v: Value): string {
    match v
    case Undefined => ""
    case Null => ""
    case Text(s) => s
    case Number(n) => IntToDecimal(n)
    case Bool(b) => if b then "true" else "false"
  }

  /**
   * `String(v ?? '').trim() || null`: nothing for a missing or blank cell,
   * otherwise the cell's text with only the white space at its ends removed.
   */
  function StringField(v: Value): (r: Option<string>)
    ensures (v.Undefined? || v.Null?) ==> r == None
    ensures r.None? || (r.value != "" && IsTrimmed(r.value))
    ensures r.Some? ==> exists i :: 0 <= i <= |CellString(v)| && CutAt(CellString(v), r.value, i)
    ensures r.None? ==> AllWhitespace(CellString(v))
  {
    assert (v.Undefined? || v.Null?) ==> CellString(v) == [];
    TrimmedOrNull(CellString(v))
  }

  /** `s.trim() || null` */
  function TrimmedOrNull(s: string): (r: Option<string>)
    ensures s == [] ==> r == None
    ensures r.None? || (r.value != "" && IsTrimmed(r.value))
    ensures r.Some? ==> exists i :: 0 <= i <= |s| && CutAt(s, r.value, i)
    ensures r.None? ==> AllWhitespace(s)
  {
    TrimToNothing(s);
    OrElse(Some(Trim(s)), None)
  }

  /** Coercing a coerced text field again changes nothing. */
  lemma StringFieldStable(v: Value)
    ensures StringField(v).Some? ==> StringField(Text(StringField(v).value)) == StringField(v)
  {
    if StringField(v).Some? {
      TrimmedOrNullFixed(StringField(v).value);
    }
  }

  /** A non-empty trimmed text is its own field value. */
  lemma TrimmedOrNullFixed(t: string)
    requires t != [] && IsTrimmed(t)
    ensures StringField(Text(t)) == Some(t)
  {
    TrimOfTrimmed(t);
    assert TrimmedOrNull(t) == Some(t);
  }

  /**
   * `Number(v ?? 0) || 0`: zero for a missing cell and for anything that
   * reads as zero or `NaN`; a number cell passes through unchanged, negative
   * numbers included.
   */
  function CountField(p: Parsers, v: Value): (n: int)
    ensures (v.Undefined? || v.Null?) ==> n == 0
    ensures v.Number? ==> n == v.n
    ensures v.Bool? ==> n == if v.b then 1 else 0
    ensures v.Text? ==> n == p.parseNumber(v.s).GetOr(0)
  {
    var x: Option<int> :=
      match v
      case Undefined => Some(0)
      case Null => Some(0)
      case Text(s) => p.parseNumber(s)
      case Number(k) => Some(k)
      case Bool(b) => Some(if b then 1 else 0);
    if x.Some? && x.value != 0 then x.value else 0
  }

  /** `pick(row, key)`: the cell under the header bound to `key`, or `undefined` when the binding is missing or empty. */
  function Pick(columns: map<string, string>, row: RawRow, key: string): (v: Value)
    ensures key !in columns || columns[key] == "" ==> v == Undefined
    ensures key in columns && columns[key] != "" ==> v == Lookup(row, columns[key])
  {
    if key in columns && columns[key] != "" then Lookup(row, columns[key]) else Undefined
  }

  /**
   * The record built for one raw row (the object literal in `rows.map`):
   * every text field is clean, and the row has a creation date iff its
   * creation or its initial-evaluation cell gives one.
   */
  function MapRow(p: Parsers, columns: map<string, string>, row: RawRow): (r: Row)
    ensures TextFieldsClean(r)
    ensures r.createdDate.Some? <==>
              ToISO(p, Pick(columns, row, "created_date")).Some? || ToISO(p, Pick(columns, row, "initial_eval_date")).Some?
  {
    Row(
      createdDate := OrElse(OrElse(ToISO(p, Pick(columns, row, "created_date")), ToISO(p, Pick(columns, row, "initial_eval_date"))), None),
      referringDoctor := StringField(Pick(columns, row, "referring_doctor")),
      referringDoctorNpi := StringField(Pick(columns, row, "referring_doctor_npi")),
      facility := StringField(Pick(columns, row, "facility")),
      primaryInsurance := StringField(Pick(columns, row, "primary_insurance")),
      discipline := StringField(Pick(columns, row, "discipline")),
      therapist := StringField(Pick(columns, row, "therapist")),
      arrivedVisits := CountField(p, Pick(columns, row, "arrived_visits")),
      scheduledVisits := CountField(p, Pick(columns, row, "scheduled_visits")),
      initialEvalDate := OrElse(ToISO(p, Pick(columns, row, "initial_eval_date")), None),
      firstScheduledDate := OrElse(ToISO(p, Pick(columns, row, "first_scheduled_date")), None),
      firstArrivedDate := OrElse(ToISO(p, Pick(columns, row, "first_arrived_date")), None),
      dischargeDate := OrElse(ToISO(p, Pick(columns, row, "discharge_date")), None),
      caseStatus := StringField(Pick(columns, row, "case_status"))
    )
  }

  /** `.filter(r => r.created_date && r.referring_doctor)` */
  predicate Admitted(r: Row) {
    && r.createdDate.Some? && r.createdDate.value != ""
    && r.referringDoctor.Some? && r.referringDoctor.value != ""
  }

  /** Which `buildColumnMap` the normaliser's `./columns` import resolves to. */
  datatype Resolver = Current | Legacy

  function ResolveColumns(resolver: Resolver, headers: seq<string>): map<string, string> {
    match resolver
    case Current => Columns.ColumnMapOf(Columns.ColumnVariations, headers)
    case Legacy => LegacyColumns.LegacyColumnMapOf(LegacyColumns.ColumnCandidates, headers)
  }

  /** `Object.keys(rows[0] || {})`: the headers are the keys of the first row only. */
  function HeadersOf(rows: seq<RawRow>): (h: seq<string>)
    ensures rows == [] ==> h == []
    ensures rows != [] ==> h == KeysOf(rows[0])
  {
    if rows == [] then [] else KeysOf(rows[0])
  }

  /** `rows.map(...)` */
  function MapRows(p: Parsers, columns: map<string, string>, rows: seq<RawRow>): (r: seq<Row>)
    ensures |r| == |rows| && forall i :: 0 <= i < |rows| ==> r[i] == MapRow(p, columns, rows[i])
  {
    seq(|rows|, i requires 0 <= i < |rows| => MapRow(p, columns, rows[i]))
  }

  /** The records of every row, read through the column map of the first row's headers. */
  function Mapped(resolver: Resolver, p: Parsers, rows: seq<RawRow>): seq<Row> {
    MapRows(p, ResolveColumns(resolver, HeadersOf(rows)), rows)
  }

  /**
   * `normalizeWorkbook` from the decoded rows: the admitted records, in the
   * order of their rows, each with a creation date and a referring doctor.
   */
  function NormalizeWorkbook(resolver: Resolver, p: Parsers, rows: seq<RawRow>): (r: seq<Row>)
    ensures |r| <= |rows|
    ensures IsSubsequence(r, Mapped(resolver, p, rows))
    ensures forall x :: x in r <==> x in Mapped(resolver, p, rows) && Admitted(x)
    ensures forall x :: x in r ==> x.createdDate.Some? && x.referringDoctor.Some?
    ensures rows == [] ==> r == []
  {
    var mapped := Mapped(resolver, p, rows);
    FilterIsSubsequence(Admitted, mapped);
    Filter(Admitted, mapped)
  }

  /** The normaliser yields nothing exactly when no row's record is admitted. */
  lemma NothingAdmitted(resolver: Resolver, p: Parsers, rows: seq<RawRow>)
    ensures NormalizeWorkbook(resolver, p, rows) == [] <==> forall x :: x in Mapped(resolver, p, rows) ==> !Admitted(x)
  {
    var r := NormalizeWorkbook(resolver, p, rows);
    if r != [] {
      assert r[0] in r;
    }
  }

  predicate Rejected(r: Row) {
    !Admitted(r)
  }

  /** Rows are dropped silently: every row is either kept or one of the rejected records. */
  lemma DroppedRows(resolver: Resolver, p: Parsers, rows: seq<RawRow>)
    ensures |NormalizeWorkbook(resolver, p, rows)| + CountIf(Rejected, Mapped(resolver, p, rows)) == |rows|
  {
    FilterLength(Admitted, Rejected, Mapped(resolver, p, rows));
  }

  /** The creation date falls back to the initial evaluation date when its own cell gives none. */
  lemma CreatedDateFallback(p: Parsers, columns: map<string, string>, row: RawRow)
    ensures var created := ToISO(p, Pick(columns, row, "created_date"));
            var initial := ToISO(p, Pick(columns, row, "initial_eval_date"));
            MapRow(p, columns, row).createdDate == if created.Some? then created else initial
  {
  }

  /** The four other date fields are exactly `toISO` of their own cell. */
  lemma DateFieldsAreToISO(p: Parsers, columns: map<string, string>, row: RawRow)
    ensures MapRow(p, columns, row).initialEvalDate == ToISO(p, Pick(columns, row, "initial_eval_date"))
    ensures MapRow(p, columns, row).firstScheduledDate == ToISO(p, Pick(columns, row, "first_scheduled_date"))
    ensures MapRow(p, columns, row).firstArrivedDate == ToISO(p, Pick(columns, row, "first_arrived_date"))
    ensures MapRow(p, columns, row).dischargeDate == ToISO(p, Pick(columns, row, "discharge_date"))
  {
  }

  /** A text field is null or a non-empty trimmed text. */
  predicate CleanText(f: Option<string>) {
    f.None? || (f.value != "" && IsTrimmed(f.value))
  }

  /** Every text field of a record is clean. */
  predicate TextFieldsClean(r: Row) {
    && CleanText(r.referringDoctor) && CleanText(r.referringDoctorNpi) && CleanText(r.facility)
    && CleanText(r.primaryInsurance) && CleanText(r.discipline) && CleanText(r.therapist)
    && CleanText(r.caseStatus)
  }

  /** A field with no column in the sheet reads as null, and a count as 0. */
  lemma UnmappedFieldsEmpty(p: Parsers, columns: map<string, string>, row: RawRow, key: string)
    requires key !in columns
    ensures StringField(Pick(columns, row, key)) == None
    ensures ToISO(p, Pick(columns, row, key)) == None
    ensures CountField(p, Pick(columns, row, key)) == 0
  {
  }
}
