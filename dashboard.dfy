/**
 * The dashboard page (`src/app/page.tsx`): how it loads the latest rows,
 * formats dates, narrows the rows by the three drop-down selections, builds
 * the option lists of those drop-downs and counts the figures of its cards.
 *
 * A row on the page is the JSON object the server sent, so it is a map from
 * key to scalar JSON value. The page types the text fields as
 * `string | null`; a field that holds anything else reads as `null` here.
 */
module Dashboard {
  import opened Wrappers
  import opened Text
  import opened Seqs
  import opened Sorting
  import opened Records
  import opened Dates
  import opened Json
  import LatestRoute

  /** A row as the page holds it: the parsed JSON object. */
  type Object = map<string, Json>

  /** `r[key]` as `string | null`. */
  function Field(r: Object, key: string): Option<string> {
    if key in r && r[key].JString? then Some(r[key].s) else None
  }

  /** `(r[key] || "")` */
  function TextOf(r: Object, key: string): (t: string)
    ensures Field(r, key).Some? ==> t == Field(r, key).value
    ensures Field(r, key).None? ==> t == ""
  {
    if Field(r, key).Some? && Field(r, key).value != "" then Field(r, key).value else ""
  }

  /** JavaScript truthiness of a JSON value. */
  predicate Truthy(v: Json) {
    match v
    case JNull => false
    case JBool(b) => b
    case JNumber(n) => n != 0
    case JString(s) => s != ""
  }

  // ----- loading -----

  /** `null` for an empty text field, the text otherwise. */
  function TextJson(f: Option<string>): Json {
    if f.Some? then JString(f.value) else JNull
  }

  /** What the server sends under `key` for a stored row. */
  function Cell(r: Row, key: string): Json {
    if key == "created_date" then TextJson(r.createdDate)
    else if key == "referring_doctor" then TextJson(r.referringDoctor)
    else if key == "referring_doctor_npi" then TextJson(r.referringDoctorNpi)
    else if key == "facility" then TextJson(r.facility)
    else if key == "primary_insurance" then TextJson(r.primaryInsurance)
    else if key == "discipline" then TextJson(r.discipline)
    else if key == "therapist" then TextJson(r.therapist)
    else if key == "arrived_visits" then JNumber(r.arrivedVisits)
    else if key == "scheduled_visits" then JNumber(r.scheduledVisits)
    else if key == "initial_eval_date" then TextJson(r.initialEvalDate)
    else if key == "first_scheduled_date" then TextJson(r.firstScheduledDate)
    else if key == "first_arrived_date" then TextJson(r.firstArrivedDate)
    else if key == "discharge_date" then TextJson(r.dischargeDate)
    else TextJson(r.caseStatus)
  }

  /** The object the server sends for one stored row: the fourteen keys, `null` where a field is empty. */
  function RowObject(r: Row): map<string, Json> {
    map k | k in FieldKeys :: Cell(r, k)
  }

  /** Each text field of a stored row reads back from its object under the field's key. */
  lemma RowObjectFields(r: Row)
    ensures Field(RowObject(r), "facility") == r.facility
    ensures Field(RowObject(r), "discipline") == r.discipline
    ensures Field(RowObject(r), "primary_insurance") == r.primaryInsurance
    ensures Field(RowObject(r), "referring_doctor") == r.referringDoctor
  {
    assert "facility" in FieldKeys;
    assert "discipline" in FieldKeys;
    assert "primary_insurance" in FieldKeys;
    assert "referring_doctor" in FieldKeys;
  }

  /** The objects the server sends for the given rows, in order. */
  function RowObjects(data: seq<Row>): (objs: seq<Object>)
    ensures |objs| == |data|
    ensures forall i :: 0 <= i < |data| ==> objs[i] == RowObject(data[i])
  {
    seq(|data|, i requires 0 <= i < |data| => RowObject(data[i]))
  }

  /** A member of a response body: a scalar, an object of scalars, or an array of such objects. */
  datatype Member = Scalar(v: Json) | Record(fields: Object) | Records(items: seq<Object>)

  /** A parsed response body (`await res.json()`): an array of row objects, or an object. */
  datatype Body = ArrayBody(items: seq<Object>) | ObjectBody(members: map<string, Member>)

  /** `Array.isArray(data)` */
  predicate IsArray(body: Body) {
    body.ArrayBody?
  }

  /** The `metadata` object of the route's body. */
  function MetadataObject(m: Metadata): Object {
    map["uploadDate" := JString(m.uploadDate), "filename" := JString(m.filename),
        "rowCount" := JNumber(m.rowCount), "version" := JString(m.version)]
  }

  /**
   * The body of the answer to `GET /api/data/latest` as the page parses it:
   * nothing for a 404, whose `!res.ok` makes the page throw before parsing;
   * otherwise the object `{ metadata, data, totalRows, filteredRows }`, where
   * an `undefined` `filteredRows` is left out by the JSON encoding.
   */
  function ResponseBody(resp: LatestRoute.GetResponse): (body: Option<Body>)
    ensures body.Some? <==> resp.Found?
    ensures body.Some? ==> !IsArray(body.value)
    ensures body.Some? ==> && "data" in body.value.members
                           && body.value.members["data"] == Records(RowObjects(resp.data))
    ensures body.Some? ==> ("filteredRows" in body.value.members <==> resp.filteredRows.Some?)
  {
    match resp
    case NotFound => None
    case Found(metadata, data, totalRows, filteredRows) =>
      var members := map["metadata" := Record(MetadataObject(metadata)),
                         "data" := Records(RowObjects(data)),
                         "totalRows" := Scalar(JNumber(totalRows))];
      Some(ObjectBody(if filteredRows.Some? then members["filteredRows" := Scalar(JNumber(filteredRows.value))] else members))
  }

  /**
   * The rows the page keeps as it is written: a body is kept only when it is
   * an array (`if (Array.isArray(data)) setRows(data)`); otherwise, and when
   * the fetch fails, the rows stay the initial empty list.
   */
  function LoadedRowsAsWritten(body: Option<Body>): (rows: seq<Object>)
    ensures body.Some? && IsArray(body.value) ==> rows == body.value.items
    ensures body.None? || !IsArray(body.value) ==> rows == []
  {
    match body
    case None => []
    case Some(b) => if IsArray(b) then b.items else []
  }

  /** As written, the page keeps no row of any answer of the route, since the route always answers with an object. */
  lemma AsWrittenLoadsNothing(resp: LatestRoute.GetResponse)
    ensures LoadedRowsAsWritten(ResponseBody(resp)) == []
  {
    var body := ResponseBody(resp);
    if body.Some? {
      assert !IsArray(body.value);
    }
  }

  /**
   * The rows the page evidently means to keep: the `data` array of an object
   * body (as the data page reads `data.data`), or the body itself when it is
   * an array.
   */
  function LoadedRows(body: Option<Body>): (rows: seq<Object>)
    ensures body.Some? && IsArray(body.value) ==> rows == body.value.items
    ensures body.Some? && !IsArray(body.value) && "data" in body.value.members && body.value.members["data"].Records?
            ==> rows == body.value.members["data"].items
  {
    match body
    case None => []
    case Some(ArrayBody(items)) => items
    case Some(ObjectBody(members)) =>
      if "data" in members && members["data"].Records? then members["data"].items else []
  }

  /** Corrected, the page keeps one object per row the route serves, in order, and none on a 404. */
  lemma LoadedRowsOfResponse(resp: LatestRoute.GetResponse)
    ensures resp.NotFound? ==> LoadedRows(ResponseBody(resp)) == []
    ensures resp.Found? ==> LoadedRows(ResponseBody(resp)) == RowObjects(resp.data)
  {
  }

  /** As written, the page shows no rows even when rows are stored and all of them are served. */
  lemma StoredRowsNeverShown(stored: StoredData, q: LatestRoute.Query)
    requires stored.data != []
    requires q == LatestRoute.Query(None, None, None, None)
    ensures LatestRoute.GetResult(Some(stored), q).Found?
    ensures |LatestRoute.GetResult(Some(stored), q).data| == |stored.data| > 0
    ensures LoadedRowsAsWritten(ResponseBody(LatestRoute.GetResult(Some(stored), q))) == []
  {
    LatestRoute.NoParametersServeAll(q, stored.data);
    AsWrittenLoadsNothing(LatestRoute.GetResult(Some(stored), q));
  }

  /** Corrected, the page holds one object per stored row, with the row's text fields under their keys. */
  lemma StoredRowsLoaded(stored: StoredData, q: LatestRoute.Query)
    requires q == LatestRoute.Query(None, None, None, None)
    ensures var rows := LoadedRows(ResponseBody(LatestRoute.GetResult(Some(stored), q)));
            && |rows| == |stored.data|
            && forall i :: 0 <= i < |rows| ==>
                 && Field(rows[i], "facility") == stored.data[i].facility
                 && Field(rows[i], "discipline") == stored.data[i].discipline
                 && Field(rows[i], "primary_insurance") == stored.data[i].primaryInsurance
                 && Field(rows[i], "referring_doctor") == stored.data[i].referringDoctor
  {
    LatestRoute.NoParametersServeAll(q, stored.data);
    LoadedRowsOfResponse(LatestRoute.GetResult(Some(stored), q));
    forall r | r in stored.data {
      RowObjectFields(r);
    }
  }

  // ----- dates -----

  /**
   * `asISO(d)`: nothing for a falsy or unparseable value, otherwise the
   * date's fields as `yyyy-mm-dd`, which read back to those same fields;
   * the year is written without padding. Parsing (`new Date(d)`) is the host's and is a parameter.
   */
  function AsISO(parse: Json -> Option<Date>, d: Option<Json>): (r: Option<string>)
    ensures d.None? || !Truthy(d.value) ==> r == None
    ensures r.Some? <==> d.Some? && Truthy(d.value) && parse(d.value).Some?
    ensures r.Some? ==> r.value != "" && DecodeISO(r.value) == Some(parse(d.value).value)
    ensures r.Some? ==> CanonicalISO(r.value)
  {
    if d.None? || !Truthy(d.value) then None
    else match parse(d.value)
      case None => None
      case Some(t) =>
        FormatRoundTrip(t);
        FormatCanonical(t);
        Some(FormatISO(t))
  }

  // ----- the three selections -----

  /** The drop-down selections; "ALL" selects everything. */
  datatype Selection = Selection(discipline: string, facility: string, insurance: string)

  /** `(r.discipline || "").toUpperCase() === discipline`, unless "ALL" is selected. */
  predicate DisciplineOk(sel: Selection, r: Object) {
    sel.discipline == "ALL" || ToUpper(TextOf(r, "discipline")) == sel.discipline
  }

  /** `r[key] === value` (strict equality with a string), unless "ALL" is selected. */
  predicate ExactOk(selected: string, r: Object, key: string) {
    selected == "ALL" || (key in r && r[key] == JString(selected))
  }

  predicate Kept(sel: Selection, r: Object) {
    DisciplineOk(sel, r) && ExactOk(sel.facility, r, "facility") && ExactOk(sel.insurance, r, "primary_insurance")
  }

  /**
   * `filtered`: the rows meeting all three selections, in their order and
   * each as many times as it occurs; all of them when all three are "ALL".
   */
  function Filtered(sel: Selection, rows: seq<Object>): (r: seq<Object>)
    ensures IsSubsequence(r, rows)
    ensures forall x :: x in r <==> x in rows && Kept(sel, x)
    ensures forall x :: multiset(r)[x] == if Kept(sel, x) then multiset(rows)[x] else 0
    ensures |r| == CountIf(x => Kept(sel, x), rows)
    ensures sel == Selection("ALL", "ALL", "ALL") ==> r == rows
  {
    FilterIsSubsequence(x => Kept(sel, x), rows);
    FilterCount(x => Kept(sel, x), rows);
    forall x ensures multiset(Filter(x => Kept(sel, x), rows))[x] == if Kept(sel, x) then multiset(rows)[x] else 0 {
      FilterMultiplicity(x => Kept(sel, x), rows, x);
    }
    if sel == Selection("ALL", "ALL", "ALL") then
      FilterKeepsAll(x => Kept(sel, x), rows);
      Filter(x => Kept(sel, x), rows)
    else
      Filter(x => Kept(sel, x), rows)
  }

  /** The discipline is compared upper-cased: a selection with a lower-case letter keeps no row. */
  lemma LowerCaseDisciplineKeepsNothing(sel: Selection, rows: seq<Object>, k: nat)
    requires k < |sel.discipline| && IsLowerLetter(sel.discipline[k])
    ensures Filtered(sel, rows) == []
  {
    forall x | x in rows ensures !Kept(sel, x) {
      var text := TextOf(x, "discipline");
      if |ToUpper(text)| == |sel.discipline| {
        assert ToUpper(text)[k] == UpperChar(text[k]);
        assert ToUpper(text)[k] != sel.discipline[k];
      }
    }
    FilterNone(x => Kept(sel, x), rows);
  }

  /** Facility and insurance are compared exactly: a row whose facility differs only in case is not kept. */
  lemma FacilityComparedExactly(r: Object, a: string, b: string)
    requires a != b && a != "ALL"
    requires "facility" in r && r["facility"] == JString(b)
    ensures !Kept(Selection("ALL", a, "ALL"), r)
  {
  }

  // ----- option lists -----

  predicate NonEmpty(s: string) {
    s != ""
  }

  /** `rows.map(r => (r.discipline || "").toUpperCase()).filter(Boolean)` */
  function DisciplineValues(rows: seq<Object>): (vs: seq<string>)
    ensures forall v :: v in vs <==> v != "" && exists r :: r in rows && ToUpper(TextOf(r, "discipline")) == v
  {
    var all := seq(|rows|, i requires 0 <= i < |rows| => ToUpper(TextOf(rows[i], "discipline")));
    assert forall r :: r in rows ==> ToUpper(TextOf(r, "discipline")) in all by {
      forall r | r in rows ensures ToUpper(TextOf(r, "discipline")) in all {
        var i :| 0 <= i < |rows| && rows[i] == r;
        assert all[i] == ToUpper(TextOf(r, "discipline"));
      }
    }
    Filter(NonEmpty, all)
  }

  /**
   * `disciplineOptions`: "ALL", then each upper-cased discipline of the
   * rows once, in the order it first appears.
   */
  function DisciplineOptions(rows: seq<Object>): (opts: seq<string>)
    ensures opts != [] && opts[0] == "ALL"
    ensures Distinct(opts[1..])
    ensures forall v :: v in opts[1..] <==> v != "" && exists r :: r in rows && ToUpper(TextOf(r, "discipline")) == v
    ensures forall i, j :: 1 <= i < j < |opts| ==>
              && opts[i] in DisciplineValues(rows) && opts[j] in DisciplineValues(rows)
              && FirstIndex(DisciplineValues(rows), opts[i]) < FirstIndex(DisciplineValues(rows), opts[j])
  {
    var d := Dedup(DisciplineValues(rows));
    DedupFirstAppearanceOrder(DisciplineValues(rows));
    assert forall i :: 1 <= i <= |d| ==> (["ALL"] + d)[i] == d[i - 1];
    ["ALL"] + d
  }

  /** `rows.map(r => r[key]).filter(Boolean)` for a text field. */
  function TextValues(rows: seq<Object>, key: string): (vs: seq<string>)
    ensures forall v :: v in vs <==> v != "" && exists r :: r in rows && Field(r, key) == Some(v)
  {
    if rows == [] then []
    else
      var rest := TextValues(rows[1..], key);
      assert forall r :: r in rows <==> r == rows[0] || r in rows[1..];
      if Field(rows[0], key).Some? && Field(rows[0], key).value != "" then [Field(rows[0], key).value] + rest else rest
  }

  /**
   * `facilityOptions` and `insuranceOptions`: "ALL", then the field's
   * distinct non-empty values in increasing order.
   */
  function SortedOptions(rows: seq<Object>, key: string): (opts: seq<string>)
    ensures opts != [] && opts[0] == "ALL"
    ensures StrictlySorted(opts[1..]) && Distinct(opts[1..])
    ensures forall v :: v in opts[1..] <==> v != "" && exists r :: r in rows && Field(r, key) == Some(v)
  {
    var values := Dedup(TextValues(rows, key));
    SortDistinct(values);
    var sorted := Sort(values);
    assert forall v :: v in sorted <==> v in values by {
      forall v ensures v in sorted <==> v in values {
        assert v in sorted <==> v in multiset(sorted);
        assert v in values <==> v in multiset(values);
      }
    }
    assert (["ALL"] + sorted)[1..] == sorted;
    ["ALL"] + sorted
  }

  /** Each discipline offered keeps at least one row. */
  lemma DisciplineOptionKeepsRows(rows: seq<Object>, v: string)
    requires v in DisciplineOptions(rows)[1..]
    ensures Filtered(Selection(v, "ALL", "ALL"), rows) != []
  {
    var r :| r in rows && ToUpper(TextOf(r, "discipline")) == v;
    assert Kept(Selection(v, "ALL", "ALL"), r);
  }

  /** Each facility offered keeps at least one row. */
  lemma FacilityOptionKeepsRows(rows: seq<Object>, v: string)
    requires v in SortedOptions(rows, "facility")[1..]
    ensures Filtered(Selection("ALL", v, "ALL"), rows) != []
  {
    var r :| r in rows && Field(r, "facility") == Some(v);
    assert Kept(Selection("ALL", v, "ALL"), r);
  }

  /** A discipline spelled "all" in some row is offered a second time as "ALL", which then selects every row. */
  lemma AllDisciplineRepeated(rows: seq<Object>, r: Object)
    requires r in rows && ToUpper(TextOf(r, "discipline")) == "ALL"
    ensures !Distinct(DisciplineOptions(rows))
  {
    var opts := DisciplineOptions(rows);
    assert "ALL" in opts[1..];
    var j :| 0 <= j < |opts[1..]| && opts[1..][j] == "ALL";
    assert opts[0] == opts[j + 1];
  }

  // ----- the counting cards -----

  /** The integer figures of the cards. */
  datatype Kpis = Kpis(total: nat, uniqueDocs: nat, pt: nat, ot: nat, scheduled: nat, arrived: nat)

  predicate IsPT(r: Object) {
    ToUpper(TextOf(r, "discipline")) == "PT"
  }

  predicate IsOT(r: Object) {
    ToUpper(TextOf(r, "discipline")) == "OT"
  }

  /** `!!r.first_scheduled_date` */
  predicate IsScheduled(r: Object) {
    "first_scheduled_date" in r && Truthy(r["first_scheduled_date"])
  }

  /** `!!r.first_arrived_date` */
  predicate IsArrived(r: Object) {
    "first_arrived_date" in r && Truthy(r["first_arrived_date"])
  }

  /** `(r.referring_doctor || "").trim()` */
  function DoctorName(r: Object): string {
    Trim(TextOf(r, "referring_doctor"))
  }

  /** `filtered.map(r => (r.referring_doctor || "").trim()).filter(Boolean)` */
  function DoctorNames(rows: seq<Object>): (names: seq<string>)
    ensures |names| <= |rows|
    ensures forall d :: d in names <==> d != "" && exists r :: r in rows && DoctorName(r) == d
  {
    if rows == [] then []
    else
      var rest := DoctorNames(rows[1..]);
      var names := if DoctorName(rows[0]) != "" then [DoctorName(rows[0])] + rest else rest;
      NamesStep(DoctorName, rows, rest, names);
      names
  }

  /** The non-empty names of a non-empty list: its head's name, when there is one, before the names of the rest. */
  lemma NamesStep<T>(name: T -> string, rows: seq<T>, rest: seq<string>, names: seq<string>)
    requires rows != []
    requires forall d :: d in rest <==> d != "" && exists r :: r in rows[1..] && name(r) == d
    requires names == if name(rows[0]) != "" then [name(rows[0])] + rest else rest
    ensures forall d :: d in names <==> d != "" && exists r :: r in rows && name(r) == d
  {
    forall d
      ensures d in names <==> d != "" && exists r :: r in rows && name(r) == d
    {
      if d in names {
        if d in rest {
          var r :| r in rows[1..] && name(r) == d;
          assert r in rows;
        } else {
          assert rows[0] in rows;
        }
      }
      if d != "" && exists r :: r in rows && name(r) == d {
        var r :| r in rows && name(r) == d;
        if r != rows[0] {
          assert r in rows[1..];
        }
      }
    }
  }

  /**
   * `kpis`: nothing for no rows; otherwise the row count, the number of
   * distinct named doctors, the PT and OT rows and the rows with a first
   * scheduled and a first arrived date.
   */
  function KpisOf(rows: seq<Object>): (k: Option<Kpis>)
    ensures k.None? <==> rows == []
    ensures k.Some? ==>
              && k.value.total == |rows|
              && k.value.uniqueDocs == |Dedup(DoctorNames(rows))| <= |rows|
              && k.value.pt == CountIf(IsPT, rows)
              && k.value.ot == CountIf(IsOT, rows)
              && k.value.pt + k.value.ot <= k.value.total
              && k.value.scheduled == CountIf(IsScheduled, rows) <= k.value.total
              && k.value.arrived == CountIf(IsArrived, rows) <= k.value.total
  {
    if rows == [] then None
    else
      CountExclusive(IsPT, IsOT, rows);
      FilterCount(IsPT, rows);
      FilterCount(IsOT, rows);
      FilterCount(IsScheduled, rows);
      FilterCount(IsArrived, rows);
      Some(Kpis(|rows|, |Dedup(DoctorNames(rows))|, |Filter(IsPT, rows)|, |Filter(IsOT, rows)|,
                |Filter(IsScheduled, rows)|, |Filter(IsArrived, rows)|))
  }
}
