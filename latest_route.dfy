/**
 * `GET` and `DELETE` of `/api/data/latest` (`src/app/api/data/latest/route.ts`).
 * GET serves the stored rows narrowed by three case-insensitive substring
 * filters and a row limit; DELETE clears the store, guarded by a bearer
 * secret when one is configured. The store itself is an input (`None` when
 * nothing has been uploaded) and the secret is the value of the
 * `INGEST_SECRET` environment variable.
 */
module LatestRoute {
  import opened Wrappers
  import opened Text
  import opened Seqs
  import opened Records

  /** The query parameters of a GET; `None` is a parameter that is absent. */
  datatype Query = Query(limit: Option<string>, facility: Option<string>, discipline: Option<string>, status: Option<string>)

  datatype GetResponse =
    | NotFound
    | Found(metadata: Metadata, data: seq<Row>, totalRows: nat, filteredRows: Option<nat>)

  /** `if (param)`: present and not empty. */
  predicate Active(param: Option<string>) {
    param.Some? && param.value != ""
  }

  /** `field?.toLowerCase().includes(q.toLowerCase())` */
  predicate FieldContains(field: Option<string>, q: string) {
    field.Some? && Contains(ToLower(field.value), ToLower(q))
  }

  /** The three filtered fields. */
  datatype Field = FacilityField | DisciplineField | StatusField

  function FieldOf(f: Field, r: Row): Option<string> {
    match f
    case FacilityField => r.facility
    case DisciplineField => r.discipline
    case StatusField => r.caseStatus
  }

  /** A row passes one filter when the filter is inactive or the row's field contains its parameter. */
  predicate Passes(param: Option<string>, f: Field, r: Row) {
    Active(param) ==> FieldContains(FieldOf(f, r), param.value)
  }

  /** A row passes the GET filters when it passes each filter that is active. */
  predicate Selected(q: Query, r: Row) {
    Passes(q.facility, FacilityField, r) && Passes(q.discipline, DisciplineField, r) && Passes(q.status, StatusField, r)
  }

  /** The row limit: `parseInt(limit, 10)` when the parameter is present and that is a number above zero. */
  function LimitOf(q: Query): (n: Option<int>)
    ensures n.Some? <==> Active(q.limit) && ParseInt(q.limit.value).Some? && ParseInt(q.limit.value).value > 0
    ensures n.Some? ==> n == ParseInt(q.limit.value) && n.value > 0
  {
    if Active(q.limit) then
      var n := ParseInt(q.limit.value);
      if n.Some? && n.value > 0 then n else None
    else None
  }

  /** The rows GET serves: the first selected rows, in order, as many as the limit allows. */
  function Served(q: Query, data: seq<Row>): (r: seq<Row>)
    ensures LimitOf(q).None? ==> |r| == |Filter(x => Selected(q, x), data)|
    ensures LimitOf(q).Some? ==> |r| == Min(LimitOf(q).value, |Filter(x => Selected(q, x), data)|)
    ensures forall x :: x in r ==> x in data && Selected(q, x)
    ensures forall i :: 0 <= i < |r| ==> r[i] == Filter(x => Selected(q, x), data)[i]
  {
    var selected := Filter(x => Selected(q, x), data);
    if LimitOf(q).Some? then Take(selected, LimitOf(q).value) else selected
  }

  function Min(a: int, b: int): int {
    if a < b then a else b
  }

  /**
   * The response to a GET: 404 when nothing is stored; otherwise the stored
   * metadata, the served rows, their number as `totalRows`, and
   * `filteredRows` (that same number) present iff it differs from the
   * number of stored rows.
   */
  function GetResult(store: Option<StoredData>, q: Query): (r: GetResponse)
    ensures r.NotFound? <==> store.None?
    ensures r.Found? ==> r.metadata == store.value.metadata && r.data == Served(q, store.value.data)
    ensures r.Found? ==> r.totalRows == |r.data|
    ensures r.Found? ==> (r.filteredRows.Some? <==> |r.data| != |store.value.data|)
    ensures r.Found? && r.filteredRows.Some? ==> r.filteredRows.value == |r.data|
  {
    match store
    case None => NotFound
    case Some(stored) =>
      var data := Served(q, stored.data);
      Found(stored.metadata, data, |data|, if |data| != |stored.data| then Some(|data|) else None)
  }

  /**
   * One filter step of GET: when its parameter is active, keep the rows
   * whose field contains it; either way the result is the rows passing it.
   */
  method FilterStep(data: seq<Row>, param: Option<string>, f: Field) returns (r: seq<Row>)
    ensures r == Filter(x => Passes(param, f, x), data)
  {
    r := data;
    if Active(param) {
      r := Filter(x => FieldContains(FieldOf(f, x), param.value), data);
      FilterExtensional(x => FieldContains(FieldOf(f, x), param.value), x => Passes(param, f, x), data);
    } else {
      FilterKeepsAll(x => Passes(param, f, x), data);
    }
  }

  /**
   * GET: 404 when nothing is stored; otherwise the stored rows narrowed by
   * each active filter in turn and by the limit, with `filteredRows` present
   * iff that changed the number of rows.
   */
  method Get(store: Option<StoredData>, q: Query) returns (resp: GetResponse)
    ensures resp == GetResult(store, q)
    ensures resp.NotFound? <==> store.None?
  {
    if store.None? {
      return NotFound;
    }
    var stored := store.value;
    var data := stored.data;
    data := FilterStep(data, q.facility, FacilityField);
    ghost var afterFacility := data;
    data := FilterStep(data, q.discipline, DisciplineField);
    ghost var afterDiscipline := data;
    data := FilterStep(data, q.status, StatusField);
    FiltersCompose(q, stored.data, afterFacility, afterDiscipline, data);
    if Active(q.limit) {
      var n := ParseInt(q.limit.value);
      if n.Some? && n.value > 0 {
        data := Take(data, n.value);
      }
    }
    resp := Found(stored.metadata, data, |data|, if |data| != |stored.data| then Some(|data|) else None);
  }

  /** The three filters applied one after the other select exactly the rows passing all three. */
  lemma FiltersCompose(q: Query, data: seq<Row>, afterFacility: seq<Row>, afterDiscipline: seq<Row>, afterStatus: seq<Row>)
    requires afterFacility == Filter(x => Passes(q.facility, FacilityField, x), data)
    requires afterDiscipline == Filter(x => Passes(q.discipline, DisciplineField, x), afterFacility)
    requires afterStatus == Filter(x => Passes(q.status, StatusField, x), afterDiscipline)
    ensures afterStatus == Filter(x => Selected(q, x), data)
  {
    var both := (x: Row) => Passes(q.facility, FacilityField, x) && Passes(q.discipline, DisciplineField, x);
    FilterTwice(x => Passes(q.discipline, DisciplineField, x), x => Passes(q.facility, FacilityField, x), both, data);
    FilterTwice(x => Passes(q.status, StatusField, x), both, x => Selected(q, x), data);
  }

  /** The served rows are the stored rows with some removed and the rest in their order. */
  lemma ServedIsSubsequence(q: Query, data: seq<Row>)
    ensures IsSubsequence(Served(q, data), data)
  {
    var selected := Filter(x => Selected(q, x), data);
    FilterIsSubsequence(x => Selected(q, x), data);
    if LimitOf(q).Some? && LimitOf(q).value < |selected| {
      PrefixIsSubsequence(selected, LimitOf(q).value);
      SubsequenceTransitive(Served(q, data), selected, data);
    }
  }

  /** With no active parameter GET serves every stored row. */
  lemma NoParametersServeAll(q: Query, data: seq<Row>)
    requires !Active(q.facility) && !Active(q.discipline) && !Active(q.status) && !Active(q.limit)
    ensures Served(q, data) == data
  {
    FilterKeepsAll(x => Selected(q, x), data);
  }

  /** A limit written as a positive decimal number, possibly followed by other text, keeps the first that many rows. */
  lemma DecimalLimit(q: Query, n: nat, tail: string, data: seq<Row>)
    requires n > 0 && q.limit == Some(NatToDecimal(n) + tail)
    requires tail == [] || !IsDigit(tail[0])
    ensures Served(q, data) == Take(Filter(x => Selected(q, x), data), n)
  {
    ParseIntOfNumeral(n, tail);
  }

  /** A limit that is zero, negative or not a number leaves the rows as they are. */
  lemma IgnoredLimit(q: Query, data: seq<Row>)
    requires q.limit.Some? ==> ParseInt(q.limit.value).None? || ParseInt(q.limit.value).value <= 0
    ensures Served(q, data) == Filter(x => Selected(q, x), data)
  {
  }

  // ----- DELETE -----

  datatype DeleteResponse = Unauthorized | Cleared

  /**
   * The DELETE guard: with a secret configured, the authorization header,
   * with its first "Bearer " removed, must equal the secret; with none, any
   * request passes.
   */
  function Authorized(secret: Option<string>, auth: Option<string>): (ok: bool)
    ensures !Active(secret) ==> ok
    ensures Active(secret) ==> (ok <==> auth.Some? && ReplaceFirst(auth.value, "Bearer ", "") == secret.value)
  {
    if Active(secret) then
      var provided := if auth.Some? then Some(ReplaceFirst(auth.value, "Bearer ", "")) else None;
      !(!Active(provided) || provided.value != secret.value)
    else true
  }

  /** DELETE: 401 and the store untouched, or the store cleared. */
  function Delete(secret: Option<string>, auth: Option<string>, store: Option<StoredData>): (r: (DeleteResponse, Option<StoredData>))
    ensures r.0 == Cleared <==> Authorized(secret, auth)
    ensures r.0 == Cleared ==> r.1 == None
    ensures r.0 == Unauthorized ==> r.1 == store
  {
    if Authorized(secret, auth) then (Cleared, None) else (Unauthorized, store)
  }

  /** "Bearer <secret>" is accepted. */
  lemma BearerTokenAccepted(secret: string)
    requires secret != ""
    ensures Authorized(Some(secret), Some("Bearer " + secret))
  {
    ReplaceLeading("Bearer ", secret);
  }

  /** The bare secret is accepted too, when it does not itself contain "Bearer ". */
  lemma BareSecretAccepted(secret: string)
    requires secret != "" && !Contains(secret, "Bearer ")
    ensures Authorized(Some(secret), Some(secret))
  {
    ReplaceAbsent(secret, "Bearer ", "");
  }

  /** With a secret configured, a request without an authorization header is refused. */
  lemma MissingHeaderRefused(secret: string, store: Option<StoredData>)
    requires secret != ""
    ensures Delete(Some(secret), None, store) == (Unauthorized, store)
  {
  }
}
