/**
 * `POST /api/ingest/upload` (`src/app/api/ingest/upload/route.ts`): a chain
 * of early returns that refuses a missing file, a file that is neither a
 * spreadsheet type nor a spreadsheet extension, a workbook that cannot be
 * read and a workbook with no admitted row, and otherwise stores the
 * normalised rows and answers with a summary.
 *
 * The form data, the workbook decoding and the clock are inputs: the file
 * is `None` when the form has none, the decoded rows are `None` when the
 * spreadsheet library throws, and the two timestamps are what `new Date()`
 * gives in the store and in the response.
 */
module UploadRoute {
  import opened Wrappers
  import opened Text
  import opened Seqs
  import opened Records
  import Normalize

  /** The uploaded `File`: its name and its MIME type (`file.type`). */
  datatype File = File(name: string, mimeType: string)

  const ValidTypes: seq<string> := [
    "application/vnd.openxmlformats-officedocument.spreadsheetml.sheet",
    "application/vnd.ms-excel",
    "text/csv"
  ]

  const ValidExtensions: seq<string> := [".xlsx", ".xls", ".csv"]

  /**
   * `name.toLowerCase().substring(name.lastIndexOf('.'))`; `substring` reads
   * the -1 of a name without a dot as 0.
   */
  function Extension(name: string): (ext: string)
    ensures |ext| <= |name|
    ensures '.' in name ==> |ext| > 0 && ext[0] == '.' && '.' !in ext[1..]
  {
    var i := LastIndexOf(name, '.');
    ToLower(name)[if i < 0 then 0 else i..]
  }

  /** `validTypes.includes(file.type) || validExtensions.includes(fileExtension)` */
  predicate IsValidType(f: File) {
    f.mimeType in ValidTypes || Extension(f.name) in ValidExtensions
  }

  const NoFileMessage := "No file provided"
  const ProcessFailedMessage := "Failed to process the Excel file. Please check the file format and try again."
  const NoDataMessage := "No valid data found in the uploaded file"

  function InvalidTypeMessage(f: File): string {
    "Invalid file type. File type: \"" + f.mimeType + "\", Extension: \"" + Extension(f.name)
      + "\". Please upload an Excel file (.xlsx, .xls) or CSV file."
  }

  datatype UploadResponse =
    | BadRequest(error: string)
    | Uploaded(filename: string, totalRows: nat, processedAt: string, sampleData: seq<Row>)

  /** How the normaliser is configured: which resolver and which host parsers. */
  datatype Normaliser = Normaliser(resolver: Normalize.Resolver, parsers: Normalize.Parsers)

  /**
   * The POST handler: its response and the store afterwards. Every refusal
   * is a 400 that leaves the store as it was; success stores exactly the
   * normalised rows under the file's name.
   */
  function Upload(file: Option<File>, decoded: Option<seq<Normalize.RawRow>>, norm: Normaliser,
                  storedAt: string, processedAt: string, store: Option<StoredData>): (r: (UploadResponse, Option<StoredData>))
    ensures r.0.BadRequest? ==> r.1 == store
    ensures file.None? ==> r.0 == BadRequest(NoFileMessage)
    ensures file.Some? && !IsValidType(file.value) ==> r.0 == BadRequest(InvalidTypeMessage(file.value))
    ensures file.Some? && IsValidType(file.value) && decoded.None? ==>
              r.0 == BadRequest(ProcessFailedMessage)
    ensures r.0.Uploaded? <==>
              file.Some? && IsValidType(file.value) && decoded.Some?
              && Normalize.NormalizeWorkbook(norm.resolver, norm.parsers, decoded.value) != []
  {
    if file.None? then (BadRequest(NoFileMessage), store)
    else if !IsValidType(file.value) then (BadRequest(InvalidTypeMessage(file.value)), store)
    else if decoded.None? then
      (BadRequest(ProcessFailedMessage), store)
    else
      var data := Normalize.NormalizeWorkbook(norm.resolver, norm.parsers, decoded.value);
      if |data| == 0 then (BadRequest(NoDataMessage), store)
      else Accepted(file.value.name, data, storedAt, processedAt)
  }

  /** The answer and the new store once `data` has been accepted from the file `name`. */
  function Accepted(name: string, data: seq<Row>, storedAt: string, processedAt: string): (UploadResponse, Option<StoredData>) {
    var stored := StoredData(Metadata(storedAt, name, |data|, "1.0"), data);
    (Uploaded(name, |data|, processedAt, Take(data, 3)), Some(stored))
  }

  /** An accepted workbook's answer is `Accepted` applied to its normalised rows. */
  lemma UploadIsAccepted(f: File, rows: seq<Normalize.RawRow>, norm: Normaliser, storedAt: string, processedAt: string, store: Option<StoredData>)
    requires Upload(Some(f), Some(rows), norm, storedAt, processedAt, store).0.Uploaded?
    ensures Upload(Some(f), Some(rows), norm, storedAt, processedAt, store)
              == Accepted(f.name, Normalize.NormalizeWorkbook(norm.resolver, norm.parsers, rows), storedAt, processedAt)
  {
  }

  function Min(a: int, b: int): int {
    if a < b then a else b
  }

  /**
   * An accepted upload replaces whatever was stored by the normalised rows,
   * under the file's name and with their count, and answers with that count
   * and the first (up to) three rows.
   */
  lemma UploadStoresRows(f: File, rows: seq<Normalize.RawRow>, norm: Normaliser, storedAt: string, processedAt: string, store: Option<StoredData>)
    requires Upload(Some(f), Some(rows), norm, storedAt, processedAt, store).0.Uploaded?
    ensures var r := Upload(Some(f), Some(rows), norm, storedAt, processedAt, store);
            var data := Normalize.NormalizeWorkbook(norm.resolver, norm.parsers, rows);
            && r.1 == Some(StoredData(Metadata(storedAt, f.name, |data|, "1.0"), data))
            && r.0.filename == f.name
            && r.0.processedAt == processedAt
            && r.0.totalRows == |data| > 0
            && |r.0.sampleData| == Min(3, |data|)
            && r.0.sampleData <= data
  {
    UploadIsAccepted(f, rows, norm, storedAt, processedAt, store);
  }

  /** A workbook whose rows are all rejected is refused just like one with no rows. */
  lemma NoAdmittedRowRefused(f: File, rows: seq<Normalize.RawRow>, norm: Normaliser, storedAt: string, processedAt: string, store: Option<StoredData>)
    requires IsValidType(f)
    requires forall x :: x in Normalize.Mapped(norm.resolver, norm.parsers, rows) ==> !Normalize.Admitted(x)
    ensures Upload(Some(f), Some(rows), norm, storedAt, processedAt, store) == (BadRequest(NoDataMessage), store)
  {
    Normalize.NothingAdmitted(norm.resolver, norm.parsers, rows);
    Normalize.NothingAdmitted(norm.resolver, norm.parsers, []);
  }

  /** A name with no dot has the whole lower-cased name as its "extension". */
  lemma ExtensionWithoutDot(name: string)
    requires '.' !in name
    ensures Extension(name) == ToLower(name)
  {
  }

  /** So such a file is accepted only on its MIME type. */
  lemma DotlessNameNeedsType(f: File)
    requires '.' !in f.name
    ensures IsValidType(f) <==> f.mimeType in ValidTypes
  {
    ExtensionWithoutDot(f.name);
    forall e | e in ValidExtensions ensures e != ToLower(f.name) {
      assert e[0] == '.';
      assert |e| > 0;
      if |ToLower(f.name)| > 0 {
        assert ToLower(f.name)[0] != '.';
      }
    }
  }

  /** The extension is the lower-cased text from the last dot on. */
  lemma ExtensionAfterLastDot(stem: string, suffix: string)
    requires '.' !in suffix
    ensures Extension(stem + "." + suffix) == "." + ToLower(suffix)
  {
    var name := stem + "." + suffix;
    assert name[|stem|] == '.';
    assert forall j :: |stem| < j < |name| ==> name[j] == suffix[j - |stem| - 1];
    assert LastIndexOf(name, '.') == |stem|;
  }

  /** A name whose text after its last dot lower-cases to a listed extension is accepted whatever its MIME type. */
  lemma ListedExtensionAccepted(stem: string, suffix: string, mimeType: string)
    requires '.' !in suffix && "." + ToLower(suffix) in ValidExtensions
    ensures IsValidType(File(stem + "." + suffix, mimeType))
  {
    ExtensionAfterLastDot(stem, suffix);
  }

  /** A name ending in ".XLSX", whatever comes before, is accepted whatever its MIME type. */
  lemma UpperCaseExtensionAccepted(stem: string, mimeType: string)
    ensures IsValidType(File(stem + ".XLSX", mimeType))
  {
    LowerXlsx();
    ListedExtensionAccepted(stem, "XLSX", mimeType);
    assert stem + "." + "XLSX" == stem + ".XLSX";
  }

  lemma LowerXlsx()
    ensures "." + ToLower("XLSX") == ".xlsx"
  {
    var l := ToLower("XLSX");
    assert l[0] == 'x' && l[1] == 'l' && l[2] == 's' && l[3] == 'x';
  }
}
