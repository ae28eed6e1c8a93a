/** The normalised referral record and the names of its fourteen fields. */
module Records {
  import opened Wrappers

  /**
   * The canonical field names, in the one order every table of the system
   * lists them (the resolvers' synonym tables and the CSV export's
   * preferred columns).
   */
  const FieldKeys: seq<string> := [
    "created_date", "referring_doctor", "referring_doctor_npi", "facility",
    "primary_insurance", "discipline", "therapist", "arrived_visits",
    "scheduled_visits", "initial_eval_date", "first_scheduled_date",
    "first_arrived_date", "discharge_date", "case_status"
  ]

  /** One normalised referral (`Row` in the normaliser); `None` is `null`. */
  datatype Row = Row(
    createdDate: Option<string>,
    referringDoctor: Option<string>,
    referringDoctorNpi: Option<string>,
    facility: Option<string>,
    primaryInsurance: Option<string>,
    discipline: Option<string>,
    therapist: Option<string>,
    arrivedVisits: int,
    scheduledVisits: int,
    initialEvalDate: Option<string>,
    firstScheduledDate: Option<string>,
    firstArrivedDate: Option<string>,
    dischargeDate: Option<string>,
    caseStatus: Option<string>)

  /** `StorageMetadata`: when and from which file the stored rows came. */
  datatype Metadata = Metadata(uploadDate: string, filename: string, rowCount: int, version: string)

  /** `StoredData`: the latest upload, as the store keeps it. */
  datatype StoredData = StoredData(metadata: Metadata, data: seq<Row>)
}
