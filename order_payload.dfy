/**
 * The request payload of the order handlers once its JSON fields are
 * decoded, and the pure normalisers the create and update handlers run on
 * it: the drug-line mapping, date normalisation, attachment parsing, the
 * upload-to-attachment conversion and the `...otherData` object spread.
 */
module OrderPayload {
  import opened Common

  // ----------------------------------------------------------------- drugs

  /** A drug line of the request body: the keys the handlers read, plus any others. */
  datatype DrugInput = DrugInput(
    drugId: Option<string>, dose: Option<string>, day: Option<string>,
    name: Option<string>, extra: map<string, string>)

  /** A drug line as stored in an order's `drugs` column. */
  datatype DrugEntry = DrugEntry(
    drugId: Option<string>, dose: Option<string>, day: Option<string>, name: Option<string>)

  /** The drug id marking a free-text drug that is not in the catalog. */
  const OTHER_DRUG := "other"

  function MapDrug(d: DrugInput): DrugEntry {
    DrugEntry(d.drugId, d.dose, d.day, if d.drugId == Some(OTHER_DRUG) then d.name else None)
  }

  /**
   * `mapDrugsPayload`: one stored line per input line, in order, keeping
   * `drugId`, `dose` and `day`, dropping every other key, and keeping
   * `name` only on an `"other"` drug.
   */
  function MapDrugsPayload(ds: seq<DrugInput>): (r: seq<DrugEntry>)
    ensures |r| == |ds|
    ensures forall i :: 0 <= i < |ds| ==>
              r[i].drugId == ds[i].drugId && r[i].dose == ds[i].dose && r[i].day == ds[i].day
    ensures forall i :: 0 <= i < |ds| ==>
              r[i].name == (if ds[i].drugId == Some(OTHER_DRUG) then ds[i].name else None)
  {
    seq(|ds|, i requires 0 <= i < |ds| => MapDrug(ds[i]))
  }

  /** The mapping works line by line: it commutes with concatenation. */
  lemma MapDrugsAppend(a: seq<DrugInput>, b: seq<DrugInput>)
    ensures MapDrugsPayload(a + b) == MapDrugsPayload(a) + MapDrugsPayload(b)
  {
    var l, r := MapDrugsPayload(a + b), MapDrugsPayload(a) + MapDrugsPayload(b);
    forall i | 0 <= i < |l| ensures l[i] == r[i] {
      if i < |a| { assert (a + b)[i] == a[i]; } else { assert (a + b)[i] == b[i - |a|]; }
    }
  }

  /** Only an `"other"` drug line carries a name. */
  lemma NamedOnlyWhenOther(ds: seq<DrugInput>, i: int)
    requires 0 <= i < |ds|
    ensures MapDrugsPayload(ds)[i].name.Some? ==> ds[i].drugId == Some(OTHER_DRUG) && ds[i].name.Some?
  {
  }

  /** The `drugs` field of the body: an array of drug lines, or any other JSON value. */
  datatype DrugsField = DrugArray(lines: seq<DrugInput>) | NotAnArray

  // ----------------------------------------------------------------- dates

  /**
   * A date field: `null`, a text the client sent, or a `Date`. `time` is
   * the instant a `Date` stands for; for a text it is what `new Date(text)`
   * makes of it, and `None` is an Invalid Date.
   */
  datatype DateValue = NullDate | DateText(text: string, time: Option<int>) | DateObject(time: Option<int>)

  predicate TruthyDate(v: DateValue) {
    match v
    case NullDate => false
    case DateText(t, _) => t != ""
    case DateObject(_) => true
  }

  /** `new Date(v)` of a present date value; a `Date` copies its time. */
  function ToDate(v: DateValue): DateValue
    requires TruthyDate(v)
  {
    match v
    case DateText(_, m) => DateObject(m)
    case DateObject(m) => DateObject(m)
  }

  /** An Invalid Date, which the database refuses to store. */
  predicate InvalidDate(v: DateValue) {
    v.DateObject? && v.time.None?
  }

  /**
   * One field of `normaliseDates`: a truthy value becomes a `Date` with the
   * value's time (an Invalid Date for a text that does not parse), anything
   * else `null`.
   */
  function NormaliseDate(v: Option<DateValue>): (r: DateValue)
    ensures !r.DateText?
    ensures r.DateObject? <==> v.Some? && TruthyDate(v.value)
    ensures r.DateObject? ==> r.time == v.value.time
    ensures InvalidDate(r) <==> v.Some? && TruthyDate(v.value) && v.value.time.None?
  {
    if v.Some? && TruthyDate(v.value) then ToDate(v.value) else NullDate
  }

  // ----------------------------------------------------------- attachments

  datatype Attachment = Attachment(fileName: string, fileUrl: string, fileType: string, fileSize: nat)

  /** What `JSON.parse` makes of an attachments text. */
  datatype ParseOutcome = WellFormed(items: seq<Attachment>) | Malformed

  /**
   * A stored `attachments` value: a falsy non-text value, an array, a text
   * with the outcome of parsing it, or any other truthy value.
   */
  datatype AttachmentsValue =
    | NoAttachments
    | AttachmentList(items: seq<Attachment>)
    | AttachmentText(text: string, parsed: ParseOutcome)
    | OtherValue

  /**
   * `parseAttachments`: `[]` for a falsy value, the array itself, the parsed
   * array of a well-formed text, and `[]` for a malformed text or any other
   * value.
   */
  function ParseAttachments(v: AttachmentsValue): (r: seq<Attachment>)
    ensures v.NoAttachments? || v.OtherValue? ==> r == []
    ensures v.AttachmentList? ==> r == v.items
    ensures v.AttachmentText? && v.text == "" ==> r == []
    ensures v.AttachmentText? && v.text != "" && v.parsed.WellFormed? ==> r == v.parsed.items
    ensures v.AttachmentText? && v.parsed.Malformed? ==> r == []
  {
    match v
    case NoAttachments => []
    case AttachmentList(items) => items
    case AttachmentText(text, parsed) =>
      if text == "" then []
      else if parsed.WellFormed? then parsed.items
      else []
    case OtherValue => []
  }

  /** Parsing is idempotent: a parsed list parses to itself. */
  lemma ParseAttachmentsIdempotent(v: AttachmentsValue)
    ensures ParseAttachments(AttachmentList(ParseAttachments(v))) == ParseAttachments(v)
  {
  }

  /** A file as the upload middleware hands it over. */
  datatype UploadedFile = UploadedFile(filename: string, mimetype: string, size: nat)

  const UPLOADS_URL := "/public/uploads/"

  /** The attachment recorded for an uploaded file: served from the uploads directory. */
  function NewAttachment(f: UploadedFile): (a: Attachment)
    ensures a.fileName == f.filename && a.fileType == f.mimetype && a.fileSize == f.size
    ensures |a.fileUrl| == |UPLOADS_URL| + |f.filename|
    ensures a.fileUrl[..|UPLOADS_URL|] == UPLOADS_URL && a.fileUrl[|UPLOADS_URL|..] == f.filename
  {
    Attachment(f.filename, UPLOADS_URL + f.filename, f.mimetype, f.size)
  }

  /** Existing attachments first, in their order, then one per upload in upload order. */
  function CombinedAttachments(existing: seq<Attachment>, files: seq<UploadedFile>): (r: seq<Attachment>)
    ensures |r| == |existing| + |files|
    ensures r[..|existing|] == existing
    ensures forall i :: 0 <= i < |files| ==> r[|existing| + i] == NewAttachment(files[i])
  {
    existing + seq(|files|, i requires 0 <= i < |files| => NewAttachment(files[i]))
  }

  /** `JSON.parse(req.body.existingAttachments || "[]")`: an absent or empty field means none. */
  function ExistingAttachments(field: Option<seq<Attachment>>): seq<Attachment> {
    field.GetOr([])
  }

  // ------------------------------------------------------- order payloads

  /**
   * The order fields of a payload object; `None` is a key the object does
   * not carry. `otherData` from the request body has this type too.
   */
  datatype OrderData = OrderData(
    id: Option<string>,
    patientId: Option<string>,
    createdById: Option<string>,
    wardId: Option<string>,
    drugs: Option<seq<DrugEntry>>,
    attachments: Option<AttachmentsValue>,
    notes: Option<string>,
    startDate: Option<DateValue>,
    completionDate: Option<DateValue>)

  /** `{ ...base, ...other }`: every key `other` carries wins, every other key comes from `base`. */
  function Merge(base: OrderData, other: OrderData): (r: OrderData)
    ensures other.id.Some? ==> r.id == other.id
    ensures other.id.None? ==> r.id == base.id
    ensures other.patientId.Some? ==> r.patientId == other.patientId
    ensures other.patientId.None? ==> r.patientId == base.patientId
    ensures other.createdById.Some? ==> r.createdById == other.createdById
    ensures other.createdById.None? ==> r.createdById == base.createdById
    ensures other.wardId.Some? ==> r.wardId == other.wardId
    ensures other.wardId.None? ==> r.wardId == base.wardId
    ensures other.drugs.Some? ==> r.drugs == other.drugs
    ensures other.drugs.None? ==> r.drugs == base.drugs
    ensures other.attachments.Some? ==> r.attachments == other.attachments
    ensures other.attachments.None? ==> r.attachments == base.attachments
    ensures other.notes.Some? ==> r.notes == other.notes
    ensures other.notes.None? ==> r.notes == base.notes
    ensures other.startDate.Some? ==> r.startDate == other.startDate
    ensures other.startDate.None? ==> r.startDate == base.startDate
    ensures other.completionDate.Some? ==> r.completionDate == other.completionDate
    ensures other.completionDate.None? ==> r.completionDate == base.completionDate
  {
    OrderData(
      other.id.Or(base.id),
      other.patientId.Or(base.patientId),
      other.createdById.Or(base.createdById),
      other.wardId.Or(base.wardId),
      other.drugs.Or(base.drugs),
      other.attachments.Or(base.attachments),
      other.notes.Or(base.notes),
      other.startDate.Or(base.startDate),
      other.completionDate.Or(base.completionDate))
  }

  /**
   * `normaliseDates`: a copy in which `startDate` and `completionDate` are
   * always present, as a `Date` when truthy and `null` otherwise; every
   * other key is kept.
   */
  function NormaliseDates(p: OrderData): (r: OrderData)
    ensures r.startDate == Some(NormaliseDate(p.startDate))
    ensures r.completionDate == Some(NormaliseDate(p.completionDate))
    ensures r.(startDate := p.startDate, completionDate := p.completionDate) == p
  {
    p.(startDate := Some(NormaliseDate(p.startDate)),
       completionDate := Some(NormaliseDate(p.completionDate)))
  }

  /** Normalising normalised dates changes nothing. */
  lemma NormaliseDatesIdempotent(p: OrderData)
    ensures NormaliseDates(NormaliseDates(p)) == NormaliseDates(p)
  {
    var v := NormaliseDate(p.startDate);
    var w := NormaliseDate(p.completionDate);
    assert NormaliseDate(Some(v)) == v;
    assert NormaliseDate(Some(w)) == w;
  }
}
