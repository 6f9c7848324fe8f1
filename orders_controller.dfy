/**
 * The order controller over an in-memory order table and patient table.
 * Each state-changing handler is specified by a function from the old
 * tables to its response and the new tables (`CreateOutcome`,
 * `UpdateOutcome`, `DeleteOutcome`); the methods of `OrderDatabase`
 * perform the handler's steps and are proved to produce that outcome. The
 * clock, the date of the day, the id the database gives a new patient and
 * the drug catalog are parameters.
 */
module OrdersController {
  import opened Common
  import opened Strings
  import opened OrderIds
  import opened OrderPayload
  import opened OrderRecords
  import opened DrugEnrichment
  import opened OrdersQuery

  const NO_WARD := "User is not assigned to a ward."
  const MISSING_FIELDS := "Missing required fields"
  const ORDER_DELETED := "Order deleted"

  // ------------------------------------------------------- patient upsert

  /** The `patient` field of the body. */
  datatype PatientInput = PatientInput(hn: Option<string>, fullName: Option<string>, an: Option<string>)

  /** The patient table after an upsert, and the id of the patient it names. */
  datatype Upsert = Upsert(patients: seq<Patient>, patientId: string)

  /**
   * `ensurePatientRecord`: `None` (it throws) without a truthy `hn`. An
   * existing `hn` gets the given `fullName` and `an` (an absent one keeps
   * the stored value); a new `hn` is added with the acting ward.
   */
  function UpsertPatient(patients: seq<Patient>, pd: Option<PatientInput>, wardId: Option<string>,
                         newId: string): (r: Option<Upsert>)
    ensures r.None? <==> pd.None? || !Truthy(pd.value.hn)
  {
    if pd.None? || !Truthy(pd.value.hn) then None
    else
      var hn := pd.value.hn.value;
      match FindByHn(patients, hn)
      case Some(k) =>
        var p := patients[k];
        Some(Upsert(patients[k := p.(fullName := pd.value.fullName.Or(p.fullName), an := pd.value.an.Or(p.an))], p.id))
      case None =>
        Some(Upsert(patients + [Patient(newId, hn, pd.value.fullName, pd.value.an, wardId)], newId))
  }

  /** An existing hospital number: only that patient's `fullName` and `an` change, never the ward. */
  lemma UpsertExisting(patients: seq<Patient>, pd: PatientInput, wardId: Option<string>, newId: string, k: int)
    requires UniquePatients(patients) && Truthy(pd.hn)
    requires 0 <= k < |patients| && patients[k].hn == pd.hn.value
    ensures var r := UpsertPatient(patients, Some(pd), wardId, newId).value;
      r.patientId == patients[k].id && |r.patients| == |patients| &&
      r.patients[k] == patients[k].(fullName := pd.fullName.Or(patients[k].fullName), an := pd.an.Or(patients[k].an)) &&
      forall i :: 0 <= i < |patients| && i != k ==> r.patients[i] == patients[i]
  {
  }

  /** A new hospital number: one patient is appended, in the acting ward, with the fresh id. */
  lemma UpsertNew(patients: seq<Patient>, pd: PatientInput, wardId: Option<string>, newId: string)
    requires Truthy(pd.hn)
    requires forall i :: 0 <= i < |patients| ==> patients[i].hn != pd.hn.value
    ensures UpsertPatient(patients, Some(pd), wardId, newId) ==
      Some(Upsert(patients + [Patient(newId, pd.hn.value, pd.fullName, pd.an, wardId)], newId))
  {
  }

  /** The upsert keeps hospital numbers and ids unique, and the named patient exists. */
  lemma UpsertKeepsUnique(patients: seq<Patient>, pd: Option<PatientInput>, wardId: Option<string>, newId: string)
    requires UniquePatients(patients) && !HasPatientId(patients, newId)
    requires UpsertPatient(patients, pd, wardId, newId).Some?
    ensures var r := UpsertPatient(patients, pd, wardId, newId).value;
      UniquePatients(r.patients) && HasPatientId(r.patients, r.patientId)
  {
    var r := UpsertPatient(patients, pd, wardId, newId).value;
    var hn := pd.value.hn.value;
    var f := FindByHn(patients, hn);
    if f.Some? {
      assert r.patients[f.value].id == r.patientId;
      forall i, j | 0 <= i < j < |r.patients|
        ensures r.patients[i].hn != r.patients[j].hn && r.patients[i].id != r.patients[j].id
      {
        assert r.patients[i].hn == patients[i].hn && r.patients[i].id == patients[i].id;
        assert r.patients[j].hn == patients[j].hn && r.patients[j].id == patients[j].id;
      }
    } else {
      var n := |patients|;
      assert r.patients[n].id == r.patientId;
      forall i, j | 0 <= i < j < |r.patients|
        ensures r.patients[i].hn != r.patients[j].hn && r.patients[i].id != r.patients[j].id
      {
        if j == n {
          assert r.patients[i] == patients[i];
        }
      }
    }
  }

  // --------------------------------------------------------------- create

  /** The multipart body of a create or update request, its JSON fields decoded. */
  datatype OrderRequest = OrderRequest(
    patient: Option<PatientInput>,
    drugs: DrugsField,
    otherData: OrderData,
    createdById: Option<string>,
    notes: Option<string>,
    existingAttachments: Option<seq<Attachment>>,
    files: seq<UploadedFile>)

  /** A handler's response together with the tables it leaves behind. */
  datatype Outcome<T> = Outcome(response: Response<T>, orders: seq<Order>, patients: seq<Patient>)

  function Ids(orders: seq<Order>): (r: seq<string>)
    ensures |r| == |orders| && forall i :: 0 <= i < |orders| ==> r[i] == orders[i].id
  {
    seq(|orders|, i requires 0 <= i < |orders| => orders[i].id)
  }

  function StoredAttachments(req: OrderRequest): AttachmentsValue {
    AttachmentList(CombinedAttachments(ExistingAttachments(req.existingAttachments), req.files))
  }

  /** `normaliseDates({ id, patientId, createdById, wardId, drugs, attachments, notes, ...otherData })`. */
  function CreateData(id: string, patientId: string, u: User, req: OrderRequest, lines: seq<DrugInput>): OrderData {
    NormaliseDates(Merge(
      OrderData(Some(id), Some(patientId), req.createdById, u.wardId, Some(MapDrugsPayload(lines)),
                Some(StoredAttachments(req)), req.notes, None, None),
      req.otherData))
  }

  /** The row `order.create` stores; an absent column is `null`. */
  function NewRow(d: OrderData, now: int): Order {
    Order(d.id.GetOr(""), d.patientId.GetOr(""), d.createdById, d.wardId, d.drugs,
          d.attachments.GetOr(NoAttachments), d.notes, d.startDate.GetOr(NullDate),
          d.completionDate.GetOr(NullDate), now, now)
  }

  /**
   * `createOrder`: 403 without a ward; 500 when the upsert throws, when
   * `drugs` is not an array (after the patient upsert), and when the
   * database refuses the row because its id is taken or a date is an
   * Invalid Date (again after the upsert); otherwise 201 with the new row.
   */
  function CreateOutcome(orders: seq<Order>, patients: seq<Patient>, u: User, req: OrderRequest,
                         newPatientId: string, now: int, year: nat, month: nat, day: nat): Outcome<Order>
  {
    if !WardScoped(u) then Outcome(Failure(403, NO_WARD), orders, patients)
    else
      match UpsertPatient(patients, req.patient, u.wardId, newPatientId)
      case None => Outcome(Failure(500, INTERNAL_ERROR), orders, patients)
      case Some(up) =>
        if req.drugs.NotAnArray? then Outcome(Failure(500, INTERNAL_ERROR), orders, up.patients)
        else
          var id := GenerateOrderId(Ids(orders), year, month, day);
          var row := NewRow(CreateData(id, up.patientId, u, req, req.drugs.lines), now);
          if HasOrderId(orders, row.id) || HasInvalidDate(row) then
            Outcome(Failure(500, INTERNAL_ERROR), orders, up.patients)
          else Outcome(Success(201, row), orders + [row], up.patients)
  }

  // --------------------------------------------------------------- update

  /** `normaliseDates({ patientId, createdById, drugs, attachments, notes, ...otherData })`. */
  function UpdateData(patientId: string, createdById: Option<string>, req: OrderRequest,
                      lines: seq<DrugInput>): OrderData {
    NormaliseDates(Merge(
      OrderData(None, Some(patientId), createdById, None, Some(MapDrugsPayload(lines)),
                Some(StoredAttachments(req)), req.notes, None, None),
      req.otherData))
  }

  /** `order.update`: every present key is written, every absent one kept; `updatedAt` is the clock. */
  function ApplyUpdate(o: Order, d: OrderData, now: int): Order {
    Order(d.id.GetOr(o.id), d.patientId.GetOr(o.patientId), d.createdById.Or(o.createdById),
          d.wardId.Or(o.wardId), d.drugs.Or(o.drugs), d.attachments.GetOr(o.attachments),
          d.notes.Or(o.notes), d.startDate.GetOr(o.startDate), d.completionDate.GetOr(o.completionDate),
          o.createdAt, now)
  }

  /** `req.body.createdById || existing.createdById`. */
  function CreatorOf(req: OrderRequest, existing: Order): Option<string> {
    if Truthy(req.createdById) then req.createdById else existing.createdById
  }

  predicate MissingFields(req: OrderRequest) {
    req.patient.None? || !Truthy(req.patient.value.hn) || req.drugs.NotAnArray?
  }

  /**
   * `updateOrder`: 404 for an unknown id, then 403 without a ward, then 400
   * for a missing patient `hn` or non-array `drugs`; 500 when the database
   * refuses the row because a new id in `otherData` is taken or a date is
   * an Invalid Date (after the patient upsert); otherwise 200 with the
   * updated row.
   */
  function UpdateOutcome(orders: seq<Order>, patients: seq<Patient>, u: User, id: string, req: OrderRequest,
                         newPatientId: string, now: int): Outcome<Order>
  {
    match FindOrder(orders, id)
    case None => Outcome(Failure(404, ORDER_NOT_FOUND), orders, patients)
    case Some(k) =>
      if !WardScoped(u) then Outcome(Failure(403, NO_WARD), orders, patients)
      else if MissingFields(req) then Outcome(Failure(400, MISSING_FIELDS), orders, patients)
      else
        match UpsertPatient(patients, req.patient, u.wardId, newPatientId)
        case None => Outcome(Failure(500, INTERNAL_ERROR), orders, patients)
        case Some(up) =>
          var row := ApplyUpdate(orders[k], UpdateData(up.patientId, CreatorOf(req, orders[k]), req, req.drugs.lines), now);
          if (row.id != id && HasOrderId(orders, row.id)) || HasInvalidDate(row) then
            Outcome(Failure(500, INTERNAL_ERROR), orders, up.patients)
          else Outcome(Success(200, row), orders[k := row], up.patients)
  }

  // --------------------------------------------------------------- delete

  /** `deleteOrder`: 404 for an unknown id, otherwise that row is removed. No ward check. */
  function DeleteOutcome(orders: seq<Order>, id: string): (Response<string>, seq<Order>) {
    match FindOrder(orders, id)
    case None => (Failure(404, ORDER_NOT_FOUND), orders)
    case Some(k) => (Success(200, ORDER_DELETED), orders[..k] + orders[k + 1..])
  }

  // --------------------------------------------------------------- lemmas

  /** Create: 403 exactly without a ward, and then nothing changes; a missing `hn` is a 500 that changes nothing. */
  lemma CreateRejections(orders: seq<Order>, patients: seq<Patient>, u: User, req: OrderRequest,
                         newPatientId: string, now: int, year: nat, month: nat, day: nat)
    ensures var out := CreateOutcome(orders, patients, u, req, newPatientId, now, year, month, day);
      (out.response == Failure(403, NO_WARD) <==> !WardScoped(u)) &&
      (!WardScoped(u) ==> out.orders == orders && out.patients == patients) &&
      (WardScoped(u) && (req.patient.None? || !Truthy(req.patient.value.hn)) ==>
         out == Outcome(Failure(500, INTERNAL_ERROR), orders, patients))
  {
  }

  /**
   * A created order is appended as the response row: its id is the
   * generated one, its ward the user's, its drugs the mapped lines and its
   * attachments the existing ones followed by the uploads, each unless
   * `otherData` carries that key; its dates are normalised and both
   * timestamps are the clock.
   */
  lemma CreateStoresOrder(orders: seq<Order>, patients: seq<Patient>, u: User, req: OrderRequest,
                          newPatientId: string, now: int, year: nat, month: nat, day: nat)
    requires CreateOutcome(orders, patients, u, req, newPatientId, now, year, month, day).response.Success?
    ensures var out := CreateOutcome(orders, patients, u, req, newPatientId, now, year, month, day);
      var row := out.response.value;
      var od := req.otherData;
      var up := UpsertPatient(patients, req.patient, u.wardId, newPatientId);
      out.response.status == 201 && out.orders == orders + [row] &&
      up.Some? && out.patients == up.value.patients && req.drugs.DrugArray? &&
      row.id == od.id.GetOr(GenerateOrderId(Ids(orders), year, month, day)) &&
      row.patientId == od.patientId.GetOr(up.value.patientId) &&
      row.wardId == od.wardId.Or(u.wardId) &&
      row.createdById == od.createdById.Or(req.createdById) &&
      row.drugs == od.drugs.Or(Some(MapDrugsPayload(req.drugs.lines))) &&
      row.attachments == od.attachments.GetOr(StoredAttachments(req)) &&
      row.notes == od.notes.Or(req.notes) &&
      row.startDate == NormaliseDate(od.startDate) &&
      row.completionDate == NormaliseDate(od.completionDate) &&
      !HasInvalidDate(row) &&
      row.createdAt == now && row.updatedAt == now
  {
    var up := UpsertPatient(patients, req.patient, u.wardId, newPatientId).value;
    var id := GenerateOrderId(Ids(orders), year, month, day);
    CreatedRow(id, up.patientId, u, req, req.drugs.lines, now);
  }

  /**
   * Create: once the patient upsert has run and `drugs` is an array, a
   * start or completion date that is an Invalid Date is a 500 that keeps
   * the order table and the upserted patients.
   */
  lemma CreateRejectsInvalidDate(orders: seq<Order>, patients: seq<Patient>, u: User, req: OrderRequest,
                                 newPatientId: string, now: int, year: nat, month: nat, day: nat)
    requires WardScoped(u) && req.drugs.DrugArray?
    requires UpsertPatient(patients, req.patient, u.wardId, newPatientId).Some?
    requires InvalidDate(NormaliseDate(req.otherData.startDate)) ||
             InvalidDate(NormaliseDate(req.otherData.completionDate))
    ensures CreateOutcome(orders, patients, u, req, newPatientId, now, year, month, day) ==
      Outcome(Failure(500, INTERNAL_ERROR), orders, UpsertPatient(patients, req.patient, u.wardId, newPatientId).value.patients)
  {
    var up := UpsertPatient(patients, req.patient, u.wardId, newPatientId).value;
    CreatedRow(GenerateOrderId(Ids(orders), year, month, day), up.patientId, u, req, req.drugs.lines, now);
  }

  /** The row built for a create: each column from `otherData` when it carries that key. */
  lemma CreatedRow(id: string, patientId: string, u: User, req: OrderRequest, lines: seq<DrugInput>, now: int)
    ensures var row := NewRow(CreateData(id, patientId, u, req, lines), now);
      var od := req.otherData;
      row.id == od.id.GetOr(id) &&
      row.patientId == od.patientId.GetOr(patientId) &&
      row.wardId == od.wardId.Or(u.wardId) &&
      row.createdById == od.createdById.Or(req.createdById) &&
      row.drugs == od.drugs.Or(Some(MapDrugsPayload(lines))) &&
      row.attachments == od.attachments.GetOr(StoredAttachments(req)) &&
      row.notes == od.notes.Or(req.notes) &&
      row.startDate == NormaliseDate(od.startDate) &&
      row.completionDate == NormaliseDate(od.completionDate) &&
      row.createdAt == now && row.updatedAt == now
  {
  }

  /** Create keeps order ids, hospital numbers and patient ids unique. */
  lemma CreateKeepsUnique(orders: seq<Order>, patients: seq<Patient>, u: User, req: OrderRequest,
                          newPatientId: string, now: int, year: nat, month: nat, day: nat)
    requires UniqueOrderIds(orders) && UniquePatients(patients) && !HasPatientId(patients, newPatientId)
    ensures var out := CreateOutcome(orders, patients, u, req, newPatientId, now, year, month, day);
      UniqueOrderIds(out.orders) && UniquePatients(out.patients)
  {
    var out := CreateOutcome(orders, patients, u, req, newPatientId, now, year, month, day);
    if WardScoped(u) && UpsertPatient(patients, req.patient, u.wardId, newPatientId).Some? {
      UpsertKeepsUnique(patients, req.patient, u.wardId, newPatientId);
    }
  }

  /**
   * While every id of the day is canonical and numbered below 999, a valid
   * create request without an id of its own and without an Invalid Date
   * always succeeds: the generated id is fresh.
   */
  lemma CreateSucceeds(orders: seq<Order>, patients: seq<Patient>, u: User, req: OrderRequest,
                       newPatientId: string, now: int, year: nat, month: nat, day: nat)
    requires WardScoped(u) && !MissingFields(req) && req.otherData.id.None?
    requires !InvalidDate(NormaliseDate(req.otherData.startDate)) &&
             !InvalidDate(NormaliseDate(req.otherData.completionDate))
    requires var p := DatePrefix(year, month, day);
      forall i :: 0 <= i < |orders| && p <= orders[i].id ==>
        Canonical(orders[i].id, p) && SuffixValue(orders[i].id, p) < 999
    ensures CreateOutcome(orders, patients, u, req, newPatientId, now, year, month, day).response.Success?
  {
    var ids := Ids(orders);
    var g := GenerateOrderId(ids, year, month, day);
    GeneratedIdIsFresh(ids, year, month, day);
    forall i | 0 <= i < |orders| ensures orders[i].id != g {
      assert ids[i] == orders[i].id;
    }
    var up := UpsertPatient(patients, req.patient, u.wardId, newPatientId).value;
    CreatedRow(g, up.patientId, u, req, req.drugs.lines, now);
  }

  /** Update: 404 for an unknown id for every user, then 403 without a ward, then 400; none of them changes a table. */
  lemma UpdateRejections(orders: seq<Order>, patients: seq<Patient>, u: User, id: string, req: OrderRequest,
                         newPatientId: string, now: int)
    ensures var out := UpdateOutcome(orders, patients, u, id, req, newPatientId, now);
      (out.response == Failure(404, ORDER_NOT_FOUND) <==> !HasOrderId(orders, id)) &&
      (out.response == Failure(403, NO_WARD) <==> HasOrderId(orders, id) && !WardScoped(u)) &&
      (out.response == Failure(400, MISSING_FIELDS) <==> HasOrderId(orders, id) && WardScoped(u) && MissingFields(req)) &&
      (out.response.Failure? && out.response.status != 500 ==> out.orders == orders && out.patients == patients)
  {
  }

  /** A ward user may update an order of any ward: update never answers 403 to ward staff. */
  lemma UpdateHasNoOrderWardCheck(orders: seq<Order>, patients: seq<Patient>, u: User, id: string,
                                  req: OrderRequest, newPatientId: string, now: int)
    requires WardScoped(u)
    ensures UpdateOutcome(orders, patients, u, id, req, newPatientId, now).response.status != 403
  {
  }

  /**
   * A successful update replaces that row only and stores the upserted
   * patients. It keeps the row's `createdAt`; its patient is the upserted
   * one and its drugs the mapped lines; its creator is the given one, else
   * the stored one; its notes are kept when none are given; its
   * attachments are the existing ones followed by the uploads; and its
   * dates become `null` unless `otherData` gives them again. Each column
   * is `otherData`'s value when it carries that key.
   */
  lemma UpdateReplacesRow(orders: seq<Order>, patients: seq<Patient>, u: User, id: string, req: OrderRequest,
                          newPatientId: string, now: int, k: int)
    requires UniqueOrderIds(orders) && 0 <= k < |orders| && orders[k].id == id
    requires UpdateOutcome(orders, patients, u, id, req, newPatientId, now).response.Success?
    ensures var out := UpdateOutcome(orders, patients, u, id, req, newPatientId, now);
      var row := out.response.value;
      var od := req.otherData;
      var up := UpsertPatient(patients, req.patient, u.wardId, newPatientId);
      out.response.status == 200 && out.orders == orders[k := row] &&
      up.Some? && out.patients == up.value.patients && req.drugs.DrugArray? &&
      row.createdAt == orders[k].createdAt && row.updatedAt == now &&
      row.id == od.id.GetOr(id) &&
      row.patientId == od.patientId.GetOr(up.value.patientId) &&
      row.wardId == od.wardId.Or(orders[k].wardId) &&
      (od.createdById.Some? ==> row.createdById == od.createdById) &&
      (od.createdById.None? ==>
         row.createdById == (if Truthy(req.createdById) then req.createdById else orders[k].createdById)) &&
      row.drugs == od.drugs.Or(Some(MapDrugsPayload(req.drugs.lines))) &&
      (od.notes.Some? ==> row.notes == od.notes) &&
      (od.notes.None? ==> row.notes == req.notes.Or(orders[k].notes)) &&
      row.attachments == od.attachments.GetOr(StoredAttachments(req)) &&
      row.startDate == NormaliseDate(od.startDate) &&
      row.completionDate == NormaliseDate(od.completionDate) &&
      !HasInvalidDate(row)
  {
    FindOrderUnique(orders, id, k);
  }

  /**
   * Update: once the patient upsert has run, a start or completion date
   * that is an Invalid Date is a 500 that keeps the order table and the
   * upserted patients.
   */
  lemma UpdateRejectsInvalidDate(orders: seq<Order>, patients: seq<Patient>, u: User, id: string,
                                 req: OrderRequest, newPatientId: string, now: int)
    requires HasOrderId(orders, id) && WardScoped(u) && !MissingFields(req)
    requires UpsertPatient(patients, req.patient, u.wardId, newPatientId).Some?
    requires InvalidDate(NormaliseDate(req.otherData.startDate)) ||
             InvalidDate(NormaliseDate(req.otherData.completionDate))
    ensures UpdateOutcome(orders, patients, u, id, req, newPatientId, now) ==
      Outcome(Failure(500, INTERNAL_ERROR), orders, UpsertPatient(patients, req.patient, u.wardId, newPatientId).value.patients)
  {

  }

  /** Update keeps order ids, hospital numbers and patient ids unique. */
  lemma UpdateKeepsUnique(orders: seq<Order>, patients: seq<Patient>, u: User, id: string, req: OrderRequest,
                          newPatientId: string, now: int)
    requires UniqueOrderIds(orders) && UniquePatients(patients) && !HasPatientId(patients, newPatientId)
    ensures var out := UpdateOutcome(orders, patients, u, id, req, newPatientId, now);
      UniqueOrderIds(out.orders) && UniquePatients(out.patients)
  {
    var out := UpdateOutcome(orders, patients, u, id, req, newPatientId, now);
    var f := FindOrder(orders, id);
    if f.Some? && WardScoped(u) && !MissingFields(req) {
      UpsertKeepsUnique(patients, req.patient, u.wardId, newPatientId);
      if out.response.Success? {
        var k := f.value;
        var row := out.response.value;
        forall i, j | 0 <= i < j < |out.orders| ensures out.orders[i].id != out.orders[j].id {
          if i == k {
            assert out.orders[j] == orders[j];
          } else if j == k {
            assert out.orders[i] == orders[i];
          }
        }
      }
    }
  }

  /** Removing the row at `k` keeps every other row, in order, and only those. */
  lemma RemoveAt(orders: seq<Order>, k: int)
    requires UniqueOrderIds(orders) && 0 <= k < |orders|
    ensures var after := orders[..k] + orders[k + 1..];
      |after| == |orders| - 1 && UniqueOrderIds(after) && !HasOrderId(after, orders[k].id) &&
      forall i :: 0 <= i < |orders| && i != k ==> orders[i] in after
  {
    var after := orders[..k] + orders[k + 1..];
    assert forall i :: 0 <= i < k ==> after[i] == orders[i];
    assert forall i :: k < i < |orders| ==> after[i - 1] == orders[i];
    forall i | 0 <= i < |orders| && i != k ensures orders[i] in after {
      if i < k { assert after[i] == orders[i]; } else { assert after[i - 1] == orders[i]; }
    }
    forall j | 0 <= j < |after| ensures after[j].id != orders[k].id {
      if j < k { assert after[j] == orders[j]; } else { assert after[j] == orders[j + 1]; }
    }
  }

  /** Delete: 404 exactly for an unknown id; otherwise the table loses that row and keeps the others in order. */
  lemma DeleteRemovesExactly(orders: seq<Order>, id: string)
    requires UniqueOrderIds(orders)
    ensures var (r, after) := DeleteOutcome(orders, id);
      (r == Failure(404, ORDER_NOT_FOUND) <==> !HasOrderId(orders, id)) &&
      (r.Failure? ==> after == orders) &&
      (r.Success? ==>
         r.value == ORDER_DELETED && |after| == |orders| - 1 && !HasOrderId(after, id) &&
         UniqueOrderIds(after) &&
         forall i :: 0 <= i < |orders| && orders[i].id != id ==> orders[i] in after)
  {
    var f := FindOrder(orders, id);
    if f.Some? {
      RemoveAt(orders, f.value);
    }
  }

  /** Existing attachment `A` with upload `C` is stored as `[A, C]`, the existing one first. */
  lemma AttachmentOrderExample(a: Attachment, c: UploadedFile)
    ensures CombinedAttachments(ExistingAttachments(Some([a])), [c]) ==
      [a, Attachment(c.filename, "/public/uploads/" + c.filename, c.mimetype, c.size)]
  {
  }

  // ------------------------------------------------------------- database

  class OrderDatabase {
    var orders: seq<Order>
    var patients: seq<Patient>

    predicate Valid()
      reads this
    {
      UniqueOrderIds(orders) && UniquePatients(patients)
    }

    constructor(orders0: seq<Order>, patients0: seq<Patient>)
      requires UniqueOrderIds(orders0) && UniquePatients(patients0)
      ensures Valid() && orders == orders0 && patients == patients0
    {
      orders := orders0;
      patients := patients0;
    }

    /** `getAllOrders`. */
    method GetAllOrders(catalog: map<string, string>, u: User, q: ListQuery, dateOf: string -> Option<int>)
      returns (r: Response<OrdersReply>)
      ensures r == AllOrders(orders, catalog, u, q, dateOf)
    {
      if LatestRequested(q) {
        var c := LatestCandidates(orders, u, q);
        var picked := EnrichOrders(if c == [] then [] else [c[0]], catalog);
        r := Success(200, LatestOrder(if picked == [] then None else Some(Respond(picked[0]))));
        return;
      }
      var lo, hi := 0, 0;
      if RangeRequested(q) {
        var start, end := dateOf(q.startDate.value), dateOf(q.endDate.value);
        if start.None? || end.None? {
          return Failure(500, INTERNAL_ERROR);
        }
        lo, hi := start.value, end.value;
      }
      var rows := EnrichOrders(ListRows(orders, u, q, lo, hi), catalog);
      r := Success(200, OrderList(RespondAll(rows)));
    }

    /** `getOrderById`. */
    method GetOrderById(catalog: map<string, string>, u: User, id: string) returns (r: Response<Order>)
      ensures r == OrderById(orders, catalog, u, id)
    {
      var k := FindOrder(orders, id);
      if k.None? {
        return Failure(404, ORDER_NOT_FOUND);
      }
      var order := orders[k.value];
      if WardScoped(u) && order.wardId != u.wardId {
        return Failure(403, ORDER_FORBIDDEN);
      }
      var enriched := EnrichOrders([order], catalog);
      r := Success(200, Respond(enriched[0]));
    }

    /** `ensurePatientRecord`: `None` when it throws, else the patient's id. */
    method EnsurePatientRecord(pd: Option<PatientInput>, wardId: Option<string>, newId: string)
      returns (patientId: Option<string>)
      modifies this
      ensures var up := UpsertPatient(old(patients), pd, wardId, newId);
        (up.None? ==> patientId.None? && patients == old(patients)) &&
        (up.Some? ==> patientId == Some(up.value.patientId) && patients == up.value.patients)
      ensures orders == old(orders)
    {
      if pd.None? || pd.value.hn.None? || pd.value.hn.value == "" {
        return None;
      }
      var hn := pd.value.hn.value;
      var k := FindByHn(patients, hn);
      if k.Some? {
        var p := patients[k.value];
        patients := patients[k.value := p.(fullName := pd.value.fullName.Or(p.fullName), an := pd.value.an.Or(p.an))];
        patientId := Some(p.id);
      } else {
        patients := patients + [Patient(newId, hn, pd.value.fullName, pd.value.an, wardId)];
        patientId := Some(newId);
      }
    }

    /** `createOrder`. */
    method CreateOrder(u: User, req: OrderRequest, newPatientId: string, now: int, year: nat, month: nat, day: nat)
      returns (r: Response<Order>)
      requires Valid() && !HasPatientId(patients, newPatientId)
      modifies this
      ensures Valid()
      ensures var out := CreateOutcome(old(orders), old(patients), u, req, newPatientId, now, year, month, day);
        r == out.response && orders == out.orders && patients == out.patients
    {
      CreateKeepsUnique(orders, patients, u, req, newPatientId, now, year, month, day);
      if !WardScoped(u) {
        return Failure(403, NO_WARD);
      }
      var patientId := EnsurePatientRecord(req.patient, u.wardId, newPatientId);
      if patientId.None? {
        return Failure(500, INTERNAL_ERROR);
      }
      if req.drugs.NotAnArray? {
        return Failure(500, INTERNAL_ERROR);
      }
      var id := GenerateOrderId(Ids(orders), year, month, day);
      var row := NewRow(CreateData(id, patientId.value, u, req, req.drugs.lines), now);
      if FindOrder(orders, row.id).Some? || HasInvalidDate(row) {
        return Failure(500, INTERNAL_ERROR);
      }
      orders := orders + [row];
      r := Success(201, row);
    }

    /** `updateOrder`. */
    method UpdateOrder(u: User, id: string, req: OrderRequest, newPatientId: string, now: int)
      returns (r: Response<Order>)
      requires Valid() && !HasPatientId(patients, newPatientId)
      modifies this
      ensures Valid()
      ensures var out := UpdateOutcome(old(orders), old(patients), u, id, req, newPatientId, now);
        r == out.response && orders == out.orders && patients == out.patients
    {
      UpdateKeepsUnique(orders, patients, u, id, req, newPatientId, now);
      var k := FindOrder(orders, id);
      if k.None? {
        return Failure(404, ORDER_NOT_FOUND);
      }
      if !WardScoped(u) {
        return Failure(403, NO_WARD);
      }
      var existing := orders[k.value];
      var createdById := CreatorOf(req, existing);
      if MissingFields(req) {
        return Failure(400, MISSING_FIELDS);
      }
      var patientId := EnsurePatientRecord(req.patient, u.wardId, newPatientId);
      var row := ApplyUpdate(existing, UpdateData(patientId.value, createdById, req, req.drugs.lines), now);
      if (row.id != id && FindOrder(orders, row.id).Some?) || HasInvalidDate(row) {
        return Failure(500, INTERNAL_ERROR);
      }
      orders := orders[k.value := row];
      r := Success(200, row);
    }

    /** `deleteOrder`. */
    method DeleteOrder(id: string) returns (r: Response<string>)
      requires Valid()
      modifies this
      ensures Valid()
      ensures (r, orders) == DeleteOutcome(old(orders), id) && patients == old(patients)
    {
      DeleteRemovesExactly(orders, id);
      var k := FindOrder(orders, id);
      if k.None? {
        return Failure(404, ORDER_NOT_FOUND);
      }
      orders := orders[..k.value] + orders[k.value + 1..];
      r := Success(200, ORDER_DELETED);
    }
  }
}
