/**
 * The rows of the order and patient tables, and the identity the
 * authentication middleware attaches to a request.
 */
module OrderRecords {
  import opened Common
  import opened OrderPayload

  /** An order row. Timestamps are integers; the table may hold rows whose `drugs` is `null`. */
  datatype Order = Order(
    id: string,
    patientId: string,
    createdById: Option<string>,
    wardId: Option<string>,
    drugs: Option<seq<DrugEntry>>,
    attachments: AttachmentsValue,
    notes: Option<string>,
    startDate: DateValue,
    completionDate: DateValue,
    createdAt: int,
    updatedAt: int)

  /** A row the database refuses: a date column holds an Invalid Date. */
  predicate HasInvalidDate(o: Order) {
    InvalidDate(o.startDate) || InvalidDate(o.completionDate)
  }

  /** A patient row: `hn` (hospital number) is unique, `an` is the admission number. */
  datatype Patient = Patient(
    id: string, hn: string, fullName: Option<string>, an: Option<string>, wardId: Option<string>)

  /** The authenticated user: an id and, for ward staff, a ward. */
  datatype User = User(id: string, wardId: Option<string>)

  /** `order.drugs ?? []`. */
  function DrugsOf(o: Order): seq<DrugEntry> {
    o.drugs.GetOr([])
  }

  /** The user is ward staff: `if (userWardId)`. */
  predicate WardScoped(u: User) {
    Truthy(u.wardId)
  }

  /** An order a ward-scoped user may see: its ward is the user's. */
  predicate InWardOf(o: Order, u: User) {
    !WardScoped(u) || o.wardId == u.wardId
  }

  /** The ids of a table are pairwise distinct. */
  predicate UniqueOrderIds(orders: seq<Order>) {
    forall i, j :: 0 <= i < j < |orders| ==> orders[i].id != orders[j].id
  }

  predicate HasOrderId(orders: seq<Order>, id: string) {
    exists i :: 0 <= i < |orders| && orders[i].id == id
  }

  /** The position of the order with id `id`, if there is one. */
  function FindOrder(orders: seq<Order>, id: string): (r: Option<nat>)
    ensures r.Some? ==> r.value < |orders| && orders[r.value].id == id
    ensures r.None? <==> !HasOrderId(orders, id)
    decreases |orders|
  {
    if orders == [] then None
    else if orders[0].id == id then Some(0)
    else
      var k := FindOrder(orders[1..], id);
      assert forall i :: 1 <= i < |orders| ==> orders[i] == orders[1..][i - 1];
      if k.Some? then Some(k.value + 1) else None
  }

  /** In a table with unique ids the lookup finds the only row with that id. */
  lemma FindOrderUnique(orders: seq<Order>, id: string, i: int)
    requires UniqueOrderIds(orders) && 0 <= i < |orders| && orders[i].id == id
    ensures FindOrder(orders, id) == Some(i)
  {
  }

  /** Hospital numbers and patient ids are each pairwise distinct. */
  predicate UniquePatients(patients: seq<Patient>) {
    forall i, j :: 0 <= i < j < |patients| ==> patients[i].hn != patients[j].hn && patients[i].id != patients[j].id
  }

  predicate HasPatientId(patients: seq<Patient>, id: string) {
    exists i :: 0 <= i < |patients| && patients[i].id == id
  }

  /** The position of the patient with hospital number `hn`, if there is one. */
  function FindByHn(patients: seq<Patient>, hn: string): (r: Option<nat>)
    ensures r.Some? ==> r.value < |patients| && patients[r.value].hn == hn
    ensures r.None? <==> forall i :: 0 <= i < |patients| ==> patients[i].hn != hn
    decreases |patients|
  {
    if patients == [] then None
    else if patients[0].hn == hn then Some(0)
    else
      var k := FindByHn(patients[1..], hn);
      assert forall i :: 1 <= i < |patients| ==> patients[i] == patients[1..][i - 1];
      if k.Some? then Some(k.value + 1) else None
  }

  /** The position of the patient with id `id`, if there is one. */
  function FindPatient(patients: seq<Patient>, id: string): (r: Option<nat>)
    ensures r.Some? ==> r.value < |patients| && patients[r.value].id == id
    ensures r.None? <==> !HasPatientId(patients, id)
    decreases |patients|
  {
    if patients == [] then None
    else if patients[0].id == id then Some(0)
    else
      var k := FindPatient(patients[1..], id);
      assert forall i :: 1 <= i < |patients| ==> patients[i] == patients[1..][i - 1];
      if k.Some? then Some(k.value + 1) else None
  }
}
