/**
 * The patients controller: ward-scoped patient visibility. A ward user
 * sees a patient only when at least one of the patient's orders is in that
 * ward, and sees only those orders; a user without a ward sees everything.
 */
module PatientsController {
  import opened Common
  import opened Seqs
  import opened OrderRecords

  const PATIENT_NOT_FOUND := "Patient not found"
  const PATIENT_FORBIDDEN := "Forbidden: You do not have access to this patient."

  /** A listed patient with the `orders` relation included. */
  datatype PatientWithOrders = PatientWithOrders(patient: Patient, orders: seq<Order>)

  /** An order of patient `p` that the user may see. */
  predicate VisibleOrderOf(o: Order, p: Patient, u: User) {
    o.patientId == p.id && (WardScoped(u) ==> o.wardId == u.wardId)
  }

  /** `orders: { some: { wardId } }`: the patient has an order in the user's ward. */
  predicate HasOrderInWard(p: Patient, orders: seq<Order>, u: User) {
    exists k :: 0 <= k < |orders| && orders[k].patientId == p.id && orders[k].wardId == u.wardId
  }

  predicate PatientVisible(p: Patient, orders: seq<Order>, u: User) {
    !WardScoped(u) || HasOrderInWard(p, orders, u)
  }

  /** The included `orders` relation of one patient, in table order. */
  function IncludedOrders(p: Patient, orders: seq<Order>, u: User): seq<Order> {
    Filter(orders, o => VisibleOrderOf(o, p, u))
  }

  /** `getAllPatients`: the visible patients in table order, each with its visible orders. */
  function AllPatients(patients: seq<Patient>, orders: seq<Order>, u: User): (r: seq<PatientWithOrders>)
    ensures |r| <= |patients|
    decreases |patients|
  {
    if patients == [] then []
    else
      var p := patients[|patients| - 1];
      AllPatients(patients[..|patients| - 1], orders, u) +
        (if PatientVisible(p, orders, u) then [PatientWithOrders(p, IncludedOrders(p, orders, u))] else [])
  }

  /** `prisma.order.count({ where: { patientId, wardId } })`. */
  function OrdersInWard(id: string, orders: seq<Order>, u: User): nat {
    |Filter(orders, (o: Order) => o.patientId == id && o.wardId == u.wardId)|
  }

  /** `getPatientById`: 404 for an unknown id, then 403 for a ward user with no order of the patient in the ward. */
  function PatientById(patients: seq<Patient>, orders: seq<Order>, u: User, id: string): Response<Patient> {
    match FindPatient(patients, id)
    case None => Failure(404, PATIENT_NOT_FOUND)
    case Some(k) =>
      if WardScoped(u) && OrdersInWard(id, orders, u) == 0 then Failure(403, PATIENT_FORBIDDEN)
      else Success(200, patients[k])
  }

  // --------------------------------------------------------------- lemmas

  /** Patient `p` is among the listed entries `r`. */
  predicate ListedPatient(p: Patient, r: seq<PatientWithOrders>) {
    exists i :: 0 <= i < |r| && r[i].patient == p
  }

  /** The list holds exactly the visible patients, each with its visible orders. */
  lemma {:induction false} AllPatientsExact(patients: seq<Patient>, orders: seq<Order>, u: User)
    ensures var r := AllPatients(patients, orders, u);
      (forall i :: 0 <= i < |r| ==>
         r[i].patient in patients && PatientVisible(r[i].patient, orders, u) &&
         r[i].orders == IncludedOrders(r[i].patient, orders, u)) &&
      (forall k :: 0 <= k < |patients| && PatientVisible(patients[k], orders, u) ==> ListedPatient(patients[k], r))
    decreases |patients|
  {
    if patients != [] {
      var init := patients[..|patients| - 1];
      var last := patients[|patients| - 1];
      AllPatientsExact(init, orders, u);
      assert forall k :: 0 <= k < |init| ==> init[k] == patients[k];
      var r := AllPatients(patients, orders, u);
      var ri := AllPatients(init, orders, u);
      assert forall i :: 0 <= i < |ri| ==> r[i] == ri[i];
      assert forall i :: 0 <= i < |ri| ==>
        ri[i].patient in init && PatientVisible(ri[i].patient, orders, u) &&
        ri[i].orders == IncludedOrders(ri[i].patient, orders, u);
      forall i | 0 <= i < |r|
        ensures r[i].patient in patients && PatientVisible(r[i].patient, orders, u) &&
                r[i].orders == IncludedOrders(r[i].patient, orders, u)
      {
        if i < |ri| {
          assert ri[i].patient in init;
          var k :| 0 <= k < |init| && init[k] == ri[i].patient;
          assert patients[k] == r[i].patient;
        } else {
          assert r[i].patient == last;
        }
      }
      forall k | 0 <= k < |patients| && PatientVisible(patients[k], orders, u)
        ensures ListedPatient(patients[k], r)
      {
        if k < |init| {
          assert ListedPatient(init[k], ri);
          var i :| 0 <= i < |ri| && ri[i].patient == init[k];
          assert r[i].patient == patients[k];
        } else {
          assert r[|ri|].patient == patients[k];
        }
      }
    }
  }

  /** A user without a ward sees every patient with all of the patient's orders. */
  lemma {:induction false} UnscopedSeesAll(patients: seq<Patient>, orders: seq<Order>, u: User)
    requires !WardScoped(u)
    ensures var r := AllPatients(patients, orders, u);
      |r| == |patients| &&
      forall i :: 0 <= i < |r| ==>
        r[i].patient == patients[i] && r[i].orders == Filter(orders, (o: Order) => o.patientId == patients[i].id)
    decreases |patients|
  {
    if patients != [] {
      var init := patients[..|patients| - 1];
      UnscopedSeesAll(init, orders, u);
      var p := patients[|patients| - 1];
      FilterSame(orders, o => VisibleOrderOf(o, p, u), (o: Order) => o.patientId == p.id);
    }
  }

  /** A ward user's listed orders are all of that ward. */
  lemma ListedOrdersInWard(patients: seq<Patient>, orders: seq<Order>, u: User, i: int, j: int)
    requires WardScoped(u)
    requires 0 <= i < |AllPatients(patients, orders, u)|
    requires 0 <= j < |AllPatients(patients, orders, u)[i].orders|
    ensures var e := AllPatients(patients, orders, u)[i];
      e.orders[j].wardId == u.wardId && e.orders[j].patientId == e.patient.id
  {
    AllPatientsExact(patients, orders, u);
  }

  /** The count is zero exactly when no order of the patient is in the ward. */
  lemma CountZeroIff(p: Patient, orders: seq<Order>, u: User)
    ensures OrdersInWard(p.id, orders, u) == 0 <==> !HasOrderInWard(p, orders, u)
  {
    var f := Filter(orders, (o: Order) => o.patientId == p.id && o.wardId == u.wardId);
    if HasOrderInWard(p, orders, u) {
      var k :| 0 <= k < |orders| && orders[k].patientId == p.id && orders[k].wardId == u.wardId;
      assert orders[k] in f;
    }
    if |f| > 0 {
      assert f[0] in orders;
    }
  }

  /** An unknown patient id is 404 whoever asks. */
  lemma UnknownPatientIs404(patients: seq<Patient>, orders: seq<Order>, u: User, id: string)
    ensures PatientById(patients, orders, u, id) == Failure(404, PATIENT_NOT_FOUND) <==> !HasPatientId(patients, id)
  {
  }

  /** A known patient: 403 exactly for a ward user without an order of the patient in the ward, otherwise the patient. */
  lemma KnownPatientAccess(patients: seq<Patient>, orders: seq<Order>, u: User, k: int)
    requires UniquePatients(patients) && 0 <= k < |patients|
    ensures var r := PatientById(patients, orders, u, patients[k].id);
      (r == Failure(403, PATIENT_FORBIDDEN) <==> WardScoped(u) && !HasOrderInWard(patients[k], orders, u)) &&
      (r.Success? <==> PatientVisible(patients[k], orders, u)) &&
      (r.Success? ==> r == Success(200, patients[k]))
  {
    var f := FindPatient(patients, patients[k].id);
    assert f == Some(k);
    CountZeroIff(patients[k], orders, u);
  }

  /** The list and the single lookup agree: a patient is listed exactly when fetching it succeeds. */
  lemma ListedIffFetchable(patients: seq<Patient>, orders: seq<Order>, u: User, k: int)
    requires UniquePatients(patients) && 0 <= k < |patients|
    ensures ListedPatient(patients[k], AllPatients(patients, orders, u))
            <==> PatientById(patients, orders, u, patients[k].id).Success?
  {
    AllPatientsExact(patients, orders, u);
    KnownPatientAccess(patients, orders, u, k);
  }
}
