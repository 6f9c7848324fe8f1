/**
 * The read handlers of the order controller as functions of the order
 * table: `getAllOrders` (the ward, patient and `updatedAt`-range filters,
 * the `latest` branch and the newest-first sort) and `getOrderById` (404
 * before 403). The drug catalog and the date parser of the query's range
 * bounds are parameters.
 */
module OrdersQuery {
  import opened Common
  import opened Seqs
  import opened OrderPayload
  import opened OrderRecords
  import opened DrugEnrichment

  /** The query string of `GET /orders`. */
  datatype ListQuery = ListQuery(
    patientId: Option<string>, latest: Option<string>, startDate: Option<string>, endDate: Option<string>)

  /** What `GET /orders` sends: a list, or for `latest=true` one order or `null`. */
  datatype OrdersReply = OrderList(orders: seq<Order>) | LatestOrder(order: Option<Order>)

  const ORDER_NOT_FOUND := "Order not found"
  const ORDER_FORBIDDEN := "Forbidden: You do not have access to this order."

  /** `patientId && latest === "true"`. */
  predicate LatestRequested(q: ListQuery) {
    Truthy(q.patientId) && q.latest == Some("true")
  }

  /** `startDate && endDate`: the range filter applies only when both bounds are given. */
  predicate RangeRequested(q: ListQuery) {
    Truthy(q.startDate) && Truthy(q.endDate)
  }

  predicate PatientMatches(o: Order, q: ListQuery) {
    !Truthy(q.patientId) || o.patientId == q.patientId.value
  }

  /** The `where` clause: ward, patient and, when requested, `lo <= updatedAt <= hi`. */
  predicate Selected(o: Order, u: User, q: ListQuery, lo: int, hi: int) {
    InWardOf(o, u) && PatientMatches(o, q) && (RangeRequested(q) ==> lo <= o.updatedAt <= hi)
  }

  function CreatedAt(o: Order): int {
    o.createdAt
  }

  /** The response shape of one order: its attachments parsed. */
  function Respond(o: Order): (r: Order)
    ensures r.(attachments := o.attachments) == o
    ensures r.attachments == AttachmentList(ParseAttachments(o.attachments))
  {
    o.(attachments := AttachmentList(ParseAttachments(o.attachments)))
  }

  function RespondAll(os: seq<Order>): (r: seq<Order>)
    ensures |r| == |os| && forall i :: 0 <= i < |os| ==> r[i] == Respond(os[i])
  {
    seq(|os|, i requires 0 <= i < |os| => Respond(os[i]))
  }

  /** The candidate orders of the `latest` query: those of the ward and patient, newest first. */
  function LatestCandidates(orders: seq<Order>, u: User, q: ListQuery): seq<Order> {
    SortDesc(Filter(orders, o => InWardOf(o, u) && PatientMatches(o, q)), CreatedAt)
  }

  /** The orders of a list query, newest first, before enrichment. */
  function ListRows(orders: seq<Order>, u: User, q: ListQuery, lo: int, hi: int): seq<Order> {
    SortDesc(Filter(orders, o => Selected(o, u, q, lo, hi)), CreatedAt)
  }

  /**
   * `getAllOrders`. `dateOf` is `new Date(...)` of a range bound: `None`
   * for an invalid date, which makes the database call fail.
   */
  function AllOrders(orders: seq<Order>, catalog: map<string, string>, u: User, q: ListQuery,
                     dateOf: string -> Option<int>): Response<OrdersReply>
  {
    if LatestRequested(q) then
      var c := LatestCandidates(orders, u, q);
      var picked := Enriched(if c == [] then [] else [c[0]], catalog);
      Success(200, LatestOrder(if picked == [] then None else Some(Respond(picked[0]))))
    else if RangeRequested(q) && (dateOf(q.startDate.value).None? || dateOf(q.endDate.value).None?) then
      Failure(500, INTERNAL_ERROR)
    else
      var lo := if RangeRequested(q) then dateOf(q.startDate.value).value else 0;
      var hi := if RangeRequested(q) then dateOf(q.endDate.value).value else 0;
      Success(200, OrderList(RespondAll(Enriched(ListRows(orders, u, q, lo, hi), catalog))))
  }

  /** `getOrderById`: 404 for an unknown id, then 403 for a ward user outside the order's ward. */
  function OrderById(orders: seq<Order>, catalog: map<string, string>, u: User, id: string): Response<Order> {
    match FindOrder(orders, id)
    case None => Failure(404, ORDER_NOT_FOUND)
    case Some(k) =>
      if WardScoped(u) && orders[k].wardId != u.wardId then Failure(403, ORDER_FORBIDDEN)
      else Success(200, Respond(Enriched([orders[k]], catalog)[0]))
  }

  // --------------------------------------------------------------- lemmas

  /** `a` is row `b` with at most its drug lines and attachments rewritten for the response. */
  predicate SameRow(a: Order, b: Order) {
    a.(drugs := b.drugs, attachments := b.attachments) == b
  }

  /** Enrichment and the response shape keep each row apart from drugs and attachments. */
  lemma ResponseRows(rows: seq<Order>, catalog: map<string, string>)
    ensures var r := RespondAll(Enriched(rows, catalog));
      |r| == |rows| && forall i :: 0 <= i < |rows| ==> SameRow(r[i], rows[i])
  {
  }

  /** The rows of a list query: exactly those the `where` clause selects, newest first. */
  lemma ListRowsExact(orders: seq<Order>, u: User, q: ListQuery, lo: int, hi: int)
    ensures var s := ListRows(orders, u, q, lo, hi);
      (forall i :: 0 <= i < |s| ==> s[i] in orders && Selected(s[i], u, q, lo, hi)) &&
      (forall k :: 0 <= k < |orders| && Selected(orders[k], u, q, lo, hi) ==> orders[k] in s) &&
      SortedDesc(s, CreatedAt)
  {
    SortedFilter(orders, o => Selected(o, u, q, lo, hi), CreatedAt);
  }

  /** Without `latest`, a successful reply lists the enriched rows of the query. */
  lemma ListReply(orders: seq<Order>, catalog: map<string, string>, u: User, q: ListQuery,
                  dateOf: string -> Option<int>)
    requires !LatestRequested(q)
    requires AllOrders(orders, catalog, u, q, dateOf).Success?
    ensures var lo := if RangeRequested(q) then dateOf(q.startDate.value).value else 0;
      var hi := if RangeRequested(q) then dateOf(q.endDate.value).value else 0;
      AllOrders(orders, catalog, u, q, dateOf) ==
        Success(200, OrderList(RespondAll(Enriched(ListRows(orders, u, q, lo, hi), catalog))))
  {
  }

  /** Response row `x` is one of the orders the `where` clause selects. */
  predicate FromSelected(x: Order, orders: seq<Order>, u: User, q: ListQuery, lo: int, hi: int) {
    exists k :: 0 <= k < |orders| && SameRow(x, orders[k]) && Selected(orders[k], u, q, lo, hi)
  }

  /** Order `o` appears among the response rows `r`. */
  predicate Listed(o: Order, r: seq<Order>) {
    exists i :: 0 <= i < |r| && SameRow(r[i], o)
  }

  /** The listed response rows: the selected rows only and all of them, newest first. */
  lemma ListResponse(orders: seq<Order>, catalog: map<string, string>, u: User, q: ListQuery, lo: int, hi: int)
    ensures var r := RespondAll(Enriched(ListRows(orders, u, q, lo, hi), catalog));
      (forall i :: 0 <= i < |r| ==> FromSelected(r[i], orders, u, q, lo, hi)) &&
      (forall k :: 0 <= k < |orders| && Selected(orders[k], u, q, lo, hi) ==> Listed(orders[k], r)) &&
      (forall i, j :: 0 <= i < j < |r| ==> r[i].createdAt >= r[j].createdAt)
  {
    var s := ListRows(orders, u, q, lo, hi);
    ListRowsExact(orders, u, q, lo, hi);
    ResponseRows(s, catalog);
    TransferRows(orders, s, RespondAll(Enriched(s, catalog)), u, q, lo, hi);
  }

  lemma TransferRows(orders: seq<Order>, s: seq<Order>, r: seq<Order>, u: User, q: ListQuery, lo: int, hi: int)
    requires |r| == |s| && forall i :: 0 <= i < |s| ==> SameRow(r[i], s[i])
    requires forall i :: 0 <= i < |s| ==> s[i] in orders && Selected(s[i], u, q, lo, hi)
    requires forall k :: 0 <= k < |orders| && Selected(orders[k], u, q, lo, hi) ==> orders[k] in s
    requires SortedDesc(s, CreatedAt)
    ensures forall i :: 0 <= i < |r| ==> FromSelected(r[i], orders, u, q, lo, hi)
    ensures forall k :: 0 <= k < |orders| && Selected(orders[k], u, q, lo, hi) ==> Listed(orders[k], r)
    ensures forall i, j :: 0 <= i < j < |r| ==> r[i].createdAt >= r[j].createdAt
  {
    TransferSelected(orders, s, r, u, q, lo, hi);
    TransferListed(orders, s, r, u, q, lo, hi);
    TransferSorted(s, r);
  }

  lemma TransferSelected(orders: seq<Order>, s: seq<Order>, r: seq<Order>, u: User, q: ListQuery, lo: int, hi: int)
    requires |r| == |s| && forall i :: 0 <= i < |s| ==> SameRow(r[i], s[i])
    requires forall i :: 0 <= i < |s| ==> s[i] in orders && Selected(s[i], u, q, lo, hi)
    ensures forall i :: 0 <= i < |r| ==> FromSelected(r[i], orders, u, q, lo, hi)
  {
    forall i | 0 <= i < |r| ensures FromSelected(r[i], orders, u, q, lo, hi) {
      var k :| 0 <= k < |orders| && orders[k] == s[i];
      assert SameRow(r[i], orders[k]);
    }
  }

  lemma TransferListed(orders: seq<Order>, s: seq<Order>, r: seq<Order>, u: User, q: ListQuery, lo: int, hi: int)
    requires |r| == |s| && forall i :: 0 <= i < |s| ==> SameRow(r[i], s[i])
    requires forall k :: 0 <= k < |orders| && Selected(orders[k], u, q, lo, hi) ==> orders[k] in s
    ensures forall k :: 0 <= k < |orders| && Selected(orders[k], u, q, lo, hi) ==> Listed(orders[k], r)
  {
    forall k | 0 <= k < |orders| && Selected(orders[k], u, q, lo, hi) ensures Listed(orders[k], r) {
      var i :| 0 <= i < |s| && s[i] == orders[k];
      assert SameRow(r[i], orders[k]);
    }
  }

  lemma TransferSorted(s: seq<Order>, r: seq<Order>)
    requires |r| == |s| && forall i :: 0 <= i < |s| ==> SameRow(r[i], s[i])
    requires SortedDesc(s, CreatedAt)
    ensures forall i, j :: 0 <= i < j < |r| ==> r[i].createdAt >= r[j].createdAt
  {
    forall i, j | 0 <= i < j < |r| ensures r[i].createdAt >= r[j].createdAt {
      assert r[i].createdAt == s[i].createdAt && r[j].createdAt == s[j].createdAt;
      assert CreatedAt(s[i]) >= CreatedAt(s[j]);
    }
  }

  /**
   * The list: exactly the rows the `where` clause selects (every listed
   * row is one, and every selected row is listed), newest first.
   */
  lemma ListedOrders(orders: seq<Order>, catalog: map<string, string>, u: User, q: ListQuery,
                     dateOf: string -> Option<int>, lo: int, hi: int)
    requires !LatestRequested(q)
    requires AllOrders(orders, catalog, u, q, dateOf).Success?
    requires lo == (if RangeRequested(q) then dateOf(q.startDate.value).value else 0)
    requires hi == (if RangeRequested(q) then dateOf(q.endDate.value).value else 0)
    ensures var r := AllOrders(orders, catalog, u, q, dateOf).value;
      r.OrderList? &&
      (forall i :: 0 <= i < |r.orders| ==> FromSelected(r.orders[i], orders, u, q, lo, hi)) &&
      (forall k :: 0 <= k < |orders| && Selected(orders[k], u, q, lo, hi) ==> Listed(orders[k], r.orders)) &&
      (forall i, j :: 0 <= i < j < |r.orders| ==> r.orders[i].createdAt >= r.orders[j].createdAt)
  {
    ListReply(orders, catalog, u, q, dateOf);
    ListResponse(orders, catalog, u, q, lo, hi);
  }

  /** A ward user's list holds only orders of that ward. */
  lemma ListIsWardScoped(orders: seq<Order>, catalog: map<string, string>, u: User, q: ListQuery,
                         dateOf: string -> Option<int>)
    requires WardScoped(u)
    requires AllOrders(orders, catalog, u, q, dateOf).Success?
    ensures var r := AllOrders(orders, catalog, u, q, dateOf).value;
      (r.OrderList? ==> forall i :: 0 <= i < |r.orders| ==> r.orders[i].wardId == u.wardId) &&
      (r.LatestOrder? && r.order.Some? ==> r.order.value.wardId == u.wardId)
  {
    var r := AllOrders(orders, catalog, u, q, dateOf).value;
    if LatestRequested(q) {
      LatestOrderIsNewest(orders, catalog, u, q, dateOf);
    } else {
      var lo := if RangeRequested(q) then dateOf(q.startDate.value).value else 0;
      var hi := if RangeRequested(q) then dateOf(q.endDate.value).value else 0;
      ListedOrders(orders, catalog, u, q, dateOf, lo, hi);
      forall i | 0 <= i < |r.orders| ensures r.orders[i].wardId == u.wardId {
        assert FromSelected(r.orders[i], orders, u, q, lo, hi);
        var k :| 0 <= k < |orders| && SameRow(r.orders[i], orders[k]) && Selected(orders[k], u, q, lo, hi);
      }
    }
  }

  /** The `latest` reply: `null` without candidates, else the first candidate, enriched. */
  lemma LatestReply(orders: seq<Order>, catalog: map<string, string>, u: User, q: ListQuery,
                    dateOf: string -> Option<int>)
    requires LatestRequested(q)
    ensures var c := LatestCandidates(orders, u, q);
      AllOrders(orders, catalog, u, q, dateOf) ==
        Success(200, LatestOrder(if c == [] then None else Some(RespondAll(Enriched([c[0]], catalog))[0])))
  {
  }

  /** A patient's order is in the user's ward and belongs to the queried patient. */
  predicate OfWardPatient(o: Order, u: User, patientId: string) {
    InWardOf(o, u) && o.patientId == patientId
  }

  /** `x` is an order of the ward and patient with the greatest `createdAt` among them. */
  predicate NewestOf(x: Order, orders: seq<Order>, u: User, patientId: string) {
    exists k :: 0 <= k < |orders| && SameRow(x, orders[k]) && OfWardPatient(orders[k], u, patientId) &&
      forall m :: 0 <= m < |orders| && OfWardPatient(orders[m], u, patientId) ==>
        orders[m].createdAt <= orders[k].createdAt
  }

  /**
   * `latest=true` with a patient: `null` exactly when the ward has no order
   * of that patient, otherwise one of them with the greatest `createdAt`.
   * The date range is not applied.
   */
  lemma LatestOrderIsNewest(orders: seq<Order>, catalog: map<string, string>, u: User, q: ListQuery,
                            dateOf: string -> Option<int>)
    requires LatestRequested(q)
    ensures var r := AllOrders(orders, catalog, u, q, dateOf);
      r.Success? && r.value.LatestOrder? &&
      (r.value.order.None? <==>
         forall k :: 0 <= k < |orders| ==> !OfWardPatient(orders[k], u, q.patientId.value)) &&
      (r.value.order.Some? ==> NewestOf(r.value.order.value, orders, u, q.patientId.value))
  {
    var c := LatestCandidates(orders, u, q);
    var pid := q.patientId.value;
    LatestReply(orders, catalog, u, q, dateOf);
    LatestCandidatesExact(orders, u, q);
    if c == [] {
      forall k | 0 <= k < |orders| ensures !OfWardPatient(orders[k], u, pid) {
        assert orders[k] !in c;
      }
    } else {
      var k :| 0 <= k < |orders| && orders[k] == c[0];
      ResponseRows([c[0]], catalog);
      assert SameRow(RespondAll(Enriched([c[0]], catalog))[0], orders[k]);
      FirstCandidateIsNewest(orders, c, u, pid);
    }
  }

  /** The candidates: the orders of the ward and patient, all of them, newest first. */
  lemma LatestCandidatesExact(orders: seq<Order>, u: User, q: ListQuery)
    requires LatestRequested(q)
    ensures var c := LatestCandidates(orders, u, q);
      (forall i :: 0 <= i < |c| ==> c[i] in orders && OfWardPatient(c[i], u, q.patientId.value)) &&
      (forall k :: 0 <= k < |orders| && OfWardPatient(orders[k], u, q.patientId.value) ==> orders[k] in c) &&
      SortedDesc(c, CreatedAt)
  {
    var p := o => InWardOf(o, u) && PatientMatches(o, q);
    SortedFilter(orders, p, CreatedAt);
    assert forall o :: p(o) == OfWardPatient(o, u, q.patientId.value);
  }

  /** The head of a newest-first list of all candidates is at least as new as each of them. */
  lemma FirstCandidateIsNewest(orders: seq<Order>, c: seq<Order>, u: User, pid: string)
    requires c != [] && SortedDesc(c, CreatedAt)
    requires forall k :: 0 <= k < |orders| && OfWardPatient(orders[k], u, pid) ==> orders[k] in c
    ensures forall m :: 0 <= m < |orders| && OfWardPatient(orders[m], u, pid) ==> orders[m].createdAt <= c[0].createdAt
  {
    forall m | 0 <= m < |orders| && OfWardPatient(orders[m], u, pid)
      ensures orders[m].createdAt <= c[0].createdAt
    {
      var n :| 0 <= n < |c| && c[n] == orders[m];
      if n > 0 { assert CreatedAt(c[0]) >= CreatedAt(c[n]); }
    }
  }

  /** An unknown id is 404 whoever asks; the ward check comes after. */
  lemma NotFoundBeforeForbidden(orders: seq<Order>, catalog: map<string, string>, u: User, id: string)
    ensures OrderById(orders, catalog, u, id) == Failure(404, ORDER_NOT_FOUND) <==> !HasOrderId(orders, id)
  {
  }

  /**
   * For an existing order: 403 exactly when the user is ward staff of
   * another ward; otherwise the order itself, enriched and with parsed
   * attachments.
   */
  lemma OrderByIdAccess(orders: seq<Order>, catalog: map<string, string>, u: User, id: string, k: int)
    requires UniqueOrderIds(orders) && 0 <= k < |orders| && orders[k].id == id
    ensures var r := OrderById(orders, catalog, u, id);
      (r.Failure? <==> WardScoped(u) && orders[k].wardId != u.wardId) &&
      (r.Failure? ==> r == Failure(403, ORDER_FORBIDDEN)) &&
      (r.Success? ==>
         r.status == 200 && SameRow(r.value, orders[k]) &&
         r.value.attachments == AttachmentList(ParseAttachments(orders[k].attachments)))
  {
    FindOrderUnique(orders, id, k);
    ResponseRows([orders[k]], catalog);
  }
}
