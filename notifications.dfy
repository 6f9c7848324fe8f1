/**
 * The notification store: a user lists their notifications newest first,
 * and reading one deletes it, provided it is theirs. A notification that
 * does not exist and one of another user are answered alike (404), so the
 * reply does not reveal which ids exist.
 */
module Notifications {
  import opened Common
  import opened Seqs
  import opened OrderRecords

  /** A notification row: its recipient, text, kind (`new_order` or `order_status`) and related order. */
  datatype Notification = Notification(
    id: string, userId: string, message: string, kind: string, relatedId: Option<string>, createdAt: int)

  const NOTIFICATION_NOT_FOUND := "Notification not found or not authorized"

  predicate UniqueNotificationIds(rows: seq<Notification>) {
    forall i, j :: 0 <= i < j < |rows| ==> rows[i].id != rows[j].id
  }

  predicate HasNotificationId(rows: seq<Notification>, id: string) {
    exists i :: 0 <= i < |rows| && rows[i].id == id
  }

  /** The notification `id` exists and belongs to `userId`. */
  predicate OwnsNotification(rows: seq<Notification>, id: string, userId: string) {
    exists i :: 0 <= i < |rows| && rows[i].id == id && rows[i].userId == userId
  }

  /** `findUnique({ where: { id } })`: the position of the row with that id, if any. */
  function FindNotification(rows: seq<Notification>, id: string): (r: Option<nat>)
    ensures r.Some? ==> r.value < |rows| && rows[r.value].id == id
    ensures r.None? <==> !HasNotificationId(rows, id)
    decreases |rows|
  {
    if rows == [] then None
    else if rows[0].id == id then Some(0)
    else
      var k := FindNotification(rows[1..], id);
      assert forall i :: 1 <= i < |rows| ==> rows[i] == rows[1..][i - 1];
      if k.Some? then Some(k.value + 1) else None
  }

  // ----------------------------------------------------------- the caller

  /**
   * The caller as both handlers read it, `req.user.userId`. The
   * authentication middleware attaches the user row selected as
   * `{ id, fullName, username, wardId }`, which has no `userId` field, so
   * the value is `undefined` whoever is signed in.
   */
  function CallerAsWritten(u: User): Option<string> {
    None
  }

  /** The caller the handlers evidently mean: the signed-in user's id. */
  function Caller(u: User): Option<string> {
    Some(u.id)
  }

  // ------------------------------------------------------- specification

  function CreatedAt(n: Notification): int {
    n.createdAt
  }

  /** `where: { userId }`. Prisma drops a condition whose value is `undefined`, so `None` filters nothing. */
  predicate OwnerMatches(n: Notification, caller: Option<string>) {
    caller.None? || n.userId == caller.value
  }

  /** `getNotifications`: the matching rows, `orderBy: { createdAt: 'desc' }`. */
  function ListFor(rows: seq<Notification>, caller: Option<string>): seq<Notification> {
    SortDesc(Filter(rows, n => OwnerMatches(n, caller)), CreatedAt)
  }

  /** `notification.userId !== userId` is false: the row's recipient is the caller. */
  predicate OwnedBy(n: Notification, caller: Option<string>) {
    caller == Some(n.userId)
  }

  /** `markAsReadAndDelete`: the reply and the table afterwards. */
  function DeleteOutcome(rows: seq<Notification>, id: string, caller: Option<string>): (Response<()>, seq<Notification>) {
    match FindNotification(rows, id)
    case None => (Failure(404, NOTIFICATION_NOT_FOUND), rows)
    case Some(k) =>
      if !OwnedBy(rows[k], caller) then (Failure(404, NOTIFICATION_NOT_FOUND), rows)
      else (Success(204, ()), rows[..k] + rows[k + 1..])
  }

  // --------------------------------------------------------------- lemmas

  /**
   * A signed-in user's list holds exactly their notifications, each once,
   * newest first.
   */
  lemma ListIsCallersOwn(rows: seq<Notification>, u: User)
    ensures var r := ListFor(rows, Caller(u));
      (forall i :: 0 <= i < |r| ==> r[i] in rows && r[i].userId == u.id) &&
      (forall k :: 0 <= k < |rows| && rows[k].userId == u.id ==> rows[k] in r) &&
      multiset(r) == multiset(Filter(rows, (n: Notification) => n.userId == u.id)) &&
      SortedDesc(r, CreatedAt)
  {
    var p := (n: Notification) => OwnerMatches(n, Caller(u));
    SortedFilter(rows, p, CreatedAt);
    FilterSame(rows, p, (n: Notification) => n.userId == u.id);
  }

  /** The first entry of a non-empty list is a newest notification of the user. */
  lemma ListHeadIsNewest(rows: seq<Notification>, u: User, k: int)
    requires 0 <= k < |rows| && rows[k].userId == u.id
    ensures var r := ListFor(rows, Caller(u));
      |r| > 0 && r[0].userId == u.id && rows[k].createdAt <= r[0].createdAt
  {
    var r := ListFor(rows, Caller(u));
    ListIsCallersOwn(rows, u);
    assert rows[k] in r;
    var j :| 0 <= j < |r| && r[j] == rows[k];
    if j > 0 {
      assert CreatedAt(r[0]) >= CreatedAt(r[j]);
    }
  }

  /** Removing the row at `k` of a table with unique ids. */
  lemma RemoveNotificationAt(rows: seq<Notification>, k: int)
    requires UniqueNotificationIds(rows) && 0 <= k < |rows|
    ensures var after := rows[..k] + rows[k + 1..];
      |after| == |rows| - 1 && UniqueNotificationIds(after) && !HasNotificationId(after, rows[k].id) &&
      (forall i :: 0 <= i < |rows| && i != k ==> rows[i] in after) &&
      (forall j :: 0 <= j < |after| ==> after[j] in rows)
  {
    var after := rows[..k] + rows[k + 1..];
    assert forall i :: 0 <= i < k ==> after[i] == rows[i];
    assert forall i :: k < i < |rows| ==> after[i - 1] == rows[i];
    forall i | 0 <= i < |rows| && i != k ensures rows[i] in after {
      if i < k { assert after[i] == rows[i]; } else { assert after[i - 1] == rows[i]; }
    }
    forall j | 0 <= j < |after| ensures after[j].id != rows[k].id && after[j] in rows {
      if j < k { assert after[j] == rows[j]; } else { assert after[j] == rows[j + 1]; }
    }
  }

  /**
   * Deleting: 404 exactly when the id is missing or belongs to another
   * user, and then nothing changes; otherwise 204, that one row is gone and
   * every other row is still there.
   */
  lemma DeleteOwnedOnly(rows: seq<Notification>, id: string, u: User)
    requires UniqueNotificationIds(rows)
    ensures var (r, after) := DeleteOutcome(rows, id, Caller(u));
      (r == Failure(404, NOTIFICATION_NOT_FOUND) <==> !OwnsNotification(rows, id, u.id)) &&
      (r.Failure? ==> after == rows) &&
      (r.Success? ==>
         r.status == 204 && |after| == |rows| - 1 && !HasNotificationId(after, id) &&
         UniqueNotificationIds(after) &&
         (forall i :: 0 <= i < |rows| && rows[i].id != id ==> rows[i] in after) &&
         (forall j :: 0 <= j < |after| ==> after[j] in rows))
  {
    var f := FindNotification(rows, id);
    if f.Some? {
      RemoveNotificationAt(rows, f.value);
      assert OwnsNotification(rows, id, u.id) <==> rows[f.value].userId == u.id;
    }
  }

  /** As written, every signed-in user is shown every notification of every user. */
  lemma AsWrittenListsEveryone(rows: seq<Notification>, u: User)
    ensures var r := ListFor(rows, CallerAsWritten(u));
      multiset(r) == multiset(rows) && SortedDesc(r, CreatedAt)
  {
    FilterAll(rows, n => OwnerMatches(n, CallerAsWritten(u)));
  }

  /** As written, no notification can ever be deleted: every request is answered 404. */
  lemma AsWrittenDeleteAlwaysRejects(rows: seq<Notification>, id: string, u: User)
    ensures DeleteOutcome(rows, id, CallerAsWritten(u)) == (Failure(404, NOTIFICATION_NOT_FOUND), rows)
  {
  }

  /** A concrete table: user `a` cannot delete their own notification as written, and can once corrected. */
  lemma AsWrittenExample()
    ensures var n := Notification("n1", "a", "New order", "new_order", None, 1);
      var a := User("a", None);
      DeleteOutcome([n], "n1", CallerAsWritten(a)).0.Failure? &&
      DeleteOutcome([n], "n1", Caller(a)) == (Success(204, ()), [])
  {
    var n := Notification("n1", "a", "New order", "new_order", None, 1);
    assert FindNotification([n], "n1") == Some(0);
    assert [n][..0] + [n][1..] == [];
  }

  // ---------------------------------------------------------------- store

  class NotificationStore {
    var rows: seq<Notification>

    predicate Valid()
      reads this
    {
      UniqueNotificationIds(rows)
    }

    constructor(rows0: seq<Notification>)
      requires UniqueNotificationIds(rows0)
      ensures Valid() && rows == rows0
    {
      rows := rows0;
    }

    /** `getNotifications` for the signed-in user. */
    method GetNotifications(u: User) returns (r: seq<Notification>)
      ensures r == ListFor(rows, Caller(u))
    {
      r := SortDesc(Filter(rows, n => OwnerMatches(n, Caller(u))), CreatedAt);
    }

    /** `markAsReadAndDelete` for the signed-in user. */
    method MarkAsReadAndDelete(id: string, u: User) returns (r: Response<()>)
      requires Valid()
      modifies this
      ensures Valid()
      ensures (r, rows) == DeleteOutcome(old(rows), id, Caller(u))
    {
      DeleteOwnedOnly(rows, id, u);
      var k := FindNotification(rows, id);
      if k.None? || rows[k.value].userId != u.id {
        return Failure(404, NOTIFICATION_NOT_FOUND);
      }
      rows := rows[..k.value] + rows[k.value + 1..];
      r := Success(204, ());
    }
  }
}
