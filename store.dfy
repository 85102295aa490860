/** The rows of the portal's tables and, as pure functions on those tables,
    the SQL statements the route handlers issue. */
module Store {

  import opened Wrappers
  import opened Tables

  /** Role numbers as stored in the user table. */
  const Admin: int := 1
  const Reviewer: int := 2
  const Student: int := 3

  /** How many audit records the dashboard shows an administrator. */
  const AuditPageSize: nat := 15

  /** The key of the submission gate in `Sec.SystemConfig`. */
  const AllowUploadsKey: string := "AllowUploads"

  /** The browser session after a successful login. */
  datatype Session = Session(userId: int, role: int, username: string)

  /** A user as `Sec.sp_GetDecryptedUser` returns it: id, hash, salt and role,
      together with the username it is found by. */
  datatype User = User(id: int, username: string, hash: string, salt: string, role: int)

  datatype Assignment = Assignment(id: int, title: string, desc: string, link: string, submittedBy: int)

  /** The primary key `AssignmentID`. */
  function AssignmentId(a: Assignment): int {
    a.id
  }

  datatype Milestone = Milestone(id: int, assignmentId: int, taskName: string, isCompleted: int)

  /** The primary key `MilestoneID`. */
  function MilestoneId(m: Milestone): int {
    m.id
  }

  datatype Notification = Notification(userId: int, message: string, dateCreated: int, isRead: int)

  datatype AuditRecord = AuditRecord(actionType: string, userIp: string, details: string, timestamp: int)

  /** A row of the dashboard listing: the assignment and, when the query joins
      the user table, the username of its submitter. */
  datatype ProjectRow = ProjectRow(assignment: Assignment, submitter: Option<string>)

  /** The columns `MilestoneID, TaskName, IsCompleted` the dashboard selects. */
  datatype MilestoneView = MilestoneView(id: int, taskName: string, isCompleted: int)

  /** The columns `Message, DateCreated` the notifications page selects. */
  datatype InboxEntry = InboxEntry(message: string, dateCreated: int)

  // ---------------------------------------------------------------- users

  /** `Sec.sp_GetDecryptedUser(username)` followed by `fetchone()`: the first
      user with that username, if any. */
  function LookupUser(users: seq<User>, username: string): (r: Option<User>)
    ensures r.None? <==> forall u :: u in users ==> u.username != username
    ensures r.Some? ==> exists i :: 0 <= i < |users| && users[i] == r.value && r.value.username == username
                                   && forall j :: 0 <= j < i ==> users[j].username != username
  {
    if users == [] then None
    else if users[0].username == username then Some(users[0])
    else
      var r := LookupUser(users[1..], username);
      assert forall j :: 1 <= j < |users| ==> users[j] == users[1..][j - 1];
      assert users == [users[0]] + users[1..];
      r
  }

  /** No two users share a `UserID`. */
  ghost predicate UniqueUserIds(users: seq<User>) {
    forall i, j :: 0 <= i < |users| && 0 <= j < |users| && users[i].id == users[j].id ==> i == j
  }

  // ---------------------------------------------------------- assignments

  /** `SELECT * FROM App.Assignments WHERE SubmittedBy = uid`: exactly the rows
      submitted by `uid`, each as often as it occurs in the table. */
  function OwnRows(rows: seq<Assignment>, uid: int): (r: seq<Assignment>)
    ensures forall x :: multiset(r)[x] == if x.submittedBy == uid then multiset(rows)[x] else 0
    ensures forall i :: 0 <= i < |r| ==> r[i].submittedBy == uid
  {
    var r := Filter(rows, (a: Assignment) => a.submittedBy == uid);
    assert forall i :: 0 <= i < |r| ==> r[i] in r;
    r
  }

  /** Listing rows for a query that does not join the user table. */
  function Unjoined(rows: seq<Assignment>): (r: seq<ProjectRow>)
    ensures |r| == |rows|
    ensures forall i :: 0 <= i < |r| ==> r[i].assignment == rows[i] && r[i].submitter == None
  {
    MapSeq(rows, (a: Assignment) => ProjectRow(a, None))
  }

  /** The assignments behind a listing, in listing order. */
  function RowsOf(listing: seq<ProjectRow>): (r: seq<Assignment>)
    ensures |r| == |listing|
    ensures forall i :: 0 <= i < |r| ==> r[i] == listing[i].assignment
  {
    MapSeq(listing, (p: ProjectRow) => p.assignment)
  }

  /** The rows the inner join contributes for one assignment: one per user whose id is its submitter. */
  function SubmitterRows(a: Assignment, users: seq<User>): (r: seq<ProjectRow>)
    ensures forall p :: p in r <==>
      exists u :: u in users && u.id == a.submittedBy && p == ProjectRow(a, Some(u.username))
    ensures (forall u :: u in users ==> u.id != a.submittedBy) ==> r == []
  {
    if users == [] then []
    else
      var rest := SubmitterRows(a, users[1..]);
      assert users == [users[0]] + users[1..];
      (if users[0].id == a.submittedBy then [ProjectRow(a, Some(users[0].username))] else []) + rest
  }

  /** `SELECT A.*, U.Username FROM App.Assignments A JOIN App.Users U ON A.SubmittedBy = U.UserID`. */
  function JoinSubmitters(rows: seq<Assignment>, users: seq<User>): (r: seq<ProjectRow>)
    ensures forall i :: 0 <= i < |r| ==> r[i].assignment in rows && r[i].submitter.Some?
  {
    if rows == [] then []
    else
      var head := SubmitterRows(rows[0], users);
      var tail := JoinSubmitters(rows[1..], users);
      assert forall i :: 0 <= i < |head| ==> head[i] in head;
      assert forall a :: a in rows[1..] ==> a in rows;
      head + tail
  }

  /** The inner join lists an assignment exactly when some user is its
      submitter, and labels it with that user's name. */
  lemma {:induction false} JoinMembership(rows: seq<Assignment>, users: seq<User>)
    ensures forall p :: p in JoinSubmitters(rows, users) <==>
      p.assignment in rows &&
      exists u :: u in users && u.id == p.assignment.submittedBy && p.submitter == Some(u.username)
  {
    if rows != [] {
      JoinMembership(rows[1..], users);
      assert rows == [rows[0]] + rows[1..];
    }
  }

  /** With unique user ids, an assignment whose submitter exists gets exactly one joined row. */
  lemma {:induction false} OneSubmitterRow(a: Assignment, users: seq<User>)
    requires UniqueUserIds(users)
    requires exists u :: u in users && u.id == a.submittedBy
    ensures |SubmitterRows(a, users)| == 1 && SubmitterRows(a, users)[0].assignment == a
  {
    assert users == [users[0]] + users[1..];
    var tail := users[1..];
    assert forall i :: 0 <= i < |tail| ==> tail[i] == users[i + 1];
    if users[0].id == a.submittedBy {
      forall u | u in tail ensures u.id != a.submittedBy {
        var i :| 0 <= i < |tail| && tail[i] == u;
        assert users[i + 1].id != users[0].id;
      }
    } else {
      var u :| u in users && u.id == a.submittedBy;
      assert u in tail;
      assert UniqueUserIds(tail) by {
        forall i, j | 0 <= i < |tail| && 0 <= j < |tail| && tail[i].id == tail[j].id ensures i == j {
          assert users[i + 1].id == users[j + 1].id;
        }
      }
      OneSubmitterRow(a, tail);
    }
  }

  /** When user ids are unique and every submitter exists, the joined listing
      holds every assignment once, in table order: the staff view is all rows. */
  lemma {:induction false} JoinKeepsAllRows(rows: seq<Assignment>, users: seq<User>)
    requires UniqueUserIds(users)
    requires forall a :: a in rows ==> exists u :: u in users && u.id == a.submittedBy
    ensures RowsOf(JoinSubmitters(rows, users)) == rows
  {
    if rows != [] {
      assert rows[0] in rows;
      OneSubmitterRow(rows[0], users);
      JoinKeepsAllRows(rows[1..], users);
      var head := SubmitterRows(rows[0], users);
      var tail := JoinSubmitters(rows[1..], users);
      assert RowsOf(head + tail) == RowsOf(head) + RowsOf(tail);
    }
  }

  /** `DELETE FROM App.Assignments WHERE AssignmentID = id`: every row with that
      id goes, every other row stays with its multiplicity and order. */
  function RemoveAssignment(rows: seq<Assignment>, id: int): (r: seq<Assignment>)
    ensures forall x :: multiset(r)[x] == if x.id == id then 0 else multiset(rows)[x]
    ensures forall i :: 0 <= i < |r| ==> r[i].id != id && r[i] in rows
    ensures DistinctKeys(rows, AssignmentId) ==> DistinctKeys(r, AssignmentId)
  {
    var keep := (a: Assignment) => a.id != id;
    var r := Filter(rows, keep);
    assert forall i :: 0 <= i < |r| ==> r[i] in r;
    FilterKeepsKeysDistinct(rows, keep, AssignmentId);
    r
  }

  // ----------------------------------------------------------- milestones

  function ViewOf(m: Milestone): MilestoneView {
    MilestoneView(m.id, m.taskName, m.isCompleted)
  }

  /** The condition `AssignmentID = aid` of the milestone query. */
  function OfAssignment(aid: int): Milestone -> bool {
    (m: Milestone) => m.assignmentId == aid
  }

  /** `SELECT MilestoneID, TaskName, IsCompleted FROM App.Milestones WHERE AssignmentID = aid`:
      one view per milestone of the assignment, and with unique milestone ids
      no view repeats an id. */
  function MilestonesOf(ms: seq<Milestone>, aid: int): (r: seq<MilestoneView>)
    ensures forall v :: v in r <==> exists m :: m in ms && m.assignmentId == aid && v == ViewOf(m)
    ensures |r| == |Filter(ms, OfAssignment(aid))|
    ensures DistinctKeys(ms, MilestoneId) ==> forall i, j :: 0 <= i < j < |r| ==> r[i].id != r[j].id
  {
    var keep := OfAssignment(aid);
    assert forall m :: keep(m) == (m.assignmentId == aid);
    var own := Filter(ms, keep);
    var r := MapSeq(own, ViewOf);
    assert forall v :: v in r ==> exists i :: 0 <= i < |own| && v == ViewOf(own[i]);
    assert forall i :: 0 <= i < |own| ==> own[i] in own && r[i] == ViewOf(own[i]);
    FilterKeepsKeysDistinct(ms, keep, MilestoneId);
    ViewsKeepIds(own);
    r
  }

  /** Projecting milestones to their views keeps their ids apart. */
  lemma ViewsKeepIds(own: seq<Milestone>)
    ensures DistinctKeys(own, MilestoneId) ==>
      var r := MapSeq(own, ViewOf);
      forall i, j :: 0 <= i < j < |r| ==> r[i].id != r[j].id
  {
    var r := MapSeq(own, ViewOf);
    assert forall i :: 0 <= i < |r| ==> r[i].id == MilestoneId(own[i]);
  }

  /** `UPDATE App.Milestones SET IsCompleted = 1 - IsCompleted WHERE MilestoneID = mid`:
      the rows with id `mid` have their completion flipped and nothing else about any row changes. */
  function ToggleCompleted(ms: seq<Milestone>, mid: int): (r: seq<Milestone>)
    ensures |r| == |ms|
    ensures forall i :: 0 <= i < |ms| && ms[i].id != mid ==> r[i] == ms[i]
    ensures forall i :: 0 <= i < |ms| && ms[i].id == mid ==>
      r[i].(isCompleted := ms[i].isCompleted) == ms[i] && r[i].isCompleted + ms[i].isCompleted == 1
  {
    MapSeq(ms, (m: Milestone) => if m.id == mid then m.(isCompleted := 1 - m.isCompleted) else m)
  }

  /** Toggling the same milestone twice restores the table. */
  lemma ToggleCompletedTwice(ms: seq<Milestone>, mid: int)
    ensures ToggleCompleted(ToggleCompleted(ms, mid), mid) == ms
  {
    var once := ToggleCompleted(ms, mid);
    var twice := ToggleCompleted(once, mid);
    forall i | 0 <= i < |ms| ensures twice[i] == ms[i] {
      assert once[i].id == ms[i].id;
    }
  }

  /** With unique milestone ids the update touches at most one row. */
  lemma ToggleCompletedAtMostOneRow(ms: seq<Milestone>, mid: int)
    requires DistinctKeys(ms, MilestoneId)
    ensures var r := ToggleCompleted(ms, mid);
      forall i, j :: 0 <= i < |ms| && 0 <= j < |ms| && r[i] != ms[i] && r[j] != ms[j] ==> i == j
  {
    var r := ToggleCompleted(ms, mid);
    forall i, j | 0 <= i < |ms| && 0 <= j < |ms| && r[i] != ms[i] && r[j] != ms[j] ensures i == j {
      assert MilestoneId(ms[i]) == mid == MilestoneId(ms[j]);
    }
  }

  // -------------------------------------------------------- notifications

  /** `WHERE UserID = uid` on the notification table: exactly the user's rows,
      each as often as it occurs. */
  function NotificationsOf(ns: seq<Notification>, uid: int): (r: seq<Notification>)
    ensures forall x :: multiset(r)[x] == if x.userId == uid then multiset(ns)[x] else 0
    ensures forall x :: x in r <==> x in ns && x.userId == uid
  {
    Filter(ns, (n: Notification) => n.userId == uid)
  }

  function CreatedAt(n: Notification): int {
    n.dateCreated
  }

  function EntryOf(n: Notification): InboxEntry {
    InboxEntry(n.message, n.dateCreated)
  }

  /** The `DateCreated` column of an inbox entry, the key the page is ordered by. */
  function EntryDate(e: InboxEntry): int {
    e.dateCreated
  }

  /** `SELECT Message, DateCreated FROM App.Notifications WHERE UserID = uid ORDER BY DateCreated DESC`:
      one entry per notification of `uid`, newest first. */
  function Inbox(ns: seq<Notification>, uid: int): (r: seq<InboxEntry>)
    ensures |r| == |NotificationsOf(ns, uid)|
    ensures multiset(r) == multiset(MapSeq(NotificationsOf(ns, uid), EntryOf))
    ensures forall i, j :: 0 <= i < j < |r| ==> r[i].dateCreated >= r[j].dateCreated
    ensures forall e :: e in r <==>
      exists n :: n in ns && n.userId == uid && e == InboxEntry(n.message, n.dateCreated)
  {
    var entries := MapSeq(NotificationsOf(ns, uid), EntryOf);
    var r := SortDesc(entries, EntryDate);
    assert |r| == |multiset(r)| == |multiset(entries)| == |entries|;
    r
  }

  /** `UPDATE App.Notifications SET IsRead = 1 WHERE UserID = uid`. */
  function MarkRead(ns: seq<Notification>, uid: int): (r: seq<Notification>)
    ensures |r| == |ns|
    ensures forall i :: 0 <= i < |ns| && ns[i].userId != uid ==> r[i] == ns[i]
    ensures forall i :: 0 <= i < |ns| && ns[i].userId == uid ==> r[i] == ns[i].(isRead := 1)
  {
    MapSeq(ns, (n: Notification) => if n.userId == uid then n.(isRead := 1) else n)
  }

  /** After the update every notification of the user is read, the user's
      notifications are the same ones apart from that flag, and marking again
      changes nothing. */
  lemma MarkReadClearsUnread(ns: seq<Notification>, uid: int)
    ensures forall n :: n in NotificationsOf(MarkRead(ns, uid), uid) ==> n.isRead == 1
    ensures |NotificationsOf(MarkRead(ns, uid), uid)| == |NotificationsOf(ns, uid)|
    ensures MarkRead(MarkRead(ns, uid), uid) == MarkRead(ns, uid)
  {
    MarkReadSameOwners(ns, uid);
  }

  /** Marking read does not change how many rows each user owns. */
  lemma {:induction false} MarkReadSameOwners(ns: seq<Notification>, uid: int)
    ensures |NotificationsOf(MarkRead(ns, uid), uid)| == |NotificationsOf(ns, uid)|
  {
    if ns != [] {
      var tail := ns[1..];
      MarkReadSameOwners(tail, uid);
      var r := MarkRead(ns, uid);
      assert r[1..] == MarkRead(tail, uid);
      assert r[0].userId == ns[0].userId;
      assert |NotificationsOf(r, uid)| ==
        (if r[0].userId == uid then 1 else 0) + |NotificationsOf(r[1..], uid)|;
      assert |NotificationsOf(ns, uid)| ==
        (if ns[0].userId == uid then 1 else 0) + |NotificationsOf(tail, uid)|;
    }
  }

  // ----------------------------------------------------------- audit trail

  /** `SELECT TOP 15 * FROM Sec.AuditLog ORDER BY Timestamp DESC`: at most 15
      records of the log, newest first, none left out newer than one shown. */
  function AuditPage(log: seq<AuditRecord>): (r: seq<AuditRecord>)
    ensures |r| == if |log| <= AuditPageSize then |log| else AuditPageSize
    ensures forall i, j :: 0 <= i < j < |r| ==> r[i].timestamp >= r[j].timestamp
    ensures multiset(r) <= multiset(log)
    ensures forall y, k :: y in multiset(log) - multiset(r) && 0 <= k < |r| ==> y.timestamp <= r[k].timestamp
  {
    var key := (a: AuditRecord) => a.timestamp;
    NewestFirst(log, key, AuditPageSize);
    Top(SortDesc(log, key), AuditPageSize)
  }

  // -------------------------------------------------------- system config

  /** `CASE WHEN ConfigValue = 'TRUE' THEN 'FALSE' ELSE 'TRUE' END`. */
  function ToggledValue(v: string): (r: string)
    ensures r == "TRUE" || r == "FALSE"
    ensures r == "FALSE" <==> v == "TRUE"
  {
    if v == "TRUE" then "FALSE" else "TRUE"
  }

  /** `submit` refuses only when the gate reads exactly `'FALSE'`; of the two
      values the toggle writes, `'TRUE'` opens the gate and `'FALSE'` closes it. */
  predicate UploadsOpen(v: string): (open: bool)
    ensures v == "TRUE" ==> open
    ensures v == "FALSE" ==> !open
  {
    v != "FALSE"
  }

  /** Toggling twice restores the value exactly when it was one of the two
      values the toggle writes. */
  lemma ToggleTwiceRestores(v: string)
    ensures ToggledValue(ToggledValue(v)) == v <==> v == "TRUE" || v == "FALSE"
  {
  }

  /** A toggle opens or closes the gate exactly when the value was `'TRUE'`
      or `'FALSE'`; any other value reads as open and stays open. */
  lemma ToggleFlipsGate(v: string)
    ensures UploadsOpen(ToggledValue(v)) != UploadsOpen(v) <==> v == "TRUE" || v == "FALSE"
    ensures UploadsOpen(ToggledValue(v)) <==> v != "TRUE"
  {
  }
}
