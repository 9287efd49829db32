/** The SQLite store (db.py) as two in-memory tables.  Rows are kept in
    insertion order, which is the order the unordered SELECTs return them in
    here.  `Store` holds the tables and the AUTOINCREMENT counter and its
    methods are the INSERT and UPDATE statements; the SELECT statements are
    functions of the tables. */
module Db {
  import opened Common
  import opened Delivery

  /** The range of an SQLite INTEGER.  The `sqlite3` module raises
      `OverflowError` when a Python `int` outside it is bound to a `?`
      parameter, and an AUTOINCREMENT table whose counter has reached the
      maximum refuses every further insert. */
  const MinInteger: int := -0x8000_0000_0000_0000
  const MaxInteger: int := 0x7FFF_FFFF_FFFF_FFFF

  predicate BindsAsInteger(v: int)
  {
    MinInteger <= v <= MaxInteger
  }

  /** A row of `users`; `blocked` is the `is_blocked` column (0 or 1). */
  datatype User = User(
    userId: UserId,
    firstName: string,
    username: Option<string>,
    joinedAt: string,
    lastActive: string,
    blocked: bool)

  /** The two values the CHECK constraint allows in `jobs.type`. */
  datatype JobKind = Once | Interval

  /** The values `jobs.status` takes: the default 'active' and 'cancelled'. */
  datatype Status = Active | Cancelled

  /** A row of `jobs`. */
  datatype Job = Job(
    id: int,
    kind: JobKind,
    text: string,
    mediaFileId: Option<string>,
    parseMode: Option<string>,
    scheduledAt: Option<string>,
    intervalSeconds: Option<int>,
    createdBy: int,
    status: Status)

  /** The trigger column that matches the job's kind is set, the other is NULL. */
  predicate WellFormedJob(j: Job)
  {
    match j.kind
    case Once => j.scheduledAt.Some? && j.intervalSeconds.None?
    case Interval => j.intervalSeconds.Some? && j.scheduledAt.None?
  }

  /** `user_id` is the primary key. */
  ghost predicate UniqueUserIds(users: seq<User>)
  {
    forall i, k :: 0 <= i < k < |users| ==> users[i].userId != users[k].userId
  }

  /** Job rows in insertion order carry strictly increasing AUTOINCREMENT ids. */
  ghost predicate IdsIncreasing(jobs: seq<Job>)
  {
    forall i, k :: 0 <= i < k < |jobs| ==> jobs[i].id < jobs[k].id
  }

  predicate HasUser(users: seq<User>, userId: UserId)
  {
    exists u :: u in users && u.userId == userId
  }

  // ---------------------------------------------------------------- queries

  /** `SELECT user_id FROM users WHERE is_blocked = 0`. */
  function GetAllUsers(users: seq<User>): (ids: seq<UserId>)
    ensures |ids| <= |users|
    ensures forall u :: u in users && !u.blocked ==> u.userId in ids
    ensures forall id :: id in ids ==> exists u :: u in users && u.userId == id && !u.blocked
  {
    if users == [] then []
    else (if users[0].blocked then [] else [users[0].userId]) + GetAllUsers(users[1..])
  }

  /** `SELECT COUNT(*) FROM users WHERE is_blocked = 0`. */
  function UsersCount(users: seq<User>): nat
  {
    if users == [] then 0
    else (if users[0].blocked then 0 else 1) + UsersCount(users[1..])
  }

  /** The count and the fan-out list agree. */
  lemma {:induction false} UsersCountIsListLength(users: seq<User>)
    ensures UsersCount(users) == |GetAllUsers(users)|
  {
    if users != [] {
      UsersCountIsListLength(users[1..]);
    }
  }

  /** A blocked user is never in the fan-out list (ids being unique, no other
      row can bring its id in). */
  lemma {:induction false} BlockedUserNeverListed(users: seq<User>, i: nat)
    requires UniqueUserIds(users)
    requires i < |users| && users[i].blocked
    ensures users[i].userId !in GetAllUsers(users)
  {
    if i == 0 {
      assert forall u :: u in users[1..] ==> u.userId != users[0].userId;
    } else {
      assert users[i] == users[1..][i - 1];
      BlockedUserNeverListed(users[1..], i - 1);
    }
  }

  /** `SELECT ... FROM jobs WHERE status='active'`. */
  function ActiveJobs(jobs: seq<Job>): (r: seq<Job>)
    ensures |r| <= |jobs|
    ensures forall j :: j in r <==> j in jobs && j.status == Active
  {
    if jobs == [] then []
    else (if jobs[0].status == Active then [jobs[0]] else []) + ActiveJobs(jobs[1..])
  }

  /** `active_jobs` returns each active row exactly as often as the table
      holds it, and no other row. */
  lemma {:induction false} ActiveJobsMultiset(jobs: seq<Job>)
    ensures forall j :: multiset(ActiveJobs(jobs))[j] == if j.status == Active then multiset(jobs)[j] else 0
  {
    if jobs != [] {
      ActiveJobsMultiset(jobs[1..]);
      assert jobs == [jobs[0]] + jobs[1..];
    }
  }

  ghost predicate SortedByIdDesc(s: seq<Job>)
  {
    forall i, k :: 0 <= i < k < |s| ==> s[i].id >= s[k].id
  }

  function InsertByIdDesc(j: Job, s: seq<Job>): seq<Job>
  {
    if s == [] then [j]
    else if j.id >= s[0].id then [j] + s
    else [s[0]] + InsertByIdDesc(j, s[1..])
  }

  lemma {:induction false} InsertByIdDescContents(j: Job, s: seq<Job>)
    ensures multiset(InsertByIdDesc(j, s)) == multiset(s) + multiset{j}
    ensures forall x :: x in InsertByIdDesc(j, s) ==> x == j || x in s
  {
    if s != [] && j.id < s[0].id {
      InsertByIdDescContents(j, s[1..]);
      assert s == [s[0]] + s[1..];
    }
  }

  lemma {:induction false} InsertByIdDescSorted(j: Job, s: seq<Job>)
    requires SortedByIdDesc(s)
    ensures SortedByIdDesc(InsertByIdDesc(j, s))
  {
    if s != [] && j.id < s[0].id {
      var rest := InsertByIdDesc(j, s[1..]);
      InsertByIdDescSorted(j, s[1..]);
      InsertByIdDescContents(j, s[1..]);
      assert forall x :: x in s[1..] ==> x.id <= s[0].id;
      assert forall x :: x in rest ==> x.id <= s[0].id;
      var r := [s[0]] + rest;
      assert forall k :: 0 < k < |r| ==> r[k] == rest[k - 1];
    }
  }

  /** `SELECT ... FROM jobs ORDER BY id DESC`: every job, cancelled ones
      included, highest id first. */
  function ListJobs(jobs: seq<Job>): (r: seq<Job>)
    ensures SortedByIdDesc(r)
    ensures multiset(r) == multiset(jobs)
  {
    if jobs == [] then []
    else
      var rest := ListJobs(jobs[1..]);
      InsertByIdDescSorted(jobs[0], rest);
      InsertByIdDescContents(jobs[0], rest);
      assert jobs == [jobs[0]] + jobs[1..];
      InsertByIdDesc(jobs[0], rest)
  }

  /** `UPDATE jobs SET status='cancelled' WHERE id=?` on a table value. */
  function CancelRows(jobs: seq<Job>, jobId: int): (r: seq<Job>)
    ensures |r| == |jobs|
    ensures forall i :: 0 <= i < |jobs| ==>
              r[i] == if jobs[i].id == jobId then jobs[i].(status := Cancelled) else jobs[i]
  {
    if jobs == [] then []
    else [if jobs[0].id == jobId then jobs[0].(status := Cancelled) else jobs[0]] + CancelRows(jobs[1..], jobId)
  }

  /** After a cancel the job is no longer active, and no other job's activity
      changed. */
  lemma CancelledJobLeavesActive(jobs: seq<Job>, jobId: int)
    ensures forall j :: j in ActiveJobs(CancelRows(jobs, jobId)) ==> j.id != jobId
    ensures forall j :: j in ActiveJobs(jobs) && j.id != jobId ==> j in ActiveJobs(CancelRows(jobs, jobId))
  {
    var r := CancelRows(jobs, jobId);
    forall j | j in ActiveJobs(jobs) && j.id != jobId
      ensures j in ActiveJobs(r)
    {
      var i :| 0 <= i < |jobs| && jobs[i] == j;
      assert r[i] == j;
    }
  }

  // ------------------------------------------------------------- the store

  class Store {
    var users: seq<User>
    var jobs: seq<Job>
    /** The AUTOINCREMENT counter of `jobs` (its `sqlite_sequence` entry). */
    var lastJobId: nat

    ghost predicate Valid()
      reads this
    {
      UniqueUserIds(users) && IdsIncreasing(jobs) && lastJobId <= MaxInteger &&
      forall i :: 0 <= i < |jobs| ==> 1 <= jobs[i].id <= lastJobId && WellFormedJob(jobs[i])
    }

    /** `init_db` on a new database file: both tables empty. */
    constructor ()
      ensures Valid()
      ensures users == [] && jobs == [] && lastJobId == 0
    {
      users, jobs, lastJobId := [], [], 0;
    }

    /** `add_user`: `INSERT OR IGNORE` keyed on `user_id`. */
    method AddUser(userId: UserId, firstName: string, username: Option<string>, now: string)
      requires Valid()
      modifies this
      ensures Valid()
      ensures HasUser(old(users), userId) ==> users == old(users)
      ensures !HasUser(old(users), userId) ==>
                users == old(users) + [User(userId, firstName, username, now, now, false)]
      ensures jobs == old(jobs) && lastJobId == old(lastJobId)
    {
      if !HasUser(users, userId) {
        users := users + [User(userId, firstName, username, now, now, false)];
      }
    }

    /** `update_last_active`: only that user's `last_active` changes. */
    method UpdateLastActive(userId: UserId, now: string)
      requires Valid()
      modifies this
      ensures Valid()
      ensures |users| == |old(users)|
      ensures forall i :: 0 <= i < |users| ==>
                users[i] == if old(users)[i].userId == userId then old(users)[i].(lastActive := now) else old(users)[i]
      ensures jobs == old(jobs) && lastJobId == old(lastJobId)
    {
      users := seq(|users|, i requires 0 <= i < |users| reads this =>
                 if users[i].userId == userId then users[i].(lastActive := now) else users[i]);
    }

    /** `mark_blocked`: only that user's `is_blocked` changes. */
    method MarkBlocked(userId: UserId)
      requires Valid()
      modifies this
      ensures Valid()
      ensures |users| == |old(users)|
      ensures forall i :: 0 <= i < |users| ==>
                users[i] == if old(users)[i].userId == userId then old(users)[i].(blocked := true) else old(users)[i]
      ensures jobs == old(jobs) && lastJobId == old(lastJobId)
    {
      users := seq(|users|, i requires 0 <= i < |users| reads this =>
                 if users[i].userId == userId then users[i].(blocked := true) else users[i]);
    }

    /** `add_job_once`: a new active 'once' job with `scheduled_at` set, and
        its id.  `None` is the exception raised when the AUTOINCREMENT counter
        is exhausted or `created_by` does not fit an SQLite INTEGER. */
    method AddJobOnce(text: string, whenIso: string, createdBy: int,
                      mediaFileId: Option<string> := None, parseMode: Option<string> := None)
      returns (id: Option<int>)
      requires Valid()
      modifies this
      ensures Valid()
      ensures id.None? <==> old(lastJobId) == MaxInteger || !BindsAsInteger(createdBy)
      ensures id.None? ==> jobs == old(jobs) && lastJobId == old(lastJobId)
      ensures id.Some? ==> id.value == old(lastJobId) + 1 && lastJobId == id.value &&
                           (forall j :: j in old(jobs) ==> j.id < id.value) &&
                           jobs == old(jobs) + [Job(id.value, Once, text, mediaFileId, parseMode, Some(whenIso), None, createdBy, Active)]
      ensures users == old(users)
    {
      if lastJobId == MaxInteger || !BindsAsInteger(createdBy) {
        return None;
      }
      var n := lastJobId + 1;
      jobs := jobs + [Job(n, Once, text, mediaFileId, parseMode, Some(whenIso), None, createdBy, Active)];
      lastJobId := n;
      id := Some(n);
    }

    /** `add_job_interval`: a new active 'interval' job with `interval_seconds`
        set, and its id; `None` as for `add_job_once`, and also when
        `interval_seconds` does not fit. */
    method AddJobInterval(text: string, intervalSeconds: int, createdBy: int,
                          mediaFileId: Option<string> := None, parseMode: Option<string> := None)
      returns (id: Option<int>)
      requires Valid()
      modifies this
      ensures Valid()
      ensures id.None? <==> old(lastJobId) == MaxInteger || !BindsAsInteger(createdBy) || !BindsAsInteger(intervalSeconds)
      ensures id.None? ==> jobs == old(jobs) && lastJobId == old(lastJobId)
      ensures id.Some? ==> id.value == old(lastJobId) + 1 && lastJobId == id.value &&
                           (forall j :: j in old(jobs) ==> j.id < id.value) &&
                           jobs == old(jobs) + [Job(id.value, Interval, text, mediaFileId, parseMode, None, Some(intervalSeconds), createdBy, Active)]
      ensures users == old(users)
    {
      if lastJobId == MaxInteger || !BindsAsInteger(createdBy) || !BindsAsInteger(intervalSeconds) {
        return None;
      }
      var n := lastJobId + 1;
      jobs := jobs + [Job(n, Interval, text, mediaFileId, parseMode, None, Some(intervalSeconds), createdBy, Active)];
      lastJobId := n;
      id := Some(n);
    }

    /** `cancel_job`: soft cancel; answers true whether or not the id exists.
        `None` is the `OverflowError` raised for an id SQLite cannot hold. */
    method CancelJob(jobId: int) returns (ok: Option<bool>)
      requires Valid()
      modifies this
      ensures Valid()
      ensures ok.None? <==> !BindsAsInteger(jobId)
      ensures ok.Some? ==> ok.value && jobs == CancelRows(old(jobs), jobId)
      ensures ok.None? ==> jobs == old(jobs)
      ensures users == old(users) && lastJobId == old(lastJobId)
    {
      if !BindsAsInteger(jobId) {
        return None;
      }
      jobs := CancelRows(jobs, jobId);
      ok := Some(true);
    }
  }
}
