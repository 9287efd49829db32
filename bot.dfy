/** bot.py: the process-wide settings `RATE_MS` and `CYCLE_SECONDS`, the
    operator commands that change them or the job table, the per-recipient
    send with its photo-to-document fallback, and one pass of
    `broadcast_loop`.  The clock is an input string, the channel an oracle,
    and a failing store call an input index. */
module Bot {
  import opened Common
  import opened Delivery
  import Db
  import opened BotText

  /** `config.DEFAULT_DELAY_MS` and `config.DEFAULT_CYCLE_SECONDS` when the
      environment leaves them unset. */
  const DefaultDelayMs: int := 1200
  const DefaultCycleSeconds: int := 3600

  /** The fixed `asyncio.sleep(5)` that ends every pass of the loop. */
  const PollSleepMs: nat := 5000

  // ------------------------------------------------------------ one recipient

  /** `send_message_with_media`: with media, a photo, and a document when the
      photo raised anything at all; without media, a text message.  Whatever
      the last call raises is logged and swallowed, so the requests sent are
      the whole effect. */
  function Deliver(channel: Channel, history: seq<Request>, userId: UserId, text: string,
                   mediaFileId: Option<string>, parseMode: Option<string>): (sent: seq<Request>)
    ensures 1 <= |sent| <= 2
    ensures forall r :: r in sent ==>
              r.recipient == userId && r.text == text && r.parseMode == parseMode &&
              r.media == (if r.call == SendMessage then None else mediaFileId)
    ensures Truthy(mediaFileId) ==>
              sent[0].call == SendPhoto &&
              (|sent| == 2 <==> channel(history, sent[0]) != Success) &&
              (|sent| == 2 ==> sent[1].call == SendDocument)
    ensures !Truthy(mediaFileId) ==> |sent| == 1 && sent[0].call == SendMessage
  {
    if Truthy(mediaFileId) then
      var photo := Request(userId, SendPhoto, text, mediaFileId, parseMode);
      if channel(history, photo) == Success then [photo]
      else [photo, Request(userId, SendDocument, text, mediaFileId, parseMode)]
    else [Request(userId, SendMessage, text, None, parseMode)]
  }

  // ------------------------------------------------------------ one job

  /** The due test of a 'once' job: `scheduled_at` is non-empty and the
      current ISO timestamp compares `>=` to it as a string. */
  predicate IsDue(scheduledAt: Option<string>, now: string)
  {
    Truthy(scheduledAt) && StrLe(scheduledAt.value, now)
  }

  /** A job whose `scheduled_at` is later than now (as a string) is not due. */
  lemma FutureJobNotDue(scheduledAt: string, now: string)
    requires StrLe(now, scheduledAt) && now != scheduledAt
    ensures !IsDue(Some(scheduledAt), now)
  {
    if StrLe(scheduledAt, now) {
      StrLeAntisymmetric(now, scheduledAt);
    }
  }

  /** Once due, a job stays due at every later instant. */
  lemma DueStaysDue(scheduledAt: Option<string>, now: string, later: string)
    requires IsDue(scheduledAt, now) && StrLe(now, later)
    ensures IsDue(scheduledAt, later)
  {
    StrLeTransitive(scheduledAt.value, now, later);
  }

  /** A 'once' job that is due: it is fanned out and then cancelled. */
  predicate IsDueOnce(job: Db.Job, now: string)
  {
    job.kind == Db.Once && IsDue(job.scheduledAt, now)
  }

  /** A job the pass fans out: every 'interval' job, and the due 'once' jobs. */
  predicate Fires(job: Db.Job, now: string)
  {
    job.kind == Db.Interval || IsDueOnce(job, now)
  }

  /** The requests of one fan-out: each user of the list in turn. */
  function FanOutLog(channel: Channel, history: seq<Request>, users: seq<UserId>, job: Db.Job): seq<Request>
    decreases |users|
  {
    if users == [] then []
    else
      var d := Deliver(channel, history, users[0], job.text, job.mediaFileId, job.parseMode);
      d + FanOutLog(channel, history + d, users[1..], job)
  }

  /** One recipient's deliveries extend the log the fan-out starts from. */
  lemma FanOutLogStep(channel: Channel, log: seq<Request>, users: seq<UserId>, job: Db.Job)
    requires users != []
    ensures var d := Deliver(channel, log, users[0], job.text, job.mediaFileId, job.parseMode);
            log + FanOutLog(channel, log, users, job) == (log + d) + FanOutLog(channel, log + d, users[1..], job)
  {
  }

  /** The recipients of the first attempts in `reqs`, leaving out the document
      fallbacks. */
  function FirstAttempts(reqs: seq<Request>): seq<UserId>
  {
    if reqs == [] then []
    else (if reqs[0].call == SendDocument then [] else [reqs[0].recipient]) + FirstAttempts(reqs[1..])
  }

  lemma {:induction false} FirstAttemptsAppend(a: seq<Request>, b: seq<Request>)
    ensures FirstAttempts(a + b) == FirstAttempts(a) + FirstAttempts(b)
  {
    if a == [] {
      assert a + b == b;
    } else {
      var h := if a[0].call == SendDocument then [] else [a[0].recipient];
      assert (a + b)[0] == a[0] && (a + b)[1..] == a[1..] + b;
      FirstAttemptsAppend(a[1..], b);
      calc {
        FirstAttempts(a + b);
        h + FirstAttempts(a[1..] + b);
        h + (FirstAttempts(a[1..]) + FirstAttempts(b));
        (h + FirstAttempts(a[1..])) + FirstAttempts(b);
      }
    }
  }

  lemma FirstAttemptsDeliver(channel: Channel, history: seq<Request>, userId: UserId, text: string,
                             mediaFileId: Option<string>, parseMode: Option<string>)
    ensures FirstAttempts(Deliver(channel, history, userId, text, mediaFileId, parseMode)) == [userId]
  {
    var photo := Request(userId, SendPhoto, text, mediaFileId, parseMode);
    var doc := Request(userId, SendDocument, text, mediaFileId, parseMode);
    var msg := Request(userId, SendMessage, text, None, parseMode);
    assert FirstAttempts([]) == [];
    assert [photo][1..] == [] && [msg][1..] == [] && [doc][1..] == [];
    assert [photo, doc][1..] == [doc];
    assert FirstAttempts([doc]) == [];
  }

  /** A fan-out tries every user of the list exactly once and in list order,
      with at most one document fallback per user. */
  lemma {:induction false} FanOutTriesEachUserOnce(channel: Channel, history: seq<Request>, users: seq<UserId>, job: Db.Job)
    ensures FirstAttempts(FanOutLog(channel, history, users, job)) == users
    ensures |users| <= |FanOutLog(channel, history, users, job)| <= 2 * |users|
    decreases |users|
  {
    if users != [] {
      var d := Deliver(channel, history, users[0], job.text, job.mediaFileId, job.parseMode);
      var rest := FanOutLog(channel, history + d, users[1..], job);
      FanOutTriesEachUserOnce(channel, history + d, users[1..], job);
      FirstAttemptsAppend(d, rest);
      FirstAttemptsDeliver(channel, history, users[0], job.text, job.mediaFileId, job.parseMode);
      calc {
        FirstAttempts(FanOutLog(channel, history, users, job));
        FirstAttempts(d + rest);
        [users[0]] + users[1..];
        users;
      }
    }
  }

  /** Every request of a fan-out goes to a user of the list and carries the
      job's text and parse mode; a photo or document carries the job's media
      and a text message none.  A text message is sent exactly when the job
      has no media. */
  lemma {:induction false} FanOutPayload(channel: Channel, history: seq<Request>, users: seq<UserId>, job: Db.Job)
    ensures forall r :: r in FanOutLog(channel, history, users, job) ==>
              r.recipient in users && r.text == job.text &&
              r.media == (if r.call == SendMessage then None else job.mediaFileId) &&
              r.parseMode == job.parseMode &&
              (r.call == SendMessage <==> !Truthy(job.mediaFileId))
    decreases |users|
  {
    if users != [] {
      var d := Deliver(channel, history, users[0], job.text, job.mediaFileId, job.parseMode);
      var rest := FanOutLog(channel, history + d, users[1..], job);
      FanOutPayload(channel, history + d, users[1..], job);
      assert forall r :: r in d ==> (r.call == SendMessage <==> !Truthy(job.mediaFileId));
      assert forall u :: u in users[1..] ==> u in users;
      assert FanOutLog(channel, history, users, job) == d + rest;
    }
  }

  /** Only the job's text, media and parse mode reach the channel; in
      particular `interval_seconds` and `scheduled_at` play no part. */
  lemma {:induction false} FanOutIgnoresTrigger(channel: Channel, history: seq<Request>, users: seq<UserId>,
                                                job: Db.Job, other: Db.Job)
    requires other.text == job.text && other.mediaFileId == job.mediaFileId && other.parseMode == job.parseMode
    ensures FanOutLog(channel, history, users, other) == FanOutLog(channel, history, users, job)
    decreases |users|
  {
    if users != [] {
      var d := Deliver(channel, history, users[0], job.text, job.mediaFileId, job.parseMode);
      FanOutIgnoresTrigger(channel, history + d, users[1..], job, other);
    }
  }

  // ------------------------------------------------------------ one pass

  /** Where a pass has got to: the job table, the requests sent so far, the
      milliseconds slept so far, how many store calls have been made, and
      whether one of them has raised. */
  datatype Progress = Progress(jobs: seq<Db.Job>, log: seq<Request>, sleptMs: nat, storeCalls: nat, aborted: bool)

  /** The body of `for job in jobs_list` for one job: a firing job is fanned
      out, with `RATE_MS` after each user; a due 'once' job is then
      cancelled, unless that store call is the one picked by `failAt` to
      raise, which leaves the job as it was and abandons the pass. */
  function Step(job: Db.Job, users: seq<UserId>, now: string, channel: Channel, rateMs: int,
                failAt: Option<nat>, p: Progress): Progress
  {
    var p1 := if Fires(job, now)
              then p.(log := p.log + FanOutLog(channel, p.log, users, job),
                      sleptMs := p.sleptMs + Max0(rateMs) * |users|)
              else p;
    if !IsDueOnce(job, now) then p1
    else if failAt == Some(p1.storeCalls) then p1.(aborted := true)
    else p1.(jobs := Db.CancelRows(p1.jobs, job.id), storeCalls := p1.storeCalls + 1)
  }

  /** The `for job in jobs_list` loop, from `p` on, until a store call raises. */
  function RunJobs(pending: seq<Db.Job>, users: seq<UserId>, now: string, channel: Channel, rateMs: int,
                   failAt: Option<nat>, p: Progress): Progress
    decreases |pending|
  {
    if pending == [] || p.aborted then p
    else RunJobs(pending[1..], users, now, channel, rateMs, failAt, Step(pending[0], users, now, channel, rateMs, failAt, p))
  }

  /** One pass of `broadcast_loop` from a job table, a user table, the requests
      sent and the time slept so far.  Store call 0 is `active_jobs`, call 1
      is `get_all_users`, and the `cancel_job` calls follow.  Both the normal
      path and the exception handler end with the 5 s sleep. */
  function TickSpec(jobs: seq<Db.Job>, userRows: seq<Db.User>, log: seq<Request>, sleptMs: nat,
                    now: string, channel: Channel, rateMs: int, failAt: Option<nat>): Progress
  {
    var start := Progress(jobs, log, sleptMs, 0, false);
    var p := if failAt == Some(0) || failAt == Some(1) then start.(aborted := true)
             else RunJobs(Db.ActiveJobs(jobs), Db.GetAllUsers(userRows), now, channel, rateMs, failAt,
                          start.(storeCalls := 2));
    p.(sleptMs := p.sleptMs + PollSleepMs)
  }

  // ------------------------------------------------------------ properties of a pass

  /** A 'once' job that is not due sends nothing and changes nothing. */
  lemma NotDueOnceJobSkipped(job: Db.Job, rest: seq<Db.Job>, users: seq<UserId>, now: string, channel: Channel,
                             rateMs: int, failAt: Option<nat>, p: Progress)
    requires job.kind == Db.Once && !IsDue(job.scheduledAt, now)
    ensures RunJobs([job] + rest, users, now, channel, rateMs, failAt, p)
            == RunJobs(rest, users, now, channel, rateMs, failAt, p)
  {
    assert ([job] + rest)[1..] == rest;
  }

  /** An 'interval' job is fanned out on every pass it is reached in and keeps
      its status. */
  lemma IntervalJobFiresEveryPass(job: Db.Job, rest: seq<Db.Job>, users: seq<UserId>, now: string, channel: Channel,
                                  rateMs: int, failAt: Option<nat>, p: Progress)
    requires job.kind == Db.Interval && !p.aborted
    ensures RunJobs([job] + rest, users, now, channel, rateMs, failAt, p)
            == RunJobs(rest, users, now, channel, rateMs, failAt,
                       p.(log := p.log + FanOutLog(channel, p.log, users, job),
                          sleptMs := p.sleptMs + Max0(rateMs) * |users|))
  {
    assert ([job] + rest)[1..] == rest;
  }

  /** A due 'once' job whose `cancel_job` raises has been fanned out but stays
      as it was (so still active), and the jobs after it are not looked at. */
  lemma FailedCancelAbandonsPass(job: Db.Job, rest: seq<Db.Job>, users: seq<UserId>, now: string, channel: Channel,
                                 rateMs: int, p: Progress)
    requires IsDueOnce(job, now) && !p.aborted
    ensures RunJobs([job] + rest, users, now, channel, rateMs, Some(p.storeCalls), p)
            == p.(log := p.log + FanOutLog(channel, p.log, users, job),
                  sleptMs := p.sleptMs + Max0(rateMs) * |users|,
                  aborted := true)
  {
  }

  /** When `active_jobs` or `get_all_users` raises, the pass only sleeps. */
  lemma FailedReadOnlySleeps(jobs: seq<Db.Job>, userRows: seq<Db.User>, log: seq<Request>, sleptMs: nat,
                             now: string, channel: Channel, rateMs: int, failAt: Option<nat>)
    requires failAt == Some(0) || failAt == Some(1)
    ensures var p := TickSpec(jobs, userRows, log, sleptMs, now, channel, rateMs, failAt);
            p.jobs == jobs && p.log == log && p.sleptMs == sleptMs + PollSleepMs
  {
  }

  /** Number of jobs in `pending` that a pass fans out. */
  function NumFiring(pending: seq<Db.Job>, now: string): nat
  {
    if pending == [] then 0 else (if Fires(pending[0], now) then 1 else 0) + NumFiring(pending[1..], now)
  }

  /** Ids of the jobs in `pending` that a pass cancels, in order. */
  function DueOnceIds(pending: seq<Db.Job>, now: string): (ids: seq<int>)
    ensures forall j :: j in pending && IsDueOnce(j, now) ==> j.id in ids
    ensures forall id :: id in ids ==> exists j :: j in pending && IsDueOnce(j, now) && j.id == id
  {
    if pending == [] then []
    else (if IsDueOnce(pending[0], now) then [pending[0].id] else []) + DueOnceIds(pending[1..], now)
  }

  /** `cancel_job` for each id in turn. */
  function CancelEach(jobs: seq<Db.Job>, ids: seq<int>): (r: seq<Db.Job>)
    ensures |r| == |jobs|
    ensures forall k :: 0 <= k < |jobs| ==>
              r[k] == if jobs[k].id in ids then jobs[k].(status := Db.Cancelled) else jobs[k]
    decreases |ids|
  {
    if ids == [] then jobs
    else
      var r := CancelEach(Db.CancelRows(jobs, ids[0]), ids[1..]);
      assert forall id :: id in ids <==> id == ids[0] || id in ids[1..];
      r
  }

  /** One fault-free step: a firing job is fanned out and sleeps the rate
      once per user, a due 'once' job is cancelled, and nothing aborts. */
  lemma StepWithoutFailure(job: Db.Job, users: seq<UserId>, now: string, channel: Channel, rateMs: int,
                           p: Progress)
    requires !p.aborted
    ensures var p2 := Step(job, users, now, channel, rateMs, None, p);
            !p2.aborted &&
            p2.jobs == (if IsDueOnce(job, now) then Db.CancelRows(p.jobs, job.id) else p.jobs) &&
            p2.sleptMs == p.sleptMs + (if Fires(job, now) then Max0(rateMs) * |users| else 0) &&
            p2.log == (if Fires(job, now) then p.log + FanOutLog(channel, p.log, users, job) else p.log)
  {
  }

  /** With no store failure, the loop cancels every due 'once' job and no
      other. */
  lemma {:induction false} RunJobsCancelsDueOnce(pending: seq<Db.Job>, users: seq<UserId>, now: string,
                                                 channel: Channel, rateMs: int, p: Progress)
    requires !p.aborted
    ensures var q := RunJobs(pending, users, now, channel, rateMs, None, p);
            !q.aborted && q.jobs == CancelEach(p.jobs, DueOnceIds(pending, now))
    decreases |pending|
  {
    if pending != [] {
      var job := pending[0];
      var p2 := Step(job, users, now, channel, rateMs, None, p);
      StepWithoutFailure(job, users, now, channel, rateMs, p);
      assert RunJobs(pending, users, now, channel, rateMs, None, p)
             == RunJobs(pending[1..], users, now, channel, rateMs, None, p2);
      RunJobsCancelsDueOnce(pending[1..], users, now, channel, rateMs, p2);
      var ids := DueOnceIds(pending[1..], now);
      if IsDueOnce(job, now) {
        assert DueOnceIds(pending, now) == [job.id] + ids;
        assert ([job.id] + ids)[1..] == ids;
        assert CancelEach(p.jobs, [job.id] + ids) == CancelEach(Db.CancelRows(p.jobs, job.id), ids);
      } else {
        assert DueOnceIds(pending, now) == ids;
      }
    }
  }

  /** With no store failure, the loop sleeps the rate once per user per
      firing job. */
  lemma {:induction false} RunJobsSleeps(pending: seq<Db.Job>, users: seq<UserId>, now: string,
                                         channel: Channel, rateMs: int, p: Progress)
    requires !p.aborted
    ensures RunJobs(pending, users, now, channel, rateMs, None, p).sleptMs
            == p.sleptMs + Max0(rateMs) * |users| * NumFiring(pending, now)
    decreases |pending|
  {
    if pending != [] {
      var job := pending[0];
      var p2 := Step(job, users, now, channel, rateMs, None, p);
      StepWithoutFailure(job, users, now, channel, rateMs, p);
      assert RunJobs(pending, users, now, channel, rateMs, None, p)
             == RunJobs(pending[1..], users, now, channel, rateMs, None, p2);
      RunJobsSleeps(pending[1..], users, now, channel, rateMs, p2);
      var n := NumFiring(pending[1..], now);
      if Fires(job, now) {
        assert NumFiring(pending, now) == n + 1;
        MulSucc(Max0(rateMs) * |users|, n);
      } else {
        assert NumFiring(pending, now) == n;
      }
    }
  }

  /** `users` repeated `n` times. */
  function Repeat(users: seq<UserId>, n: nat): seq<UserId>
  {
    if n == 0 then [] else users + Repeat(users, n - 1)
  }

  lemma PrefixTransitive(a: seq<Request>, b: seq<Request>, c: seq<Request>)
    requires a <= b && b <= c
    ensures a <= c
  {
    assert c[..|a|] == c[..|b|][..|a|];
  }

  /** The send log after one fault-free step: extended by a fan-out that
      tries every user once if the job fires, unchanged otherwise. */
  lemma StepSendLog(job: Db.Job, users: seq<UserId>, now: string, channel: Channel, rateMs: int, p: Progress)
    requires !p.aborted
    ensures var p2 := Step(job, users, now, channel, rateMs, None, p);
            p.log <= p2.log &&
            FirstAttempts(p2.log) == FirstAttempts(p.log) + (if Fires(job, now) then users else []) &&
            (!Fires(job, now) ==> p2.log == p.log)
  {
    StepWithoutFailure(job, users, now, channel, rateMs, p);
    var f := FanOutLog(channel, p.log, users, job);
    FanOutTriesEachUserOnce(channel, p.log, users, job);
    FirstAttemptsAppend(p.log, f);
    assert (p.log + f)[..|p.log|] == p.log;
    assert FirstAttempts(p.log) + [] == FirstAttempts(p.log);
  }

  /** One step's log growth followed by the rest of the loop's. */
  lemma SendLogCompose(log: seq<Request>, log2: seq<Request>, log3: seq<Request>, users: seq<UserId>,
                       fires: bool, n: nat)
    requires log <= log2 && FirstAttempts(log2) == FirstAttempts(log) + (if fires then users else [])
    requires !fires ==> log2 == log
    requires log2 <= log3 && FirstAttempts(log3) == FirstAttempts(log2) + Repeat(users, n)
    requires n == 0 ==> log3 == log2
    ensures log <= log3
    ensures FirstAttempts(log3) == FirstAttempts(log) + Repeat(users, (if fires then 1 else 0) + n)
    ensures (if fires then 1 else 0) + n == 0 ==> log3 == log
  {
    PrefixTransitive(log, log2, log3);
    var a, b, c := FirstAttempts(log), FirstAttempts(log2), FirstAttempts(log3);
    if fires {
      assert Repeat(users, n + 1) == users + Repeat(users, n);
      assert c == a + (users + Repeat(users, n));
    } else {
      assert b == a + [] == a;
    }
  }

  /** With no store failure the loop only appends to the send log: one fan-out
      to the same user list per firing job, each trying every user once and
      in order, and nothing at all when no job fires. */
  lemma {:induction false} RunJobsSendLog(pending: seq<Db.Job>, users: seq<UserId>, now: string,
                                          channel: Channel, rateMs: int, p: Progress)
    requires !p.aborted
    ensures var q := RunJobs(pending, users, now, channel, rateMs, None, p);
            p.log <= q.log &&
            FirstAttempts(q.log) == FirstAttempts(p.log) + Repeat(users, NumFiring(pending, now)) &&
            (NumFiring(pending, now) == 0 ==> q.log == p.log)
    decreases |pending|
  {
    if pending == [] {
      assert FirstAttempts(p.log) + [] == FirstAttempts(p.log);
    } else {
      var job := pending[0];
      var p2 := Step(job, users, now, channel, rateMs, None, p);
      var q := RunJobs(pending[1..], users, now, channel, rateMs, None, p2);
      assert q == RunJobs(pending, users, now, channel, rateMs, None, p);
      StepSendLog(job, users, now, channel, rateMs, p);
      StepWithoutFailure(job, users, now, channel, rateMs, p);
      RunJobsSendLog(pending[1..], users, now, channel, rateMs, p2);
      assert NumFiring(pending, now) == (if Fires(job, now) then 1 else 0) + NumFiring(pending[1..], now);
      SendLogCompose(p.log, p2.log, q.log, users, Fires(job, now), NumFiring(pending[1..], now));
    }
  }

  lemma InActiveJobsAt(jobs: seq<Db.Job>, j: Db.Job) returns (m: nat)
    requires j in Db.ActiveJobs(jobs)
    ensures m < |jobs| && jobs[m] == j
  {
    m :| 0 <= m < |jobs| && jobs[m] == j;
  }

  /** A fault-free pass cancels exactly the active 'once' jobs that are due
      and leaves every other row as it was; it appends to the send log one
      fan-out over the same `get_all_users` list per firing job, and sleeps
      the rate once per user per fired job plus the final 5 s. */
  lemma {:induction false} TickWithoutFailure(jobs: seq<Db.Job>, userRows: seq<Db.User>, log: seq<Request>,
                                              sleptMs: nat, now: string, channel: Channel, rateMs: int)
    requires Db.IdsIncreasing(jobs)
    ensures var p := TickSpec(jobs, userRows, log, sleptMs, now, channel, rateMs, None);
            |p.jobs| == |jobs| &&
            (forall k :: 0 <= k < |jobs| ==>
               p.jobs[k] == if jobs[k].status == Db.Active && IsDueOnce(jobs[k], now)
                            then jobs[k].(status := Db.Cancelled) else jobs[k]) &&
            p.sleptMs == sleptMs + PollSleepMs
                         + Max0(rateMs) * |Db.GetAllUsers(userRows)| * NumFiring(Db.ActiveJobs(jobs), now) &&
            log <= p.log &&
            FirstAttempts(p.log) == FirstAttempts(log) + Repeat(Db.GetAllUsers(userRows), NumFiring(Db.ActiveJobs(jobs), now))
  {
    var active := Db.ActiveJobs(jobs);
    var users := Db.GetAllUsers(userRows);
    var ids := DueOnceIds(active, now);
    RunJobsCancelsDueOnce(active, users, now, channel, rateMs, Progress(jobs, log, sleptMs, 2, false));
    RunJobsSleeps(active, users, now, channel, rateMs, Progress(jobs, log, sleptMs, 2, false));
    RunJobsSendLog(active, users, now, channel, rateMs, Progress(jobs, log, sleptMs, 2, false));
    forall k | 0 <= k < |jobs|
      ensures jobs[k].id in ids <==> jobs[k].status == Db.Active && IsDueOnce(jobs[k], now)
    {
      if jobs[k].id in ids {
        var j :| j in active && IsDueOnce(j, now) && j.id == jobs[k].id;
        var m := InActiveJobsAt(jobs, j);
        assert m == k;
      }
    }
  }

  /** After a fault-free pass no fired 'once' job is active any more, so later
      passes, which fan out only active jobs, never fan it out again. */
  lemma DueOnceJobNeverRefires(jobs: seq<Db.Job>, userRows: seq<Db.User>, log: seq<Request>,
                               sleptMs: nat, now: string, channel: Channel, rateMs: int, k: nat)
    requires Db.IdsIncreasing(jobs)
    requires k < |jobs| && jobs[k].status == Db.Active && IsDueOnce(jobs[k], now)
    ensures forall j :: j in Db.ActiveJobs(TickSpec(jobs, userRows, log, sleptMs, now, channel, rateMs, None).jobs)
                        ==> j.id != jobs[k].id
  {
    var after := TickSpec(jobs, userRows, log, sleptMs, now, channel, rateMs, None).jobs;
    TickWithoutFailure(jobs, userRows, log, sleptMs, now, channel, rateMs);
    forall j | j in Db.ActiveJobs(after)
      ensures j.id != jobs[k].id
    {
      var m := InActiveJobsAt(after, j);
      assert after[m].id == jobs[m].id;
      if m != k {
        if m < k { assert jobs[m].id < jobs[k].id; } else { assert jobs[k].id < jobs[m].id; }
      }
    }
  }

  // ------------------------------------------------------------ the process state

  class Bot {
    /** `RATE_MS`: the delay after each per-user send of the loop. */
    var rateMs: int
    /** `CYCLE_SECONDS`: set by `/set_cycle` and shown in its reply; the loop
        never reads it. */
    var cycleSeconds: int
    const store: Db.Store
    /** Every request sent to the channel so far. */
    var sendLog: seq<Request>
    /** Milliseconds the loop has slept so far. */
    var sleptMs: nat

    ghost predicate Valid()
      reads this, store
    {
      store.Valid()
    }

    constructor (store: Db.Store, delayMs: int := DefaultDelayMs, cycleSeconds: int := DefaultCycleSeconds)
      requires store.Valid()
      ensures Valid()
      ensures this.store == store && rateMs == delayMs && this.cycleSeconds == cycleSeconds
      ensures sendLog == [] && sleptMs == 0
    {
      this.store := store;
      rateMs, this.cycleSeconds := delayMs, cycleSeconds;
      sendLog, sleptMs := [], 0;
    }

    /** The `for user_id in users` loop: deliver to each user in turn and
        sleep `RATE_MS` after each, the last one included. */
    method SendToAll(channel: Channel, users: seq<UserId>, job: Db.Job)
      modifies this`sendLog, this`sleptMs
      ensures sendLog == old(sendLog) + FanOutLog(channel, old(sendLog), users, job)
      ensures sleptMs == old(sleptMs) + Max0(rateMs) * |users|
    {
      for k := 0 to |users|
        invariant old(sendLog) + FanOutLog(channel, old(sendLog), users, job)
                  == sendLog + FanOutLog(channel, sendLog, users[k..], job)
        invariant sleptMs == old(sleptMs) + Max0(rateMs) * k
      {
        var sent := Deliver(channel, sendLog, users[k], job.text, job.mediaFileId, job.parseMode);
        FanOutLogStep(channel, sendLog, users[k..], job);
        assert users[k..][1..] == users[k + 1..];
        sendLog := sendLog + sent;
        MulSucc(Max0(rateMs), k);
        sleptMs := sleptMs + Max0(rateMs);
      }
    }

    /** The loop body for one job, against the store's call counter `calls`.
        The job was read from the table, so its id fits an SQLite INTEGER. */
    method RunJob(job: Db.Job, users: seq<UserId>, now: string, channel: Channel, failAt: Option<nat>, calls: nat)
      returns (callsAfter: nat, aborted: bool)
      requires Valid()
      requires Db.BindsAsInteger(job.id)
      modifies this`sendLog, this`sleptMs, store
      ensures Valid()
      ensures Progress(store.jobs, sendLog, sleptMs, callsAfter, aborted)
              == Step(job, users, now, channel, rateMs, failAt,
                      Progress(old(store.jobs), old(sendLog), old(sleptMs), calls, false))
      ensures store.users == old(store.users) && store.lastJobId == old(store.lastJobId)
    {
      callsAfter, aborted := calls, false;
      if job.kind == Db.Once {
        if IsDue(job.scheduledAt, now) {
          SendToAll(channel, users, job);
          if failAt == Some(calls) {
            aborted := true;
          } else {
            var ok := store.CancelJob(job.id);
            callsAfter := calls + 1;
          }
        }
      } else {
        SendToAll(channel, users, job);
      }
    }

    /** The `for job in jobs_list` loop, leaving it early when a store call
        raises; `calls` store calls have been made before it. */
    method RunJobList(jobsList: seq<Db.Job>, users: seq<UserId>, now: string, channel: Channel,
                      failAt: Option<nat>, calls: nat)
      returns (callsAfter: nat, aborted: bool)
      requires Valid()
      requires forall k :: 0 <= k < |jobsList| ==> Db.BindsAsInteger(jobsList[k].id)
      modifies this`sendLog, this`sleptMs, store
      ensures Valid()
      ensures Progress(store.jobs, sendLog, sleptMs, callsAfter, aborted)
              == RunJobs(jobsList, users, now, channel, rateMs, failAt,
                         Progress(old(store.jobs), old(sendLog), old(sleptMs), calls, false))
      ensures store.users == old(store.users) && store.lastJobId == old(store.lastJobId)
    {
      callsAfter, aborted := calls, false;
      var i := 0;
      while i < |jobsList| && !aborted
        invariant 0 <= i <= |jobsList|
        invariant Valid()
        invariant store.users == old(store.users) && store.lastJobId == old(store.lastJobId)
        invariant RunJobs(jobsList[i..], users, now, channel, rateMs, failAt,
                          Progress(store.jobs, sendLog, sleptMs, callsAfter, aborted))
                  == RunJobs(jobsList, users, now, channel, rateMs, failAt,
                             Progress(old(store.jobs), old(sendLog), old(sleptMs), calls, false))
      {
        assert jobsList[i..][1..] == jobsList[i + 1..];
        callsAfter, aborted := RunJob(jobsList[i], users, now, channel, failAt, callsAfter);
        i := i + 1;
      }
    }

    /** One pass of `broadcast_loop` at the instant `now`, against `channel`;
        `failAt` picks the store call of this pass that raises, if any. */
    method Tick(now: string, channel: Channel, failAt: Option<nat>)
      requires Valid()
      modifies this, store
      ensures Valid()
      ensures var p := TickSpec(old(store.jobs), old(store.users), old(sendLog), old(sleptMs),
                                now, channel, old(rateMs), failAt);
              store.jobs == p.jobs && sendLog == p.log && sleptMs == p.sleptMs
      ensures store.users == old(store.users) && store.lastJobId == old(store.lastJobId)
      ensures rateMs == old(rateMs) && cycleSeconds == old(cycleSeconds)
    {
      if failAt != Some(0) {
        var jobsList := Db.ActiveJobs(store.jobs);
        forall k | 0 <= k < |jobsList|
          ensures Db.BindsAsInteger(jobsList[k].id)
        {
          assert jobsList[k] in store.jobs;
        }
        if failAt != Some(1) {
          var users := Db.GetAllUsers(store.users);
          var _, _ := RunJobList(jobsList, users, now, channel, failAt, 2);
        }
      }
      sleptMs := sleptMs + PollSleepMs;
    }

    /** `/cancel <job_id>`.  `None` is no reply: an id too large for SQLite
        makes `cancel_job` raise before the handler answers. */
    method CmdCancel(text: string) returns (reply: Option<string>)
      requires Valid()
      modifies store
      ensures Valid()
      ensures CommandArg(text).None? ==> store.jobs == old(store.jobs) && reply == Some(CancelUsage)
      ensures CommandArg(text).Some? && Db.BindsAsInteger(CommandArg(text).value) ==>
                store.jobs == Db.CancelRows(old(store.jobs), CommandArg(text).value) &&
                reply == Some(CancelledReply(Split(text)[1]))
      ensures CommandArg(text).Some? && !Db.BindsAsInteger(CommandArg(text).value) ==>
                store.jobs == old(store.jobs) && reply == None
      ensures store.users == old(store.users) && store.lastJobId == old(store.lastJobId)
    {
      var arg := CommandArg(text);
      if arg.None? {
        return Some(CancelUsage);
      }
      var ok := store.CancelJob(arg.value);
      if ok.None? {
        return None;
      }
      reply := Some(CancelledReply(Split(text)[1]));
    }

    /** `/set_rate <ms>`. */
    method CmdSetRate(text: string) returns (reply: string)
      modifies this`rateMs
      ensures CommandArg(text).Some? ==> rateMs == CommandArg(text).value && reply == RateReply(rateMs)
      ensures CommandArg(text).None? ==> rateMs == old(rateMs) && reply == SetRateUsage
    {
      var arg := CommandArg(text);
      if arg.None? {
        reply := SetRateUsage;
        return;
      }
      rateMs := arg.value;
      reply := RateReply(rateMs);
    }

    /** `/set_cycle <seconds>`. */
    method CmdSetCycle(text: string) returns (reply: string)
      modifies this`cycleSeconds
      ensures CommandArg(text).Some? ==> cycleSeconds == CommandArg(text).value && reply == CycleReply(cycleSeconds)
      ensures CommandArg(text).None? ==> cycleSeconds == old(cycleSeconds) && reply == SetCycleUsage
    {
      var arg := CommandArg(text);
      if arg.None? {
        reply := SetCycleUsage;
        return;
      }
      cycleSeconds := arg.value;
      reply := CycleReply(cycleSeconds);
    }

    /** `/jobs`: "no jobs", or a header line and one line per job, highest id
        first. */
    method CmdJobs() returns (reply: string)
      requires Valid()
      ensures store.jobs == [] ==> reply == NoJobs
      ensures store.jobs != [] ==>
                SplitOn(reply, '\n') == [JobsHeader] + JobLines(Db.ListJobs(store.jobs))
    {
      var rows := Db.ListJobs(store.jobs);
      if store.jobs != [] {
        assert |rows| == |multiset(rows)| == |multiset(store.jobs)| == |store.jobs|;
        JobsReplyLines(rows);
      }
      reply := JobsReply(rows);
    }
  }
}
