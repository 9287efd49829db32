/** `Broadcaster` (broadcast.py): fans one text or photo out to a list of
    recipients with a fixed pause between sends, and classifies what the
    channel answers.  Sleeps are accumulated as integer milliseconds. */
module Broadcast {
  import opened Common
  import opened Delivery

  const DefaultDelayMs: int := 1200

  /** Seconds slept after a `RetryAfter`: its `timeout` (5 when the exception
      has none) plus one. */
  function ThrottleWaitSeconds(timeout: Option<int>): int
  {
    (if timeout.Some? then timeout.value else 5) + 1
  }

  /** Milliseconds slept after a `RetryAfter` with the given `timeout`. */
  function ThrottleSleepMs(timeout: Option<int>): (r: nat)
    ensures timeout == None ==> r == 6000
    ensures timeout.Some? && timeout.value >= 0 ==> r == 1000 * (timeout.value + 1)
  {
    Max0(1000 * ThrottleWaitSeconds(timeout))
  }

  /** Number of delivered sends among `outs`. */
  function CountSent(outs: seq<Outcome>): nat
  {
    if outs == [] then 0
    else CountSent(outs[..|outs| - 1]) + (if outs[|outs| - 1].Success? then 1 else 0)
  }

  /** Number of permanent rejections and other errors among `outs`. */
  function CountFailed(outs: seq<Outcome>): nat
  {
    if outs == [] then 0
    else CountFailed(outs[..|outs| - 1]) + (if outs[|outs| - 1].Permanent? || outs[|outs| - 1].Other? then 1 else 0)
  }

  /** Number of throttles among `outs`. */
  function CountThrottled(outs: seq<Outcome>): nat
  {
    if outs == [] then 0
    else CountThrottled(outs[..|outs| - 1]) + (if outs[|outs| - 1].Throttle? then 1 else 0)
  }

  /** Total milliseconds slept on the throttles among `outs`. */
  function ThrottleSleepTotal(outs: seq<Outcome>): nat
  {
    if outs == [] then 0
    else
      var o := outs[|outs| - 1];
      ThrottleSleepTotal(outs[..|outs| - 1]) + (if o.Throttle? then ThrottleSleepMs(o.timeout) else 0)
  }

  /** The two counters of `send_text` and the milliseconds it has slept. */
  datatype Tally = Tally(sent: nat, failed: nat, sleptMs: nat)

  /** What one answer does to the tally: a success counts as sent and a
      permanent rejection or other error as failed, both then followed by the
      inter-send delay; a throttle only sleeps its wait. */
  function Account(t: Tally, o: Outcome, delayMs: int): Tally
  {
    match o
    case Throttle(timeout) => t.(sleptMs := t.sleptMs + ThrottleSleepMs(timeout))
    case Success => t.(sent := t.sent + 1, sleptMs := t.sleptMs + Max0(delayMs))
    case _ => t.(failed := t.failed + 1, sleptMs := t.sleptMs + Max0(delayMs))
  }

  /** The tally after the answers `outs`, starting from zero. */
  function TallyOf(outs: seq<Outcome>, delayMs: int): Tally
  {
    if outs == [] then Tally(0, 0, 0)
    else Account(TallyOf(outs[..|outs| - 1], delayMs), outs[|outs| - 1], delayMs)
  }

  /** The tally counts exactly the successes as sent and exactly the
      permanent-or-other outcomes as failed, and its sleep is the delay once
      per counted attempt plus every throttle wait. */
  lemma {:induction false} TallyCounts(outs: seq<Outcome>, delayMs: int)
    ensures TallyOf(outs, delayMs).sent == CountSent(outs)
    ensures TallyOf(outs, delayMs).failed == CountFailed(outs)
    ensures TallyOf(outs, delayMs).sleptMs
            == Max0(delayMs) * (CountSent(outs) + CountFailed(outs)) + ThrottleSleepTotal(outs)
    decreases |outs|
  {
    if outs != [] {
      var init := outs[..|outs| - 1];
      TallyCounts(init, delayMs);
      MulSucc(Max0(delayMs), CountSent(init) + CountFailed(init));
    }
  }

  /** Every outcome is exactly one of sent, failed or throttled. */
  lemma {:induction false} OutcomesPartition(outs: seq<Outcome>)
    ensures CountSent(outs) + CountFailed(outs) + CountThrottled(outs) == |outs|
    decreases |outs|
  {
    if outs != [] {
      OutcomesPartition(outs[..|outs| - 1]);
    }
  }

  /** With no throttle, every attempt is either sent or failed. */
  lemma {:induction false} NoThrottleNoThrottleSleep(outs: seq<Outcome>)
    requires forall i :: 0 <= i < |outs| ==> !outs[i].Throttle?
    ensures CountThrottled(outs) == 0 && ThrottleSleepTotal(outs) == 0
    ensures CountSent(outs) + CountFailed(outs) == |outs|
    decreases |outs|
  {
    if outs != [] {
      NoThrottleNoThrottleSleep(outs[..|outs| - 1]);
    }
    OutcomesPartition(outs);
  }

  /** Every recipient's attempt ends up in exactly one of the two counters or
      among the throttles, so the counters never exceed the attempts. */
  lemma TallyPartition(outs: seq<Outcome>, delayMs: int)
    ensures TallyOf(outs, delayMs).sent + TallyOf(outs, delayMs).failed + CountThrottled(outs) == |outs|
    ensures TallyOf(outs, delayMs).sent + TallyOf(outs, delayMs).failed <= |outs|
  {
    TallyCounts(outs, delayMs);
    OutcomesPartition(outs);
  }

  lemma ResponsesSnoc(channel: Channel, history: seq<Request>, reqs: seq<Request>, req: Request)
    ensures Responses(channel, history, reqs + [req]) == Responses(channel, history, reqs) + [channel(history + reqs, req)]
  {
    assert (reqs + [req])[..|reqs|] == reqs;
  }

  lemma TallyOfSnoc(outs: seq<Outcome>, o: Outcome, delayMs: int)
    ensures TallyOf(outs + [o], delayMs) == Account(TallyOf(outs, delayMs), o, delayMs)
  {
    assert (outs + [o])[..|outs|] == outs;
  }

  /** The provider call `send_text` uses: a photo when there is media, a text
      message otherwise, never a document. */
  function SendCall(mediaFileId: Option<string>): (m: SendMethod)
    ensures m != SendDocument
    ensures m == SendPhoto <==> Truthy(mediaFileId)
  {
    if Truthy(mediaFileId) then SendPhoto else SendMessage
  }

  /** The media the call receives: the file id for `send_photo`, none for
      `send_message`. */
  function SentMedia(mediaFileId: Option<string>): (m: Option<string>)
    ensures m.Some? ==> SendCall(mediaFileId) == SendPhoto && m == mediaFileId
  {
    if Truthy(mediaFileId) then mediaFileId else None
  }

  class Broadcaster {
    var delayMs: int

    /** `__init__` stores the delay as given; only `set_delay` clamps it. */
    constructor (delayMs: int := DefaultDelayMs)
      ensures this.delayMs == delayMs
    {
      this.delayMs := delayMs;
    }

    method SetDelay(delayMs: int)
      modifies this
      ensures this.delayMs == Max0(delayMs)
      ensures this.delayMs >= 0
    {
      this.delayMs := Max0(delayMs);
    }

    /** `send_text`: one attempt per recipient, in order, after the channel has
        already received `history`.  Returns the two counters, the requests
        sent and the milliseconds slept.  A throttled recipient is skipped:
        it is counted neither sent nor failed and not followed by the
        inter-send delay. */
    method SendText(channel: Channel, history: seq<Request>, userIds: seq<UserId>, text: string,
                    parseMode: Option<string> := None, mediaFileId: Option<string> := None)
      returns (sent: nat, failed: nat, log: seq<Request>, sleptMs: nat)
      ensures |log| == |userIds|
      ensures forall i :: 0 <= i < |userIds| ==>
                log[i] == Request(userIds[i], SendCall(mediaFileId), text, SentMedia(mediaFileId), parseMode)
      ensures Tally(sent, failed, sleptMs) == TallyOf(Responses(channel, history, log), delayMs)
    {
      sent, failed, log, sleptMs := 0, 0, [], 0;
      ghost var outs: seq<Outcome> := [];
      for i := 0 to |userIds|
        invariant |log| == i
        invariant forall k :: 0 <= k < i ==>
                    log[k] == Request(userIds[k], SendCall(mediaFileId), text, SentMedia(mediaFileId), parseMode)
        invariant outs == Responses(channel, history, log)
        invariant Tally(sent, failed, sleptMs) == TallyOf(outs, delayMs)
      {
        var request := Request(userIds[i], SendCall(mediaFileId), text, SentMedia(mediaFileId), parseMode);
        var outcome := channel(history + log, request);
        ResponsesSnoc(channel, history, log, request);
        TallyOfSnoc(outs, outcome, delayMs);
        log, outs := log + [request], outs + [outcome];
        // the `try` and `except` arms for this answer; after a throttle the `continue` skips the delay
        var t := Account(Tally(sent, failed, sleptMs), outcome, delayMs);
        sent, failed, sleptMs := t.sent, t.failed, t.sleptMs;
      }
    }
  }

  /** Four recipients answered success, permanent rejection, a throttle of two
      seconds and success: the throttled third recipient is skipped, not
      retried, so two are sent and one failed, and the third recipient's turn
      costs a 3 s wait instead of the delay. */
  lemma SkippedThrottleScenario(delayMs: int)
    ensures var outs := [Success, Permanent, Throttle(Some(2)), Success];
            TallyOf(outs, delayMs) == Tally(2, 1, 3 * Max0(delayMs) + 3000) && CountThrottled(outs) == 1
  {
    var o1, o2, o3, o4 := [Success], [Success, Permanent], [Success, Permanent, Throttle(Some(2))],
                          [Success, Permanent, Throttle(Some(2)), Success];
    assert o4[..3] == o3 && o3[..2] == o2 && o2[..1] == o1 && o1[..0] == [];
    assert TallyOf(o1, delayMs) == Tally(1, 0, Max0(delayMs));
    assert TallyOf(o2, delayMs) == Tally(1, 1, 2 * Max0(delayMs));
    assert TallyOf(o3, delayMs) == Tally(1, 1, 2 * Max0(delayMs) + 3000);
  }
}
