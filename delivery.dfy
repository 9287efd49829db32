/** The delivery channel (the chat provider's send API) as an oracle.  A send
    request names the recipient and the API call used; the channel answers
    each request with an Outcome, and may base its answer on every request it
    has already received. */
module Delivery {
  import opened Common

  type UserId = int

  /** The three provider calls the core uses: `send_photo`, `send_document`
      and `send_message`. */
  datatype SendMethod = SendPhoto | SendDocument | SendMessage

  datatype Request = Request(
    recipient: UserId,
    call: SendMethod,
    text: string,
    media: Option<string>,
    parseMode: Option<string>)

  /** What one send attempt ends in: delivered; a `RetryAfter` throttle with
      its optional `timeout` in seconds; one of the four permanent rejections
      (`BotBlocked`, `ChatNotFound`, `UserDeactivated`,
      `CantInitiateConversation`); or any other exception. */
  datatype Outcome = Success | Throttle(timeout: Option<int>) | Permanent | Other

  /** The channel's answer to a request, given every request sent before it. */
  type Channel = (seq<Request>, Request) -> Outcome

  /** The answers the channel gives to `reqs`, sent one after the other once
      `history` has been sent. */
  function Responses(channel: Channel, history: seq<Request>, reqs: seq<Request>): (r: seq<Outcome>)
    ensures |r| == |reqs|
    decreases |reqs|
  {
    if reqs == [] then []
    else
      var n := |reqs| - 1;
      Responses(channel, history, reqs[..n]) + [channel(history + reqs[..n], reqs[n])]
  }

  /** The i-th answer is the channel's answer to the i-th request, given the
      history and the requests before it. */
  lemma {:induction false} ResponsesAt(channel: Channel, history: seq<Request>, reqs: seq<Request>, i: nat)
    requires i < |reqs|
    ensures Responses(channel, history, reqs)[i] == channel(history + reqs[..i], reqs[i])
    decreases |reqs|
  {
    var n := |reqs| - 1;
    if i < n {
      ResponsesAt(channel, history, reqs[..n], i);
      assert reqs[..n][..i] == reqs[..i];
    }
  }
}
