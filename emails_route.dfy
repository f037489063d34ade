/**
 * The `GET /emails` handler (backend/index.js:52-97): list the latest message
 * ids, fetch each one in order, summarise it, and answer with the whole list or,
 * if anything throws on the way, with one generic error and no partial list.
 * The Gmail calls are inputs: the reply to the listing call, and `get`, the reply
 * to `messages.get` for each id.
 */
module EmailsRoute {
  import opened Wrappers
  import opened GmailPayload

  datatype MessageRef = MessageRef(id: string)

  /** The reply to `gmail.users.messages.list`: `response.data.messages`, or a thrown error. */
  datatype ListReply = Listed(messages: Option<seq<MessageRef>>) | ListFailed

  /** The reply to `gmail.users.messages.get`: `msgDetail.data.payload`, or a thrown error. */
  datatype GetReply = Got(payload: Option<Payload>) | GetFailed

  /** `res.json(emails)` with status 200, or `res.status(status).json({error})`. */
  datatype EmailsResponse = EmailsJson(emails: seq<EmailSummary>) | EmailsError(status: nat, error: string)

  const FailedToFetch: EmailsResponse := EmailsError(500, "Failed to fetch emails")

  /** `response.data.messages || []`, as ids. */
  function ListedIds(list: ListReply): (ids: seq<string>)
    requires list.Listed?
    ensures list.messages.None? ==> ids == []
    ensures list.messages.Some? ==>
      (|ids| == |list.messages.value| && forall i | 0 <= i < |ids| :: ids[i] == list.messages.value[i].id)
  {
    match list.messages
    case None => []
    case Some(ms) => seq(|ms|, i requires 0 <= i < |ms| => ms[i].id)
  }

  /** What one iteration makes of message `id`: its summary, or the failure that aborts the loop. */
  function FetchSummary(get: string -> GetReply, id: string): (r: Option<EmailSummary>)
    ensures r.Some? <==> get(id).Got? && Summarize(get(id).payload).Success?
    ensures r.Some? ==> r.value == Summarize(get(id).payload).value
  {
    match get(id)
    case GetFailed => None
    case Got(payload) =>
      match Summarize(payload)
      case Failure(_) => None
      case Success(summary) => Some(summary)
  }

  /** Every listed message was fetched and summarised without throwing. */
  predicate AllFetched(get: string -> GetReply, ids: seq<string>) {
    forall i | 0 <= i < |ids| :: FetchSummary(get, ids[i]).Some?
  }

  /**
   * The summaries of `ids`, in order, or nothing as soon as one of them fails:
   * the value the handler's loop builds, stated without a loop.
   */
  function Collect(get: string -> GetReply, ids: seq<string>): Option<seq<EmailSummary>>
    decreases |ids|
  {
    if ids == [] then Some([])
    else
      match Collect(get, ids[..|ids| - 1])
      case None => None
      case Some(done) =>
        match FetchSummary(get, ids[|ids| - 1])
        case None => None
        case Some(summary) => Some(done + [summary])
  }

  /**
   * All or nothing: the collected list exists exactly when every message is
   * fetched and summarised, and then holds one summary per id, in order.
   */
  lemma {:induction false} CollectAllOrNothing(get: string -> GetReply, ids: seq<string>)
    ensures Collect(get, ids).Some? <==> AllFetched(get, ids)
    ensures Collect(get, ids).Some? ==>
      var emails := Collect(get, ids).value;
      |emails| == |ids| && forall k | 0 <= k < |ids| :: Some(emails[k]) == FetchSummary(get, ids[k])
    decreases |ids|
  {
    if ids != [] {
      var n := |ids| - 1;
      var front := ids[..n];
      CollectAllOrNothing(get, front);
      var last := FetchSummary(get, ids[n]);
      if Collect(get, front).None? {
        assert Collect(get, ids).None?;
        var k :| 0 <= k < n && FetchSummary(get, front[k]).None?;
        assert front[k] == ids[k];
      } else if last.None? {
        assert Collect(get, ids).None?;
      } else {
        var done := Collect(get, front).value;
        var emails := done + [last.value];
        assert Collect(get, ids) == Some(emails);
        forall k | 0 <= k < |ids|
          ensures Some(emails[k]) == FetchSummary(get, ids[k])
        {
          if k < n {
            assert front[k] == ids[k] && emails[k] == done[k];
          }
        }
      }
    }
  }

  /** One more successful fetch extends the collected prefix by its summary. */
  lemma CollectExtend(get: string -> GetReply, ids: seq<string>, i: nat, emails: seq<EmailSummary>)
    requires i < |ids| && Collect(get, ids[..i]) == Some(emails) && FetchSummary(get, ids[i]).Some?
    ensures Collect(get, ids[..i + 1]) == Some(emails + [FetchSummary(get, ids[i]).value])
  {
    assert ids[..i + 1][..i] == ids[..i];
  }

  /**
   * The handler: one summary per listed id, in the listed order, or the generic
   * error when the listing or any fetch fails, with nothing accumulated so far.
   */
  method FetchEmails(list: ListReply, get: string -> GetReply) returns (response: EmailsResponse)
    ensures response.EmailsJson? <==> list.Listed? && AllFetched(get, ListedIds(list))
    ensures response.EmailsJson? ==>
      var ids := ListedIds(list);
      |response.emails| == |ids| &&
      forall i | 0 <= i < |ids| :: Some(response.emails[i]) == FetchSummary(get, ids[i])
    ensures response.EmailsError? ==> response == FailedToFetch
  {
    if list.ListFailed? {
      return FailedToFetch;
    }
    var ids := ListedIds(list);
    var emails: seq<EmailSummary> := [];
    var i := 0;
    while i < |ids|
      invariant 0 <= i <= |ids|
      invariant Collect(get, ids[..i]) == Some(emails)
    {
      var summary := FetchSummary(get, ids[i]);
      if summary.None? {
        assert !AllFetched(get, ids) by {
          assert FetchSummary(get, ids[i]).None?;
        }
        return FailedToFetch;
      }
      CollectExtend(get, ids, i, emails);
      emails := emails + [summary.value];
      i := i + 1;
    }
    assert ids[..i] == ids;
    CollectAllOrNothing(get, ids);
    response := EmailsJson(emails);
  }
}
