/**
 One call to the shop's API: set the JSON content type, wait for a credit,
 send, refresh the counter from the response's call-limit header, and hand
 the response back. The HTTP client is a parameter of the model.
 */
module Gateway {
  import opened Wrappers
  import opened CreditPool
  import opened CallLimit
  import opened Admission

  datatype HttpMethod = Get | Put | Post | Delete

  /** Request options: the headers to send and an optional body. */
  datatype Params = Params(headers: map<string, string>, body: Option<string>)

  datatype Response = Response(status: int, headers: map<string, string>, body: string)

  datatype TransportError = TransportError(message: string)

  /**
   The HTTP client: sends `method` to `path` with the given options. A
   network failure is an error; any HTTP status is a response.
   */
  type Transport = (HttpMethod, string, Params) -> Result<Response, TransportError>

  /** The response header that reports `"<used>/<total>"`. */
  const CallLimitHeader: string := "HTTP_X_SHOPIFY_SHOP_API_CALL_LIMIT"

  const JsonHeaders: map<string, string> := map["Content-Type" := "application/json"]

  /** The call-limit header of a response, when it has one. */
  function CallLimitOf(r: Response): (h: Option<string>)
    ensures h.Some? <==> CallLimitHeader in r.headers
    ensures h.Some? ==> h.value == r.headers[CallLimitHeader]
  {
    if CallLimitHeader in r.headers then Some(r.headers[CallLimitHeader]) else None
  }

  /** The options actually sent: the caller's headers are replaced, the body kept. */
  function WithJsonHeaders(params: Params): (sent: Params)
    ensures sent.headers == JsonHeaders && sent.body == params.body
  {
    params.(headers := JsonHeaders)
  }

  /** Overwrite the counter with `total - used` from the response's header. */
  function SetCreditsRemainingFromResponse(p: Pool, r: Response): (q: Pool)
    ensures var u := ParseCreditLimit(CallLimitOf(r)); q.credits == u.total - u.used
  {
    var u := ParseCreditLimit(CallLimitOf(r));
    SetCreditsRemaining(p, u.used, u.total)
  }

  /** How a call ends. */
  datatype Call =
      /** No credit was obtained within the schedule; nothing was sent. */
    | Blocked(pool: Pool, attempts: nat)
      /** The transport failed after a credit was taken; the counter was not refreshed. */
    | Raised(error: TransportError, pool: Pool)
      /** The response came back and the counter was refreshed from it. */
    | Completed(response: Response, pool: Pool, sent: Params, admitted: Pool)

  /**
   The gist's `request`. `sleeps` are the other callers' critical sections
   during each sleep of the wait loop; `inFlight` are theirs between this
   caller's admission and its refresh.
   */
  function Request(p: Pool, sleeps: seq<seq<Op>>, inFlight: seq<Op>,
                   m: HttpMethod, path: string, params: Params, transport: Transport): (c: Call)
    ensures c.Blocked? <==> WaitForCredits(p, sleeps).StillWaiting?
    ensures c.Blocked? ==> c.pool == AfterSleeps(p, sleeps) && c.pool.credits <= SafetyBuffer
    ensures !c.Blocked? ==> (c.Completed? <==> transport(m, path, WithJsonHeaders(params)).Success?)
    ensures c.Completed? ==>
      && c.sent.headers == JsonHeaders
      && c.sent.body == params.body
      && transport(m, path, c.sent) == Success(c.response)
    ensures c.Completed? ==> c.admitted == WaitForCredits(p, sleeps).pool && c.admitted.credits >= SafetyBuffer
    ensures c.Completed? ==>
      var u := ParseCreditLimit(CallLimitOf(c.response)); c.pool.credits == u.total - u.used
    ensures c.Raised? ==>
      && transport(m, path, WithJsonHeaders(params)) == Failure(c.error)
      && c.pool == Run(WaitForCredits(p, sleeps).pool, inFlight).pool
  {
    var sent := WithJsonHeaders(params);
    var w := WaitForCredits(p, sleeps);
    if w.StillWaiting? then Blocked(w.pool, w.attempts)
    else
      match transport(m, path, sent)
      case Failure(e) => Raised(e, Run(w.pool, inFlight).pool)
      case Success(response) =>
        var beforeRefresh := Run(w.pool, inFlight).pool;
        Completed(response, SetCreditsRemainingFromResponse(beforeRefresh, response), sent, w.pool)
  }

  /** A call and, when it completed, its decoded body. */
  datatype Decoded<J> = Decoded(call: Call, body: Option<J>)

  /**
   The library's `request`: the same call, after which the response body is
   decoded. The decoder is a parameter of the model.
   */
  function RequestDecoded<J>(p: Pool, sleeps: seq<seq<Op>>, inFlight: seq<Op>,
                             m: HttpMethod, path: string, params: Params, transport: Transport,
                             decode: string -> J): (d: Decoded<J>)
    ensures d.call == Request(p, sleeps, inFlight, m, path, params, transport)
    ensures d.body.Some? <==> d.call.Completed?
    ensures d.body.Some? ==> d.body.value == decode(d.call.response.body)
  {
    var c := Request(p, sleeps, inFlight, m, path, params, transport);
    if c.Completed? then Decoded(c, Some(decode(c.response.body))) else Decoded(c, None)
  }

  /**
   The refresh overwrites: a completed call leaves the counter at what the
   response reports, whatever other callers did while it was in flight.
   */
  lemma RefreshForgetsInFlight(p: Pool, sleeps: seq<seq<Op>>, inFlight1: seq<Op>, inFlight2: seq<Op>,
                               m: HttpMethod, path: string, params: Params, transport: Transport)
    requires Request(p, sleeps, inFlight1, m, path, params, transport).Completed?
    ensures Request(p, sleeps, inFlight2, m, path, params, transport)
      == Request(p, sleeps, inFlight1, m, path, params, transport)
  {
  }

  /** A response whose header reads `"used/total"` leaves `total - used` credits. */
  lemma CompletedWithHeader(p: Pool, sleeps: seq<seq<Op>>, inFlight: seq<Op>,
                            m: HttpMethod, path: string, params: Params, transport: Transport,
                            used: int, total: int)
    requires Request(p, sleeps, inFlight, m, path, params, transport).Completed?
    requires CallLimitOf(Request(p, sleeps, inFlight, m, path, params, transport).response)
      == Some(RubyString.Show(used) + "/" + RubyString.Show(total))
    ensures Request(p, sleeps, inFlight, m, path, params, transport).pool.credits == total - used
  {
    ParseRoundTrip(used, total);
  }

  /**
   A response without the header drives the counter to 0, and the next
   caller then waits until someone else's response refreshes it.
   */
  lemma MissingHeaderStarves(p: Pool, sleeps: seq<seq<Op>>, inFlight: seq<Op>,
                             m: HttpMethod, path: string, params: Params, transport: Transport,
                             later: seq<seq<Op>>)
    requires Request(p, sleeps, inFlight, m, path, params, transport).Completed?
    requires CallLimitHeader !in Request(p, sleeps, inFlight, m, path, params, transport).response.headers
    requires forall k | 0 <= k < |later| :: NoRefresh(later[k])
    ensures Request(p, sleeps, inFlight, m, path, params, transport).pool == Pool(0)
    ensures WaitForCredits(Pool(0), later).StillWaiting?
  {
    ParseMissingHeader();
    StarvesWithoutRefresh(Pool(0), later);
  }

  /** A caller that finds more than the buffer is admitted at its first attempt. */
  lemma AdmittedAtOnce(p: Pool, sleeps: seq<seq<Op>>)
    requires p.credits > SafetyBuffer
    ensures WaitForCredits(p, sleeps) == Admitted(Pool(p.credits - 1), 1)
  {
  }

  /**
   The end-to-end scenario: from 40 credits, a call whose response reports
   `"39/40"` leaves 1 credit, whatever other callers did meanwhile.
   */
  lemma EndToEndScenario(sleeps: seq<seq<Op>>, inFlight: seq<Op>, m: HttpMethod, path: string,
                         params: Params, transport: Transport, response: Response)
    requires CallLimitOf(response) == Some("39/40")
    requires transport(m, path, WithJsonHeaders(params)) == Success(response)
    ensures Request(Initial, sleeps, inFlight, m, path, params, transport).pool == Pool(1)
  {
    var c := Request(Initial, sleeps, inFlight, m, path, params, transport);
    AdmittedAtOnce(Initial, sleeps);
    assert c.Completed?;
    ParseScenarioExample();
  }

  /**
   After the scenario's call the next caller cannot obtain a credit and,
   with nobody refreshing the counter, blocks.
   */
  lemma NextCallBlocks(sleeps: seq<seq<Op>>, inFlight: seq<Op>, m: HttpMethod, path: string,
                        params: Params, transport: Transport)
    requires forall k | 0 <= k < |sleeps| :: NoRefresh(sleeps[k])
    ensures !ObtainCredit(Pool(1)).granted
    ensures Request(Pool(1), sleeps, inFlight, m, path, params, transport).Blocked?
  {
    StarvesWithoutRefresh(Pool(1), sleeps);
  }
}
