/** The request dispatcher (`NetworkRequestHelper`): how header overrides are
    applied to an outgoing request, what a finished request leaves in the
    hand-off queue, and the `Update` drain that runs queued callbacks on the
    consumer thread. The HTTP transport itself is not modelled. */
module Network {
  import opened Basics

  // ---------------------------------------------------------------------
  // ParseHeader
  // ---------------------------------------------------------------------

  /** The six settings of an `HttpWebRequest` that `ParseHeader` can change.
      `None` is a property left at `null`. */
  datatype RequestSettings = RequestSettings(
    contentType: Option<string>,
    keepAlive: bool,
    userAgent: Option<string>,
    accept: Option<string>,
    host: string,
    referer: Option<string>)

  /** A `Dictionary<string, string>` of header overrides (ordinal keys). */
  type Headers = map<string, string>

  const RecognizedKeys: set<string> :=
    {"Content-Type", "Keep-Alive", "User-Agent", "Accept", "Host", "Referer"}

  /** Copies each recognized header of `headers` onto the request, in the
      order the C# code tests them; a `null` dictionary leaves the request alone. */
  function ParseHeader(request: RequestSettings, headers: Option<Headers>): (r: RequestSettings)
    ensures headers.None? ==> r == request
    ensures headers.Some? ==>
      var h := headers.value;
      && r.contentType == (if "Content-Type" in h then Some(h["Content-Type"]) else request.contentType)
      && r.keepAlive == (if "Keep-Alive" in h then h["Keep-Alive"] == "true" else request.keepAlive)
      && r.userAgent == (if "User-Agent" in h then Some(h["User-Agent"]) else request.userAgent)
      && r.accept == (if "Accept" in h then Some(h["Accept"]) else request.accept)
      && r.host == (if "Host" in h then h["Host"] else request.host)
      && r.referer == (if "Referer" in h then Some(h["Referer"]) else request.referer)
  {
    match headers
    case None => request
    case Some(h) =>
      var r1 := if "Content-Type" in h then request.(contentType := Some(h["Content-Type"])) else request;
      var r2 := if "Keep-Alive" in h then r1.(keepAlive := h["Keep-Alive"] == "true") else r1;
      var r3 := if "User-Agent" in h then r2.(userAgent := Some(h["User-Agent"])) else r2;
      var r4 := if "Accept" in h then r3.(accept := Some(h["Accept"])) else r3;
      var r5 := if "Host" in h then r4.(host := h["Host"]) else r4;
      if "Referer" in h then r5.(referer := Some(h["Referer"])) else r5
  }

  /** A header the dispatcher does not recognize has no effect, whatever its value. */
  lemma UnrecognizedHeaderIgnored(request: RequestSettings, h: Headers, key: string, value: string)
    requires key !in RecognizedKeys
    ensures ParseHeader(request, Some(h[key := value])) == ParseHeader(request, Some(h))
  {
  }

  /** Only the recognized part of a header dictionary matters. */
  lemma OnlyRecognizedHeadersMatter(request: RequestSettings, h: Headers)
    ensures ParseHeader(request, Some(h))
         == ParseHeader(request, Some(map k | k in h && k in RecognizedKeys :: h[k]))
  {
  }

  /** Applying the same overrides twice is the same as applying them once. */
  lemma ParseHeaderIdempotent(request: RequestSettings, headers: Option<Headers>)
    ensures ParseHeader(ParseHeader(request, headers), headers) == ParseHeader(request, headers)
  {
  }

  /** Keep-Alive is switched on only by the exact text "true". */
  lemma KeepAliveExactlyTrue(request: RequestSettings, h: Headers)
    requires "Keep-Alive" in h
    ensures ParseHeader(request, Some(h)).keepAlive <==> h["Keep-Alive"] == "true"
  {
  }

  // ---------------------------------------------------------------------
  // The hand-off queue
  // ---------------------------------------------------------------------

  /** What a queued entry runs: the caller's success callback, or the closure
      that raises `OnRequestFailure` with the failed request's descriptor. */
  datatype Handler = Callback(id: nat) | ReportFailure(request: nat)

  /** An entry of the hand-off queue: the response bytes (`null` for a failed
      request) and the handler that receives them. */
  datatype Completion = Completion(payload: Option<seq<byte>>, handler: Handler)

  /** One call `item.Item2(item.Item1)` made by the drain. */
  datatype Invocation = Invocation(handler: Handler, argument: Option<seq<byte>>)

  /** `OnFinishWebRequest`: the entry enqueued once request `requestId`, whose
      success callback is `callback`, finishes; `response` is `None` when
      `EndGetResponse` threw. */
  function Finish(requestId: nat, callback: nat, response: Option<seq<byte>>): (c: Completion)
    ensures c.handler == Callback(callback) <==> response.Some?
    ensures c.handler == ReportFailure(requestId) <==> response.None?
    ensures response.Some? ==> c.payload == response
    ensures response.None? ==> c.payload == None
  {
    match response
    case None => Completion(None, ReportFailure(requestId))
    case Some(bytes) => Completion(Some(bytes), Callback(callback))
  }

  /** Running a dequeued entry: `item.Item2(item.Item1)`. */
  function Run(c: Completion): Invocation
  {
    Invocation(c.handler, c.payload)
  }

  /** The invocations of a sequence of entries, one per entry, in order. */
  function Runs(q: seq<Completion>): (t: seq<Invocation>)
    ensures |t| == |q|
    ensures forall i | 0 <= i < |q| :: t[i] == Run(q[i])
  {
    seq(|q|, i requires 0 <= i < |q| => Run(q[i]))
  }

  /** `Update`: dequeue and run entries until the queue is empty. The queue is
      the snapshot present when the drain starts. `throws` says which
      invocations raise an exception: such an exception leaves `Update` (and
      the loop in `Main` that calls it) right after its entry was dequeued,
      so `escaped` is set and the later entries stay queued. */
  method Update(queue: seq<Completion>, throws: Invocation -> bool)
    returns (trace: seq<Invocation>, remaining: seq<Completion>, escaped: bool)
    ensures |trace| <= |queue| && trace == Runs(queue[..|trace|])
    ensures remaining == queue[|trace|..]
    ensures forall i | 0 <= i < |trace| - 1 :: !throws(trace[i])
    ensures escaped <==> exists i | 0 <= i < |queue| :: throws(Run(queue[i]))
    ensures escaped ==> |trace| > 0 && throws(trace[|trace| - 1])
    ensures !escaped ==> remaining == [] && |trace| == |queue|
    ensures forall h :: Count(InvokedHandlers(trace), h) + Count(InvokedHandlers(Runs(remaining)), h)
                     == Count(InvokedHandlers(Runs(queue)), h)
  {
    remaining := queue;
    trace := [];
    escaped := false;
    while true
      invariant |trace| + |remaining| == |queue|
      invariant remaining == queue[|trace|..]
      invariant forall i | 0 <= i < |trace| :: trace[i] == Run(queue[i])
      invariant forall i | 0 <= i < |trace| :: !throws(trace[i])
      decreases |remaining|
    {
      if |remaining| == 0 {
        break;
      }
      var item := remaining[0];
      remaining := remaining[1..];
      var call := Run(item);
      trace := trace + [call];
      if throws(call) {
        escaped := true;
        break;
      }
    }
    forall h {
      DrainAccountsForEveryEntry(queue, trace, h);
    }
  }

  /** The handlers a sequence of invocations runs, in order. */
  function InvokedHandlers(t: seq<Invocation>): (hs: seq<Handler>)
    ensures |hs| == |t|
    ensures forall i | 0 <= i < |t| :: hs[i] == t[i].handler
  {
    seq(|t|, i requires 0 <= i < |t| => t[i].handler)
  }

  /** Nothing is lost or duplicated by a drain, even one an exception cut
      short: each handler has run as many times as it was queued, less the
      entries still queued. */
  lemma DrainAccountsForEveryEntry(queue: seq<Completion>, trace: seq<Invocation>, h: Handler)
    requires |trace| <= |queue|
    requires trace == Runs(queue[..|trace|])
    ensures Count(InvokedHandlers(trace), h) + Count(InvokedHandlers(Runs(queue[|trace|..])), h)
         == Count(InvokedHandlers(Runs(queue)), h)
  {
    var n := |trace|;
    assert InvokedHandlers(Runs(queue))
        == InvokedHandlers(trace) + InvokedHandlers(Runs(queue[n..]));
    CountAppend(InvokedHandlers(trace), InvokedHandlers(Runs(queue[n..])), h);
  }
}
