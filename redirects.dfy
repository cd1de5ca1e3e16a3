/**
 * The redirect tracer. The HTTP fetch (which follows redirects on its own,
 * up to its own limit) is outside the model: its outcome is an input, either a
 * transport failure with its message or the chain of intermediate responses
 * and the final one. The tracer records the intermediate responses, stops
 * recording once it holds `maxHops` of them (the check comes after each
 * append), then records the final response.
 */
module Redirects {

  datatype Response = Response(status: int, url: string)

  /** What `session.get(url, allow_redirects=True)` gave. */
  datatype Transport =
    | TransportFailure(message: string)
    | TransportSuccess(history: seq<Response>, final: Response)

  /** A recorded hop: a status and URL, or only an error. */
  datatype Hop = StatusHop(status: int, url: string) | ErrorHop(error: string)

  function HopOf(r: Response): Hop {
    StatusHop(r.status, r.url)
  }

  function HopsOf(rs: seq<Response>): (hs: seq<Hop>)
    ensures |hs| == |rs|
    ensures forall i :: 0 <= i < |rs| ==> hs[i] == HopOf(rs[i])
  {
    seq(|rs|, i requires 0 <= i < |rs| => HopOf(rs[i]))
  }

  /** How many intermediate responses are recorded: none for an empty history, otherwise
      at least one (the first append happens before any check) and at most `maxHops`. */
  function RecordedCount(n: nat, maxHops: int): (k: nat)
    ensures k <= n
    ensures n > 0 ==> k >= 1
  {
    if n == 0 then 0
    else
      var cap := if maxHops < 1 then 1 else maxHops;
      if n < cap then n else cap
  }

  /** The trace the tracer reports. */
  function Trace(t: Transport, maxHops: int): seq<Hop> {
    match t
    case TransportFailure(msg) => [ErrorHop(msg)]
    case TransportSuccess(history, final) =>
      HopsOf(history[..RecordedCount(|history|, maxHops)]) + [HopOf(final)]
  }

  /** `trace_redirects`: append each intermediate response, stop once `maxHops` are held,
      then append the final response; a transport failure gives a single error hop. */
  method TraceRedirects(t: Transport, maxHops: int) returns (hops: seq<Hop>)
    ensures hops == Trace(t, maxHops)
  {
    hops := [];
    match t
    case TransportFailure(msg) =>
      hops := hops + [ErrorHop(msg)];
    case TransportSuccess(history, final) =>
      var i := 0;
      while i < |history|
        invariant 0 <= i <= |history|
        invariant hops == HopsOf(history[..i])
        invariant i == 0 || i < maxHops
      {
        hops := hops + [HopOf(history[i])];
        i := i + 1;
        if |hops| >= maxHops {
          break;
        }
      }
      assert i == RecordedCount(|history|, maxHops);
      hops := hops + [HopOf(final)];
  }

  // ---- properties of the trace ----

  /** A transport failure gives exactly one hop, and it carries only an error. */
  lemma FailureIsOneErrorHop(msg: string, maxHops: int)
    ensures Trace(TransportFailure(msg), maxHops) == [ErrorHop(msg)]
  {
  }

  /** On success the trace is non-empty, ends with the final response, and what comes before
      is the start of the history, in order. */
  lemma SuccessShape(history: seq<Response>, final: Response, maxHops: int)
    ensures var hops := Trace(TransportSuccess(history, final), maxHops);
      |hops| >= 1 && hops[|hops| - 1] == HopOf(final)
      && |hops| - 1 <= |history|
      && hops[..|hops| - 1] == HopsOf(history[..|hops| - 1])
  {
  }

  /** A direct response, with no redirect, is a trace of exactly one hop. */
  lemma DirectResponse(final: Response, maxHops: int)
    ensures Trace(TransportSuccess([], final), maxHops) == [HopOf(final)]
  {
  }

  /** The trace never holds more than max(maxHops, 1) + 1 hops, whatever the length of the
      chain the transport followed. */
  lemma TraceBound(t: Transport, maxHops: int)
    ensures |Trace(t, maxHops)| <= (if maxHops < 1 then 1 else maxHops) + 1
  {
  }

  /** When the chain is longer than the cap, exactly max(maxHops, 1) intermediate hops are kept. */
  lemma LongChainTruncated(history: seq<Response>, final: Response, maxHops: int)
    requires |history| >= maxHops && |history| >= 1
    ensures |Trace(TransportSuccess(history, final), maxHops)| == (if maxHops < 1 then 1 else maxHops) + 1
  {
  }

  /** With a cap of 0 one intermediate hop is still recorded: two hops, not one. */
  lemma ZeroCapKeepsOneHop(r: Response, final: Response)
    ensures Trace(TransportSuccess([r], final), 0) == [HopOf(r), HopOf(final)]
  {
    assert [r][..1] == [r];
  }
}
