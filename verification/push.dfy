/**
  The `/v1/push` ingestion handler as a pure function. Reading the request,
  JSON decoding, the configuration lookup and the forward to the transfer
  sink are taken out: the declared content length, the decode result and the
  configured host name are inputs, and the forwarded batch is part of the
  outcome.
 */
module Push {
  import opened Wrappers
  import opened Metric

  const StatusOK: int := 200
  const StatusBadRequest: int := 400

  const BlankBody: string := "body is blank"
  /** The diagnostic text exactly as the handler spells it. */
  const DecodeFailed: string := "connot decode body"
  const Success: string := "success"

  /** What JSON decoding of the body into a slice of metric pointers yields:
      an error, or an array whose `null` elements are nil pointers (`None`). */
  datatype DecodeResult<Rest> =
    | Malformed
    | Array(metrics: seq<Option<MetricValue<Rest>>>)

  /** What one request ends in: a reply (status, body, and the batch handed
      to the sink, if any), or a nil dereference at the given position of the
      decoded array, which aborts the handler before anything is forwarded. */
  datatype Outcome<Rest> =
    | Reply(status: int, body: string, forwarded: Option<seq<MetricValue<Rest>>>)
    | Panic(nilIndex: nat)

  /** No element of the decoded array is nil. */
  predicate AllPresent<Rest>(xs: seq<Option<MetricValue<Rest>>>)
  {
    forall i :: 0 <= i < |xs| ==> xs[i].Some?
  }

  /** The points behind a nil-free array of pointers. */
  function Present<Rest>(xs: seq<Option<MetricValue<Rest>>>): (ms: seq<MetricValue<Rest>>)
    requires AllPresent(xs)
    ensures |ms| == |xs|
    ensures forall i :: 0 <= i < |xs| ==> xs[i] == Some(ms[i])
  {
    seq(|xs|, i requires 0 <= i < |xs| => xs[i].value)
  }

  /** The position of the first nil element, where the fill loop stops. */
  function FirstNil<Rest>(xs: seq<Option<MetricValue<Rest>>>): (r: Option<nat>)
    ensures r.None? <==> AllPresent(xs)
    ensures r.Some? ==> r.value < |xs| && xs[r.value].None?
    ensures r.Some? ==> forall j :: 0 <= j < r.value ==> xs[j].Some?
  {
    if xs == [] then None
    else if xs[0].None? then Some(0)
    else
      match FirstNil(xs[1..])
      case None => None
      case Some(k) => Some(k + 1)
  }

  /** How the fill loop over the decoded pointers ends. */
  datatype FillResult<Rest> =
    | NilDeref(index: nat)
    | Filled(batch: seq<MetricValue<Rest>>)

  /** The fill loop over the decoded pointers, element by element: a nil
      element is dereferenced and stops the loop, every other element gets the
      default endpoint when its own is empty. */
  method FillLoop<Rest>(metrics: seq<Option<MetricValue<Rest>>>, hostname: string)
    returns (res: FillResult<Rest>)
    ensures res.NilDeref? <==> !AllPresent(metrics)
    ensures res.NilDeref? ==> Some(res.index) == FirstNil(metrics)
    ensures res.Filled? ==> AllPresent(metrics) && res.batch == FillAll(Present(metrics), hostname)
  {
    var out: seq<MetricValue<Rest>> := [];
    var i := 0;
    while i < |metrics|
      invariant 0 <= i <= |metrics|
      invariant AllPresent(metrics[..i])
      invariant out == FillAll(Present(metrics[..i]), hostname)
    {
      match metrics[i]
      case None =>
        FirstNilAfterPresentPrefix(metrics, i);
        return NilDeref(i);
      case Some(v) =>
        assert Present(metrics[..i + 1]) == Present(metrics[..i]) + [v];
        FillAllAppend(Present(metrics[..i]), [v], hostname);
        out := out + [FillOne(v, hostname)];
        i := i + 1;
    }
    assert metrics[..i] == metrics;
    return Filled(out);
  }

  /** A nil element preceded only by present ones is the first nil. */
  lemma {:induction false} FirstNilAfterPresentPrefix<Rest>(xs: seq<Option<MetricValue<Rest>>>, i: nat)
    requires i < |xs| && xs[i].None? && AllPresent(xs[..i])
    ensures FirstNil(xs) == Some(i)
  {
    if i > 0 {
      assert xs[0] == xs[..i][0];
      assert xs[1..][..i - 1] == xs[..i][1..];
      FirstNilAfterPresentPrefix(xs[1..], i - 1);
    }
  }

  /** The handler: reject a declared-empty body, reject an undecodable one,
      otherwise fill default endpoints, forward the batch and reply
      "success" with the implicit 200 status. */
  function Handle<Rest>(contentLength: int, decoded: DecodeResult<Rest>, hostname: string): (o: Outcome<Rest>)
    ensures o.Reply? ==> (o.status == StatusOK <==> o.forwarded.Some?)
    ensures o.Reply? && o.status == StatusOK ==> o.body == Success
    ensures o.Reply? && o.status != StatusOK ==>
              o.status == StatusBadRequest && (o.body == BlankBody || o.body == DecodeFailed)
  {
    if contentLength == 0 then
      Reply(StatusBadRequest, BlankBody, None)
    else
      match decoded
      case Malformed => Reply(StatusBadRequest, DecodeFailed, None)
      case Array(metrics) =>
        match FirstNil(metrics)
        case Some(k) => Panic(k)
        case None => Reply(StatusOK, Success, Some(FillAll(Present(metrics), hostname)))
  }

  /** The "body is blank" rejection happens exactly when the declared
      content length is 0; an unknown length (-1) is never taken as blank. */
  lemma BlankIffZeroLength<Rest>(contentLength: int, decoded: DecodeResult<Rest>, hostname: string)
    ensures Handle(contentLength, decoded, hostname) == Reply(StatusBadRequest, BlankBody, None)
        <==> contentLength == 0
  {
  }

  /** A blank request is answered without looking at the body or the
      configuration. */
  lemma BlankIgnoresBody<Rest>(d1: DecodeResult<Rest>, h1: string, d2: DecodeResult<Rest>, h2: string)
    ensures Handle(0, d1, h1) == Handle(0, d2, h2)
  {
  }

  /** The decode-failure rejection happens exactly when a non-blank body
      fails to decode, and nothing is forwarded. */
  lemma DecodeFailureIff<Rest>(contentLength: int, decoded: DecodeResult<Rest>, hostname: string)
    ensures Handle(contentLength, decoded, hostname) == Reply(StatusBadRequest, DecodeFailed, None)
        <==> contentLength != 0 && decoded.Malformed?
  {
  }

  /** A batch is forwarded exactly when the body is non-blank, decodes, and
      holds no null element; the reply is then always 200 "success",
      whatever the batch holds. */
  lemma ForwardIff<Rest>(contentLength: int, decoded: DecodeResult<Rest>, hostname: string)
    ensures var o := Handle(contentLength, decoded, hostname);
      (o.Reply? && o.forwarded.Some?)
      <==> (contentLength != 0 && decoded.Array? && AllPresent(decoded.metrics))
    ensures var o := Handle(contentLength, decoded, hostname);
      o.Reply? && o.forwarded.Some? ==> o.status == StatusOK && o.body == Success
  {
  }

  /** A null element of a decoded, non-blank body aborts the handler at the
      first null position, before any forward. */
  lemma PanicIff<Rest>(contentLength: int, decoded: DecodeResult<Rest>, hostname: string)
    ensures Handle(contentLength, decoded, hostname).Panic?
        <==> contentLength != 0 && decoded.Array? && !AllPresent(decoded.metrics)
    ensures Handle(contentLength, decoded, hostname).Panic? ==>
      var k := Handle(contentLength, decoded, hostname).nilIndex;
      k < |decoded.metrics| && decoded.metrics[k].None? && AllPresent(decoded.metrics[..k])
  {
  }

  /** The forwarded batch keeps the decoded points' number and order; each
      point keeps all fields but the endpoint, and an empty endpoint becomes
      the host name while a non-empty one is kept. */
  lemma ForwardedBatch<Rest>(contentLength: int, metrics: seq<Option<MetricValue<Rest>>>, hostname: string)
    requires contentLength != 0 && AllPresent(metrics)
    ensures var o := Handle(contentLength, Array(metrics), hostname);
      && o.Reply? && o.forwarded.Some?
      && |o.forwarded.value| == |metrics|
      && (forall i :: 0 <= i < |metrics| ==> o.forwarded.value[i].rest == metrics[i].value.rest)
      && (forall i :: 0 <= i < |metrics| && metrics[i].value.endpoint != "" ==>
            o.forwarded.value[i] == metrics[i].value)
      && (forall i :: 0 <= i < |metrics| && metrics[i].value.endpoint == "" ==>
            o.forwarded.value[i].endpoint == hostname)
  {
    var o := Handle(contentLength, Array(metrics), hostname);
    var ms := Present(metrics);
    forall i | 0 <= i < |metrics| && metrics[i].value.endpoint != ""
      ensures o.forwarded.value[i] == metrics[i].value
    {
      FillAllPointwise(ms, hostname, i);
    }
  }

  /** With a non-empty host name, every forwarded point has an endpoint. */
  lemma ForwardedEndpointsNonEmpty<Rest>(contentLength: int, decoded: DecodeResult<Rest>, hostname: string)
    requires hostname != ""
    ensures var o := Handle(contentLength, decoded, hostname);
      o.Reply? && o.forwarded.Some? ==>
        forall i :: 0 <= i < |o.forwarded.value| ==> o.forwarded.value[i].endpoint != ""
  {
  }

  /** The pointer array a batch decodes to when pushed again. */
  function AsPointers<Rest>(ms: seq<MetricValue<Rest>>): (xs: seq<Option<MetricValue<Rest>>>)
    ensures AllPresent(xs) && Present(xs) == ms
  {
    seq(|ms|, i requires 0 <= i < |ms| => Some(ms[i]))
  }

  /** Pushing a forwarded batch again, with the same host name, forwards it
      unchanged: the fill is idempotent at the level of the handler. */
  lemma {:induction false} RepushForwardsSame<Rest>(contentLength: int, decoded: DecodeResult<Rest>, hostname: string, contentLength': int)
    requires contentLength' != 0
    ensures var o := Handle(contentLength, decoded, hostname);
      o.Reply? && o.forwarded.Some? ==>
        Handle(contentLength', Array(AsPointers(o.forwarded.value)), hostname) == o
  {
    var o := Handle(contentLength, decoded, hostname);
    if o.Reply? && o.forwarded.Some? {
      FillIdempotent(Present(decoded.metrics), hostname);
    }
  }
}
