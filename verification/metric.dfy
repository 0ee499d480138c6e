/**
  The pushed metric point and the endpoint default-fill applied to every
  point of a pushed batch before it is forwarded.
 */
module Metric {

  /** A pushed metric point. The handler only inspects the originating
      identity, `endpoint`; every other field of the record (metric name,
      value, step, counter type, tags, timestamp) is carried, untouched, in
      `rest`, whose type is left abstract. */
  datatype MetricValue<Rest> = MetricValue(endpoint: string, rest: Rest)

  /** Default-fill of one point: an empty endpoint takes the configured host
      name, any other endpoint is kept. */
  function FillOne<Rest>(m: MetricValue<Rest>, hostname: string): MetricValue<Rest>
  {
    if m.endpoint == "" then m.(endpoint := hostname) else m
  }

  /** Default-fill of a whole batch, point by point and in order. */
  function FillAll<Rest>(ms: seq<MetricValue<Rest>>, hostname: string): (r: seq<MetricValue<Rest>>)
    ensures |r| == |ms|
    ensures forall i :: 0 <= i < |ms| ==> r[i].rest == ms[i].rest
    ensures forall i :: 0 <= i < |ms| ==>
              r[i].endpoint == (if ms[i].endpoint == "" then hostname else ms[i].endpoint)
  {
    if ms == [] then [] else [FillOne(ms[0], hostname)] + FillAll(ms[1..], hostname)
  }

  /** The fill of a batch is the fill of each of its points. */
  lemma FillAllPointwise<Rest>(ms: seq<MetricValue<Rest>>, hostname: string, i: int)
    requires 0 <= i < |ms|
    ensures FillAll(ms, hostname)[i] == FillOne(ms[i], hostname)
  {
  }

  /** Filling distributes over concatenation: order is preserved and no
      point influences another. */
  lemma {:induction false} FillAllAppend<Rest>(a: seq<MetricValue<Rest>>, b: seq<MetricValue<Rest>>, hostname: string)
    ensures FillAll(a + b, hostname) == FillAll(a, hostname) + FillAll(b, hostname)
  {
    var l, r := FillAll(a + b, hostname), FillAll(a, hostname) + FillAll(b, hostname);
    assert |l| == |r|;
    forall i | 0 <= i < |l|
      ensures l[i] == r[i]
    {
      if i < |a| {
        assert (a + b)[i] == a[i];
      } else {
        assert (a + b)[i] == b[i - |a|];
      }
    }
  }

  /** Filling twice gives the same batch as filling once. */
  lemma {:induction false} FillIdempotent<Rest>(ms: seq<MetricValue<Rest>>, hostname: string)
    ensures FillAll(FillAll(ms, hostname), hostname) == FillAll(ms, hostname)
  {
    var once := FillAll(ms, hostname);
    var twice := FillAll(once, hostname);
    forall i | 0 <= i < |ms|
      ensures twice[i] == once[i]
    {
      FillAllPointwise(once, hostname, i);
    }
  }

  /** A point is changed by the fill exactly when its endpoint is empty and
      the host name is not. */
  lemma FillChangesIff<Rest>(ms: seq<MetricValue<Rest>>, hostname: string, i: int)
    requires 0 <= i < |ms|
    ensures FillAll(ms, hostname)[i] != ms[i] <==> ms[i].endpoint == "" && hostname != ""
  {
  }

  /** The fill leaves a batch unchanged exactly when it has nothing to
      fill: the host name is empty or every point already has an endpoint. */
  lemma FillFixedPointIff<Rest>(ms: seq<MetricValue<Rest>>, hostname: string)
    ensures FillAll(ms, hostname) == ms
        <==> hostname == "" || forall i :: 0 <= i < |ms| ==> ms[i].endpoint != ""
  {
    var r := FillAll(ms, hostname);
    if hostname != "" && exists i :: 0 <= i < |ms| && ms[i].endpoint == "" {
      var i :| 0 <= i < |ms| && ms[i].endpoint == "";
      assert r[i] != ms[i];
    } else {
      forall i | 0 <= i < |ms|
        ensures r[i] == ms[i]
      {
      }
    }
  }

  /** With a non-empty host name, every filled point has an endpoint. */
  lemma FillEndpointsNonEmpty<Rest>(ms: seq<MetricValue<Rest>>, hostname: string)
    requires hostname != ""
    ensures forall i :: 0 <= i < |ms| ==> FillAll(ms, hostname)[i].endpoint != ""
  {
  }
}
