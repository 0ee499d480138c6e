# Push ingestion handler — Dafny model

This project models the `/v1/push` route of the agent: the HTTP handler that
accepts a JSON array of pushed metric points, rejects a declared-empty or
undecodable body with status 400, fills in the originating identity
(`Endpoint`) of every point that lacks one with the configured host name, and
forwards the batch to the transfer sink before replying `success`.

The handler is modelled as a pure function, `Push.Handle`, from

- the request's declared content length (`-1` when unknown),
- the result of JSON decoding, abstracted as `Push.DecodeResult`: either
  `Malformed` or an `Array` of possibly-nil metric pointers
  (`Option<MetricValue>`, `None` for a JSON `null` element),
- the configured host name,

to a `Push.Outcome`: a `Reply` carrying the status, the body and the batch
handed to the sink (`None` when nothing is forwarded), or a `Panic` at the
position of the first nil element, which the fill loop dereferences.

A metric point is `Metric.MetricValue<Rest>`: its `endpoint` string plus a
`rest` of abstract type standing for every other field of the record (metric
name, value, step, counter type, tags, timestamp), none of which the handler
reads or writes. Because `Rest` is a type parameter, "all other fields are
unchanged" holds for any representation of those fields.

Files: `wrappers.dfy` (`Option`), `metric.dfy` (the point and the endpoint
default-fill, with its list lemmas), `push.dfy` (the decode result, the
outcome, the fill loop as the handler writes it, the handler and its
path lemmas).

A whole body of `null` decodes into a nil slice without error; the model
represents that as `Array([])`, so an empty batch is forwarded and the reply
is `success`.

## Model

| member | source | states |
|---|---|---|
| Metric.FillAll | http/push.go:25-29 | the filled batch has the decoded batch's length; at every position the non-endpoint fields are unchanged, and the endpoint is the host name when it was empty and the original endpoint otherwise |
| Metric.FillAllPointwise | http/push.go:25-29 | the fill of a batch at position i is the fill of the i-th point alone: each point is handled independently |
| Metric.FillAllAppend | http/push.go:25-29 | filling a concatenation is the concatenation of the fills, so order is preserved and no point affects another |
| Metric.FillIdempotent | http/push.go:25-29 | filling an already filled batch with the same host name changes nothing |
| Metric.FillChangesIff | http/push.go:26-28 | a point is changed by the fill if and only if its endpoint is empty and the host name is not |
| Metric.FillFixedPointIff | http/push.go:25-29 | a batch is left unchanged if and only if the host name is empty or every point already has an endpoint |
| Metric.FillEndpointsNonEmpty | http/push.go:25-29 | with a non-empty host name, every filled point has a non-empty endpoint |
| Push.FirstNil | http/push.go:25-26 | yields no position exactly when the decoded array has no nil element; otherwise a position holding nil with only non-nil elements before it |
| Push.FillLoop | http/push.go:25-29 | the loop stops on a nil element exactly when the array contains one, and then at the first nil; otherwise its result is the fill of the decoded points |
| Push.Handle | http/push.go:11-35 | every reply is either 200 with body "success" and a forwarded batch, or 400 with "body is blank" or "connot decode body" and no forward |
| Push.BlankIffZeroLength | http/push.go:12-15 | the "body is blank" 400 rejection occurs if and only if the declared content length is exactly 0; an unknown length of -1 goes on to decoding |
| Push.BlankIgnoresBody | http/push.go:12-15 | a request with content length 0 gets the same outcome whatever its body decodes to and whatever the host name |
| Push.DecodeFailureIff | http/push.go:17-23 | the "connot decode body" 400 rejection with no forward occurs if and only if a non-blank body fails to decode |
| Push.ForwardIff | http/push.go:25-34 | a batch is forwarded if and only if the body is non-blank, decodes and has no null element; the reply is then 200 "success" regardless of the batch |
| Push.PanicIff | http/push.go:25-26 | the handler aborts on a nil dereference if and only if a non-blank decoded array has a null element, at the first such position, with nothing forwarded |
| Push.ForwardedBatch | http/push.go:25-33 | the forwarded batch has the decoded length and order; each point keeps its other fields, keeps a non-empty endpoint and gets the host name for an empty one |
| Push.ForwardedEndpointsNonEmpty | http/push.go:25-33 | with a non-empty host name, every forwarded point has a non-empty endpoint |
| Push.RepushForwardsSame | http/push.go:25-34 | pushing a forwarded batch again with the same host name produces the same outcome, forwarding the batch unchanged |

## Left out

- JSON decoding (`encoding/json`): the decode result is an input; the JSON grammar, and the decoder's acceptance of trailing data after the first value, are not modelled.
- The configuration lookup `g.Config().Hostname`: the host name is a parameter. The `g` package is not part of this model.
- The forward `g.SendToTransfer`: the sink is not part of this model; the forwarded batch is returned in the outcome. It returns nothing to the handler, so the reply cannot depend on it.
- `net/http` response mechanics: `http.Error` appends a newline and sets headers; bodies here are the message strings alone, and the implicit 200 of `w.Write` is stated as an explicit status.
- What `net/http` does after a handler panic (it recovers, logs and closes the connection without a reply) is summarised as the `Panic` outcome. The in-place mutation of points before the nil one is not observable and is not modelled.
- Route registration (`http.HandleFunc`) and the 64-bit width of the content length: only the comparison with 0 matters.
- The `open-falcon` `MetricValue` type itself: its fields other than `Endpoint` are the abstract `rest`.
- k8s/main.go (the cluster-state metrics exporter: flag parsing, client construction, informer caches, listers, collector registration, the scrape server) is not part of this model; it is process bootstrap, concurrency and wiring over external libraries.
