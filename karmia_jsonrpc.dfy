/**
 `KarmiaJSONRPC.call`: the JSON-RPC 2.0 request handler. It turns the request
 body into a list of requests, rejects malformed envelopes with the fixed
 Invalid Request error, hands every other request to the method registry,
 gathers one outcome per request in input order, passes them to the
 response converter and maps the converter's answer to an HTTP status.

 The method registry and the converter are foreign libraries; here they are
 parameters: `methods` says how the promise returned for a request settles,
 `converter` is the converter's `convert`. Promises are abstracted to their
 effect on order: `Promise.all` yields the settled values index by index.
 */
module KarmiaJsonRpc {
  import opened JsValues

  /** The only protocol version accepted (section 4 of the JSON-RPC 2.0 specification). */
  const JSONRPC_VERSION: string := "2.0"
  /** Invalid Request, section 5.1 of the JSON-RPC 2.0 specification. */
  const INVALID_REQUEST_CODE: int := -32600
  const INVALID_REQUEST_MESSAGE: string := "Invalid request"

  /** How the promise that the method registry returns for one request settles. */
  datatype Settlement<V> = Fulfilled(value: V) | Rejected(reason: V)

  /** One slot of the array that `Promise.all` resolves with. */
  datatype Outcome<V> =
    | CoreError(message: string, code: int)  // an Error that `call` builds itself
    | Value(v: V)                            // whatever the registry's promise settled with

  /** What the converter receives besides the body: all outcomes, or the only one. */
  datatype Payload<V> = Batch(outcomes: seq<Outcome<V>>) | Single(outcome: Outcome<V>)

  /** The object the returned promise resolves with. */
  datatype Reply = Reply(status: int, body: Json)

  /** The exception raised by reading a property of `null`. */
  datatype TypeError = NullPropertyRead(key: string)

  /** `call` either returns its promise of a reply or throws before creating it. */
  datatype Completion = Returned(reply: Reply) | Threw(error: TypeError)

  /** The result of the `reduce` over the requests. */
  datatype Collection<V> = Collected(outcomes: seq<Outcome<V>>) | Aborted(error: TypeError)

  // ---------------------------------------------------------------------------
  // Normalising the body

  /** `batch ? body : [body]` */
  function Requests(body: Json): seq<Json> {
    if IsArray(body) then body.elems else [body]
  }

  /** The inverse of `Requests`, given the batch flag. */
  function Rebuild(batch: bool, requests: seq<Json>): Json
    requires batch || |requests| == 1
  {
    if batch then JArray(requests) else requests[0]
  }

  /** Normalising loses nothing: the body is recovered from the flag and the list. */
  lemma NormalizeRoundTrip(body: Json)
    ensures IsArray(body) || |Requests(body)| == 1
    ensures Rebuild(IsArray(body), Requests(body)) == body
  {
  }

  /** An array body is used as it is, in its own order; any other body is a one-element list. */
  lemma RequestsShape(body: Json)
    ensures IsArray(body) ==> Requests(body) == body.elems
    ensures !IsArray(body) ==> Requests(body) == [body]
  {
  }

  // ---------------------------------------------------------------------------
  // Validating one request

  /** The negation of `!request.method || '2.0' !== request.jsonrpc`. */
  predicate IsValidRequest(request: Json)
    requires !request.JNull?
  {
    Truthy(Property(request, "method"))
    && StrictEqualsString(JSONRPC_VERSION, Property(request, "jsonrpc"))
  }

  /** A request is valid exactly when it is an object with a truthy method and version "2.0". */
  lemma ValidRequestCharacterized(request: Json)
    requires !request.JNull?
    ensures IsValidRequest(request) <==>
      && request.JObject?
      && "method" in request.fields
      && request.fields["method"] !in {JNull, JBool(false), JNumber(0.0), JString("")}
      && "jsonrpc" in request.fields
      && request.fields["jsonrpc"] == JString(JSONRPC_VERSION)
  {
    FalsyValues(Property(request, "method"));
  }

  /** Missing method, empty method, missing version or another version: invalid. */
  lemma InvalidEnvelopes(fields: map<string, Json>)
    ensures "method" !in fields ==> !IsValidRequest(JObject(fields))
    ensures "method" in fields && fields["method"] == JString("") ==> !IsValidRequest(JObject(fields))
    ensures "jsonrpc" !in fields ==> !IsValidRequest(JObject(fields))
    ensures "jsonrpc" in fields && fields["jsonrpc"] != JString("2.0") ==> !IsValidRequest(JObject(fields))
  {
  }

  /** A request that conforms to section 4 of the JSON-RPC 2.0 specification is valid. */
  lemma ConformingEnvelopeIsValid(fields: map<string, Json>)
    requires "jsonrpc" in fields && fields["jsonrpc"] == JString("2.0")
    requires "method" in fields && fields["method"].JString? && fields["method"].s != ""
    ensures IsValidRequest(JObject(fields))
  {
  }

  /** The test is truthiness, not type: a method that is a non-zero number is let through. */
  lemma NumericMethodIsValid()
    ensures IsValidRequest(JObject(map["jsonrpc" := JString("2.0"), "method" := JNumber(1.0)]))
  {
  }

  /** Validity reads only `method` and `jsonrpc`: `params`, `id` and any other member are ignored. */
  lemma ValidityIgnoresOtherMembers(fields: map<string, Json>, key: string, v: Json)
    requires key != "method" && key != "jsonrpc"
    ensures IsValidRequest(JObject(fields[key := v])) == IsValidRequest(JObject(fields))
    ensures IsValidRequest(JObject(fields - {key})) == IsValidRequest(JObject(fields))
  {
  }

  // ---------------------------------------------------------------------------
  // The outcome of one request

  /** The fixed error that stands for an invalid envelope. */
  function InvalidRequestError<V>(): Outcome<V> {
    CoreError(INVALID_REQUEST_MESSAGE, INVALID_REQUEST_CODE)
  }

  /** `.catch(error => Promise.resolve(error))`: a rejection reason becomes the resolved value. */
  function Caught<V>(s: Settlement<V>): (o: Outcome<V>)
    ensures o.Value?
    ensures s.Fulfilled? ==> o.v == s.value
    ensures s.Rejected? ==> o.v == s.reason
  {
    match s
    case Fulfilled(v) => Value(v)
    case Rejected(e) => Value(e)
  }

  /** The value one request contributes to `Promise.all`. */
  function OutcomeOf<C, V>(ctx: C, methods: (C, Json) -> Settlement<V>, request: Json): (o: Outcome<V>)
    requires !request.JNull?
    ensures o.CoreError? <==> !IsValidRequest(request)
    ensures o.CoreError? ==> o.code == -32600 && o.message == "Invalid request"
    ensures IsValidRequest(request) && methods(ctx, request).Fulfilled? ==> o == Value(methods(ctx, request).value)
    ensures IsValidRequest(request) && methods(ctx, request).Rejected? ==> o == Value(methods(ctx, request).reason)
  {
    if !IsValidRequest(request) then InvalidRequestError() else Caught(methods(ctx, request))
  }

  /** For an invalid request the outcome is the same whatever the registry would have done. */
  lemma InvalidRequestIgnoresRegistry<C, V>(ctx: C, m1: (C, Json) -> Settlement<V>, m2: (C, Json) -> Settlement<V>, request: Json)
    requires !request.JNull? && !IsValidRequest(request)
    ensures OutcomeOf(ctx, m1, request) == OutcomeOf(ctx, m2, request)
  {
  }

  // ---------------------------------------------------------------------------
  // The reduce over all requests

  /** No request is `null`, so reading its properties cannot throw. */
  predicate AllReadable(requests: seq<Json>) {
    forall k :: 0 <= k < |requests| ==> !requests[k].JNull?
  }

  /** The number of requests before the first `null` one: how far the reduce gets. */
  function ReadablePrefix(requests: seq<Json>): (n: nat)
    ensures n <= |requests|
    ensures forall k :: 0 <= k < n ==> !requests[k].JNull?
    ensures n < |requests| ==> requests[n].JNull?
  {
    if requests == [] || requests[0].JNull? then 0 else 1 + ReadablePrefix(requests[1..])
  }

  /** Any n with no `null` before it and a `null` (or the end) at it is the readable prefix. */
  lemma ReadablePrefixAt(requests: seq<Json>, n: nat)
    requires n <= |requests| && AllReadable(requests[..n])
    requires n < |requests| ==> requests[n].JNull?
    ensures ReadablePrefix(requests) == n
  {
  }

  /** The outcomes `Promise.all` resolves with, built as the reduce pushes them. */
  function Outcomes<C, V>(ctx: C, methods: (C, Json) -> Settlement<V>, requests: seq<Json>): (os: seq<Outcome<V>>)
    requires AllReadable(requests)
    ensures |os| == |requests|
  {
    if requests == [] then []
    else
      var last := |requests| - 1;
      Outcomes(ctx, methods, requests[..last]) + [OutcomeOf(ctx, methods, requests[last])]
  }

  /** The indices of the requests handed to the registry, in the order the calls are made. */
  function Dispatched(requests: seq<Json>): seq<nat>
    requires AllReadable(requests)
  {
    if requests == [] then []
    else
      var last := |requests| - 1;
      Dispatched(requests[..last]) + (if IsValidRequest(requests[last]) then [last] else [])
  }

  /** One more request pushes its outcome and, when valid, adds its index to the calls. */
  lemma ReduceStep<C, V>(ctx: C, methods: (C, Json) -> Settlement<V>, requests: seq<Json>, i: nat)
    requires i < |requests| && AllReadable(requests[..i]) && !requests[i].JNull?
    ensures AllReadable(requests[..i + 1]) && requests[..i + 1][i] == requests[i]
    ensures Outcomes(ctx, methods, requests[..i + 1])
      == Outcomes(ctx, methods, requests[..i]) + [OutcomeOf(ctx, methods, requests[i])]
    ensures Dispatched(requests[..i + 1])
      == Dispatched(requests[..i]) + (if IsValidRequest(requests[i]) then [i] else [])
  {
    assert requests[..i + 1] == requests[..i] + [requests[i]];
  }

  /** The registry calls made before the reduce finishes or throws. */
  function Invoked(requests: seq<Json>): seq<nat> {
    Dispatched(requests[..ReadablePrefix(requests)])
  }

  /** Entry i of the outcome list belongs to request i. */
  lemma {:induction false} OutcomesAligned<C, V>(ctx: C, methods: (C, Json) -> Settlement<V>, requests: seq<Json>)
    requires AllReadable(requests)
    ensures forall i :: 0 <= i < |requests| ==>
      Outcomes(ctx, methods, requests)[i] == OutcomeOf(ctx, methods, requests[i])
  {
    if requests != [] {
      var last := |requests| - 1;
      var prefix := requests[..last];
      OutcomesAligned(ctx, methods, prefix);
      forall i | 0 <= i < last
        ensures Outcomes(ctx, methods, requests)[i] == OutcomeOf(ctx, methods, requests[i])
      {
        assert prefix[i] == requests[i];
      }
    }
  }

  /**
   The registry is called for the valid requests and no others, each index
   at most once, in increasing order.
   */
  lemma {:induction false} DispatchedExactlyValid(requests: seq<Json>)
    requires AllReadable(requests)
    ensures forall i :: i in Dispatched(requests) <==> 0 <= i < |requests| && IsValidRequest(requests[i])
    ensures forall a, b :: 0 <= a < b < |Dispatched(requests)| ==> Dispatched(requests)[a] < Dispatched(requests)[b]
  {
    if requests != [] {
      var last := |requests| - 1;
      var prefix := requests[..last];
      DispatchedExactlyValid(prefix);
      forall i | 0 <= i < last
        ensures IsValidRequest(prefix[i]) == IsValidRequest(requests[i])
      {
        assert prefix[i] == requests[i];
      }
      forall a | 0 <= a < |Dispatched(prefix)|
        ensures Dispatched(prefix)[a] < last
      {
        assert Dispatched(prefix)[a] in Dispatched(prefix);
      }
    }
  }

  /**
   A request's settlement, success or failure, affects only its own slot:
   two registries that settle every other request alike give the same
   outcomes everywhere else.
   */
  lemma OutcomesIsolated<C, V>(ctx: C, m1: (C, Json) -> Settlement<V>, m2: (C, Json) -> Settlement<V>, requests: seq<Json>, j: nat)
    requires AllReadable(requests) && j < |requests|
    requires forall i :: 0 <= i < |requests| && i != j ==> m1(ctx, requests[i]) == m2(ctx, requests[i])
    ensures forall i :: 0 <= i < |requests| && i != j ==>
      Outcomes(ctx, m1, requests)[i] == Outcomes(ctx, m2, requests)[i]
  {
    OutcomesAligned(ctx, m1, requests);
    OutcomesAligned(ctx, m2, requests);
  }

  /**
   `requests.reduce(...)`: one outcome pushed per request, the registry
   called for each valid one; a `null` request throws out of the reduce
   after the calls for the requests before it were made.
   */
  method Dispatch<C, V>(ctx: C, methods: (C, Json) -> Settlement<V>, requests: seq<Json>)
    returns (parallels: Collection<V>, calls: seq<nat>)
    ensures calls == Invoked(requests)
    ensures parallels.Aborted? <==> ReadablePrefix(requests) < |requests|
    ensures parallels.Aborted? ==> parallels.error == NullPropertyRead("method")
    ensures parallels.Collected? ==> AllReadable(requests) && parallels.outcomes == Outcomes(ctx, methods, requests)
  {
    var collection: seq<Outcome<V>> := [];
    calls := [];
    var i := 0;
    var thrown := false;
    while i < |requests| && !thrown
      invariant 0 <= i <= |requests|
      invariant AllReadable(requests[..i])
      invariant thrown ==> i < |requests| && requests[i].JNull?
      invariant collection == Outcomes(ctx, methods, requests[..i])
      invariant calls == Dispatched(requests[..i])
      decreases |requests| - i, if thrown then 0 else 1
    {
      var request := requests[i];
      if request.JNull? {
        thrown := true;
      } else {
        ReduceStep(ctx, methods, requests, i);
        if !IsValidRequest(request) {
          collection := collection + [InvalidRequestError()];
        } else {
          calls := calls + [i];
          var settled := methods(ctx, request);
          collection := collection + [Caught(settled)];
        }
        i := i + 1;
      }
    }
    ReadablePrefixAt(requests, i);
    if thrown {
      parallels := Aborted(NullPropertyRead("method"));
    } else {
      assert requests[..|requests|] == requests;
      parallels := Collected(collection);
    }
  }

  // ---------------------------------------------------------------------------
  // Converter hand-off and status

  /** `batch ? result : result[0]` */
  function PayloadOf<V>(batch: bool, result: seq<Outcome<V>>): (p: Payload<V>)
    requires batch || |result| == 1
    ensures p.Batch? <==> batch
    ensures p.Batch? ==> p.outcomes == result
    ensures p.Single? ==> [p.outcome] == result
  {
    if batch then Batch(result) else Single(result[0])
  }

  /** `null === result ? 204 : 200` */
  function Status(converted: Json): (status: int)
    ensures status == 200 || status == 204
    ensures status == 204 <==> converted.JNull?
  {
    if converted.JNull? then 204 else 200
  }

  /** What `call` does, as one expression over its inputs. */
  function CallSpec<C, V>(ctx: C, methods: (C, Json) -> Settlement<V>, converter: (Json, Payload<V>) -> Json, body: Json): Completion {
    var requests := Requests(body);
    if ReadablePrefix(requests) < |requests| then Threw(NullPropertyRead("method"))
    else
      assert requests[..|requests|] == requests;
      var converted := converter(body, PayloadOf(IsArray(body), Outcomes(ctx, methods, requests)));
      Returned(Reply(Status(converted), converted))
  }

  /**
   `KarmiaJSONRPC.call(context, body)`. Returns the completion and the
   indices (into the normalised request list) of the requests the registry
   was called with, in call order.
   */
  method Call<C, V>(ctx: C, methods: (C, Json) -> Settlement<V>, converter: (Json, Payload<V>) -> Json, body: Json)
    returns (c: Completion, calls: seq<nat>)
    ensures c == CallSpec(ctx, methods, converter, body)
    ensures calls == Invoked(Requests(body))
  {
    var batch := IsArray(body);
    var requests := Requests(body);
    var parallels;
    parallels, calls := Dispatch(ctx, methods, requests);
    match parallels
    case Aborted(e) =>
      c := Threw(e);
    case Collected(result) =>
      var converted := converter(body, PayloadOf(batch, result));
      c := Returned(Reply(Status(converted), converted));
  }

  // ---------------------------------------------------------------------------
  // Properties of `call`

  /** `call` throws exactly when some request is `null`; the registry's behaviour never makes it fail. */
  lemma ThrowsOnlyOnNullRequest<C, V>(ctx: C, methods: (C, Json) -> Settlement<V>, converter: (Json, Payload<V>) -> Json, body: Json)
    ensures CallSpec(ctx, methods, converter, body).Threw? <==>
      exists k :: 0 <= k < |Requests(body)| && Requests(body)[k].JNull?
  {
    var requests := Requests(body);
    var n := ReadablePrefix(requests);
    if n == |requests| {
      assert requests[..n] == requests;
    }
  }

  /**
   When no request is `null`, the registry is called with exactly the valid
   requests, each once, in input order.
   */
  lemma InvokedExactlyValid(body: Json)
    requires AllReadable(Requests(body))
    ensures forall i :: i in Invoked(Requests(body)) <==>
      0 <= i < |Requests(body)| && IsValidRequest(Requests(body)[i])
    ensures forall a, b :: 0 <= a < b < |Invoked(Requests(body))| ==>
      Invoked(Requests(body))[a] < Invoked(Requests(body))[b]
  {
    var requests := Requests(body);
    assert requests[..ReadablePrefix(requests)] == requests;
    DispatchedExactlyValid(requests);
  }

  /** When a request is `null`, only the valid requests before it were sent to the registry, each once, in order. */
  lemma InvokedBeforeThrow(requests: seq<Json>, n: nat)
    requires n < |requests| && requests[n].JNull? && AllReadable(requests[..n])
    ensures forall i :: i in Invoked(requests) <==> 0 <= i < n && IsValidRequest(requests[i])
    ensures forall a, b :: 0 <= a < b < |Invoked(requests)| ==> Invoked(requests)[a] < Invoked(requests)[b]
  {
    assert ReadablePrefix(requests) == n;
    DispatchedExactlyValid(requests[..n]);
    forall i | 0 <= i < n ensures requests[..n][i] == requests[i] { }
  }

  /**
   For an array body the converter receives the original body and the
   whole outcome list, entry i being request i's outcome; the reply's status
   and body come from the converter's answer alone.
   */
  lemma BatchConverterInput<C, V>(ctx: C, methods: (C, Json) -> Settlement<V>, converter: (Json, Payload<V>) -> Json, body: Json)
    requires IsArray(body) && AllReadable(body.elems)
    ensures exists os: seq<Outcome<V>> ::
      && |os| == |body.elems|
      && (forall i :: 0 <= i < |os| ==> os[i] == OutcomeOf(ctx, methods, body.elems[i]))
      && CallSpec(ctx, methods, converter, body) == Returned(Reply(Status(converter(body, Batch(os))), converter(body, Batch(os))))
  {
    var requests := Requests(body);
    assert requests[..ReadablePrefix(requests)] == requests;
    OutcomesAligned(ctx, methods, requests);
    var os := Outcomes(ctx, methods, requests);
    assert forall i :: 0 <= i < |os| ==> os[i] == OutcomeOf(ctx, methods, body.elems[i]);
  }

  /**
   For any other body the converter receives the original body and that
   one request's outcome, which always exists because the list has exactly
   one entry.
   */
  lemma SingleConverterInput<C, V>(ctx: C, methods: (C, Json) -> Settlement<V>, converter: (Json, Payload<V>) -> Json, body: Json)
    requires !IsArray(body) && !body.JNull?
    ensures var converted := converter(body, Single(OutcomeOf(ctx, methods, body)));
      CallSpec(ctx, methods, converter, body) == Returned(Reply(Status(converted), converted))
  {
    var requests := Requests(body);
    assert requests[..ReadablePrefix(requests)] == requests;
    OutcomesAligned(ctx, methods, requests);
  }

  /** The reply has status 204 exactly when the converter answered `null`, and 200 otherwise. */
  lemma ReplyStatus<C, V>(ctx: C, methods: (C, Json) -> Settlement<V>, converter: (Json, Payload<V>) -> Json, body: Json)
    requires CallSpec(ctx, methods, converter, body).Returned?
    ensures var reply := CallSpec(ctx, methods, converter, body).reply;
      (reply.status == 204 <==> reply.body.JNull?) && (reply.status == 200 <==> !reply.body.JNull?)
  {
  }

  /**
   A single envelope without a version (as in the test "Version not
   specified") reaches the converter as the Invalid Request error, and the
   registry is not called.
   */
  lemma MissingVersionScenario<C, V>(ctx: C, methods: (C, Json) -> Settlement<V>, converter: (Json, Payload<V>) -> Json)
    ensures var body := JObject(map["method" := JString("error"), "id" := JString("error")]);
      && CallSpec(ctx, methods, converter, body)
         == Returned(Reply(Status(converter(body, Single(CoreError("Invalid request", -32600)))),
                           converter(body, Single(CoreError("Invalid request", -32600)))))
      && Invoked(Requests(body)) == []
  {
    var body := JObject(map["method" := JString("error"), "id" := JString("error")]);
    SingleConverterInput(ctx, methods, converter, body);
    assert Requests(body)[..ReadablePrefix(Requests(body))] == [body];
  }

  /**
   A batch of two valid requests (as in the test "Batch request") calls
   the registry twice, in order, and hands both settled values to the
   converter in input order.
   */
  lemma BatchScenario<C, V>(ctx: C, methods: (C, Json) -> Settlement<V>, converter: (Json, Payload<V>) -> Json)
    ensures
      var a := JObject(map["jsonrpc" := JString("2.0"), "method" := JString("success"), "id" := JString("success")]);
      var b := JObject(map["jsonrpc" := JString("2.0"), "method" := JString("error"), "id" := JString("error")]);
      var body := JArray([a, b]);
      var payload := Batch([Caught(methods(ctx, a)), Caught(methods(ctx, b))]);
      && CallSpec(ctx, methods, converter, body)
         == Returned(Reply(Status(converter(body, payload)), converter(body, payload)))
      && Invoked(Requests(body)) == [0, 1]
  {
    var a := JObject(map["jsonrpc" := JString("2.0"), "method" := JString("success"), "id" := JString("success")]);
    var b := JObject(map["jsonrpc" := JString("2.0"), "method" := JString("error"), "id" := JString("error")]);
    var body := JArray([a, b]);
    var requests := Requests(body);
    assert IsValidRequest(a) && IsValidRequest(b);
    BatchConverterInput(ctx, methods, converter, body);
    assert requests[..ReadablePrefix(requests)] == requests;
    assert requests[..1] == [a] && [a][..0] == [];
    assert Dispatched([a]) == [0];
    OutcomesAligned(ctx, methods, requests);
    assert Outcomes(ctx, methods, requests) == [Caught(methods(ctx, a)), Caught(methods(ctx, b))];
  }
}
