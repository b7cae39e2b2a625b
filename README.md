# karmia-jsonrpc: the JSON-RPC 2.0 request handler, in Dafny

`KarmiaJSONRPC.call(context, body)` is the part of karmia-jsonrpc that the
repository owns. It does four things:

1. It normalises the body. An array is a batch; any other value becomes a
   one-element list.
2. It validates each request. An envelope whose `method` is falsy, or whose
   `jsonrpc` is not exactly the string `"2.0"`, gets the fixed error
   code -32600, message "Invalid request". The method registry is not asked
   about it.
3. It hands every other request, unchanged, to the method registry
   (`karmia-rpc`). A rejected promise is caught, and its reason (when it is
   not itself a thenable) becomes that request's outcome.
4. It waits for all outcomes in input order (`Promise.all`). It passes the
   original body and either the whole list (batch) or its only element
   (single) to the converter (`karmia-converter-jsonrpc`). It answers
   `{status, body}`: status 204 when the converter returned `null`,
   200 otherwise.

The TypeScript source `index.ts:67-96` and its compiled JavaScript twin
`lib/index.js:37-66` behave the same, line for line (the lines of
`lib/index.js` are those of `index.ts` minus 30). The model covers both.
The table below cites one or the other.

Files:

- `js_values.dfy`, module `JsValues`: parsed JSON values and the pieces of
  JavaScript semantics that `call` relies on. These are `Array.isArray`,
  reading a property (which throws on `null`), the truthiness test `!x`,
  and `===` against a string literal.
- `karmia_jsonrpc.dfy`, module `KarmiaJsonRpc`: the rest.
  - The `reduce` that pushes one outcome per request is the method
    `Dispatch`, a `while` loop that appends to a sequence. It is proved equal
    to the functions `Outcomes` and `Invoked`.
  - `Call` runs `Dispatch`, then the converter hand-off and the status
    mapping. It is proved equal to the function `CallSpec`.
  - The lemmas state the source's promises about `CallSpec`, `Outcomes` and
    `Dispatched`.

External collaborators are parameters:

- `methods: (C, Json) -> Settlement<V>` says how the registry's promise
  settles for a request. The context `C` and the settled values `V` are
  opaque.
- `converter: (Json, Payload<V>) -> Json` is `converter.convert`.

`Dispatch` and `Call` also return `calls`, the indices of the requests passed
to the registry, in the order the calls are made.

Three behaviours of the code are easy to miss:

- A request is rejected when its `method` is falsy: an absent method, `null`,
  `false`, `0` and `""` are all rejected. A truthy value that is not a string,
  such as `1`, is accepted and passed to the registry (`NumericMethodIsValid`).
- `call` can throw synchronously: the code reads `request.method` inside the
  synchronous `reduce`, so a `null` request (or a `null` body) throws a
  TypeError out of `call` itself. By then, the registry calls for the valid
  requests before it have already been made. The model states this:
  `Completion.Threw`, `ThrowsOnlyOnNullRequest` and `InvokedBeforeThrow`.
- After `.catch(error => Promise.resolve(error))`, a rejection reason that
  is not a thenable and a fulfilled value reach the converter in the same
  way, as a plain value.
  Both become `Outcome.Value`. Only the Invalid-request error built by `call`
  itself is a separate case (`Outcome.CoreError`).

## Model

| member | source | states |
|---|---|---|
| JsValues.IsArray | index.ts:69 | defines the batch flag, `Array.isArray(body)`: true exactly for a JSON array |
| JsValues.Truthy | index.ts:72 | defines JavaScript's truthiness of a property read: `undefined`, `null`, `false`, `0` and `""` are falsy, every other JSON value is truthy |
| JsValues.StrictEqualsString | index.ts:72 | defines `'2.0' === x` for a string literal: true only for a string with exactly those characters, never for a number or an absent member |
| JsValues.Property | index.ts:72 | reading `method` or `jsonrpc` gives a value only for an object that has that member; arrays and other primitives give `undefined` |
| JsValues.FalsyValues | index.ts:72 | the values `!x` treats as false are exactly `undefined`, `null`, `false`, `0` and `""` |
| KarmiaJsonRpc.Requests | index.ts:69-70 | defines the request list: the elements of an array body, in order, and `[body]` for any other body |
| KarmiaJsonRpc.NormalizeRoundTrip | index.ts:69-70 | a non-array body gives a one-element list; the body is recovered from the batch flag and the list, so normalising loses nothing |
| KarmiaJsonRpc.RequestsShape | lib/index.js:39-40 | spells out the definition of `Requests` case by case: an array body is used unchanged, in its own order; any other body becomes `[body]` |
| KarmiaJsonRpc.IsValidRequest | index.ts:72 | defines validity as the negation of the source's test: `method` truthy and `jsonrpc` strictly equal to "2.0" |
| KarmiaJsonRpc.ValidRequestCharacterized | index.ts:72 | a request is valid if and only if it is an object whose `method` is present and not falsy and whose `jsonrpc` is the string "2.0" |
| KarmiaJsonRpc.InvalidEnvelopes | lib/index.js:42 | a missing method, an empty-string method, a missing version and any version other than "2.0" each make the request invalid |
| KarmiaJsonRpc.ConformingEnvelopeIsValid | index.ts:72 | every envelope with version "2.0" and a non-empty string method is accepted |
| KarmiaJsonRpc.NumericMethodIsValid | index.ts:72 | the check is truthiness, not type: `{jsonrpc: "2.0", method: 1}` is accepted |
| KarmiaJsonRpc.ValidityIgnoresOtherMembers | index.ts:72 | validity does not change when `params`, `id` or any other member besides `method` and `jsonrpc` is set or removed |
| KarmiaJsonRpc.InvalidRequestError | index.ts:73-74 | defines the fixed error `call` builds for an invalid envelope: message "Invalid request", code -32600 |
| KarmiaJsonRpc.Caught | index.ts:81-83 | after the `catch`, both a fulfilled value and a plain (non-thenable) rejection reason become the request's resolved value |
| KarmiaJsonRpc.OutcomeOf | index.ts:72-83 | the outcome is the core's own error if and only if the request is invalid; that error has code -32600 and message "Invalid request"; for a valid request it is the registry's fulfilled value or rejection reason |
| KarmiaJsonRpc.InvalidRequestIgnoresRegistry | lib/index.js:42-48 | an invalid request's outcome is the same whatever the registry would do |
| KarmiaJsonRpc.ReadablePrefix | index.ts:71-72 | gives the number of requests before the first `null` one: none of them is `null`, and the next one, if there is one, is `null` |
| KarmiaJsonRpc.Outcomes | index.ts:71-88 | there are exactly as many outcomes as requests |
| KarmiaJsonRpc.Dispatched | index.ts:81 | defines the registry-call trace of a list without `null` requests: the indices of the valid requests, in input order |
| KarmiaJsonRpc.Invoked | lib/index.js:41-53 | defines the registry calls actually made: the trace of the requests before the first `null` one, where the reduce throws |
| KarmiaJsonRpc.OutcomesAligned | lib/index.js:41-58 | outcome i is the outcome of request i, for every i |
| KarmiaJsonRpc.DispatchedExactlyValid | index.ts:72-81 | the registry is called for index i exactly when request i is valid; the indices increase strictly, so each valid request is sent once and in input order |
| KarmiaJsonRpc.OutcomesIsolated | lib/index.js:51-53 | a request's settlement, success or failure, changes only its own slot; two registries that agree on every other request give equal outcomes everywhere else |
| KarmiaJsonRpc.Dispatch | index.ts:71-86 | the loop that pushes outcomes gives exactly `Outcomes(requests)` and makes exactly the registry calls `Invoked(requests)`; it aborts with a TypeError reading `method` exactly when some request is `null` |
| KarmiaJsonRpc.PayloadOf | index.ts:89 | the converter gets the whole list for a batch and the only element otherwise |
| KarmiaJsonRpc.Status | index.ts:92 | the status is 200 or 204, and it is 204 exactly when the converted body is `null` |
| KarmiaJsonRpc.CallSpec | index.ts:67-96 | defines the whole of `call` as one expression: a TypeError when some request is `null`, otherwise the converter's answer for the body and the selected outcomes, with status 204 for `null` and 200 otherwise |
| KarmiaJsonRpc.Call | lib/index.js:37-66 | `call` completes as `CallSpec` describes for every body, registry and converter, and makes exactly the registry calls `Invoked(Requests(body))` |
| KarmiaJsonRpc.ThrowsOnlyOnNullRequest | lib/index.js:41-42 | `call` throws if and only if some request is `null`; no settlement of a registry promise makes it throw |
| KarmiaJsonRpc.InvokedExactlyValid | lib/index.js:42-53 | when no request is `null`, the registry is called with exactly the valid requests, each once, in input order |
| KarmiaJsonRpc.InvokedBeforeThrow | index.ts:71-81 | when request n is the first `null` one, the calls already made are those for the valid requests before n, each once, in input order |
| KarmiaJsonRpc.BatchConverterInput | lib/index.js:58-59 | for an array body, the converter gets the original body and a list of outcomes aligned with the requests; the reply's status and body come from the converter's answer |
| KarmiaJsonRpc.SingleConverterInput | index.ts:88-89 | for a non-array, non-null body, the converter gets the body and that request's single outcome, which always exists |
| KarmiaJsonRpc.ReplyStatus | lib/index.js:60-64 | whenever `call` returns, the status is 204 if and only if the reply body is `null`, otherwise 200 |
| KarmiaJsonRpc.MissingVersionScenario | test/karmia-jsonrpc.js:130-140 | a single envelope without `jsonrpc` reaches the converter as the -32600 "Invalid request" error, and the registry is not called |
| KarmiaJsonRpc.BatchScenario | test/karmia-jsonrpc.js:108-126 | a batch of two valid envelopes makes two registry calls, in order, and passes both settled values to the converter in input order |

## Left out

- `converter.convert` (`karmia-converter-jsonrpc`) is a parameter, not a model. Its code is not part of this model. So the model does not decide notification suppression, the batch reshaping, or the mapping of messages to -32601/-32602/-32603. The end-to-end expectations that depend on it (test/karmia-jsonrpc.js:86-106 and 154-188) are not stated.
- `methods.call` and `methods.set` (`karmia-rpc`) are also out of the model. The registry is a function from context and request to how its promise settles. A registry that throws synchronously instead of returning a promise, or returns a value that has no `.catch` method, or settles differently on repeated calls, is not modelled; the first two make `call` throw even when no request is `null`.
- A registry promise that never settles leaves `call` pending forever, because `Promise.all` (index.ts:88) never resolves and the code sets no time-out. The model assumes every registry promise settles: `Settlement` has no pending case, so `CallSpec` either returns a reply or throws.
- KarmiaJsonRpc.Caught: a rejection reason that is itself a thenable is adopted by `Promise.resolve` (index.ts:82) rather than stored; if it rejects, `Promise.all` rejects, the converter is never called and `call`'s promise rejects. The model treats every reason as a plain value.
- Promise scheduling and concurrency are out. Only their effect on order is modelled: `Promise.all` yields the settled values index by index, after all have settled. A converter that throws, which rejects `call`'s promise, is not modelled either.
- The context object (`karmia-context`) is an opaque type parameter. It is passed unchanged to every registry call.
- The constructor and the factory export (index.ts:55-59, lib/index.js:25-29 and 71-73) are out because they only wire the two collaborators together. `index.d.ts` is out because it holds type declarations only.
- JavaScript values outside parsed JSON are out: `undefined` as a body or element, `NaN`, getters, and members inherited from prototypes. The converter's answer is therefore a JSON value, and an `undefined` answer (which would give status 200) is not modelled.
- KarmiaJsonRpc.Dispatch: it records the registry calls as request indices, not as the argument values. The argument is always the unmodified `requests[i]`, as `OutcomeOf` shows.
