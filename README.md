# JSON-RPC 2.0 engine: a verified model

This project models the core of `jsonrpc-handler-kotlin`, a server-side engine for
the JSON-RPC 2.0 Specification (sections 4 Request object, 4.1 Notification,
5 Response object, 5.1 Error object and 6 Batch). A payload goes through this pipeline:

1. It is read into a JSON tree.
2. The version 2.0 validator turns every item of the tree into a request or an
   "Invalid Request" response, collected in a dispatch context.
3. Every request is resolved against a handler table. Its params are decoded
   and its handler runs. The outcome is recorded in the `resolved` map.
4. The done context is written out as one response object or as a bracketed batch.

Modules, one file each:

- `Wrappers`: `Option`.
- `Json`: the JSON tree, the first-match `findValue`, `textValue`, `asText`, and the decimal text of an integral id.
- `PresetErrors`: the five predefined errors.
- `Requests`: `RequestImpl.of` and `Scaffold`.
- `Responses`:
  - the success, failure and JSON-holder responses;
  - the factories `Response.success` and `Response.error`;
  - the accessors and equality;
  - the JSON library as a `Codec` of functions.
- `Context`: `RpcContext` with its open-to-done transition.
- `Specification`: the 2.0 validator, the 1.0 stub and `contextBuilder()`.
- `Mapper`: the handler table as a class with a `map` field, with the `MethodMapper` and `RouteMapper` factories.
- `Dispatcher`: `dispatch`, `match` and `marshal`.

The repository has two source trees, the current `jsonrpc/` package and a legacy top-level one. The dispatcher and the context follow the `jsonrpc/` tree. The two error catalogs agree and are modelled once. The validator is modelled from the legacy `dispatcher/Specification.kt`; the `jsonrpc/` validator is not part of this model.

Where the code departs from the standard, the model follows the code:

- An unbound method or undecodable typed params are answered even for a notification.
- The responses produced during validation are replaced by the recorded ones as soon as one request was resolved.
- An explicit `"id": null` becomes the id text `"null"`, and the request is not a notification.
- Rejections by the validator carry the default id `"0"`.

## Model

| member | source | states |
|---|---|---|
| `Json.Lookup` | src/main/kotlin/dispatcher/JacksonParser.kt:37 | a field is found iff some field carries the name, and the value found belongs to the first such field |
| `Json.LookupFirst` | src/main/kotlin/dispatcher/JacksonParser.kt:37 | the lookup returns the value of the first field with the name, whatever follows |
| `Json.LookupDistinct` | src/main/kotlin/dispatcher/JacksonParser.kt:37 | with distinct field names the field carrying the name is found wherever it stands |
| `Json.NatText` | src/main/kotlin/dispatcher/JacksonParser.kt:45 | the text `asText` gives a natural number is a non-empty digit string with no leading zero |
| `Json.NatTextRoundTrip` | src/main/kotlin/dispatcher/JacksonParser.kt:45 | reading the digits back gives the number |
| `Json.IntTextRoundTrip` | src/main/kotlin/dispatcher/Specification.kt:74 | the id text stored for an integral id reads back as that integer, sign included |
| `Json.IntTextInjective` | src/main/kotlin/dispatcher/Specification.kt:74 | two integral ids get the same id text iff they are equal |
| `PresetErrors.PresetError.Code` | src/main/kotlin/jsonrpc/dto/PresetError.kt:11-41 | every preset code lies in the reserved range -32768..-32000 |
| `PresetErrors.PresetError.Message` | src/main/kotlin/dto/PresetError.kt:3-9 | every preset has a non-empty message |
| `PresetErrors.FromCode` | src/main/kotlin/jsonrpc/dto/PresetError.kt:16-41 | a code maps to the preset carrying it, and to nothing when no preset carries it |
| `PresetErrors.CodesDistinct` | src/main/kotlin/dto/PresetError.kt:5-9 | two presets have the same code iff they are the same preset; decoding a preset's code gives the preset back |
| `PresetErrors.Catalog` | src/main/kotlin/jsonrpc/dto/PresetError.kt:16-41 | the five entries are (-32700, "Parse error"), (-32600, "Invalid Request"), (-32601, "Method not found"), (-32602, "Invalid params") and (-32603, "Internal error") |
| `Requests.RequestOf` | src/main/kotlin/dto/Request.kt:76-100 | there is a request iff the method name is non-empty and the scaffold serializes; it keeps method, version, id, JSON text and params text; it is a notification iff the version is not "2.0" or the id is absent or empty |
| `Requests.RequestOfDefaults` | src/main/kotlin/dto/Request.kt:51-52 | with the defaults a request has version "2.0", id "0" and is not a notification |
| `Requests.NotificationFlagsAgreeIff` | src/main/kotlin/dto/Request.kt:140 | `RequestImpl.of`'s flag and `Scaffold.isNotification` agree iff the version is "2.0" and the id is not "" |
| `Responses.ErrorFieldFrom` | src/main/kotlin/dto/Response.kt:245 | `ErrorField.from` copies the preset's code and message, has no data, and its code identifies the preset |
| `Responses.SuccessOf` | src/main/kotlin/dto/Response.kt:80-87 | a success with the given result, the request's version and id, and "2.0" and "0" for a missing request or id |
| `Responses.ErrorOf` | src/main/kotlin/dto/Response.kt:92-99 | a failure with the given id and version whose error has the preset's code and message and no data |
| `Responses.ErrorFieldOf` | src/main/kotlin/dto/Response.kt:152-161 | a decoded error object yields an error field only with an integral `code` and textual `message`, which it copies; JSON-null data counts as none |
| `Responses.Version` | src/main/kotlin/dto/Response.kt:109-115 | a success or failure reports its stored version; a holder whose text lacks a version or does not read reports "2.0" |
| `Responses.ResponseId` | src/main/kotlin/dto/Response.kt:197 | a success or failure reports its stored id |
| `Responses.IsSuccess` | src/main/kotlin/dto/Response.kt:125-132 | a holder is a success iff its text reads and has a `result` that is not JSON null |
| `Responses.ToJson` | src/main/kotlin/dto/Response.kt:163 | a holder returns its stored text unchanged; the others are written by the JSON library |
| `Responses.Equals` | src/main/kotlin/dto/Response.kt:213-224 | two responses are equal iff they are of the same kind with equal result (or error), version and id, or holders with equal text |
| `Responses.ExactlyOneOfResultAndError` | src/main/kotlin/dto/Response.kt:264-274 | for a success or failure, `isSuccess` holds iff success info is present iff error info is absent; a failure has no success JSON; each reports its own payload |
| `Responses.HolderHeader` | src/main/kotlin/dto/Response.kt:109-123 | a holder whose text reads as an object, in any field order, reports the first `jsonrpc` text as its version ("2.0" without one) and the `asText` of the first `id` as its id: a textual id as is, an integral id as its decimal text that reads back as the number, a null id as "null", no id as none |
| `Responses.HolderReadsBackSuccess` | src/main/kotlin/dto/Response.kt:125-150 | a holder whose object has a non-null `result`, in any field order, is a success whose success JSON is that result's text and whose success info is the result read back; its text comes back unchanged |
| `Responses.HolderStandardSuccess` | src/main/kotlin/dto/Response.kt:109-132 | a remote success `{"jsonrpc": "2.0", "result": r, "id": n}` in the standard's order is a success with version "2.0" and id text `n` |
| `Responses.ErrorObjectWithoutData` | src/main/kotlin/dto/Response.kt:240 | the object `{"code", "message", "data": null}` decodes to an error field without data |
| `Responses.HolderReadsBackFailure` | src/main/kotlin/dto/Response.kt:125-161 | a holder whose object has an `error` and no `result`, in any field order, is not a success, has no success info or JSON, and reports the error the library reads back from its `error` node |
| `Responses.HolderReadsBackErrorObject` | src/main/kotlin/dto/Response.kt:152-161 | an `error` node `{code, message, data: null}` in a failure holder is reported as that code and message, without data |
| `Responses.HolderUnreadable` | src/main/kotlin/dto/Response.kt:117-123 | a holder whose text does not read is not a success, has version "2.0", and has no id, result or error |
| `Context.RpcContext.Done` | src/main/kotlin/jsonrpc/dto/RpcContext.kt:39-42 | the result is done with the same requests and batch flag; given responses replace the held ones, and with none the held ones stay |
| `Context.Of` | src/main/kotlin/jsonrpc/dto/RpcContext.kt:21-23 | an open context with the given batch flag holding both lists unchanged and in order |
| `Context.OfResponses` | src/main/kotlin/jsonrpc/dto/RpcContext.kt:28-30 | an open context with no requests and the given responses |
| `Context.DoneIsNewValue` | src/main/kotlin/jsonrpc/dto/RpcContext.kt:39-42 | marking an open context done gives a value different from the receiver |
| `Context.DoneTwice` | src/main/kotlin/jsonrpc/dto/RpcContext.kt:39-42 | the contents (requests, responses, flags) after `done` twice are those after one `done` given the last responses passed |
| `Specification.Items` | src/main/kotlin/dispatcher/Specification.kt:35-47 | the validator always has at least one item |
| `Specification.BuildV2` | src/main/kotlin/dispatcher/Specification.kt:30-100 | the item-by-item validator loop builds exactly the context the per-item rules define |
| `Specification.AcceptedNotificationFlag` | src/main/kotlin/dispatcher/Specification.kt:28 | an accepted request has version "2.0", and its notification flag is `V2_0.isNotification` of its version and id |
| `Specification.BuildV1` | src/main/kotlin/dispatcher/Specification.kt:13-21 | the 1.0 validator builds nothing |
| `Specification.ContextBuilder` | src/main/kotlin/dispatcher/Specification.kt:108-114 | `contextBuilder()` tries 1.0, then 2.0, and so always yields the 2.0 context |
| `Specification.FirstSome` | src/main/kotlin/dispatcher/Specification.kt:110-112 | the result is present iff some candidate is, and then it is the first present candidate |
| `Specification.AcceptedIffWellFormed` | src/main/kotlin/dispatcher/Specification.kt:52-95 | an item is accepted iff its version is the text "2.0", any id is integral, textual or null, its method is non-empty text, and any params are not null |
| `Specification.AcceptedRequestFields` | src/main/kotlin/dispatcher/Specification.kt:60-95 | an accepted request keeps the method, the item text and the params text; its id is the id node's `asText`; it is a notification iff the id is missing |
| `Specification.ExplicitNullId` | src/main/kotlin/dispatcher/Specification.kt:64-74 | `"id": null` gives the id text "null", and the request is not a notification |
| `Specification.IntegralIdText` | src/main/kotlin/dispatcher/Specification.kt:64-74 | any integral id `n` is stored as its decimal text, which reads back as `n`, and the request is not a notification |
| `Specification.RejectionsAreInvalidRequest` | src/main/kotlin/dispatcher/Specification.kt:53-93 | every response the validator produces is "Invalid Request" with id "0" |
| `Specification.OneEntryPerItem` | src/main/kotlin/dispatcher/Specification.kt:52-97 | requests plus responses number exactly the items |
| `Specification.NonObjectItemsRejected` | src/main/kotlin/dispatcher/Specification.kt:53-58 | scalar items (neither object nor array), on which `findValue` finds nothing, all yield responses and no requests |
| `Specification.AbsentTree` | src/main/kotlin/dispatcher/Specification.kt:31-33 | no tree gives a done, non-batch context with no requests and one "Parse error" |
| `Specification.BuiltContext` | src/main/kotlin/dispatcher/Specification.kt:35-100 | the context is a batch iff the tree is a non-empty array and done iff no request survived; entries number the items; all responses are "Invalid Request" |
| `Specification.EmptyArray` | src/main/kotlin/dispatcher/Specification.kt:35-47 | `[]` gives a done, non-batch context with one "Invalid Request" |
| `Specification.ArrayOfNonObjects` | src/main/kotlin/dispatcher/Specification.kt:35-58 | a non-empty array of scalars gives a done batch with one "Invalid Request" per element |
| `Mapper.LastWinsKeys` | src/main/kotlin/mapper/AbstractHandlerMapper.kt:36-42 | after `setMethod` the table's names are exactly the given names |
| `Mapper.LastWinsValue` | src/main/kotlin/mapper/AbstractHandlerMapper.kt:36-42 | after `setMethod` a name is bound to the last binding of that name |
| `Mapper.FirstWinsKeepsBase` | src/main/kotlin/mapper/AbstractHandlerMapper.kt:48-52 | `putIfAbsent` insertion adds exactly the new names and leaves every existing binding untouched |
| `Mapper.FirstWinsValue` | src/main/kotlin/mapper/AbstractHandlerMapper.kt:48-52 | a new name is bound to the first binding of that name |
| `Mapper.DistinctNamesAgree` | src/main/kotlin/jsonrpc/mapper/RouteMapper.kt:43-49 | with distinct names, first-wins and last-wins insertion build the same table |
| `Mapper.FirstWinsTable` | src/main/kotlin/mapper/MethodMapper.kt:30-36 | the `putIfAbsent` loop on a fresh map builds the first-wins table |
| `Mapper.HandlerMapper.constructor` | src/main/kotlin/mapper/AbstractHandlerMapper.kt:24-34 | the table is the initial map and the matcher the given one |
| `Mapper.HandlerMapper.Resolve` | src/main/kotlin/mapper/AbstractHandlerMapper.kt:26-33 | a custom matcher decides alone; the default one finds a binding iff the live table holds the method name, and returns that entry |
| `Mapper.HandlerMapper.SetMatcher` | src/main/kotlin/mapper/AbstractHandlerMapper.kt:21 | the matcher is replaced and the table kept |
| `Mapper.HandlerMapper.SetMethod` | src/main/kotlin/mapper/AbstractHandlerMapper.kt:36-42 | the table becomes the last-wins table of the bindings and the matcher is kept |
| `Mapper.HandlerMapper.AddMethod` | src/main/kotlin/mapper/AbstractHandlerMapper.kt:44-46 | exactly the binding's name is inserted or overwritten |
| `Mapper.HandlerMapper.AddMethods` | src/main/kotlin/mapper/AbstractHandlerMapper.kt:48-52 | the table becomes the first-wins extension of the old table |
| `Mapper.NewEmpty` | src/main/kotlin/mapper/MethodMapper.kt:20 | a new mapper with the default matcher and an empty table |
| `Mapper.NewWithMatcher` | src/main/kotlin/mapper/MethodMapper.kt:25 | a new mapper with the given matcher and an empty table |
| `Mapper.NewFromMethods` | src/main/kotlin/mapper/MethodMapper.kt:30-41 | a new mapper with the default matcher and the first binding of each name |
| `Mapper.RoutesOf` | src/main/kotlin/jsonrpc/mapper/RouteMapper.kt:40-41 | one route per endpoint entry, named by the key and pointing at its endpoint, names distinct, covering every key |
| `Mapper.RoutesTableOfDistinct` | src/main/kotlin/jsonrpc/mapper/RouteMapper.kt:43-49 | first-wins insertion of those routes binds every key to the route to its endpoint |
| `Mapper.NewFromEndpointMap` | src/main/kotlin/jsonrpc/mapper/RouteMapper.kt:40-49 | a new mapper with the default matcher whose table binds every key, and only those, to the route to its endpoint |
| `Mapper.AddedBindingIsFound` | src/main/kotlin/mapper/AbstractHandlerMapper.kt:27-29 | a binding added after construction is found by the default lookup |
| `Mapper.EmptyFindsNothing` | src/main/kotlin/jsonrpc/mapper/RouteMapper.kt:24 | an empty mapper finds nothing for any request |
| `Dispatcher.JoinAgrees` | src/main/kotlin/jsonrpc/dispatcher/AbstractDispatcher.kt:41-50 | appending texts with separators at the back equals the join read from the front |
| `Dispatcher.SplitJoin` | src/main/kotlin/jsonrpc/dispatcher/AbstractDispatcher.kt:43-47 | joining non-empty lists of texts free of the separator and cutting at the separator gives the texts back in order |
| `Dispatcher.Marshal` | src/main/kotlin/jsonrpc/dispatcher/AbstractDispatcher.kt:30-51 | the `buildString` loop returns nothing for an open or empty context, the single response of a non-batch context unwrapped, and otherwise `[` + element texts joined by `,` + `]` |
| `Dispatcher.MarshalNothingIff` | src/main/kotlin/jsonrpc/dispatcher/AbstractDispatcher.kt:30-39 | `marshal` returns nothing iff the context is open, empty, or a single non-batch response that has no text |
| `Dispatcher.MarshalBatchElements` | src/main/kotlin/jsonrpc/dispatcher/AbstractDispatcher.kt:41-50 | a batch text is `[`, then every response's element text in held order, each starting right after the texts and commas before it and followed by `,`, the last by `]`, with nothing else in it |
| `Dispatcher.JoinLayout` | src/main/kotlin/jsonrpc/dispatcher/AbstractDispatcher.kt:43-47 | in a join by one character, text `i` starts at the width of the texts before it and is followed by the separator unless it is last |
| `Dispatcher.JoinLength` | src/main/kotlin/jsonrpc/dispatcher/AbstractDispatcher.kt:43-47 | a join by one character is as long as its texts plus one separator between each two |
| `Dispatcher.ParamsFor` | src/main/kotlin/jsonrpc/dispatcher/AbstractDispatcher.kt:89-105 | typed params are rejected iff they do not decode, otherwise decoded; untyped params are decoded as a map, falling back to the raw text iff that fails; no params give none |
| `Dispatcher.RecordFor` | src/main/kotlin/jsonrpc/dispatcher/AbstractDispatcher.kt:80-118 | an unbound request records METHOD_NOT_FOUND and bad typed params record INVALID_PARAMS, both with the request id and even for notifications; nothing is recorded iff the request is a bound notification with acceptable params; a missing answer records INTERNAL_ERROR |
| `Dispatcher.RecordedPerRequest` | src/main/kotlin/jsonrpc/dispatcher/AbstractDispatcher.kt:78-119 | after the loop, a request is a key of `resolved` iff it records something, and it maps to exactly that, one entry per distinct request |
| `Dispatcher.NothingRecordedIff` | src/main/kotlin/jsonrpc/dispatcher/AbstractDispatcher.kt:121-125 | nothing is recorded iff every request is a bound notification with acceptable params |
| `Dispatcher.ValuesOf` | src/main/kotlin/jsonrpc/dispatcher/AbstractDispatcher.kt:121 | `resolved.values` lists each recorded response once, one per key, in some order of the keys |
| `Dispatcher.Dispatch` | src/main/kotlin/jsonrpc/dispatcher/AbstractDispatcher.kt:61-128 | the payload checks, build, resolve loop and final marshal return exactly the outcome the per-request records define, for the order in which the values were listed |
| `Dispatcher.DoneContextSkipsResolution` | src/main/kotlin/jsonrpc/dispatcher/AbstractDispatcher.kt:74-76 | a context built done is marshalled as built, whatever the mapper, handlers and routes |
| `Dispatcher.AllNotificationsAnswerNothing` | src/main/kotlin/jsonrpc/dispatcher/AbstractDispatcher.kt:80-125 | when every request is a bound notification with acceptable params, the result is absent |
| `Dispatcher.UnboundNotificationAnswered` | src/main/kotlin/jsonrpc/dispatcher/AbstractDispatcher.kt:82-86 | an unbound notification records METHOD_NOT_FOUND with its absent id |
| `Dispatcher.ValidationResponsesDiscarded` | src/main/kotlin/jsonrpc/dispatcher/AbstractDispatcher.kt:121-127 | a batch with one invalid item and one resolved request answers with the resolved response alone: `done(responses)` replaces what validation produced |
| `Dispatcher.EmptyArrayPayload` | src/main/kotlin/jsonrpc/dispatcher/AbstractDispatcher.kt:72-76 | with the 2.0 builder, a payload reading as `[]` answers with one unwrapped INVALID_REQUEST |
| `Dispatcher.PayloadErrors` | src/main/kotlin/jsonrpc/dispatcher/AbstractDispatcher.kt:61-72 | an empty or missing payload answers INTERNAL_ERROR, one that does not read PARSE_ERROR, and one the builder makes nothing of INVALID_REQUEST |

## Left out

- Jackson, the JSON library, is foreign code. Reading text, writing values and responses, reading text back as a type, and a node's `toString` are functions of `Codec`. Their byte layout and field order are Jackson's and are not modelled.
- `Json.FindValue`: Jackson's `findValue` also searches nested objects depth first. Here it looks only at the object's own fields, taking the first match. So `{"params": {"id": 1}}` has no `id` in the model, but has one under Jackson. Jackson's `findValue` on an array searches its elements the same way, so Jackson's validator accepts an array item that wraps a valid request: `[[{"jsonrpc":"2.0","method":"m","id":1}]]` yields one request with id "1" whose text is the inner array's. The model rejects that item.
- Repeated field names: `Codec.readTree` stands for Jackson's tree reader, whose objects have distinct names (a repeated name keeps its last value). The model's `JObj` could list a name twice, and `Lookup` would then take the first. On the trees Jackson produces, first-match and last-wins agree (`Json.LookupDistinct`). The holder lemmas are stated through `Lookup`, so they hold for any field order.
- `Specification.NonObjectItemsRejected`: stated for scalar items only. An item that is an array or an object can hold the fields nested, where Jackson's depth-first `findValue` finds them and the model does not.
- `Specification.ArrayOfNonObjects`: stated for arrays of scalars only, for the same reason: an element that is an array wrapping a valid request is accepted by Jackson's validator.
- Non-integral numbers keep only their literal text. The model does no floating-point arithmetic and does not reproduce Jackson's `asText` of such a number.
- Exceptions thrown inside the JSON-holder accessors are modelled as the text not reading.
- `Responses.ErrorFieldOf`: Jackson's lenient decoding of `ErrorField` is not modelled. It tolerates missing or unknown properties. Here a decoded error needs an integral code and a textual message.
- `Responses.ResponseId`: the contract covers only successes and failures. The JSON-holder case is stated by `HolderHeader` (any object, any field order, textual, integral, null or missing id) and `HolderUnreadable` (text that does not read). An id of another kind (fractional, boolean, array, object) reads through `asText` as well, but no lemma states its text.
- Generic result and params types are erased to the JSON tree.
- `toString`, `hashCode` and the getters are left out. The getters return the datatype fields.
- HTTP routing (`HttpRouteMethod`) is network I/O. A route binding's remote call is the `route` parameter of the dispatcher's environment.
- The sample echo handlers read the wall clock and are left out. Local handlers are the `handle` parameter.
- `JsonrpcHandler.handle` only forwards to the method and is folded into `Dispatcher.Invoke`.
- Thread safety of `ConcurrentHashMap` and `LinkedBlockingDeque` is not modelled. They are a `map` and a `seq`.
- `Context.DoneTwice`: `==` on contexts is equality of contents. `RpcContext.equals` compares its two `LinkedBlockingDeque`s, which define no equality of their own, by identity, so two separately built contexts are not `equals` in the program even with the same contents.
- The legacy `dispatcher/AbstractDispatcher.kt` calls `contextHolder.done(responses)`, which its own `dto.ContextHolder` (with only `done()`) does not declare. The model follows the `jsonrpc/` tree, whose `done(responses)` replaces the held responses.
- `Dispatcher.Dispatch`: the batch order is fixed only up to a ghost order enumerating the recorded requests. The iteration order of `resolved.values` is unspecified, so the model does not claim the batch follows request order.
- `Mapper.RoutesOf`: the endpoint map's entry order is not modelled. Routes come in some order of the keys, and since the names are distinct the resulting table does not depend on it.
- `Mapper.NewWithMatcher`: `RouteMapper.from(matcher)` restricts the matcher to route methods. Here any matcher is accepted. `RouteMapper.empty()` and `RouteMapper.from(matcher)` build the same mapper as their `MethodMapper` counterparts and share these members.
- Custom matchers, handlers and builders are pure functions. Side effects of user lambdas are not modelled.
- The legacy `handler/` package is stale code that does not compile against its own interface and is not part of this model.
- `V1_0` is a stub. Its builder returns nothing. Its `isNotification` throws, and that is not modelled.
- Custom `ErrorCode` implementations are left out. Only the five presets are modelled.
