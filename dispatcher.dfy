/**
 * The dispatcher (`AbstractDispatcher`, with `JsonrpcHandler`'s forwarding
 * `handle`): read the payload, build a context, resolve every request
 * against the handler table into the `resolved` map, then write the done
 * context out as one response object or a bracketed batch (`marshal`).
 */
module Dispatcher {
  import opened Wrappers
  import opened Json
  import opened PresetErrors
  import opened Requests
  import opened Responses
  import opened Context
  import opened Mapper
  import Specification

  /** The params value a handler receives: decoded by the JSON library, or the raw text. */
  datatype Param = Decoded(value: Json) | RawText(text: string)

  /**
   * What the dispatcher delegates: the JSON library, the context builder
   * (`build`, by default the builder of `contextBuilder()`), the local
   * handlers' `handle`, and the network call a route binding makes, which
   * returns the remote response's JSON text or nothing.
   */
  datatype Env = Env(
    codec: Codec,
    build: Json -> Option<RpcContext>,
    handle: (Binding, Request, Option<Param>) -> Option<Response>,
    route: (string, Request, Option<Param>) -> Option<string>)

  // ---------------------------------------------------------------- marshal

  /** The texts joined by `sep`, built by appending one text at a time. */
  function Join(texts: seq<string>, sep: string): string
    decreases |texts|
  {
    if |texts| == 0 then ""
    else if |texts| == 1 then texts[0]
    else Join(texts[..|texts| - 1], sep) + sep + texts[|texts| - 1]
  }

  /** The same join read from the front: the first text, then a separator before each further text. */
  function JoinFront(texts: seq<string>, sep: string): string
    decreases |texts|
  {
    if |texts| == 0 then ""
    else if |texts| == 1 then texts[0]
    else texts[0] + sep + JoinFront(texts[1..], sep)
  }

  /** Appending at the back and prepending at the front build the same joined text. */
  lemma {:induction false} JoinAgrees(texts: seq<string>, sep: string)
    ensures Join(texts, sep) == JoinFront(texts, sep)
    decreases |texts|
  {
    var n := |texts|;
    if n >= 3 {
      var init := texts[..n - 1];
      var tail := texts[1..];
      JoinAgrees(init, sep);
      JoinAgrees(tail, sep);
      JoinAgrees(texts[1..n - 1], sep);
      assert init[1..] == texts[1..n - 1];
      assert tail[..|tail| - 1] == texts[1..n - 1];
      assert tail[|tail| - 1] == texts[n - 1];
      calc {
        Join(texts, sep);
        Join(init, sep) + sep + texts[n - 1];
        JoinFront(init, sep) + sep + texts[n - 1];
        texts[0] + sep + JoinFront(texts[1..n - 1], sep) + sep + texts[n - 1];
        texts[0] + sep + (Join(texts[1..n - 1], sep) + sep + texts[n - 1]);
        texts[0] + sep + Join(tail, sep);
        JoinFront(texts, sep);
      }
    }
  }

  /** The text cut at every occurrence of `c`: one piece more than there are occurrences. */
  function Split(s: string, c: char): (pieces: seq<string>)
    ensures |pieces| > 0
    decreases |s|
  {
    if |s| == 0 then [""]
    else
      var rest := Split(s[1..], c);
      if s[0] == c then [""] + rest
      else [[s[0]] + rest[0]] + rest[1..]
  }

  /** Splitting a text that holds no `c`, followed by `c` and more, cuts at that `c` first. */
  lemma {:induction false} SplitAfter(a: string, c: char, b: string)
    requires c !in a
    ensures Split(a + [c] + b, c) == [a] + Split(b, c)
    decreases |a|
  {
    if |a| > 0 {
      assert a[0] in a && forall x :: x in a[1..] ==> x in a;
      SplitAfter(a[1..], c, b);
      assert (a + [c] + b)[0] == a[0] != c;
      assert (a + [c] + b)[1..] == a[1..] + [c] + b;
      assert [a[0]] + a[1..] == a;
    } else {
      assert a + [c] + b == [c] + b;
      assert ([c] + b)[1..] == b;
    }
  }

  /** A text that holds no `c` is a single piece. */
  lemma {:induction false} SplitWhole(a: string, c: char)
    requires c !in a
    ensures Split(a, c) == [a]
    decreases |a|
  {
    if |a| > 0 {
      SplitWhole(a[1..], c);
      assert [a[0]] + a[1..] == a;
    }
  }

  /** Joining texts free of the separator and splitting again gives back the texts, in order. */
  lemma {:induction false} SplitJoin(texts: seq<string>, c: char)
    requires |texts| > 0
    requires forall i :: 0 <= i < |texts| ==> c !in texts[i]
    ensures Split(Join(texts, [c]), c) == texts
    decreases |texts|
  {
    JoinAgrees(texts, [c]);
    if |texts| == 1 {
      SplitWhole(texts[0], c);
    } else {
      SplitJoin(texts[1..], c);
      JoinAgrees(texts[1..], [c]);
      SplitAfter(texts[0], c, JoinFront(texts[1..], [c]));
      assert [texts[0]] + texts[1..] == texts;
    }
  }

  /** The width of the texts each followed by one separator character: where the next text of a join starts. */
  function Width(texts: seq<string>): nat
    decreases |texts|
  {
    if |texts| == 0 then 0 else Width(texts[..|texts| - 1]) + |texts[|texts| - 1]| + 1
  }

  /** A join by one character is one character shorter than the texts with a separator after each. */
  lemma {:induction false} JoinLength(texts: seq<string>, c: char)
    requires |texts| > 0
    ensures |Join(texts, [c])| + 1 == Width(texts)
    decreases |texts|
  {
    var n := |texts|;
    if n == 1 {
      assert texts[..0] == [];
    } else {
      JoinLength(texts[..n - 1], c);
    }
  }

  /**
   * Where each text sits in a join by one character: text `i` starts at the
   * width of the texts before it, and a separator follows it unless it is
   * the last.
   */
  lemma {:induction false} JoinLayout(texts: seq<string>, c: char, i: nat)
    requires i < |texts|
    ensures var out, at := Join(texts, [c]), Width(texts[..i]);
      && at + |texts[i]| <= |out|
      && out[at..at + |texts[i]|] == texts[i]
      && (i < |texts| - 1 ==> at + |texts[i]| < |out| && out[at + |texts[i]|] == c)
    decreases |texts|
  {
    var n := |texts|;
    if n == 1 {
      assert texts[..0] == [];
    } else {
      var init := texts[..n - 1];
      var front := Join(init, [c]);
      var last := texts[n - 1];
      var out := Join(texts, [c]);
      assert out == front + [c] + last;
      JoinLength(init, c);
      if i == n - 1 {
        assert out == (front + [c]) + last + "";
        assert texts[..i] == init;
        Wrapped(front + [c], last, "", 0, |last|);
      } else {
        assert out == "" + front + ([c] + last);
        JoinLayout(init, c, i);
        assert init[..i] == texts[..i];
        var at := Width(texts[..i]);
        Wrapped("", front, [c] + last, at, at + |texts[i]|);
        if i == n - 2 {
          assert texts[..i + 1][..i] == texts[..i];
          assert texts[..i + 1] == init;
          assert out[|front|] == c;
        }
      }
    }
  }

  /** One element of a batch: the response's JSON text, and "null" when there is none. */
  function ElementText(r: Response, codec: Codec): string {
    match ToJson(r, codec)
    case Some(text) => text
    case None => "null"
  }

  /** The element texts of the responses, in held order. */
  function Texts(rs: seq<Response>, codec: Codec): (ts: seq<string>)
    ensures |ts| == |rs|
    ensures forall i :: 0 <= i < |rs| ==> ts[i] == ElementText(rs[i], codec)
  {
    seq(|rs|, i requires 0 <= i < |rs| => ElementText(rs[i], codec))
  }

  /**
   * What `marshal` returns for a context: nothing unless it is done and holds
   * responses; a single response of a non-batch context unwrapped; otherwise
   * the element texts joined by "," inside brackets.
   */
  function MarshalSpec(ctx: RpcContext, codec: Codec): Option<string> {
    if !ctx.isDone || |ctx.responses| == 0 then None
    else if !ctx.isBatch && |ctx.responses| == 1 then ToJson(ctx.responses[0], codec)
    else Some("[" + Join(Texts(ctx.responses, codec), ",") + "]")
  }

  /** `marshal`: the early returns, then the `buildString` loop over the responses. */
  method Marshal(ctx: RpcContext, codec: Codec) returns (out: Option<string>)
    ensures out == MarshalSpec(ctx, codec)
  {
    var responses := ctx.responses;
    if !ctx.isDone || |responses| == 0 {
      return None;
    }
    if !ctx.isBatch && |responses| == 1 {
      return ToJson(responses[0], codec);
    }
    ghost var texts := Texts(responses, codec);
    var sb := "[";
    for index := 0 to |responses|
      invariant sb == "[" + Join(texts[..index], ",") + (if 0 < index < |responses| then "," else "")
    {
      assert texts[..index + 1][..index] == texts[..index];
      sb := sb + ElementText(responses[index], codec);
      if index < |responses| - 1 {
        sb := sb + ",";
      }
    }
    assert texts[..|responses|] == texts;
    assert sb == "[" + Join(texts, ",");
    sb := sb + "]";
    return Some(sb);
  }

  /** `marshal` returns nothing exactly when the context is open, empty, or its single response has no text. */
  lemma MarshalNothingIff(ctx: RpcContext, codec: Codec)
    ensures MarshalSpec(ctx, codec).None? <==>
      (!ctx.isDone || |ctx.responses| == 0 ||
       (!ctx.isBatch && |ctx.responses| == 1 && ToJson(ctx.responses[0], codec).None?))
  {
  }

  /** Wrapping a text between two others shifts its slices and characters by the length of the first. */
  lemma Wrapped(pre: string, s: string, post: string, a: nat, b: nat)
    requires a <= b <= |s|
    ensures (pre + s + post)[|pre| + a..|pre| + b] == s[a..b]
    ensures b < |s| ==> (pre + s + post)[|pre| + b] == s[b]
    ensures (pre + s + post)[..|pre|] == pre
  {
    var all := pre + s + post;
    assert all[|pre|..|pre| + |s|] == s;
    assert all[|pre| + a..|pre| + b] == all[|pre|..|pre| + |s|][a..b];
  }

  /** The bracketed join of a batch: each text starts after the ones before it and is followed by ',' or, last, by ']'. */
  lemma BracketLayout(texts: seq<string>, i: nat)
    requires i < |texts|
    ensures var out, at := "[" + Join(texts, ",") + "]", 1 + Width(texts[..i]);
      && |out| == Width(texts) + 1 && out[0] == '['
      && at + |texts[i]| < |out|
      && out[at..at + |texts[i]|] == texts[i]
      && out[at + |texts[i]|] == (if i < |texts| - 1 then ',' else ']')
  {
    var inner := Join(texts, ",");
    JoinLength(texts, ',');
    JoinLayout(texts, ',', i);
    var at := Width(texts[..i]);
    var k := |texts[i]|;
    var out := "[" + inner + "]";
    assert |out| == |inner| + 2 && out[0] == '[';
    Wrapped("[", inner, "]", at, at + k);
    if i == |texts| - 1 {
      assert texts[..i + 1] == texts;
      assert texts[..i + 1][..i] == texts[..i];
      assert at + k == |inner|;
      assert out[1 + |inner|] == ']';
    } else {
      assert out[1 + at + k] == inner[at + k] == ',';
    }
  }

  /**
   * The layout of a batch: an opening bracket, then each response's element
   * text in held order, starting right after the texts before it, followed
   * by a comma, or by the closing bracket after the last one.
   */
  lemma MarshalBatchElements(ctx: RpcContext, codec: Codec, i: nat)
    requires ctx.isDone && |ctx.responses| > 0 && (ctx.isBatch || |ctx.responses| > 1)
    requires i < |ctx.responses|
    ensures var out, texts := MarshalSpec(ctx, codec).value, Texts(ctx.responses, codec);
      var at, e := 1 + Width(texts[..i]), ElementText(ctx.responses[i], codec);
      && |out| == Width(texts) + 1 && out[0] == '['
      && at + |e| < |out|
      && out[at..at + |e|] == e
      && out[at + |e|] == (if i < |ctx.responses| - 1 then ',' else ']')
  {
    var texts := Texts(ctx.responses, codec);
    assert MarshalSpec(ctx, codec) == Some("[" + Join(texts, ",") + "]");
    BracketLayout(texts, i);
  }

  // ------------------------------------------------------------ resolution

  /** How the params reach the handler: a value (or none), or a rejection for undecodable typed params. */
  datatype ParamStep = Pass(param: Option<Param>) | BadParams

  /**
   * The params step of `dispatch`: typed params that do not decode are
   * rejected; untyped params are decoded as a map, or else handed over as
   * their raw text; a request without params hands over nothing.
   */
  function ParamsFor(req: Request, b: Binding, codec: Codec): (s: ParamStep)
    ensures s.BadParams? <==>
      req.params.Some? && b.ParamsType().Some? && codec.deserialize(req.params.value, b.ParamsType().value).None?
    ensures req.params.None? ==> s == Pass(None)
    ensures req.params.Some? && b.ParamsType().Some? && s.Pass? ==>
      s.param == Some(Decoded(codec.deserialize(req.params.value, b.ParamsType().value).value))
    ensures req.params.Some? && b.ParamsType().None? ==>
      s.Pass? && s.param.Some? &&
      (s.param.value.RawText? <==> codec.deserialize(req.params.value, MapType).None?) &&
      (s.param.value.RawText? ==> s.param.value.text == req.params.value)
  {
    if req.params.None? then Pass(None)
    else
      var text := req.params.value;
      match b.ParamsType()
      case Some(t) =>
        (match codec.deserialize(text, t)
         case None => BadParams
         case Some(v) => Pass(Some(Decoded(v))))
      case None =>
        (match codec.deserialize(text, MapType)
         case Some(v) => Pass(Some(Decoded(v)))
         case None => Pass(Some(RawText(text))))
  }

  /**
   * Running a binding: a local handler answers directly; a route answers
   * with the remote JSON text, kept as a JSON-holder response.
   */
  function Invoke(b: Binding, req: Request, p: Option<Param>, env: Env): (r: Option<Response>)
    ensures b.Route? ==> (r.Some? <==> env.route(b.endpoint, req, p).Some?)
    ensures b.Route? && r.Some? ==> r.value.Holder? && Some(r.value.json) == env.route(b.endpoint, req, p)
    ensures b.Local? ==> r == env.handle(b, req, p)
  {
    match b
    case Local(_, _) => env.handle(b, req, p)
    case Route(_, endpoint) =>
      match env.route(endpoint, req, p)
      case Some(json) => Some(Holder(json))
      case None => None
  }

  /** `match`: the mapper's matcher, nothing without a mapper. */
  function Match(mapper: HandlerMapper?, req: Request): (r: Option<Binding>)
    reads mapper
    ensures mapper == null ==> r.None?
    ensures mapper != null ==> r == mapper.Resolve(req)
  {
    if mapper == null then None else mapper.Resolve(req)
  }

  /**
   * What one request leaves in `resolved`. The checks come in the code's
   * order: no binding records METHOD_NOT_FOUND and undecodable typed params
   * record INVALID_PARAMS, both with the request's id and both before the
   * notification check; only after the handler ran does a notification
   * record nothing; a handler that answers nothing records INTERNAL_ERROR.
   */
  function RecordFor(req: Request, found: Option<Binding>, env: Env): (r: Option<Response>)
    ensures found.None? ==> r == Some(ErrorOf(MethodNotFound, req.id))
    ensures found.Some? && ParamsFor(req, found.value, env.codec).BadParams? ==> r == Some(ErrorOf(InvalidParams, req.id))
    ensures r.None? <==> found.Some? && ParamsFor(req, found.value, env.codec).Pass? && req.notification
    ensures found.Some? && ParamsFor(req, found.value, env.codec).Pass? && !req.notification ==>
      var answer := Invoke(found.value, req, ParamsFor(req, found.value, env.codec).param, env);
      r == Some(if answer.Some? then answer.value else ErrorOf(InternalError, req.id))
  {
    match found
    case None => Some(ErrorOf(MethodNotFound, req.id))
    case Some(b) =>
      match ParamsFor(req, b, env.codec)
      case BadParams => Some(ErrorOf(InvalidParams, req.id))
      case Pass(p) =>
        var response := Invoke(b, req, p, env);
        if req.notification then None
        else if response.None? then Some(ErrorOf(InternalError, req.id))
        else response
  }

  /** The `resolved` map after the requests were processed in order, each write replacing an equal key's entry. */
  function Recorded(reqs: seq<Request>, mapper: HandlerMapper?, env: Env): map<Request, Response>
    reads mapper
    decreases |reqs|
  {
    if |reqs| == 0 then map[]
    else
      var req := reqs[|reqs| - 1];
      var before := Recorded(reqs[..|reqs| - 1], mapper, env);
      match RecordFor(req, Match(mapper, req), env)
      case Some(r) => before[req := r]
      case None => before
  }

  /** The recorded map is the request-by-request outcome: a request is a key iff it records something, and maps to that. */
  lemma {:induction false} RecordedPerRequest(reqs: seq<Request>, mapper: HandlerMapper?, env: Env)
    ensures forall req :: req in Recorded(reqs, mapper, env) <==>
      req in reqs && RecordFor(req, Match(mapper, req), env).Some?
    ensures forall req :: req in Recorded(reqs, mapper, env) ==>
      Recorded(reqs, mapper, env)[req] == RecordFor(req, Match(mapper, req), env).value
    decreases |reqs|
  {
    if |reqs| > 0 {
      var init := reqs[..|reqs| - 1];
      RecordedPerRequest(init, mapper, env);
      assert reqs == init + [reqs[|reqs| - 1]];
      assert forall req :: req in reqs <==> req in init || req == reqs[|reqs| - 1];
    }
  }

  /** Nothing is recorded exactly when every request records nothing: every one a matched, handled notification. */
  lemma NothingRecordedIff(reqs: seq<Request>, mapper: HandlerMapper?, env: Env)
    ensures |Recorded(reqs, mapper, env)| == 0 <==>
      forall i :: 0 <= i < |reqs| ==>
        var found := Match(mapper, reqs[i]);
        found.Some? && ParamsFor(reqs[i], found.value, env.codec).Pass? && reqs[i].notification
  {
    RecordedPerRequest(reqs, mapper, env);
    var m := Recorded(reqs, mapper, env);
    if |m| == 0 {
      forall i | 0 <= i < |reqs|
        ensures RecordFor(reqs[i], Match(mapper, reqs[i]), env).None?
      {
        assert reqs[i] !in m;
      }
    } else {
      var req :| req in m;
      assert req in reqs;
    }
  }

  // ------------------------------------------------------- resolved.values

  /** `order` lists every key of the map once: the unspecified iteration order of `resolved.values`. */
  ghost predicate Enumerates(order: seq<Request>, keys: set<Request>) {
    && (forall i, j :: 0 <= i < j < |order| ==> order[i] != order[j])
    && (forall req :: req in order <==> req in keys)
  }

  /** The values of `m` listed in `order`. */
  function ValuesIn(m: map<Request, Response>, order: seq<Request>): seq<Response>
    decreases |order|
  {
    if |order| == 0 then []
    else
      var last := order[|order| - 1];
      ValuesIn(m, order[..|order| - 1]) + (if last in m then [m[last]] else [])
  }

  /** Two leading entries of an enumeration are different keys. */
  lemma FirstTwoDiffer(order: seq<Request>)
    ensures (forall i, j :: 0 <= i < j < |order| ==> order[i] != order[j]) && |order| >= 2 ==> order[0] != order[1]
  {
  }

  /**
   * Part way through listing the values of `m`: `order` lists the keys not
   * in `rest`, each once, and `vs` their values in that order.
   */
  ghost predicate Listing(m: map<Request, Response>, rest: set<Request>, order: seq<Request>, vs: seq<Response>) {
    && rest <= m.Keys
    && (forall req :: req in order <==> req in m.Keys - rest)
    && (forall i, j :: 0 <= i < j < |order| ==> order[i] != order[j])
    && |order| + |rest| == |m.Keys|
    && vs == ValuesIn(m, order) && |vs| == |order|
    && (forall i :: 0 <= i < |vs| ==> order[i] in m && vs[i] == m[order[i]])
  }

  /** A key not listed yet can be appended without repeating one. */
  lemma AppendFresh(order: seq<Request>, req: Request)
    requires forall i, j :: 0 <= i < j < |order| ==> order[i] != order[j]
    requires req !in order
    ensures forall i, j :: 0 <= i < j < |order + [req]| ==> (order + [req])[i] != (order + [req])[j]
  {
    assert forall i :: 0 <= i < |order| ==> order[i] in order;
  }

  /** Listing one more key extends the values by that key's value. */
  lemma ValuesInAppend(m: map<Request, Response>, order: seq<Request>, req: Request)
    requires req in m
    ensures ValuesIn(m, order + [req]) == ValuesIn(m, order) + [m[req]]
  {
    assert (order + [req])[..|order|] == order;
  }

  /** Listing one more key that is still to be listed keeps the listing consistent. */
  lemma ListOneMore(m: map<Request, Response>, rest: set<Request>, order: seq<Request>, vs: seq<Response>, req: Request)
    requires Listing(m, rest, order, vs) && req in rest
    ensures Listing(m, rest - {req}, order + [req], vs + [m[req]])
  {
    assert req !in order;
    AppendFresh(order, req);
    ValuesInAppend(m, order, req);
    assert m.Keys - (rest - {req}) == (m.Keys - rest) + {req};
    assert |rest - {req}| == |rest| - 1;
    var order', vs' := order + [req], vs + [m[req]];
    assert forall i :: 0 <= i < |vs'| ==> order'[i] in m && vs'[i] == m[order'[i]] by {
      forall i | 0 <= i < |vs'|
        ensures order'[i] in m && vs'[i] == m[order'[i]]
      {
        if i < |vs| {
          assert order'[i] == order[i] && vs'[i] == vs[i];
        }
      }
    }
  }

  /** `resolved.values`: the recorded responses, one per key, in some order of the keys. */
  method ValuesOf(m: map<Request, Response>) returns (vs: seq<Response>, ghost order: seq<Request>)
    ensures Enumerates(order, m.Keys)
    ensures vs == ValuesIn(m, order) && |vs| == |m| && |vs| == |order|
    ensures forall i :: 0 <= i < |vs| ==> order[i] in m && vs[i] == m[order[i]]
  {
    vs, order := [], [];
    var rest := m.Keys;
    while rest != {}
      invariant Listing(m, rest, order, vs)
      decreases rest
    {
      var req :| req in rest;
      ListOneMore(m, rest, order, vs, req);
      order := order + [req];
      vs := vs + [m[req]];
      rest := rest - {req};
    }
  }

  // -------------------------------------------------------------- dispatch

  /**
   * What `dispatch` returns, given the order in which `resolved.values`
   * lists the recorded responses: the payload errors, a done context
   * marshalled as it is, nothing when nothing was recorded, and otherwise
   * the context made done with the recorded responses, which replace the
   * ones validation produced.
   */
  function Outcome(payload: Option<string>, mapper: HandlerMapper?, env: Env, order: seq<Request>): Option<string>
    reads mapper
  {
    if payload.None? || payload.value == "" then ToJson(ErrorOf(InternalError), env.codec)
    else
      match env.codec.readTree(payload.value)
      case None => ToJson(ErrorOf(ParseError), env.codec)
      case Some(tree) =>
        match env.build(tree)
        case None => ToJson(ErrorOf(InvalidRequest), env.codec)
        case Some(ctx) =>
          if ctx.isDone then MarshalSpec(ctx, env.codec)
          else
            var resolved := Recorded(ctx.requests, mapper, env);
            if |resolved| == 0 then None
            else MarshalSpec(ctx.Done(Some(ValuesIn(resolved, order))), env.codec)
  }

  /** The open context `dispatch` resolves, when the payload reads and builds into one. */
  function OpenContext(payload: Option<string>, env: Env): (ctx: Option<RpcContext>)
    ensures ctx.Some? ==> !ctx.value.isDone
  {
    if payload.None? || payload.value == "" then None
    else
      match env.codec.readTree(payload.value)
      case None => None
      case Some(tree) =>
        match env.build(tree)
        case Some(ctx) => if ctx.isDone then None else Some(ctx)
        case None => None
  }

  /** `dispatch`. `order` is the order `resolved.values` happened to list the recorded responses in. */
  method Dispatch(payload: Option<string>, mapper: HandlerMapper?, env: Env) returns (out: Option<string>, ghost order: seq<Request>)
    ensures OpenContext(payload, env).Some? ==>
      Enumerates(order, Recorded(OpenContext(payload, env).value.requests, mapper, env).Keys)
    ensures out == Outcome(payload, mapper, env, order)
  {
    order := [];
    if payload.None? || payload.value == "" {
      return ToJson(ErrorOf(InternalError), env.codec), order;
    }
    var jsonNode := env.codec.readTree(payload.value);
    if jsonNode.None? {
      return ToJson(ErrorOf(ParseError), env.codec), order;
    }
    var built := env.build(jsonNode.value);
    if built.None? {
      return ToJson(ErrorOf(InvalidRequest), env.codec), order;
    }
    var ctx := built.value;
    if ctx.isDone {
      out := Marshal(ctx, env.codec);
      return;
    }

    var resolved: map<Request, Response> := map[];
    var reqs := ctx.requests;
    for k := 0 to |reqs|
      invariant resolved == Recorded(reqs[..k], mapper, env)
    {
      assert reqs[..k + 1][..k] == reqs[..k];
      var req := reqs[k];
      var requestId := req.id;
      var binding := Match(mapper, req);

      if binding.None? {
        resolved := resolved[req := ErrorOf(MethodNotFound, requestId)];
        continue;
      }

      var parameters := req.params;
      var paramsType := binding.value.ParamsType();
      var params: Option<Param> := None;

      if parameters.Some? && paramsType.Some? {
        var deserialize := env.codec.deserialize(parameters.value, paramsType.value);
        if deserialize.None? {
          resolved := resolved[req := ErrorOf(InvalidParams, requestId)];
          continue;
        }
        params := Some(Decoded(deserialize.value));
      } else if parameters.Some? {
        var decoded := env.codec.deserialize(parameters.value, MapType);
        params := Some(if decoded.Some? then Decoded(decoded.value) else RawText(parameters.value));
      }

      var response := Invoke(binding.value, req, params, env);

      if req.notification {
        continue;
      }
      if response.None? {
        resolved := resolved[req := ErrorOf(InternalError, requestId)];
        continue;
      }
      resolved := resolved[req := response.value];
    }
    assert reqs[..|reqs|] == reqs;

    var responses;
    responses, order := ValuesOf(resolved);
    if |responses| == 0 {
      return None, order;
    }
    out := Marshal(ctx.Done(Some(responses)), env.codec);
  }

  // ---------------------------------------------------------- consequences

  /**
   * A context that is already done is marshalled as built: neither the
   * mapper nor any handler or route takes part in the outcome.
   */
  lemma DoneContextSkipsResolution(payload: string, tree: Json, ctx: RpcContext, codec: Codec,
                                   build: Json -> Option<RpcContext>,
                                   mapper1: HandlerMapper?, handle1: (Binding, Request, Option<Param>) -> Option<Response>,
                                   route1: (string, Request, Option<Param>) -> Option<string>, order1: seq<Request>,
                                   mapper2: HandlerMapper?, handle2: (Binding, Request, Option<Param>) -> Option<Response>,
                                   route2: (string, Request, Option<Param>) -> Option<string>, order2: seq<Request>)
    requires payload != "" && codec.readTree(payload) == Some(tree)
    requires build(tree) == Some(ctx) && ctx.isDone
    ensures Outcome(Some(payload), mapper1, Env(codec, build, handle1, route1), order1) == MarshalSpec(ctx, codec)
    ensures Outcome(Some(payload), mapper2, Env(codec, build, handle2, route2), order2) == MarshalSpec(ctx, codec)
  {
  }

  /** When every request is a matched notification with acceptable params, `dispatch` returns nothing. */
  lemma AllNotificationsAnswerNothing(payload: string, mapper: HandlerMapper?, env: Env, order: seq<Request>)
    requires OpenContext(Some(payload), env).Some?
    requires var reqs := OpenContext(Some(payload), env).value.requests;
      forall i :: 0 <= i < |reqs| ==>
        var found := Match(mapper, reqs[i]);
        found.Some? && ParamsFor(reqs[i], found.value, env.codec).Pass? && reqs[i].notification
    ensures Outcome(Some(payload), mapper, env, order).None?
  {
    NothingRecordedIff(OpenContext(Some(payload), env).value.requests, mapper, env);
  }

  /**
   * A notification whose method is not bound is still answered, with
   * METHOD_NOT_FOUND and its (absent) id.
   */
  lemma UnboundNotificationAnswered(req: Request, mapper: HandlerMapper?, env: Env)
    requires req.notification && Match(mapper, req).None?
    ensures Recorded([req], mapper, env) == map[req := ErrorOf(MethodNotFound, req.id)]
  {
    assert [req][..0] == [];
  }

  /**
   * The responses validation produced are dropped once a request was
   * resolved: an open batch context holding one accepted request and one
   * INVALID_REQUEST answers with the resolved request's response alone.
   */
  lemma ValidationResponsesDiscarded(payload: string, tree: Json, req: Request, answer: Response,
                                     mapper: HandlerMapper?, env: Env, order: seq<Request>)
    requires payload != "" && env.codec.readTree(payload) == Some(tree)
    requires env.build(tree) == Some(Of(true, [req], [ErrorOf(InvalidRequest)]))
    requires RecordFor(req, Match(mapper, req), env) == Some(answer)
    requires Enumerates(order, Recorded([req], mapper, env).Keys)
    ensures Outcome(Some(payload), mapper, env, order) == Some("[" + ElementText(answer, env.codec) + "]")
  {
    var m := Recorded([req], mapper, env);
    RecordedPerRequest([req], mapper, env);
    assert m.Keys == {req};
    assert m == map[req := answer];
    assert forall r :: r in order <==> r in m.Keys;
    assert req in order;
    forall i | 0 <= i < |order|
      ensures order[i] == req
    {
      assert order[i] in order;
      assert order[i] in m.Keys;
    }
    FirstTwoDiffer(order);
    assert |order| == 1;
    assert order == [req];
    assert order[..0] == [];
    assert ValuesIn(m, order) == [answer];
  }

  /**
   * End to end with the version 2.0 builder: a payload that reads as the
   * empty array answers with a single, unwrapped INVALID_REQUEST.
   */
  lemma EmptyArrayPayload(payload: string, mapper: HandlerMapper?, env: Env, order: seq<Request>)
    requires payload != "" && env.codec.readTree(payload) == Some(JArr([]))
    requires env.build(JArr([])) == Some(Specification.BuildSpec(Some(JArr([])), env.codec.render))
    ensures Outcome(Some(payload), mapper, env, order) == ToJson(ErrorOf(InvalidRequest), env.codec)
  {
    Specification.EmptyArray(env.codec.render);
  }

  /**
   * The payload errors, before any request is resolved: an empty or missing
   * payload answers INTERNAL_ERROR, one that does not read PARSE_ERROR, and
   * one the builder makes nothing of INVALID_REQUEST.
   */
  lemma PayloadErrors(payload: string, mapper: HandlerMapper?, env: Env, order: seq<Request>)
    ensures payload == "" ==> Outcome(Some(payload), mapper, env, order) == ToJson(ErrorOf(InternalError), env.codec)
    ensures Outcome(None, mapper, env, order) == ToJson(ErrorOf(InternalError), env.codec)
    ensures payload != "" && env.codec.readTree(payload).None? ==>
      Outcome(Some(payload), mapper, env, order) == ToJson(ErrorOf(ParseError), env.codec)
    ensures payload != "" && env.codec.readTree(payload).Some? && env.build(env.codec.readTree(payload).value).None? ==>
      Outcome(Some(payload), mapper, env, order) == ToJson(ErrorOf(InvalidRequest), env.codec)
  {
  }
}
