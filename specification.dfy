/**
 * The specification validator (`Specification`): it turns the JSON tree of a
 * payload into a dispatch context, checking every item against the rules of
 * JSON-RPC 2.0 (section 4 of the JSON-RPC 2.0 Specification). Each item
 * becomes either a request or an "Invalid Request" response. Version 1.0 is a
 * stub that builds nothing, and `contextBuilder()` takes the first version
 * that builds a context.
 */
module Specification {
  import opened Wrappers
  import opened Json
  import opened PresetErrors
  import opened Requests
  import opened Responses
  import opened Context

  /** The version string the 2.0 validator accepts. */
  const Version: string := "2.0"

  /** What one item of the payload turns into. */
  datatype Item = Accepted(request: Request) | Rejected(response: Response)

  /** The items validated: the elements of a non-empty array, otherwise the tree itself. */
  function Items(tree: Json): (items: seq<Json>)
    ensures |items| > 0
  {
    if tree.JArr? && |tree.items| > 0 then tree.items else [tree]
  }

  /** An `id` the validator accepts: integral, textual or JSON null. */
  predicate ValidId(id: Json) {
    id.JInt? || id.JStr? || id.JNull?
  }

  /**
   * The per-item rules stated declaratively: version "2.0" as text; an id, if
   * present, that is valid; a non-empty textual method; params, if present,
   * that are not JSON null.
   */
  ghost predicate WellFormed(item: Json) {
    && FindValue(item, "jsonrpc") == Some(JStr(Version))
    && (FindValue(item, "id").Some? ==> ValidId(FindValue(item, "id").value))
    && (exists m :: m != "" && FindValue(item, "method") == Some(JStr(m)))
    && FindValue(item, "params") != Some(JNull)
  }

  /** The outcome of validating one item, as the body of the validator's loop computes it. */
  function ValidateItem(item: Json, render: Json -> string): Item {
    var jsonrpc := FindValue(item, "jsonrpc");
    if jsonrpc.None? || !jsonrpc.value.JStr? || TextValue(jsonrpc.value) != Some(Version) then
      Rejected(ErrorOf(InvalidRequest))
    else
      var id := FindValue(item, "id");
      if id.Some? && !ValidId(id.value) then Rejected(ErrorOf(InvalidRequest))
      else
        var idValue := if id.Some? then Some(AsText(id.value)) else None;
        var methodName := if FindValue(item, "method").Some? then TextValue(FindValue(item, "method").value).GetOr("") else "";
        if methodName == "" then Rejected(ErrorOf(InvalidRequest))
        else
          var params := FindValue(item, "params");
          if params.Some? && params.value.JNull? then Rejected(ErrorOf(InvalidRequest))
          else
            var jsonParams := if params.Some? then Some(render(params.value)) else None;
            Accepted(Request(methodName, id.None?, render(item), jsonParams, Version, idValue))
  }

  /** The requests the items yield, in item order. */
  function AcceptedOf(items: seq<Json>, render: Json -> string): seq<Request> {
    if |items| == 0 then []
    else
      var last := ValidateItem(items[|items| - 1], render);
      AcceptedOf(items[..|items| - 1], render) + (if last.Accepted? then [last.request] else [])
  }

  /** The responses the rejected items yield, in item order. */
  function RejectedOf(items: seq<Json>, render: Json -> string): seq<Response> {
    if |items| == 0 then []
    else
      var last := ValidateItem(items[|items| - 1], render);
      RejectedOf(items[..|items| - 1], render) + (if last.Rejected? then [last.response] else [])
  }

  /** The context the 2.0 validator builds from a tree (nothing: the payload did not parse). */
  function BuildSpec(tree: Option<Json>, render: Json -> string): RpcContext {
    if tree.None? then OfResponses(false, [ErrorOf(ParseError)]).Done()
    else
      var node := tree.value;
      var items := Items(node);
      var c := Of(node.JArr? && |node.items| > 0, AcceptedOf(items, render), RejectedOf(items, render));
      if |c.requests| == 0 then c.Done() else c
  }

  /** One more item extends the two folds by that item's outcome. */
  lemma FoldStep(items: seq<Json>, i: nat, render: Json -> string)
    requires i < |items|
    ensures var o := ValidateItem(items[i], render);
      && AcceptedOf(items[..i + 1], render) == AcceptedOf(items[..i], render) + (if o.Accepted? then [o.request] else [])
      && RejectedOf(items[..i + 1], render) == RejectedOf(items[..i], render) + (if o.Rejected? then [o.response] else [])
  {
    assert items[..i + 1][..i] == items[..i];
  }

  /** The 2.0 validator (`V2_0.builder`), item by item as the source loops. */
  method BuildV2(tree: Option<Json>, render: Json -> string) returns (ctx: Option<RpcContext>)
    ensures ctx == Some(BuildSpec(tree, render))
  {
    if tree.None? {
      return Some(OfResponses(false, [ErrorOf(ParseError)]).Done());
    }
    var node := tree.value;
    var isBatch := false;
    var list: seq<Json> := [];
    if node.JArr? && |node.items| > 0 {
      for k := 0 to |node.items|
        invariant list == node.items[..k]
      {
        list := list + [node.items[k]];
      }
      isBatch := true;
    } else {
      list := list + [node];
    }
    assert list == Items(node);

    var requestList: seq<Request> := [];
    var responseList: seq<Response> := [];
    for i := 0 to |list|
      invariant requestList == AcceptedOf(list[..i], render)
      invariant responseList == RejectedOf(list[..i], render)
    {
      var item := list[i];
      FoldStep(list, i, render);
      ghost var outcome := ValidateItem(item, render);

      var jsonrpc := FindValue(item, "jsonrpc");
      if jsonrpc.None? || !jsonrpc.value.JStr? || TextValue(jsonrpc.value) != Some(Version) {
        assert outcome == Rejected(ErrorOf(InvalidRequest));
        responseList := responseList + [ErrorOf(InvalidRequest)];
        continue;
      }

      var id := FindValue(item, "id");
      var idValue: Option<string>;
      var isNotification := false;
      if id.Some? {
        if !id.value.JInt? && !id.value.JStr? && !id.value.JNull? {
          assert outcome == Rejected(ErrorOf(InvalidRequest));
          responseList := responseList + [ErrorOf(InvalidRequest)];
          continue;
        }
        idValue := Some(AsText(id.value));
      } else {
        idValue := None;
        isNotification := true;
      }

      var methodNode := FindValue(item, "method");
      var methodName := if methodNode.Some? then TextValue(methodNode.value).GetOr("") else "";
      if methodName == "" {
        assert outcome == Rejected(ErrorOf(InvalidRequest));
        responseList := responseList + [ErrorOf(InvalidRequest)];
        continue;
      }

      var params := FindValue(item, "params");
      if params.Some? && params.value.JNull? {
        assert outcome == Rejected(ErrorOf(InvalidRequest));
        responseList := responseList + [ErrorOf(InvalidRequest)];
        continue;
      }

      var jsonParams := if params.Some? then Some(render(params.value)) else None;
      assert outcome == Accepted(Request(methodName, isNotification, render(item), jsonParams, Version, idValue));
      requestList := requestList + [Request(methodName, isNotification, render(item), jsonParams, Version, idValue)];
    }
    assert list[..|list|] == list;

    var c := Of(isBatch, requestList, responseList);
    if |c.requests| == 0 {
      c := c.Done();
    }
    return Some(c);
  }

  /** `V2_0.isNotification(jsonrpc, id)`: version "2.0" and no id. */
  predicate IsNotification(jsonrpc: string, id: Option<string>) {
    jsonrpc == Version && id.None?
  }

  /** The notification flag the validator stores agrees with `V2_0.isNotification` on the stored version and id. */
  lemma AcceptedNotificationFlag(item: Json, render: Json -> string)
    requires ValidateItem(item, render).Accepted?
    ensures var r := ValidateItem(item, render).request;
      r.jsonrpc == Version && (r.notification <==> IsNotification(r.jsonrpc, r.id))
  {
  }

  /** The 1.0 validator is a stub: it never builds a context. */
  function BuildV1(tree: Option<Json>): (ctx: Option<RpcContext>)
    ensures ctx.None?
  {
    None
  }

  /**
   * `contextBuilder()`: the first context the versions build, in declaration
   * order (1.0, then 2.0), else a done context with one "Invalid Request".
   * Since 1.0 builds nothing and 2.0 always builds, it is the 2.0 validator.
   */
  method ContextBuilder(tree: Option<Json>, render: Json -> string) returns (ctx: RpcContext)
    ensures ctx == BuildSpec(tree, render)
  {
    var first := BuildV1(tree);
    var second := BuildV2(tree, render);
    assert [first, second][1..] == [second];
    assert FirstSome([first, second]) == FirstSome([second]) == second;
    ctx := FirstSome([first, second]).GetOr(OfResponses(false, [ErrorOf(InvalidRequest)]).Done());
  }

  /** `firstNotNullOfOrNull`: the first present value, if any. */
  function FirstSome<T>(candidates: seq<Option<T>>): (r: Option<T>)
    ensures r.Some? <==> exists i :: 0 <= i < |candidates| && candidates[i].Some?
    ensures r.Some? ==> exists i :: 0 <= i < |candidates| && candidates[i] == r
                                    && forall j :: 0 <= j < i ==> candidates[j].None?
  {
    if |candidates| == 0 then None
    else if candidates[0].Some? then candidates[0]
    else
      var r := FirstSome(candidates[1..]);
      assert forall i :: 0 < i < |candidates| ==> candidates[i] == candidates[1..][i - 1];
      r
  }

  // ---- Properties of the validator ----

  /** An item is accepted exactly when it is well formed. */
  lemma AcceptedIffWellFormed(item: Json, render: Json -> string)
    ensures ValidateItem(item, render).Accepted? <==> WellFormed(item)
  {
  }

  /**
   * An accepted item keeps its method, its params as text and its whole text;
   * its id is the `asText` form of the id node, and it is a notification
   * exactly when it has no id.
   */
  lemma AcceptedRequestFields(item: Json, render: Json -> string)
    requires WellFormed(item)
    ensures var r := ValidateItem(item, render);
      && r.Accepted?
      && Some(JStr(r.request.methodName)) == FindValue(item, "method")
      && r.request.jsonrpc == Version
      && r.request.json == render(item)
      && (r.request.notification <==> FindValue(item, "id").None?)
      && (FindValue(item, "id").None? ==> r.request.id.None?)
      && (FindValue(item, "id").Some? ==> r.request.id == Some(AsText(FindValue(item, "id").value)))
      && (FindValue(item, "params").None? ==> r.request.params.None?)
      && (FindValue(item, "params").Some? ==> r.request.params == Some(render(FindValue(item, "params").value)))
  {
  }

  /** An explicit `"id": null` gives the id text "null", and the item is not a notification. */
  lemma ExplicitNullId(item: Json, render: Json -> string)
    requires WellFormed(item) && FindValue(item, "id") == Some(JNull)
    ensures var r := ValidateItem(item, render);
      r.Accepted? && r.request.id == Some("null") && !r.request.notification
  {
  }

  /**
   * An integral id is kept as its decimal text (42 becomes "42"), and that
   * text reads back as the same number.
   */
  lemma IntegralIdText(item: Json, n: int, render: Json -> string)
    requires WellFormed(item) && FindValue(item, "id") == Some(JInt(n))
    ensures var r := ValidateItem(item, render);
      && r.Accepted? && r.request.id == Some(IntText(n)) && !r.request.notification
      && ParseInt(r.request.id.value) == Some(n)
  {
    IntTextRoundTrip(n);
  }

  /** Every rejected item yields the same "Invalid Request" failure, with the default id "0". */
  lemma {:induction false} RejectionsAreInvalidRequest(items: seq<Json>, render: Json -> string)
    ensures forall r :: r in RejectedOf(items, render) ==> r == ErrorOf(InvalidRequest)
  {
    if |items| > 0 {
      RejectionsAreInvalidRequest(items[..|items| - 1], render);
    }
  }

  /** Every item contributes exactly one entry: a request or a response. */
  lemma {:induction false} OneEntryPerItem(items: seq<Json>, render: Json -> string)
    ensures |AcceptedOf(items, render)| + |RejectedOf(items, render)| == |items|
  {
    if |items| > 0 {
      OneEntryPerItem(items[..|items| - 1], render);
    }
  }

  /** A scalar node: neither an object nor an array, so it has no fields to find. */
  predicate IsScalar(node: Json) {
    !node.JObj? && !node.JArr?
  }

  /** Scalar items (such as the numbers of `[1,30,2]`) are all rejected. */
  lemma {:induction false} NonObjectItemsRejected(items: seq<Json>, render: Json -> string)
    requires forall i :: 0 <= i < |items| ==> IsScalar(items[i])
    ensures AcceptedOf(items, render) == []
    ensures |RejectedOf(items, render)| == |items|
  {
    if |items| > 0 {
      NonObjectItemsRejected(items[..|items| - 1], render);
    }
  }

  /** A payload that did not parse yields a done context holding one "Parse error" and no requests. */
  lemma AbsentTree(render: Json -> string)
    ensures var c := BuildSpec(None, render);
      c.isDone && !c.isBatch && c.requests == [] && c.responses == [ErrorOf(ParseError)]
  {
  }

  /**
   * The context is a batch exactly when the tree is a non-empty array; it is
   * done exactly when no request survived, and then it holds a response for
   * every item.
   */
  lemma BuiltContext(tree: Json, render: Json -> string)
    ensures var c := BuildSpec(Some(tree), render);
      && (c.isBatch <==> tree.JArr? && |tree.items| > 0)
      && (c.isDone <==> c.requests == [])
      && |c.requests| + |c.responses| == |Items(tree)|
      && (c.isDone ==> |c.responses| == |Items(tree)| > 0)
      && c.requests == AcceptedOf(Items(tree), render)
      && (forall r :: r in c.responses ==> r == ErrorOf(InvalidRequest))
  {
    OneEntryPerItem(Items(tree), render);
    RejectionsAreInvalidRequest(Items(tree), render);
  }

  /** `[]` is not a batch: it is one invalid item, giving a done context with one "Invalid Request". */
  lemma EmptyArray(render: Json -> string)
    ensures var c := BuildSpec(Some(JArr([])), render);
      c.isDone && !c.isBatch && c.requests == [] && c.responses == [ErrorOf(InvalidRequest)]
  {
    var items := Items(JArr([]));
    assert items[..0] == [];
  }

  /** A non-empty array of scalars is a done batch with one "Invalid Request" per element. */
  lemma ArrayOfNonObjects(elements: seq<Json>, render: Json -> string)
    requires |elements| > 0 && forall i :: 0 <= i < |elements| ==> IsScalar(elements[i])
    ensures var c := BuildSpec(Some(JArr(elements)), render);
      && c.isDone && c.isBatch && c.requests == []
      && |c.responses| == |elements|
      && forall r :: r in c.responses ==> r == ErrorOf(InvalidRequest)
  {
    NonObjectItemsRejected(elements, render);
    RejectionsAreInvalidRequest(elements, render);
  }
}
