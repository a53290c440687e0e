/**
 * The request value (`RequestImpl`), its factory `RequestImpl.of` with the
 * defaults of `Request.of`, and the serializable `Scaffold` the factory
 * writes out as the request's JSON text.
 */
module Requests {
  import opened Wrappers
  import opened Json

  /**
   * A request as the dispatcher sees it. `json` is the request's own JSON text,
   * `params` the serialized params (absent when the request has none), `id`
   * the textual id (absent for a notification built by the validator).
   */
  datatype Request = Request(
    methodName: string,
    notification: bool,
    json: string,
    params: Option<string>,
    jsonrpc: string,
    id: Option<string>)

  /** What `RequestImpl.of` serializes: the request fields before they become text. */
  datatype Scaffold = Scaffold(methodName: string, params: Option<Json>, jsonrpc: string, id: Option<string>) {

    /** `Scaffold.isNotification`: version "2.0" and no id. */
    predicate IsNotification() {
      jsonrpc == "2.0" && id.None?
    }
  }

  /**
   * `RequestImpl.of` (and `Request.of`, which supplies the same defaults):
   * nothing for an empty method name or when serializing the scaffold fails;
   * otherwise a request that keeps every given field. `serialize` is the JSON
   * writer, `serializeParams` writes the params on their own.
   */
  function RequestOf(
    methodName: string,
    params: Option<Json>,
    serialize: Scaffold -> Option<string>,
    serializeParams: Json -> Option<string>,
    jsonrpc: string := "2.0",
    id: Option<string> := Some("0")): (r: Option<Request>)
    ensures r.Some? <==> methodName != "" && serialize(Scaffold(methodName, params, jsonrpc, id)).Some?
    ensures r.Some? ==>
      && r.value.methodName == methodName
      && r.value.jsonrpc == jsonrpc
      && r.value.id == id
      && r.value.json == serialize(Scaffold(methodName, params, jsonrpc, id)).value
      && (params.None? ==> r.value.params.None?)
      && (params.Some? ==> r.value.params == serializeParams(params.value))
    ensures r.Some? ==> (r.value.notification <==> jsonrpc != "2.0" || id.None? || id == Some(""))
  {
    if methodName == "" then None
    else
      match serialize(Scaffold(methodName, params, jsonrpc, id))
      case None => None
      case Some(text) =>
        var jsonParams := if params.Some? then serializeParams(params.value) else None;
        var notifying := !(jsonrpc == "2.0" && !(id.None? || id.value == ""));
        Some(Request(methodName, notifying, text, jsonParams, jsonrpc, id))
  }

  /** With the defaults, a request is a version "2.0" call with id "0", not a notification. */
  lemma RequestOfDefaults(methodName: string, params: Option<Json>,
                          serialize: Scaffold -> Option<string>, serializeParams: Json -> Option<string>)
    requires methodName != "" && serialize(Scaffold(methodName, params, "2.0", Some("0"))).Some?
    ensures var r := RequestOf(methodName, params, serialize, serializeParams);
      r.Some? && r.value.jsonrpc == "2.0" && r.value.id == Some("0") && !r.value.notification
  {
  }

  /**
   * The notification flag `RequestImpl.of` computes agrees with
   * `Scaffold.isNotification` exactly when the version is "2.0" and the id is
   * not the empty string: the two disagree on an empty id and on every other version.
   */
  lemma NotificationFlagsAgreeIff(methodName: string, params: Option<Json>, jsonrpc: string, id: Option<string>,
                                  serialize: Scaffold -> Option<string>, serializeParams: Json -> Option<string>)
    requires methodName != "" && serialize(Scaffold(methodName, params, jsonrpc, id)).Some?
    ensures var r := RequestOf(methodName, params, serialize, serializeParams, jsonrpc, id);
      r.Some? &&
      ((r.value.notification == Scaffold(methodName, params, jsonrpc, id).IsNotification())
       <==> (jsonrpc == "2.0" && id != Some("")))
  {
  }
}
