/**
 * The preset error catalog: the five errors JSON-RPC 2.0 predefines, each with
 * its fixed code and message. The current and the legacy package hold the same
 * table, so one datatype models both.
 */
module PresetErrors {
  import opened Wrappers

  /** The lowest and highest code the standard reserves for predefined errors. */
  const ReservedLow: int := -32768
  const ReservedHigh: int := -32000

  datatype PresetError = ParseError | InvalidRequest | MethodNotFound | InvalidParams | InternalError {

    /** The wire code; every preset lies in the reserved range. */
    function Code(): (c: int)
      ensures ReservedLow <= c <= ReservedHigh
    {
      match this
      case ParseError => -32700
      case InvalidRequest => -32600
      case MethodNotFound => -32601
      case InvalidParams => -32602
      case InternalError => -32603
    }

    /** The fixed, human-readable message. */
    function Message(): (m: string)
      ensures |m| > 0
    {
      match this
      case ParseError => "Parse error"
      case InvalidRequest => "Invalid Request"
      case MethodNotFound => "Method not found"
      case InvalidParams => "Invalid params"
      case InternalError => "Internal error"
    }
  }

  /** The preset carrying `code`, if any: the inverse of `Code`. */
  function FromCode(code: int): (r: Option<PresetError>)
    ensures r.Some? ==> r.value.Code() == code
    ensures r.None? ==> forall e: PresetError :: e.Code() != code
  {
    if code == -32700 then Some(ParseError)
    else if code == -32600 then Some(InvalidRequest)
    else if code == -32601 then Some(MethodNotFound)
    else if code == -32602 then Some(InvalidParams)
    else if code == -32603 then Some(InternalError)
    else None
  }

  /** A code names one preset: the five codes are pairwise distinct. */
  lemma CodesDistinct(a: PresetError, b: PresetError)
    ensures a.Code() == b.Code() <==> a == b
    ensures FromCode(a.Code()) == Some(a)
  {
  }

  /** The catalog, entry by entry. */
  lemma Catalog()
    ensures ParseError.Code() == -32700 && ParseError.Message() == "Parse error"
    ensures InvalidRequest.Code() == -32600 && InvalidRequest.Message() == "Invalid Request"
    ensures MethodNotFound.Code() == -32601 && MethodNotFound.Message() == "Method not found"
    ensures InvalidParams.Code() == -32602 && InvalidParams.Message() == "Invalid params"
    ensures InternalError.Code() == -32603 && InternalError.Message() == "Internal error"
  {
  }
}
