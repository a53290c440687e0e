/**
 * The dispatch context (`RpcContext`): the requests still to dispatch, the
 * responses already final, and the batch and done flags. It is an immutable
 * value; marking it done builds a new one.
 */
module Context {
  import opened Wrappers
  import opened Requests
  import opened Responses

  datatype RpcContext = RpcContext(requests: seq<Request>, responses: seq<Response>, isDone: bool, isBatch: bool) {

    /**
     * `done(responses)`: the same requests and batch flag, marked done; given
     * responses replace the held ones, and with none (the default, and the
     * legacy `done()`) the held ones stay.
     */
    function Done(rs: Option<seq<Response>> := None): (c: RpcContext)
      ensures c.isDone && c.requests == requests && c.isBatch == isBatch
      ensures rs.Some? ==> c.responses == rs.value
      ensures rs.None? ==> c.responses == responses
    {
      RpcContext(requests, if rs.Some? then rs.value else responses, true, isBatch)
    }
  }

  /** `of(isBatch, requests, responses)`: an open context holding both lists in the given order. */
  function Of(isBatch: bool, requests: seq<Request>, responses: seq<Response>): (c: RpcContext)
    ensures !c.isDone && c.isBatch == isBatch
    ensures c.requests == requests && c.responses == responses
  {
    RpcContext(requests, responses, false, isBatch)
  }

  /** `of(isBatch, vararg responses)`: an open context with no requests. */
  function OfResponses(isBatch: bool, responses: seq<Response>): (c: RpcContext)
    ensures !c.isDone && c.isBatch == isBatch
    ensures c.requests == [] && c.responses == responses
  {
    Of(isBatch, [], responses)
  }

  /**
   * Marking done yields a different value whenever the receiver was open.
   * The receiver is a value, so it stays open by construction.
   */
  lemma DoneIsNewValue(c: RpcContext, rs: Option<seq<Response>>)
    requires !c.isDone
    ensures c.Done(rs) != c
  {
  }

  /** Marking done twice is marking done once with the last responses given. */
  lemma DoneTwice(c: RpcContext, first: Option<seq<Response>>, second: Option<seq<Response>>)
    ensures c.Done(first).Done(second) == c.Done(if second.Some? then second else first)
  {
  }
}
