/**
 The two callbacks of `TokenListener`, and a listener that records
 every callback it receives, in order.
 */
module TokenListener {
  import opened Wrappers
  import opened GoogleAuth

  /** One callback: `onTokenSuccess(accessToken)`, whose argument may be null, or `onTokenFail(message)`. */
  datatype Event = TokenSuccess(token: Option<AccessToken>) | TokenFail(message: string)

  class Listener {
    var events: seq<Event>

    constructor ()
      ensures events == []
    {
      events := [];
    }

    method OnTokenSuccess(token: Option<AccessToken>)
      modifies this
      ensures events == old(events) + [TokenSuccess(token)]
    {
      events := events + [TokenSuccess(token)];
    }

    method OnTokenFail(message: string)
      modifies this
      ensures events == old(events) + [TokenFail(message)]
    {
      events := events + [TokenFail(message)];
    }
  }
}
