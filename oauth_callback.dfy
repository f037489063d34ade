/**
 * The `GET /oauth2callback` handler (backend/index.js:32-49) and the one
 * process-wide credential slot it writes (the `oauth2Client` credentials).
 * The token exchange `getToken` is an input: for each code it either grants a
 * token set or fails.
 */
module OAuthCallback {
  import opened Wrappers

  /** The tokens returned by the identity provider; only stored, never inspected. */
  datatype TokenSet = TokenSet(accessToken: Option<string>, refreshToken: Option<string>, expiryDate: Option<int>)

  /** The outcome of `oauth2Client.getToken(code)`. */
  datatype Exchange = Granted(tokens: TokenSet) | Rejected

  datatype TextResponse = TextResponse(status: nat, text: string)

  const NoCodeResponse: TextResponse := TextResponse(400, "\U{274C} No code in query")
  const SuccessResponse: TextResponse := TextResponse(200, "\U{2705} OAuth Success! You can now call /emails")
  const FailureResponse: TextResponse := TextResponse(500, "\U{274C} OAuth failed. Check console.")

  /**
   * `!code` is false. Of the values an optional string can take, JavaScript
   * treats exactly `undefined` and `""` as false.
   */
  predicate HasCode(code: Option<string>)
    ensures HasCode(code) <==> code != None && code != Some("")
  {
    code.Some? && code.value != ""
  }

  /** The request carries a code and the provider accepts it. */
  predicate Grants(code: Option<string>, exchange: string -> Exchange) {
    HasCode(code) && exchange(code.value).Granted?
  }

  /** The response to one callback request and the credential slot after it. */
  datatype Outcome = Outcome(response: TextResponse, credentials: Option<TokenSet>)

  /**
   * One callback request: 400 without a code, 200 when the exchange grants
   * tokens, 500 when it fails. The slot changes only on 200, and then to exactly
   * the tokens granted.
   */
  function Callback(credentials: Option<TokenSet>, code: Option<string>, exchange: string -> Exchange): (r: Outcome)
    ensures r.response.status == 400 <==> !HasCode(code)
    ensures r.response.status == 200 <==> Grants(code, exchange)
    ensures r.response.status in {200, 400, 500}
    ensures r.response.status == 200 ==> r.credentials == Some(exchange(code.value).tokens)
    ensures r.response.status != 200 ==> r.credentials == credentials
  {
    if !HasCode(code) then Outcome(NoCodeResponse, credentials)
    else
      match exchange(code.value)
      case Rejected => Outcome(FailureResponse, credentials)
      case Granted(tokens) => Outcome(SuccessResponse, Some(tokens))
  }

  /** The slot after a series of callback requests, one after the other. */
  function Replay(credentials: Option<TokenSet>, codes: seq<Option<string>>, exchange: string -> Exchange): Option<TokenSet>
    decreases |codes|
  {
    if codes == [] then credentials
    else Replay(Callback(credentials, codes[0], exchange).credentials, codes[1..], exchange)
  }

  /** Requests that are refused or whose exchange fails never touch the slot. */
  lemma {:induction false} ReplayWithoutGrantKeeps(credentials: Option<TokenSet>, codes: seq<Option<string>>, exchange: string -> Exchange)
    requires forall j | 0 <= j < |codes| :: !Grants(codes[j], exchange)
    ensures Replay(credentials, codes, exchange) == credentials
    decreases |codes|
  {
    if codes != [] {
      assert !Grants(codes[0], exchange);
      ReplayWithoutGrantKeeps(credentials, codes[1..], exchange);
    }
  }

  /** Last writer wins: the slot holds the tokens of the last successful exchange. */
  lemma {:induction false} ReplayLastGrantWins(credentials: Option<TokenSet>, codes: seq<Option<string>>, exchange: string -> Exchange, k: nat)
    requires k < |codes| && Grants(codes[k], exchange)
    requires forall j | k < j < |codes| :: !Grants(codes[j], exchange)
    ensures Replay(credentials, codes, exchange) == Some(exchange(codes[k].value).tokens)
    decreases |codes|
  {
    var next := Callback(credentials, codes[0], exchange).credentials;
    if k == 0 {
      ReplayWithoutGrantKeeps(next, codes[1..], exchange);
    } else {
      ReplayLastGrantWins(next, codes[1..], exchange, k - 1);
    }
  }

  /** The credential slot of the process's OAuth client. */
  class CredentialStore {
    var credentials: Option<TokenSet>

    /** Nothing is stored before the first successful callback. */
    constructor ()
      ensures credentials == None
    {
      credentials := None;
    }

    /** `oauth2Client.setCredentials(tokens)`: replaces whatever was stored. */
    method SetCredentials(tokens: TokenSet)
      modifies this
      ensures credentials == Some(tokens)
    {
      credentials := Some(tokens);
    }

    /** Handles one `GET /oauth2callback?code=...` request. */
    method HandleCallback(code: Option<string>, exchange: string -> Exchange) returns (response: TextResponse)
      modifies this
      ensures !HasCode(code) ==> response == NoCodeResponse && credentials == old(credentials)
      ensures HasCode(code) && exchange(code.value).Rejected? ==>
        response == FailureResponse && credentials == old(credentials)
      ensures Grants(code, exchange) ==>
        response == SuccessResponse && credentials == Some(exchange(code.value).tokens)
      ensures Outcome(response, credentials) == Callback(old(credentials), code, exchange)
    {
      if !HasCode(code) {
        return NoCodeResponse;
      }
      match exchange(code.value)
      case Rejected =>
        response := FailureResponse;
      case Granted(tokens) =>
        SetCredentials(tokens);
        response := SuccessResponse;
    }
  }
}
