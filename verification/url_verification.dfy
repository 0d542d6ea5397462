/** The `/slack/events` endpoint's handshake: the chat platform proves
    ownership of the endpoint with a `url_verification` request whose
    `challenge` must be echoed back; every other body is acknowledged. */
module UrlVerification {
  import opened Wrappers

  /** The JSON body's `type` and `challenge` fields; either may be absent. */
  datatype Request = Request(kind: Option<string>, challenge: Option<string>)

  /** An HTTP status and body; an absent body is what `send(undefined)`
      sends. */
  datatype Response = Response(status: int, body: Option<string>)

  const HandshakeType := "url_verification"
  const Acknowledgement := "OK"

  /** Always status 200: the challenge, verbatim, for a handshake (strict
      equality, so an absent type is not one), and "OK" for anything else. */
  function HandleEvents(req: Request): (r: Response)
    ensures r.status == 200
    ensures req.kind == Some(HandshakeType) ==> r.body == req.challenge
    ensures req.kind != Some(HandshakeType) ==> r.body == Some(Acknowledgement)
  {
    if req.kind == Some(HandshakeType) then Response(200, req.challenge)
    else Response(200, Some(Acknowledgement))
  }

  /** The body is the challenge or the acknowledgement and nothing else,
      and a handshake's challenge is returned unchanged whatever it is. */
  lemma HandshakeEchoes(c: string, req: Request)
    ensures HandleEvents(Request(Some(HandshakeType), Some(c))) == Response(200, Some(c))
    ensures HandleEvents(req).body in {req.challenge, Some(Acknowledgement)}
  {
  }

  /** The example handshake: challenge "abc123" comes back as the body. */
  lemma HandshakeExample()
    ensures HandleEvents(Request(Some("url_verification"), Some("abc123"))) == Response(200, Some("abc123"))
  {
  }
}
