/**
 * The subscription handshake of `GET /webhook`: the platform sends a mode, a
 * token and a challenge, and gets the challenge back only when the mode is
 * "subscribe" and the token is the configured verify token.
 */
module Webhook {
  import opened Wrappers

  const DefaultVerifyToken: string := "your_verify_token"

  /** `WHATSAPP_VERIFY_TOKEN || 'your_verify_token'`: an unset or empty setting
      falls back to the default. */
  function VerifyToken(configured: Option<string>): (t: string)
    ensures t != ""
    ensures configured.Some? && configured.value != "" ==> t == configured.value
    ensures configured.None? || configured.value == "" ==> t == DefaultVerifyToken
  {
    if configured.Some? && configured.value != "" then configured.value else DefaultVerifyToken
  }

  /** The challenge echoed with status 200, or `Forbidden` with status 403. */
  datatype Response = Challenge(echo: Option<string>) | Forbidden

  function VerifyWebhook(mode: Option<string>, token: Option<string>, challenge: Option<string>,
                         configured: Option<string>): (r: Response)
    ensures r.Challenge? <==> mode == Some("subscribe") && token == Some(VerifyToken(configured))
    ensures r.Challenge? ==> r.echo == challenge
  {
    if mode == Some("subscribe") && token == Some(VerifyToken(configured)) then Challenge(challenge)
    else Forbidden
  }

  /** A deployment that sets a non-empty token refuses every other token, the
      default one included. */
  lemma ConfiguredTokenOnly(mode: Option<string>, token: string, challenge: Option<string>, configured: string)
    requires configured != "" && token != configured
    ensures VerifyWebhook(mode, Some(token), challenge, Some(configured)) == Forbidden
  {
  }

  /** Without a usable setting, the default token is the one accepted. */
  lemma DefaultTokenAccepted(challenge: Option<string>, configured: Option<string>)
    requires configured.None? || configured.value == ""
    ensures VerifyWebhook(Some("subscribe"), Some(DefaultVerifyToken), challenge, configured) == Challenge(challenge)
  {
  }
}
