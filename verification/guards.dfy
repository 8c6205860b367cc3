/**
 * The two request guards of src/guards/github.rs: the data guard that
 * authenticates a webhook delivery and decodes its body, and the request
 * guard that classifies the `X-GitHub-Event` header.
 *
 * HMAC-SHA256 and JSON decoding are foreign code; they enter as the
 * parameters `mac(key, message)` and `decode(bytes)`, about which nothing
 * is assumed.
 */
module Guards {

  import opened Wrappers
  import opened Http
  import Hex

  type byte = Hex.byte

  /** Reading the request body to its end either yields every byte or fails. */
  datatype BodyRead = Read(bytes: seq<byte>) | ReadFailed

  /** A delivery that passed the data guard: the decoded payload. */
  datatype Verified<T> = Verified(payload: T)

  const SignaturePrefix: string := "sha256="

  /** The only `X-Hub-Signature-256` value accepted for a MAC digest. */
  function ExpectedSignature(digest: seq<byte>): (s: string)
    ensures |s| == |SignaturePrefix| + 2 * |digest|
    ensures s[..|SignaturePrefix|] == SignaturePrefix
    ensures forall i :: |SignaturePrefix| <= i < |s| ==> Hex.IsLowerHexDigit(s[i])
  {
    SignaturePrefix + Hex.Encode(digest)
  }

  /** Distinct digests have distinct signature strings. */
  lemma SignatureDeterminesDigest(d1: seq<byte>, d2: seq<byte>)
    requires ExpectedSignature(d1) == ExpectedSignature(d2)
    ensures d1 == d2
  {
    var s1, s2 := ExpectedSignature(d1), ExpectedSignature(d2);
    assert Hex.Encode(d1) == s1[|SignaturePrefix|..];
    assert Hex.Encode(d2) == s2[|SignaturePrefix|..];
    Hex.EncodeInjective(d1, d2);
  }

  /**
   * The delivery carries a signature header, its body was read, the secret
   * is configured, and the first signature value equals the signature of
   * the body under the secret.
   */
  predicate Authentic(signature: HeaderValues, body: BodyRead, secret: Option<seq<byte>>,
                      mac: (seq<byte>, seq<byte>) -> seq<byte>)
  {
    && signature != []
    && body.Read?
    && secret.Some?
    && signature[0] == ExpectedSignature(mac(secret.value, body.bytes))
  }

  /**
   * `GithubWebhookVerification::from_data`: the early-return chain from the
   * delivery to a status or the decoded payload. `signature` holds the
   * values of `X-Hub-Signature-256`, `secret` the bytes of
   * `GITHUB_WEBHOOK_SECRET` when it is set.
   */
  function FromData<T>(signature: HeaderValues, body: BodyRead, secret: Option<seq<byte>>,
                       mac: (seq<byte>, seq<byte>) -> seq<byte>, decode: seq<byte> -> Option<T>)
    : (r: Outcome<Verified<T>>)
    // a missing signature header is rejected before the body or the secret is looked at
    ensures signature == [] ==> r == Error(BadRequest)
    ensures signature != [] && body.ReadFailed? ==> r == Error(InternalServerError)
    ensures signature != [] && body.Read? && secret.None? ==> r == Error(InternalServerError)
    // a wrong signature is refused with 401
    ensures r == Error(Unauthorized) <==>
              signature != [] && body.Read? && secret.Some? && !Authentic(signature, body, secret, mac)
    // an authentic body that does not decode is refused with 422
    ensures r == Error(UnprocessableEntity) <==>
              Authentic(signature, body, secret, mac) && decode(body.bytes).None?
    // success carries the decoding of exactly the bytes that were authenticated
    ensures r.Success? <==> Authentic(signature, body, secret, mac) && decode(body.bytes).Some?
    ensures r.Success? ==> decode(body.bytes) == Some(r.value.payload)
  {
    match GetOne(signature)
    case None => Error(BadRequest)
    case Some(sig) =>
      match body
      case ReadFailed => Error(InternalServerError)
      case Read(payload) =>
        match secret
        case None => Error(InternalServerError)
        case Some(key) =>
          if ExpectedSignature(mac(key, payload)) == sig then
            match decode(payload)
            case Some(parsed) => Success(Verified(parsed))
            case None => Error(UnprocessableEntity)
          else
            Error(Unauthorized)
  }

  /** Unless the delivery is authentic, `decode` has no influence on the outcome. */
  lemma UnauthenticNeverDecodes<T>(signature: HeaderValues, body: BodyRead, secret: Option<seq<byte>>,
                                   mac: (seq<byte>, seq<byte>) -> seq<byte>,
                                   decode1: seq<byte> -> Option<T>, decode2: seq<byte> -> Option<T>)
    requires !Authentic(signature, body, secret, mac)
    ensures FromData(signature, body, secret, mac, decode1) == FromData(signature, body, secret, mac, decode2)
    ensures FromData(signature, body, secret, mac, decode1).Error?
  {
  }

  /**
   * One signature value passes the check for two bodies only if the MAC
   * gives both bodies the same digest: the hex form loses nothing.
   */
  lemma SignatureBindsDigest(signature: HeaderValues, body1: seq<byte>, body2: seq<byte>, secret: seq<byte>,
                             mac: (seq<byte>, seq<byte>) -> seq<byte>)
    requires Authentic(signature, Read(body1), Some(secret), mac)
    requires Authentic(signature, Read(body2), Some(secret), mac)
    ensures mac(secret, body1) == mac(secret, body2)
  {
    SignatureDeterminesDigest(mac(secret, body1), mac(secret, body2));
  }

  /** The event kinds the service handles. */
  datatype GitHubEvent = IssueComment

  const IssueCommentEventName: string := "issue_comment"

  /**
   * `GitHubEvent::from_request`: the values of `X-GitHub-Event` must be
   * exactly one, and that one must name a known event.
   */
  function FromRequest(keys: HeaderValues): (r: Outcome<GitHubEvent>)
    ensures r.Success? <==> keys == [IssueCommentEventName]
    ensures r.Error? ==> r.status == BadRequest
  {
    if |keys| != 1 then Error(BadRequest)
    else if keys[0] == IssueCommentEventName then Success(IssueComment)
    else Error(BadRequest)
  }
}
