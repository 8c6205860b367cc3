/**
 * The `POST /webhook/github` route of src/main.rs and the way the web
 * framework composes it with its two guards.
 */
module Routes {

  import opened Wrappers
  import opened Http
  import Guards
  import opened Issues

  /**
   * How handling one delivery ends: a response status together with the
   * delete call made on the way, if any, or a panic raised inside the
   * handler.
   */
  datatype Response = Respond(status: Status, deleted: Option<DeleteRequest>) | Panic

  /**
   * An optional request guard (`Option<GitHubEvent>` in the handler's
   * parameters) never fails the request: a failure of the inner guard
   * becomes `None`.
   */
  function OptionalGuard<T>(o: Outcome<T>): (r: Option<T>)
    ensures r.Some? <==> o.Success?
    ensures r.Some? ==> r.value == o.value
  {
    match o
    case Success(v) => Some(v)
    case Error(_) => None
  }

  /**
   * `github`: run the comment handler when the event guard recognised an
   * issue-comment event, then answer 200.
   */
  function Github(event: Option<Guards.GitHubEvent>, data: Guards.Verified<Payload>,
                  lookup: (string, string) -> Option<InstallationId>): (r: Response)
    // every path that returns answers 200
    ensures r.Respond? ==> r.status == Status.Ok
    // without a recognised event nothing is processed
    ensures event.None? ==> r == Respond(Status.Ok, None)
    // with one, the handler runs on the verified payload, unchanged
    ensures event.Some? ==>
              match IssueComment(data.payload, lookup)
              case NoAction => r == Respond(Status.Ok, None)
              case Delete(request) => r == Respond(Status.Ok, Some(request))
              case Abort => r == Panic
  {
    var effect :=
      match event
      case Some(_) => IssueComment(data.payload, lookup)  // IssueComment, the only event kind
      case None => NoAction;
    match effect
    case Abort => Panic
    case Delete(request) => Respond(Status.Ok, Some(request))
    case NoAction => Respond(Status.Ok, None)
  }

  /** The parts of one HTTP request the route reads. */
  datatype Delivery = Delivery(signature: HeaderValues, event: HeaderValues, body: Guards.BodyRead)

  /**
   * One delivery through the route: the data guard decides the answer when
   * it fails; otherwise the handler runs with the optional event guard.
   */
  function HandleDelivery(d: Delivery, secret: Option<seq<Guards.byte>>,
                          mac: (seq<Guards.byte>, seq<Guards.byte>) -> seq<Guards.byte>,
                          decode: seq<Guards.byte> -> Option<Payload>,
                          lookup: (string, string) -> Option<InstallationId>): (r: Response)
    // a failing data guard answers with its own status and does nothing else
    ensures Guards.FromData(d.signature, d.body, secret, mac, decode).Error? ==>
              r == Respond(Guards.FromData(d.signature, d.body, secret, mac, decode).status, None)
    // an authentic, decodable issue-comment delivery gets what the handler does to its payload
    ensures Guards.Authentic(d.signature, d.body, secret, mac) && decode(d.body.bytes).Some?
            && d.event == [Guards.IssueCommentEventName] ==>
              match IssueComment(decode(d.body.bytes).value, lookup)
              case NoAction => r == Respond(Status.Ok, None)
              case Delete(request) => r == Respond(Status.Ok, Some(request))
              case Abort => r == Panic
    // any other event header makes an authentic, decodable delivery a no-op answered 200
    ensures Guards.Authentic(d.signature, d.body, secret, mac) && decode(d.body.bytes).Some?
            && d.event != [Guards.IssueCommentEventName] ==>
              r == Respond(Status.Ok, None)
  {
    match Guards.FromData(d.signature, d.body, secret, mac, decode)
    case Error(status) => Respond(status, None)
    case Success(data) => Github(OptionalGuard(Guards.FromRequest(d.event)), data, lookup)
  }

  /**
   * An authentic, decodable delivery is always acknowledged with 200 unless
   * the handler panics, whatever its `X-GitHub-Event` header says; a
   * missing, repeated or unknown event header makes it a no-op.
   */
  lemma AuthenticDeliveryIsAcknowledged(d: Delivery, secret: Option<seq<Guards.byte>>,
                                        mac: (seq<Guards.byte>, seq<Guards.byte>) -> seq<Guards.byte>,
                                        decode: seq<Guards.byte> -> Option<Payload>,
                                        lookup: (string, string) -> Option<InstallationId>)
    requires Guards.Authentic(d.signature, d.body, secret, mac) && decode(d.body.bytes).Some?
    ensures var r := HandleDelivery(d, secret, mac, decode, lookup);
            r.Respond? ==> r.status == Status.Ok
    ensures d.event != [Guards.IssueCommentEventName] ==> HandleDelivery(d, secret, mac, decode, lookup) == Respond(Status.Ok, None)
  {
  }

  /**
   * A comment is deleted only for an authentic delivery that names exactly
   * the issue-comment event and whose decoded payload is flagged; the delete
   * targets that payload's comment in the repository its URL names.
   */
  lemma DeleteOnlyForAuthenticFlaggedComment(d: Delivery, secret: Option<seq<Guards.byte>>,
                                             mac: (seq<Guards.byte>, seq<Guards.byte>) -> seq<Guards.byte>,
                                             decode: seq<Guards.byte> -> Option<Payload>,
                                             lookup: (string, string) -> Option<InstallationId>)
    requires HandleDelivery(d, secret, mac, decode, lookup).Respond?
    requires HandleDelivery(d, secret, mac, decode, lookup).deleted.Some?
    ensures Guards.Authentic(d.signature, d.body, secret, mac)
    ensures d.event == [Guards.IssueCommentEventName]
    ensures decode(d.body.bytes).Some? && Flagged(decode(d.body.bytes).value)
    ensures var request := HandleDelivery(d, secret, mac, decode, lookup).deleted.value;
            var payload := decode(d.body.bytes).value;
            && request.commentId == payload.comment.id
            && ExtractRepository(payload.issue.repositoryUrl) == Result.Ok((request.owner, request.repo))
  {
  }

  /** A handler panic is possible only where the installation lookup fails. */
  lemma PanicOnlyOnFailedLookup(d: Delivery, secret: Option<seq<Guards.byte>>,
                                mac: (seq<Guards.byte>, seq<Guards.byte>) -> seq<Guards.byte>,
                                decode: seq<Guards.byte> -> Option<Payload>,
                                lookup: (string, string) -> Option<InstallationId>)
    requires HandleDelivery(d, secret, mac, decode, lookup) == Panic
    ensures decode(d.body.bytes).Some?
    ensures var url := decode(d.body.bytes).value.issue.repositoryUrl;
            ExtractRepository(url).Ok? && lookup(ExtractRepository(url).value.0, ExtractRepository(url).value.1).None?
  {
  }
}
