# Lilac webhook core in Dafny

Lilac receives GitHub webhook deliveries at `POST /webhook/github`. It deletes created or edited issue
comments whose body contains the text `mediafire` (case-sensitive), whether or not it is part of
a link. This project models the three pieces of logic that decide what happens to one delivery:

- **The data guard** `GithubWebhookVerification::from_data` (`Guards.FromData`). It is a chain of
  early returns that rejects a delivery with 400, 500, 401 or 422, or accepts it with its decoded
  payload. The signature check is modelled exactly: the value must equal `"sha256="` followed by
  the lower-case hex of the HMAC (`Hex.Encode`). HMAC-SHA256 and JSON decoding are library code,
  so they are the parameters `mac(key, message)` and `decode(bytes)` and nothing is assumed about
  them.
- **The event guard** `GitHubEvent::from_request` (`Guards.FromRequest`). It needs exactly one
  `X-GitHub-Event` value, and that value must be `issue_comment`.
- **The comment handler** `issue_comment` (`Issues.IssueComment`) and `extract_repository`
  (`Issues.ExtractRepository`). A created or edited comment whose body contains `mediafire` (case
  matters) is deleted. The delete is sent to the repository named by the issue's
  `repository_url`, using the app's installation there. The GitHub calls are foreign code. The
  installation lookup is the parameter `lookup(owner, repo)`. The delete call is the returned
  `Effect.Delete`. The `unwrap` of a failed lookup is `Effect.Abort`.
- **The route** `github` (`Routes.Github`) and the way the framework composes it with the two
  guards (`Routes.HandleDelivery`). A failing data guard answers with its own status. Otherwise
  the event guard is optional: a failure becomes `None`, and the route answers 200 whether or not
  it ran the handler. The only exception is a panic in the handler.

`extract_repository` runs the regex `https://api.github.com/repos/(.*)/(.*)`. The model uses
string operations instead of a regex engine, and keeps the regex's semantics:

- The search is unanchored and takes the leftmost match (`FirstMatch`).
- The two unescaped dots match any character except a newline (`PatternCharMatches`).
- `.*` never crosses a newline (`Line`).
- The greedy first group runs to the last `/` of that line, and the second group takes the rest
  of the line (`GroupsAt`).

Some consequences of the code are easy to miss. The model keeps each of them:

- A URL with trailing segments gives an owner that contains `/`.
  `.../repos/acme/widget/issues` yields `("acme/widget", "issues")` (`ExtractTrailingSegmentExample`).
  It does not yield the two segments after `/repos/`.
- Other hosts that fit the wildcards are accepted (`ExtractWildcardHostExample`).
- Only the delete strategy exists: one keyword, one delete call per delivery. There is no
  redaction and no rule list.
- A missing secret is checked after the body is read, and only per request.
- A failed installation lookup panics. It is not skipped.

## Model

| member | source | states |
|---|---|---|
| `Hex.Encode` | src/guards/github.rs:45 | the hex form of a digest is two characters per byte, each from `0-9a-f` |
| `Hex.EncodeAt` | src/guards/github.rs:45 | byte i becomes characters 2i (high nibble) and 2i+1 (low nibble) |
| `Hex.EncodeInjective` | src/guards/github.rs:45 | equal hex strings come from equal byte strings |
| `Guards.ExpectedSignature` | src/guards/github.rs:43-45 | the accepted header value is `sha256=` followed by lower-case hex digits, 7 + 2n characters long |
| `Guards.SignatureDeterminesDigest` | src/guards/github.rs:45 | distinct digests never share an accepted signature string |
| `Guards.FromData` | src/guards/github.rs:19-57 | no signature header gives 400, whatever the body and secret. With the header, a body read failure gives 500, then a missing secret gives 500. A wrong signature gives 401 (iff). An authentic body that does not decode gives 422 (iff). Success (iff authentic and decodable) carries `decode` of exactly the bytes that were MACed |
| `Guards.UnauthenticNeverDecodes` | src/guards/github.rs:45-56 | unless the delivery is authentic the outcome is an error and does not depend on `decode` at all |
| `Guards.SignatureBindsDigest` | src/guards/github.rs:38-45 | one signature value accepted for two bodies under one secret means the MAC gave both bodies the same digest |
| `Guards.FromRequest` | src/guards/github.rs:65-80 | success iff the header values are exactly `["issue_comment"]`; every failure (zero, several or unknown values) is 400 |
| `Issues.ContainsFrom` | src/webhook/issues.rs:23 | true iff the pattern occurs at some position at or after the start index |
| `Issues.Contains` | src/webhook/issues.rs:23 | case-sensitive substring test: true iff the pattern occurs at some position |
| `Issues.LineEnd` | src/webhook/issues.rs:42 | the first newline at or after j, or the end: the furthest `.` can reach |
| `Issues.LastSlash` | src/webhook/issues.rs:42 | the index of the last `/`, `None` iff there is none |
| `Issues.FirstMatch` | src/webhook/issues.rs:44 | the leftmost position at which the pattern matches, `None` iff it matches nowhere |
| `Issues.GroupsAt` | src/webhook/issues.rs:42-44 | at a match both groups take part, group1 "/" group2 is the rest of the line, and group2 has no `/` |
| `Issues.RegexCaptures` | src/webhook/issues.rs:44 | `None` iff no match anywhere; otherwise the groups of the leftmost match, split at the line's last `/` |
| `Issues.ExtractRepository` | src/webhook/issues.rs:41-58 | Err exactly when the pattern matches nowhere; otherwise owner "/" repo is the line after the leftmost match, and repo has no `/` |
| `Issues.LastSlashOfSplit` | src/webhook/issues.rs:42 | in owner "/" repo with no `/` in repo, the last `/` sits at index \|owner\| |
| `Issues.SplitAtLastSlashUnique` | src/webhook/issues.rs:42 | the greedy split is unique: one string has one split whose right part has no `/` |
| `Issues.ExtractAfterPrefix` | src/webhook/issues.rs:41-58 | for a single-line URL whose start matches: Err iff no `/` after `repos/`; otherwise owner "/" repo is all of that text and repo has no `/` |
| `Issues.ExtractFromParts` | src/webhook/issues.rs:41-58 | any text matching the pattern's fixed part (dots as wildcards), followed by owner "/" repo on one line with no `/` in repo, extracts to exactly `Ok((owner, repo))` |
| `Issues.ExtractRoundTrip` | src/webhook/issues.rs:41-58 | `https://api.github.com/repos/` + owner + "/" + repo extracts back to `Ok((owner, repo))` whenever repo has no `/` and neither part has a newline |
| `Issues.ExtractWithoutSlash` | src/webhook/issues.rs:44-58 | `https://api.github.com/repos/` followed by one line with no `/` gives Err |
| `Issues.ExtractCanonicalExample` | src/webhook/issues.rs:41-51 | `https://api.github.com/repos/acme/widget` gives `Ok(("acme", "widget"))` |
| `Issues.ExtractTrailingSegmentExample` | src/webhook/issues.rs:42-51 | `.../repos/acme/widget/issues` gives `Ok(("acme/widget", "issues"))`, because the first group is greedy |
| `Issues.ExtractWildcardHostExample` | src/webhook/issues.rs:42 | `https://api-github-com/repos/acme/widget` is accepted, because the dots are wildcards |
| `Issues.ExtractMissingRepoExample` | src/webhook/issues.rs:44-58 | `https://api.github.com/repos/acme` gives Err |
| `Issues.IssueComment` | src/webhook/issues.rs:19-39 | no action iff the comment is not flagged. A comment is flagged when the action is created or edited, the body is present and contains `mediafire`, and the URL matches. Abort iff flagged and the installation lookup fails. The one delete targets the payload's comment id, in the extracted owner/repo, as the looked-up installation |
| `Issues.DeleteExample` | src/webhook/issues.rs:19-39 | an edited comment mentioning mediafire in acme/widget becomes one delete of that comment as the installation found |
| `Issues.CaseSensitiveExample` | src/webhook/issues.rs:23 | a body reading `MediaFire` leads to no action |
| `Routes.OptionalGuard` | src/main.rs:24 | an `Option<T>` guard yields `Some` iff the inner guard succeeded, with its value |
| `Routes.Github` | src/main.rs:23-34 | every return is 200. With no event nothing is processed. With `IssueComment` the handler runs on the verified payload unchanged, and its delete or panic is the route's |
| `Routes.HandleDelivery` | src/main.rs:23-34 | a failing data guard answers with its own status and issues no delete. An authentic, decodable delivery whose event header is exactly `issue_comment` gets the handler's outcome on the decoded payload: 200 with no delete, 200 with its one delete, or a panic. Any other event header makes it a no-op answered 200 |
| `Routes.AuthenticDeliveryIsAcknowledged` | src/main.rs:24-33 | an authentic, decodable delivery is answered 200 unless the handler panics. A missing, repeated or unknown event header makes it a no-op, not a 400 |
| `Routes.DeleteOnlyForAuthenticFlaggedComment` | src/main.rs:23-34 | a delete happens only when the delivery is authentic, names exactly `issue_comment` and decodes to a flagged payload. The delete targets that payload's comment id and extracted repository |
| `Routes.PanicOnlyOnFailedLookup` | src/main.rs:28 | the route panics only when the payload decoded, the URL matched and the installation lookup failed |

## Left out

- HMAC-SHA256 and `serde_json` decoding are library code. They are the parameters `mac` and `decode` with no properties.
- The key-length error branch of `new_from_slice` (src/guards/github.rs:38-41) is not modelled. HMAC accepts keys of any length, so this branch never runs.
- The secret is given as the bytes of `GITHUB_WEBHOOK_SECRET`, or `None` when reading the environment fails. The environment itself is not part of this model.
- Reading the body (`read_to_end` with no size limit) is an input: either all the bytes, or a failure.
- Comparing the signature takes time that depends on the input (plain `==`). Timing is not modelled.
- Only the payload fields the handler reads are modelled: action, comment id, comment body and the issue's `repository_url`. `changes` and `enterprise` are not used. `repository_url` is a string, already serialised by the `url` crate. Any normalisation the `url` crate applies when parsing is not part of this model.
- The installation lookup, the installation token and the delete call are network calls. The lookup is a parameter. The delete is only the request emitted, and its answer is discarded as in the source.
- `Routes.Github`: the framework answers a panic in the handler with an error response of its own. The model stops at `Panic`.
- The order in which the framework runs the two guards is not modelled. The event guard is optional and never fails, so the order does not change the outcome.
- src/app.rs (reading credentials, building the API client) and the `rocket()` launch with `dotenv` and route mounting (src/main.rs:14-21) are configuration and framework setup.
- Async execution and concurrent deliveries are not modelled. Deliveries share no state.
