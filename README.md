# MailWise backend: a Dafny model of its two route handlers

MailWise's backend is a small Express server over Google's OAuth2 and Gmail
clients. It has two pieces of logic of its own, and this project models both:

- **`GET /emails`** turns the Gmail messages into a list of
  `{subject, from, body}` summaries:
  - It lists the latest message ids and fetches each message in order.
  - `subject` and `from` come from the first header with exactly that name.
    When there is none, they fall back to `"(No Subject)"` and `"(Unknown Sender)"`.
  - The body is the base64 decoding of one data string: either the first
    `text/plain` part's data or the payload's own data.
  - If anything fails, the whole request answers
    `500 {error: "Failed to fetch emails"}` and no partial list.
- **`GET /oauth2callback`** checks the `code` query parameter and exchanges it
  for tokens. It stores the tokens in the process-wide credential slot:
  - 400 and no change without a code;
  - 200 and the new tokens on success;
  - 500 and no change when the exchange fails.

Modules, one per component:

- `Wrappers` (`wrappers.dfy`): `Option` and `Result`.
- `Base64` (`base64.dfy`): the decoder behind `Buffer.from(data, 'base64')` on
  well-formed input. It accepts the standard alphabet (section 4 of RFC 4648)
  and the URL- and filename-safe alphabet (section 5 of RFC 4648), with or
  without `=` padding. Its partner is an encoder for either alphabet, and the
  round trip `Decode(Encode(b)) == b` is proved.
- `GmailPayload` (`gmail_payload.dfy`): the message payload as datatypes.
  It holds `Array.prototype.find` as `FindFirst`, the header lookup, the body
  selection, and `Summarize`, which is one iteration of the handler's loop.
- `EmailsRoute` (`emails_route.dfy`): the handler's accumulation loop as a
  method with a `while` loop. Its loop invariant ties the list built so far to
  `Collect`, a recursive statement of the same accumulation, and a lemma proves
  that `Collect` is all or nothing.
- `OAuthCallback` (`oauth_callback.dfy`): the `CredentialStore` class holding
  the credential slot. Its `HandleCallback` method is proved against a pure
  `Callback` function. `Replay` folds `Callback` over a series of requests and
  shows that the last successful exchange wins.

The network calls are inputs to the model:
- the listing reply (`ListReply`);
- `get`, which maps a message id to its `messages.get` reply (`GetReply`);
- `exchange`, which maps a code to the result of `getToken` (`Exchange`).

JavaScript truthiness is modelled where the code relies on it:
- An empty `code` is rejected with 400, like a missing one (backend/index.js:35).
- `parts: []` still counts as present, so the payload's own body is ignored and
  the body is empty (backend/index.js:80).
- An empty data string counts as no data, and the body stays empty
  (backend/index.js:82, 85).

A message without a payload or without a header list makes the handler throw a
`TypeError` when it reads the headers (backend/index.js:70-71). The whole
request then fails with the generic 500. `Summarize` returns
`Failure(MissingPayload)` or `Failure(MissingHeaders)` for these messages.

## Model

| member | source | states |
|---|---|---|
| `Base64.Digit` | backend/index.js:83 | the digit for a value lies in the chosen alphabet and the decoder reads it back as that value |
| `Base64.StripPadding` | backend/index.js:83 | removing the trailing padding keeps a prefix of the text and drops at most two characters, every one of them `=` |
| `Base64.Decode` | backend/index.js:83-86 | `Buffer.from(data, 'base64')` on well-formed text: the empty text, and only the empty text, decodes to no bytes |
| `Base64.DecodeDigits` | backend/index.js:83 | decoding `n` digits gives `3n/4` bytes, rounded down (whole groups give three bytes, a final group of 2 or 3 digits gives 1 or 2) |
| `Base64.EncodeDigits` | backend/index.js:83 | an encoding uses only digits of its alphabet, and its length modulo 4 is fixed by the number of leftover bytes |
| `Base64.DecodeEncodeDigits` | backend/index.js:83 | unpadded encodings are valid decoder input and decode back to the original bytes |
| `Base64.DecodeEncode` | backend/index.js:83-86 | every encoding, in either RFC 4648 alphabet, padded or not, is well-formed and decodes back to the original bytes |
| `GmailPayload.FindFirst` | backend/index.js:71-72 | `find` returns the first element satisfying the predicate, or nothing exactly when none does |
| `GmailPayload.HeaderValue` | backend/index.js:71-75 | the value of the first header named exactly `name`, or the default when no header has that name |
| `GmailPayload.HasData` | backend/index.js:82-85 | `body?.data` is truthy exactly when the data, once decoded, gives at least one byte |
| `GmailPayload.BodyData` | backend/index.js:77-87 | the selected data is never empty; without `parts` it is the payload's body data when that is truthy; with `parts` it is the data of the first `text/plain` part when that is truthy, and nothing when no part is `text/plain` |
| `GmailPayload.BodyBytes` | backend/index.js:77-87 | the body is empty exactly when no data was selected, and otherwise is the decoding of the selected data |
| `GmailPayload.Summarize` | backend/index.js:70-89 | one message fails exactly when its payload or header list is missing; otherwise subject is the first `Subject` header or `(No Subject)`, from is the first `From` header or `(Unknown Sender)`, and body is the decoded body |
| `GmailPayload.BodyFromFirstTextPlain` | backend/index.js:78-84 | with `parts` present, the body is the decoding of the first `text/plain` part's data, or empty if that part has no data (later parts are not consulted) |
| `GmailPayload.NoTextPlainNoBody` | backend/index.js:80-84 | with `parts` present and no `text/plain` part, the body is empty |
| `GmailPayload.PartsShadowTopLevelBody` | backend/index.js:80-87 | with `parts` present, the payload's own body does not affect the result |
| `GmailPayload.FindFirstAgrees` | backend/index.js:81 | `find` depends only on the predicate's value at each element |
| `GmailPayload.NestedPartsIgnored` | backend/index.js:78-81 | parts nested inside parts are never searched |
| `GmailPayload.SinglePartBody` | backend/index.js:85-87 | without `parts`, the body is the decoding of the payload's body data when it is non-empty, and empty otherwise |
| `GmailPayload.SinglePartRoundTrip` | backend/index.js:85-86 | a single-part message carrying the encoding of `b` in either alphabet has body `b` |
| `GmailPayload.MultipartRoundTrip` | backend/index.js:81-83 | a multipart message whose first `text/plain` part carries the encoding of `b` has body `b` |
| `GmailPayload.SinglePartHello` | backend/index.js:85-86 | body data `aGVsbG8=` decodes to `hello` |
| `GmailPayload.MultipartWorld` | backend/index.js:80-83 | a lone `text/plain` part with data `d29ybGQ=` gives the body `world` |
| `GmailPayload.HtmlOnlyHasNoBody` | backend/index.js:80-84 | a message whose only part is `text/html` has an empty body |
| `EmailsRoute.ListedIds` | backend/index.js:61 | a missing `messages` field gives no ids; otherwise the ids of the listed messages, in order |
| `EmailsRoute.FetchSummary` | backend/index.js:65-89 | one iteration succeeds exactly when the fetch succeeds and the payload can be summarised, and then yields that summary |
| `EmailsRoute.CollectAllOrNothing` | backend/index.js:62-92 | the accumulated list exists exactly when every message is fetched and summarised, and then has one summary per id, in order |
| `EmailsRoute.FetchEmails` | backend/index.js:53-96 | the response is a list exactly when the listing and every fetch succeed; the list has one entry per listed id, in order; otherwise it is the 500 `Failed to fetch emails` error with no partial list |
| `OAuthCallback.HasCode` | backend/index.js:35 | `!code` is false for every value except `undefined` and `""` |
| `OAuthCallback.Callback` | backend/index.js:33-48 | 400 exactly when the code is missing or empty; 200 exactly when the exchange grants tokens, and then the slot holds exactly those tokens; on every other status the slot is unchanged |
| `OAuthCallback.ReplayWithoutGrantKeeps` | backend/index.js:35-47 | a series of requests in which no exchange succeeds leaves the slot as it was |
| `OAuthCallback.ReplayLastGrantWins` | backend/index.js:40-41 | after a series of requests, the slot holds the tokens of the last successful exchange |
| `OAuthCallback.CredentialStore.constructor` | backend/index.js:10-14 | the client starts with no stored tokens |
| `OAuthCallback.CredentialStore.SetCredentials` | backend/index.js:41 | `setCredentials` replaces the slot with exactly the given tokens |
| `OAuthCallback.CredentialStore.HandleCallback` | backend/index.js:32-49 | 400 and unchanged slot without a code; 500 and unchanged slot when the exchange fails; 200 and exactly the granted tokens otherwise; the result agrees with `Callback` |

## Left out

- Express setup, CORS, JSON middleware, the `/` banner and `app.listen` (backend/index.js:1-8, 99-108): framework plumbing and I/O.
- The construction of the OAuth2 client from environment variables, `generateAuthUrl` and the `/auth` redirect (backend/index.js:10-29): URL building inside the client library, which is not part of this model.
- The Gmail and token-endpoint network calls: their replies are inputs. `get` is a function of the id, so a message id listed twice gets the same reply both times.
- `exchange` is a function of the code, so a code sent twice gets the same outcome both times. Real authorization codes are single-use, and the provider rejects a second exchange of the same code. No proved fact depends on this: `ReplayWithoutGrantKeeps` and `ReplayLastGrantWins` speak only of which requests were granted.
- The `maxResults: 5` bound: the listing is an input, and the handler itself never checks its length.
- The credential that `/emails` passes to Gmail: how Gmail reacts to a missing or expired token is part of the `get` and listing replies.
- async/await interleaving and the unsynchronised race between a callback and a retrieval: concurrency, not sequential behaviour.
- `Buffer.toString()` UTF-8 decoding: the body is kept as the decoded bytes.
- Node's lenient base64 handling of malformed input (skipped characters, irregular padding): payload data has the type `Base64Text`, which admits well-formed input only. Bits left over in a final partial group are ignored, as Node does.
- A `code` query parameter given more than once (which Express turns into an array): `code` is modelled as an optional string.
- Header and part fields other than the ones the handler reads, and a header whose `value` is absent: a found header's value is always a string here.
- `console.log` and `console.error` logging, including the logged error detail.
