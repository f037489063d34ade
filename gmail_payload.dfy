/**
 * The per-message normalisation of the `/emails` route (backend/index.js:70-89):
 * a Gmail message payload becomes one `{subject, from, body}` summary.
 * Header lookup and part selection follow JavaScript's `Array.prototype.find`
 * (the first element that matches) and its truthiness rules.
 */
module GmailPayload {
  import opened Wrappers
  import Base64

  datatype Header = Header(name: string, value: string)

  /** `body` of a part or of the payload; `data` is base64 text (absent for empty bodies). */
  datatype PartBody = PartBody(data: Option<Base64.Base64Text>)

  /**
   * One MIME part. An absent `mimeType` behaves like any string other than
   * `text/plain`. Nested `parts` are kept so that the model can state that they
   * are never searched.
   */
  datatype MessagePart = MessagePart(mimeType: string, body: Option<PartBody>, parts: seq<MessagePart>)

  /** `msgDetail.data.payload`; each field may be absent. */
  datatype Payload = Payload(headers: Option<seq<Header>>, parts: Option<seq<MessagePart>>, body: Option<PartBody>)

  datatype EmailSummary = EmailSummary(subject: string, from: string, body: seq<Base64.byte>)

  /** The two ways a fetched message can make the handler throw a `TypeError`. */
  datatype SummaryError = MissingPayload | MissingHeaders

  const NoSubject: string := "(No Subject)"
  const UnknownSender: string := "(Unknown Sender)"
  const TextPlain: string := "text/plain"

  /** `Array.prototype.find`, returning the position of the first element that satisfies `p`. */
  function FindFirst<T>(s: seq<T>, p: T -> bool): (r: Option<nat>)
    ensures r.Some? ==> r.value < |s| && p(s[r.value])
    ensures r.Some? ==> forall j | 0 <= j < r.value :: !p(s[j])
    ensures r.None? ==> forall j | 0 <= j < |s| :: !p(s[j])
  {
    if |s| == 0 then None
    else if p(s[0]) then Some(0)
    else
      match FindFirst(s[1..], p)
      case None => None
      case Some(k) => Some(k + 1)
  }

  predicate Named(h: Header, name: string) {
    h.name == name
  }

  /**
   * The value of the first header called exactly `name` (case matters), or
   * `default` when there is none.
   */
  function HeaderValue(headers: seq<Header>, name: string, default: string): (v: string)
    ensures (forall i | 0 <= i < |headers| :: !Named(headers[i], name)) ==> v == default
    ensures forall i | 0 <= i < |headers| && Named(headers[i], name) ::
              (forall j | 0 <= j < i :: !Named(headers[j], name)) ==> v == headers[i].value
  {
    match FindFirst(headers, h => Named(h, name))
    case None => default
    case Some(k) => headers[k].value
  }

  /**
   * `body?.data` is truthy: the body is there and its data is a non-empty
   * string, which is exactly when decoding the data gives at least one byte.
   */
  predicate HasData(body: Option<PartBody>)
    ensures body.Some? && body.value.data.Some? ==>
      (HasData(body) <==> Base64.Decode(body.value.data.value) != [])
  {
    body.Some? && body.value.data.Some? && body.value.data.value != ""
  }

  predicate IsTextPlain(part: MessagePart) {
    part.mimeType == TextPlain
  }

  /** Part `k` is the one `parts.find(p => p.mimeType === 'text/plain')` returns. */
  predicate IsFirstTextPlain(parts: seq<MessagePart>, k: nat) {
    k < |parts| && IsTextPlain(parts[k]) && forall j | 0 <= j < k :: !IsTextPlain(parts[j])
  }

  /**
   * The base64 text the body is decoded from, if any. With `parts` present (even
   * an empty list, which JavaScript treats as true) only the first `text/plain`
   * part is looked at; otherwise the payload's own body.
   */
  function BodyData(p: Payload): (r: Option<Base64.Base64Text>)
    ensures r.Some? ==> r.value != ""
    ensures p.parts.None? ==> (r.Some? <==> HasData(p.body)) && (r.Some? ==> r == p.body.value.data)
    ensures p.parts.Some? && (forall j | 0 <= j < |p.parts.value| :: !IsTextPlain(p.parts.value[j])) ==> r.None?
    ensures p.parts.Some? ==> forall k: nat | IsFirstTextPlain(p.parts.value, k) ::
      (r.Some? <==> HasData(p.parts.value[k].body)) && (r.Some? ==> r == p.parts.value[k].body.value.data)
  {
    if p.parts.Some? then
      match FindFirst(p.parts.value, IsTextPlain)
      case None => None
      case Some(k) =>
        assert forall i: nat | IsFirstTextPlain(p.parts.value, i) :: i == k;
        if HasData(p.parts.value[k].body) then p.parts.value[k].body.value.data else None
    else if HasData(p.body) then p.body.value.data
    else None
  }

  /** The message body as bytes: empty exactly when no data was selected, else the decoded data. */
  function BodyBytes(p: Payload): (r: seq<Base64.byte>)
    ensures r == [] <==> BodyData(p).None?
    ensures BodyData(p).Some? ==> r == Base64.Decode(BodyData(p).value)
  {
    match BodyData(p)
    case None => []
    case Some(data) => Base64.Decode(data)
  }

  /**
   * One iteration of the loop body: a missing payload or a missing header list
   * throws (the request fails); otherwise subject, sender and body are extracted.
   */
  function Summarize(payload: Option<Payload>): (r: Result<EmailSummary, SummaryError>)
    ensures r.Failure? <==> payload.None? || payload.value.headers.None?
    ensures payload.None? ==> r == Failure(MissingPayload)
    ensures r.Success? ==>
      var p := payload.value;
      && r.value.subject == HeaderValue(p.headers.value, "Subject", NoSubject)
      && r.value.from == HeaderValue(p.headers.value, "From", UnknownSender)
      && r.value.body == BodyBytes(p)
  {
    match payload
    case None => Failure(MissingPayload)
    case Some(p) =>
      match p.headers
      case None => Failure(MissingHeaders)
      case Some(headers) =>
        Success(EmailSummary(
          HeaderValue(headers, "Subject", NoSubject),
          HeaderValue(headers, "From", UnknownSender),
          BodyBytes(p)))
  }

  // Properties of the body selection.

  /** With `parts` present, the body is that of the first `text/plain` part, or empty if it has no data. */
  lemma BodyFromFirstTextPlain(p: Payload, k: nat)
    requires p.parts.Some? && k < |p.parts.value| && IsTextPlain(p.parts.value[k])
    requires forall j | 0 <= j < k :: !IsTextPlain(p.parts.value[j])
    ensures var part := p.parts.value[k];
      BodyBytes(p) == if HasData(part.body) then Base64.Decode(part.body.value.data.value) else []
  {
    assert FindFirst(p.parts.value, IsTextPlain) == Some(k);
  }

  /** With `parts` present but no `text/plain` part among them, the body is empty. */
  lemma NoTextPlainNoBody(p: Payload)
    requires p.parts.Some?
    requires forall j | 0 <= j < |p.parts.value| :: !IsTextPlain(p.parts.value[j])
    ensures BodyBytes(p) == []
  {
    assert FindFirst(p.parts.value, IsTextPlain) == None;
  }

  /** With `parts` present, the payload's own body plays no part. */
  lemma PartsShadowTopLevelBody(p: Payload, body: Option<PartBody>)
    requires p.parts.Some?
    ensures BodyBytes(p.(body := body)) == BodyBytes(p)
  {
  }

  /**
   * `find` gives the same answer on two lists that agree, element by element, on
   * the predicate. This follows from the contract of `FindFirst`, which fixes the
   * result as the first position where the predicate holds.
   */
  lemma FindFirstAgrees<T>(s: seq<T>, t: seq<T>, p: T -> bool)
    requires |s| == |t|
    requires forall i | 0 <= i < |s| :: p(s[i]) == p(t[i])
    ensures FindFirst(s, p) == FindFirst(t, p)
  {
  }

  /**
   * Only the top level of `parts` is searched: parts with the same types and
   * bodies give the same message body whatever they nest.
   */
  lemma NestedPartsIgnored(p: Payload, parts: seq<MessagePart>)
    requires p.parts.Some? && |parts| == |p.parts.value|
    requires forall i | 0 <= i < |parts| ::
      parts[i].mimeType == p.parts.value[i].mimeType && parts[i].body == p.parts.value[i].body
    ensures BodyBytes(p.(parts := Some(parts))) == BodyBytes(p)
  {
    FindFirstAgrees(parts, p.parts.value, IsTextPlain);
  }

  /** Without `parts`, the body is the decoded payload body when it has data, and empty otherwise. */
  lemma SinglePartBody(p: Payload)
    requires p.parts.None?
    ensures BodyBytes(p) == if HasData(p.body) then Base64.Decode(p.body.value.data.value) else []
  {
  }

  /** The data field of `body` holds exactly `text`. */
  predicate Carries(body: Option<PartBody>, text: string) {
    body.Some? && body.value.data.Some? && body.value.data.value == text
  }

  /** A single-part message carrying the encoding of `b`, in either alphabet, has body `b`. */
  lemma SinglePartRoundTrip(p: Payload, b: seq<Base64.byte>, alphabet: Base64.Alphabet, padded: bool)
    requires p.parts.None? && Carries(p.body, Base64.Encode(b, alphabet, padded))
    ensures BodyBytes(p) == b
  {
    Base64.DecodeEncode(b, alphabet, padded);
  }

  /**
   * A multipart message whose first `text/plain` part carries the encoding of
   * `b` has body `b`, whatever the other parts and the payload's own body hold.
   */
  lemma MultipartRoundTrip(p: Payload, k: nat, b: seq<Base64.byte>, alphabet: Base64.Alphabet, padded: bool)
    requires p.parts.Some? && k < |p.parts.value| && IsTextPlain(p.parts.value[k])
    requires forall j | 0 <= j < k :: !IsTextPlain(p.parts.value[j])
    requires Carries(p.parts.value[k].body, Base64.Encode(b, alphabet, padded))
    ensures BodyBytes(p) == b
  {
    Base64.DecodeEncode(b, alphabet, padded);
    BodyFromFirstTextPlain(p, k);
  }

  // Worked examples: "hello" and "world" as ASCII bytes.

  /** A single-part message whose body data is `aGVsbG8=` has the body `hello`. */
  lemma SinglePartHello(p: Payload)
    requires p.parts.None? && Carries(p.body, "aGVsbG8=")
    ensures BodyBytes(p) == [104, 101, 108, 108, 111]
  {
    assert Base64.StripPadding("aGVsbG8=") == "aGVsbG8";
    assert "aGVsbG8"[4..] == "bG8";
  }

  /** A multipart message with one `text/plain` part whose data is `d29ybGQ=` has the body `world`. */
  lemma MultipartWorld(p: Payload)
    requires p.parts.Some? && |p.parts.value| == 1
    requires IsTextPlain(p.parts.value[0]) && Carries(p.parts.value[0].body, "d29ybGQ=")
    ensures BodyBytes(p) == [119, 111, 114, 108, 100]
  {
    assert Base64.StripPadding("d29ybGQ=") == "d29ybGQ";
    assert "d29ybGQ"[4..] == "bGQ";
  }

  /** A multipart message with only a `text/html` part has an empty body. */
  lemma HtmlOnlyHasNoBody(p: Payload)
    requires p.parts.Some? && |p.parts.value| == 1 && p.parts.value[0].mimeType == "text/html"
    ensures BodyBytes(p) == []
  {
    NoTextPlainNoBody(p);
  }
}
