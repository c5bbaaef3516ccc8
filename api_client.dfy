/**
 * The client of the internal REST API: every call is a POST of a JSON body
 * to a fixed path under the base URL, signed with HMAC-SHA256 over the
 * timestamp, the method, the path and the SHA-256 of the body. A response
 * with a status outside 2xx is an error and its body is not decoded.
 *
 * SHA-256 and HMAC-SHA256 are not computed here: they are the two
 * functions of a `Crypto` value, each giving a 32-byte digest. The clock
 * is the `timestamp` parameter, and decoding a response body is the
 * `decode` parameter.
 */
module ApiClient {
  import opened Wrappers
  import opened Text
  import opened Encoding
  import opened Json

  type u64 = n: int | 0 <= n < 0x1_0000_0000_0000_0000

  type Digest = d: seq<byte> | |d| == 32 witness seq(32, _ => 0)

  /** SHA-256 over bytes, and HMAC-SHA256 with a key over bytes. */
  datatype Crypto = Crypto(sha256: seq<byte> -> Digest, hmacSha256: (seq<byte>, seq<byte>) -> Digest)

  /** The client's configuration: where the API is, the key that names this service and the secret it signs with. */
  datatype ApiClient = ApiClient(baseUrl: string, serviceKey: string, secretKey: string)

  // ---------------------------------------------------------------------
  // Signing
  // ---------------------------------------------------------------------

  const SignaturePrefix := "sha256="

  /** The body hash: the lowercase hex of the SHA-256 of the body's bytes. */
  function BodyHash(crypto: Crypto, body: string): (r: string)
    ensures |r| == 64
    ensures forall i :: 0 <= i < |r| ==> IsHexDigit(r[i])
    ensures FromHex(r) == Some(crypto.sha256(Utf8(body)))
  {
    var digest := crypto.sha256(Utf8(body));
    FromHexHex(digest);
    Hex(digest)
  }

  /** What is signed: the decimal timestamp, the method, the path and the body hash, with nothing between them. */
  function SigningMessage(timestamp: u64, httpMethod: string, path: string, bodyHash: string): string {
    Decimal(timestamp) + httpMethod + path + bodyHash
  }

  /** `generate_signature`: "sha256=" and the lowercase hex of the HMAC of the message under the secret key. */
  function GenerateSignature(client: ApiClient, crypto: Crypto, timestamp: u64, httpMethod: string, path: string, body: string): (r: string)
    ensures |r| == 71 && StartsWith(r, SignaturePrefix)
    ensures forall i :: 7 <= i < 71 ==> IsHexDigit(r[i])
  {
    var message := SigningMessage(timestamp, httpMethod, path, BodyHash(crypto, body));
    SignaturePrefix + Hex(crypto.hmacSha256(Utf8(client.secretKey), Utf8(message)))
  }

  /** The MAC a signature header carries, when it has the signature's form. */
  function SignatureMac(signature: string): Option<seq<byte>> {
    if |signature| == 71 && StartsWith(signature, SignaturePrefix) then FromHex(signature[7..]) else None
  }

  /** The signature carries exactly the HMAC of the message: nothing of the MAC is lost in the rendering. */
  lemma SignatureCarriesMac(client: ApiClient, crypto: Crypto, timestamp: u64, httpMethod: string, path: string, body: string)
    ensures SignatureMac(GenerateSignature(client, crypto, timestamp, httpMethod, path, body)) ==
      Some(crypto.hmacSha256(Utf8(client.secretKey),
        Utf8(SigningMessage(timestamp, httpMethod, path, BodyHash(crypto, body)))))
  {
    var mac := crypto.hmacSha256(Utf8(client.secretKey), Utf8(SigningMessage(timestamp, httpMethod, path, BodyHash(crypto, body))));
    var r := GenerateSignature(client, crypto, timestamp, httpMethod, path, body);
    assert r[7..] == Hex(mac);
    FromHexHex(mac);
  }

  /** Signatures with different MACs differ. */
  lemma SignatureInjective(client: ApiClient, crypto: Crypto, t1: u64, m1: string, p1: string, b1: string,
                           t2: u64, m2: string, p2: string, b2: string)
    requires GenerateSignature(client, crypto, t1, m1, p1, b1) == GenerateSignature(client, crypto, t2, m2, p2, b2)
    ensures crypto.hmacSha256(Utf8(client.secretKey), Utf8(SigningMessage(t1, m1, p1, BodyHash(crypto, b1))))
         == crypto.hmacSha256(Utf8(client.secretKey), Utf8(SigningMessage(t2, m2, p2, BodyHash(crypto, b2))))
  {
    SignatureCarriesMac(client, crypto, t1, m1, p1, b1);
    SignatureCarriesMac(client, crypto, t2, m2, p2, b2);
  }

  /**
   * The message gives back its timestamp (the digits it starts with, when
   * the method does not start with a digit) and its body hash (its last 64
   * characters); what lies between is the method and the path.
   */
  lemma SigningMessageParts(timestamp: u64, httpMethod: string, path: string, body: string, crypto: Crypto)
    requires httpMethod != [] && !IsDigit(httpMethod[0])
    ensures var m := SigningMessage(timestamp, httpMethod, path, BodyHash(crypto, body));
      var k := DigitRun(m);
      && k + 64 <= |m|
      && ParseDecimal(m[..k]) == timestamp
      && m[k..|m| - 64] == httpMethod + path
      && m[|m| - 64..] == BodyHash(crypto, body)
  {
    var d := Decimal(timestamp);
    var h := BodyHash(crypto, body);
    var m := SigningMessage(timestamp, httpMethod, path, h);
    var tail := httpMethod + path + h;
    assert m == d + tail;
    DigitRunDigits(d, tail);
    assert m[..|d|] == d;
    ParseDecimalDecimal(timestamp);
    assert m[|d|..|m| - 64] == httpMethod + path;
    assert m[|m| - 64..] == h;
  }

  // ---------------------------------------------------------------------
  // The request `post` sends
  // ---------------------------------------------------------------------

  datatype HttpRequest = HttpRequest(httpMethod: string, url: string, headers: seq<(string, string)>, body: string)

  const ContentType := "Content-Type"
  const ServiceKey := "X-Service-Key"
  const ServiceSignature := "X-Service-Signature"
  const ServiceTimestamp := "X-Service-Timestamp"

  /** The value of the first header with the name. */
  function Header(headers: seq<(string, string)>, name: string): (r: Option<string>)
    ensures r.Some? ==> (name, r.value) in headers
    ensures r.None? ==> forall i :: 0 <= i < |headers| ==> headers[i].0 != name
  {
    if headers == [] then None
    else if headers[0].0 == name then Some(headers[0].1)
    else
      var r := Header(headers[1..], name);
      assert r.Some? ==> (name, r.value) in headers[1..];
      r
  }

  lemma HeaderNamesDistinct()
    ensures ContentType != ServiceKey && ContentType != ServiceSignature && ContentType != ServiceTimestamp
    ensures ServiceKey != ServiceSignature && ServiceKey != ServiceTimestamp && ServiceSignature != ServiceTimestamp
  {
    assert ContentType[0] != ServiceKey[0];
    assert ContentType[0] != ServiceSignature[0];
    assert ContentType[0] != ServiceTimestamp[0];
    assert ServiceKey[10] != ServiceSignature[10];
    assert ServiceKey[10] != ServiceTimestamp[10];
    assert ServiceSignature[10] != ServiceTimestamp[10];
  }

  /** `post` up to the send: the body is rendered once; the signature is over that body and the timestamp sent in the header. */
  function Post(client: ApiClient, crypto: Crypto, timestamp: u64, path: string, bodyJson: string): HttpRequest {
    var signature := GenerateSignature(client, crypto, timestamp, "POST", path, bodyJson);
    HttpRequest(
      "POST",
      client.baseUrl + path,
      SignedHeaders(client.serviceKey, signature, Decimal(timestamp)),
      bodyJson)
  }

  /**
   * What the API checks on a request it receives for `path`: the
   * signature header carries the HMAC, under the shared secret, of the
   * timestamp header, the method, the path and the hash of the body as
   * received.
   */
  predicate Authentic(secret: string, crypto: Crypto, path: string, request: HttpRequest) {
    match (Header(request.headers, ServiceTimestamp), Header(request.headers, ServiceSignature))
    case (Some(ts), Some(signature)) =>
      SignatureMac(signature) ==
        Some(crypto.hmacSha256(Utf8(secret), Utf8(ts + request.httpMethod + path + BodyHash(crypto, request.body))))
    case _ => false
  }

  /** The headers of a signed request, in the order `post` sets them. */
  function SignedHeaders(serviceKey: string, signature: string, timestamp: string): seq<(string, string)> {
    [(ContentType, "application/json"),
     (ServiceKey, serviceKey),
     (ServiceSignature, signature),
     (ServiceTimestamp, timestamp)]
  }

  /** Each header of a signed request is found under its name. */
  lemma SignedHeadersLookup(serviceKey: string, signature: string, timestamp: string)
    ensures var h := SignedHeaders(serviceKey, signature, timestamp);
      && Header(h, ContentType) == Some("application/json")
      && Header(h, ServiceKey) == Some(serviceKey)
      && Header(h, ServiceSignature) == Some(signature)
      && Header(h, ServiceTimestamp) == Some(timestamp)
  {
    var h := SignedHeaders(serviceKey, signature, timestamp);
    HeaderNamesDistinct();
    assert Header(h[3..], ServiceTimestamp) == Some(timestamp);
    assert Header(h[2..], ServiceTimestamp) == Header(h[3..], ServiceTimestamp);
    assert Header(h[1..], ServiceTimestamp) == Header(h[2..], ServiceTimestamp);
    assert Header(h[2..], ServiceSignature) == Some(signature);
    assert Header(h[1..], ServiceSignature) == Header(h[2..], ServiceSignature);
  }

  lemma PostHeaders(client: ApiClient, crypto: Crypto, timestamp: u64, path: string, bodyJson: string)
    ensures var r := Post(client, crypto, timestamp, path, bodyJson);
      && Header(r.headers, ContentType) == Some("application/json")
      && Header(r.headers, ServiceKey) == Some(client.serviceKey)
      && Header(r.headers, ServiceSignature) == Some(GenerateSignature(client, crypto, timestamp, "POST", path, bodyJson))
      && Header(r.headers, ServiceTimestamp) == Some(Decimal(timestamp))
  {
    SignedHeadersLookup(client.serviceKey, GenerateSignature(client, crypto, timestamp, "POST", path, bodyJson), Decimal(timestamp));
  }

  /**
   * Every request `post` builds is authentic for its path under the
   * client's secret: the body that was signed is the body sent, and the
   * timestamp that was signed is the one in the header, which reads back as the
   * timestamp.
   */
  lemma PostIsAuthentic(client: ApiClient, crypto: Crypto, timestamp: u64, path: string, bodyJson: string)
    ensures var r := Post(client, crypto, timestamp, path, bodyJson);
      && Authentic(client.secretKey, crypto, path, r)
      && r.httpMethod == "POST" && r.url == client.baseUrl + path && r.body == bodyJson
      && ParseDecimal(Header(r.headers, ServiceTimestamp).value) == timestamp
  {
    PostHeaders(client, crypto, timestamp, path, bodyJson);
    SignatureCarriesMac(client, crypto, timestamp, "POST", path, bodyJson);
    ParseDecimalDecimal(timestamp);
  }

  // ---------------------------------------------------------------------
  // The response
  // ---------------------------------------------------------------------

  /** A response: its status, and its body, absent when it could not be read. */
  datatype HttpResponse = HttpResponse(status: nat, text: Option<string>)

  datatype ApiError =
    | StatusError(status: nat, errorText: string)   // the status was not 2xx
    | BodyError                                   // a 2xx body that could not be read or decoded

  datatype ApiResult<R> = Success(value: R) | Failure(error: ApiError)

  predicate IsSuccess(status: nat) {
    200 <= status < 300
  }

  /** The rest of `post`: a status outside 2xx is an error carrying the body, or "Unknown error"; a 2xx body is decoded. */
  function Complete<R>(response: HttpResponse, decode: string -> Option<R>): ApiResult<R> {
    if !IsSuccess(response.status) then
      Failure(StatusError(response.status, match response.text case Some(t) => t case None => "Unknown error"))
    else
      match response.text
      case None => Failure(BodyError)
      case Some(t) =>
        match decode(t)
        case None => Failure(BodyError)
        case Some(v) => Success(v)
  }

  /** A status outside 2xx is an error, whatever the decoder: the body is never decoded. */
  lemma ErrorStatusNotDecoded<R>(response: HttpResponse, decode1: string -> Option<R>, decode2: string -> Option<R>)
    requires !IsSuccess(response.status)
    ensures Complete(response, decode1).Failure?
    ensures Complete(response, decode1).error.StatusError?
    ensures Complete(response, decode1).error.status == response.status
    ensures Complete(response, decode1) == Complete(response, decode2)
  {
  }

  /** A 2xx response succeeds exactly when its body reads and decodes, with the decoded value. */
  lemma SuccessDecoded<R>(response: HttpResponse, decode: string -> Option<R>)
    requires IsSuccess(response.status)
    ensures Complete(response, decode).Success? <==> response.text.Some? && decode(response.text.value).Some?
    ensures Complete(response, decode).Success? ==> Complete(response, decode).value == decode(response.text.value).value
  {
  }

  // ---------------------------------------------------------------------
  // The operations
  // ---------------------------------------------------------------------

  const DomainPath := "/internal/lookup/domain"
  const EmailPath := "/internal/lookup/email"
  const AliasPath := "/internal/lookup/alias"
  const ReceivePath := "/internal/emails/receive"

  /** `lookup_domain`: the body is `{"domain":...}`. */
  function LookupDomain(client: ApiClient, crypto: Crypto, timestamp: u64, domain: string): HttpRequest {
    Post(client, crypto, timestamp, DomainPath, Render(JObject([("domain", JString(domain))])))
  }

  /** `lookup_email`: the body is `{"email":...}`. */
  function LookupEmail(client: ApiClient, crypto: Crypto, timestamp: u64, email: string): HttpRequest {
    Post(client, crypto, timestamp, EmailPath, Render(JObject([("email", JString(email))])))
  }

  /** `lookup_alias`: the body is `{"email":...}` as well; only the path differs. */
  function LookupAlias(client: ApiClient, crypto: Crypto, timestamp: u64, email: string): HttpRequest {
    Post(client, crypto, timestamp, AliasPath, Render(JObject([("email", JString(email))])))
  }

  /** `receive_email`. */
  function ReceiveEmail(client: ApiClient, crypto: Crypto, timestamp: u64, request: ReceiveEmailRequest): HttpRequest {
    Post(client, crypto, timestamp, ReceivePath, Render(ReceiveJson(request)))
  }

  /** Each of the four operations posts to its own path under the base URL, and each request is authentic for its path. */
  lemma Endpoints(client: ApiClient, crypto: Crypto, timestamp: u64, domain: string, email: string, request: ReceiveEmailRequest)
    ensures LookupDomain(client, crypto, timestamp, domain).url == client.baseUrl + DomainPath
    ensures LookupEmail(client, crypto, timestamp, email).url == client.baseUrl + EmailPath
    ensures LookupAlias(client, crypto, timestamp, email).url == client.baseUrl + AliasPath
    ensures ReceiveEmail(client, crypto, timestamp, request).url == client.baseUrl + ReceivePath
    ensures Authentic(client.secretKey, crypto, DomainPath, LookupDomain(client, crypto, timestamp, domain))
    ensures Authentic(client.secretKey, crypto, EmailPath, LookupEmail(client, crypto, timestamp, email))
    ensures Authentic(client.secretKey, crypto, AliasPath, LookupAlias(client, crypto, timestamp, email))
    ensures Authentic(client.secretKey, crypto, ReceivePath, ReceiveEmail(client, crypto, timestamp, request))
  {
    PostIsAuthentic(client, crypto, timestamp, DomainPath, Render(JObject([("domain", JString(domain))])));
    PostIsAuthentic(client, crypto, timestamp, EmailPath, Render(JObject([("email", JString(email))])));
    PostIsAuthentic(client, crypto, timestamp, AliasPath, Render(JObject([("email", JString(email))])));
    PostIsAuthentic(client, crypto, timestamp, ReceivePath, Render(ReceiveJson(request)));
  }

  /** The lookup bodies read back as the one-member objects they render. */
  lemma LookupBodies(client: ApiClient, crypto: Crypto, timestamp: u64, domain: string, email: string)
    ensures Parse(LookupDomain(client, crypto, timestamp, domain).body) == Some(JObject([("domain", JString(domain))]))
    ensures Parse(LookupEmail(client, crypto, timestamp, email).body) == Some(JObject([("email", JString(email))]))
    ensures Parse(LookupAlias(client, crypto, timestamp, email).body) == Some(JObject([("email", JString(email))]))
  {
    ParseRendered(JObject([("domain", JString(domain))]));
    ParseRendered(JObject([("email", JString(email))]));
  }

  // ---------------------------------------------------------------------
  // The delivery request body
  // ---------------------------------------------------------------------

  datatype Attachment = Attachment(filename: string, contentType: string, sizeBytes: u64, content: string)

  datatype ReceiveEmailRequest = ReceiveEmailRequest(
    from: string,
    to: seq<string>,
    cc: seq<string>,
    bcc: seq<string>,
    subject: Option<string>,
    bodyText: Option<string>,
    bodyHtml: Option<string>,
    headers: Option<Json>,
    attachments: seq<Attachment>)

  function Strings(xs: seq<string>): (r: seq<Json>)
    ensures |r| == |xs|
    ensures forall i :: 0 <= i < |xs| ==> r[i] == JString(xs[i])
  {
    if xs == [] then [] else [JString(xs[0])] + Strings(xs[1..])
  }

  function OptionalString(o: Option<string>): Json {
    match o
    case None => JNull
    case Some(s) => JString(s)
  }

  function AttachmentJson(a: Attachment): Json {
    JObject([("filename", JString(a.filename)),
             ("content_type", JString(a.contentType)),
             ("size_bytes", JNumber(a.sizeBytes)),
             ("content", JString(a.content))])
  }

  function Attachments(xs: seq<Attachment>): (r: seq<Json>)
    ensures |r| == |xs|
    ensures forall i :: 0 <= i < |xs| ==> r[i] == AttachmentJson(xs[i])
  {
    if xs == [] then [] else [AttachmentJson(xs[0])] + Attachments(xs[1..])
  }

  /**
   * A field of a serialised struct: its key, its value and whether its
   * `skip_serializing_if` test holds.
   */
  datatype Field = Field(key: string, value: Json, skip: bool)

  /** The members serde writes for a struct's fields: the unskipped ones, in order. */
  function Written(fields: seq<Field>): seq<(string, Json)> {
    if fields == [] then []
    else (if fields[0].skip then [] else [(fields[0].key, fields[0].value)]) + Written(fields[1..])
  }

  const ReceiveKeys: seq<string> :=
    ["from", "to", "cc", "bcc", "subject", "body_text", "body_html", "headers", "attachments"]

  /**
   * The fields of a `ReceiveEmailRequest` in declaration order: `cc`,
   * `bcc` and `attachments` are skipped when empty, `headers` when absent;
   * an absent subject or body is written as `null`.
   */
  function ReceiveFields(r: ReceiveEmailRequest): seq<Field> {
    [Field("from", JString(r.from), false),
     Field("to", JArray(Strings(r.to)), false),
     Field("cc", JArray(Strings(r.cc)), r.cc == []),
     Field("bcc", JArray(Strings(r.bcc)), r.bcc == []),
     Field("subject", OptionalString(r.subject), false),
     Field("body_text", OptionalString(r.bodyText), false),
     Field("body_html", OptionalString(r.bodyHtml), false),
     Field("headers", if r.headers.Some? then r.headers.value else JNull, r.headers.None?),
     Field("attachments", JArray(Attachments(r.attachments)), r.attachments == [])]
  }

  function ReceiveMembers(r: ReceiveEmailRequest): seq<(string, Json)> {
    Written(ReceiveFields(r))
  }

  function ReceiveJson(r: ReceiveEmailRequest): Json {
    JObject(ReceiveMembers(r))
  }

  // Reading a request body back. The service on the other end finds each
  // field by its key; a missing `cc`, `bcc` or `attachments` is empty and
  // a missing `headers` is absent, as the skip rules above imply.

  function StringsOf(items: seq<Json>): Option<seq<string>> {
    if items == [] then Some([])
    else match (items[0], StringsOf(items[1..]))
      case (JString(s), Some(rest)) => Some([s] + rest)
      case _ => None
  }

  function OptionalStringOf(j: Json): Option<Option<string>> {
    match j
    case JNull => Some(None)
    case JString(s) => Some(Some(s))
    case _ => None
  }

  function StringField(members: seq<(string, Json)>, key: string): Option<string> {
    match Lookup(members, key)
    case Some(JString(s)) => Some(s)
    case _ => None
  }

  function AttachmentOf(j: Json): Option<Attachment> {
    match j
    case JObject(ms) =>
      var filename := StringField(ms, "filename");
      var contentType := StringField(ms, "content_type");
      var content := StringField(ms, "content");
      var size := Lookup(ms, "size_bytes");
      if filename.Some? && contentType.Some? && content.Some? && size.Some? && size.value.JNumber?
         && 0 <= size.value.n < 0x1_0000_0000_0000_0000
      then Some(Attachment(filename.value, contentType.value, size.value.n, content.value))
      else None
    case _ => None
  }

  function AttachmentsOf(items: seq<Json>): Option<seq<Attachment>> {
    if items == [] then Some([])
    else match (AttachmentOf(items[0]), AttachmentsOf(items[1..]))
      case (Some(a), Some(rest)) => Some([a] + rest)
      case _ => None
  }

  /** A list of strings; when not `required`, a missing one reads as empty. */
  function StringsField(members: seq<(string, Json)>, key: string, required: bool): Option<seq<string>> {
    match Lookup(members, key)
    case None => if required then None else Some([])
    case Some(JArray(items)) => StringsOf(items)
    case _ => None
  }

  /** The attachment list; a missing one reads as empty. */
  function AttachmentsField(members: seq<(string, Json)>, key: string): Option<seq<Attachment>> {
    match Lookup(members, key)
    case None => Some([])
    case Some(JArray(items)) => AttachmentsOf(items)
    case _ => None
  }

  function OptionalField(members: seq<(string, Json)>, key: string): Option<Option<string>> {
    match Lookup(members, key)
    case Some(j) => OptionalStringOf(j)
    case None => None
  }

  /** The request whose fields all decoded, if they all did. */
  function Assemble(from: Option<string>, to: Option<seq<string>>, cc: Option<seq<string>>, bcc: Option<seq<string>>,
                    subject: Option<Option<string>>, bodyText: Option<Option<string>>, bodyHtml: Option<Option<string>>,
                    headers: Option<Json>, attachments: Option<seq<Attachment>>): Option<ReceiveEmailRequest> {
    if from.Some? && to.Some? && cc.Some? && bcc.Some? && subject.Some? && bodyText.Some?
       && bodyHtml.Some? && attachments.Some?
    then Some(ReceiveEmailRequest(from.value, to.value, cc.value, bcc.value, subject.value,
                                  bodyText.value, bodyHtml.value, headers, attachments.value))
    else None
  }

  /** The request a JSON body describes, if it describes one. */
  function ReceiveOf(j: Json): Option<ReceiveEmailRequest> {
    match j
    case JObject(ms) =>
      Assemble(StringField(ms, "from"), StringsField(ms, "to", true), StringsField(ms, "cc", false),
               StringsField(ms, "bcc", false), OptionalField(ms, "subject"), OptionalField(ms, "body_text"),
               OptionalField(ms, "body_html"), Lookup(ms, "headers"), AttachmentsField(ms, "attachments"))
    case _ => None
  }

  lemma {:induction false} StringsRoundTrip(xs: seq<string>)
    ensures StringsOf(Strings(xs)) == Some(xs)
  {
    if xs != [] {
      var items := Strings(xs);
      assert items[1..] == Strings(xs[1..]) by {
        assert items == [JString(xs[0])] + Strings(xs[1..]);
      }
      StringsRoundTrip(xs[1..]);
      StringsOfCons(items, xs[0], xs[1..]);
      assert [xs[0]] + xs[1..] == xs;
    }
  }

  /** A string item in front of items that read back to `rest` reads back to that string before `rest`. */
  lemma StringsOfCons(items: seq<Json>, x: string, rest: seq<string>)
    requires items != [] && items[0] == JString(x) && StringsOf(items[1..]) == Some(rest)
    ensures StringsOf(items) == Some([x] + rest)
  {
  }

  lemma OptionalStringRoundTrip(o: Option<string>)
    ensures OptionalStringOf(OptionalString(o)) == Some(o)
  {
  }

  lemma LookupCons(k: string, v: Json, rest: seq<(string, Json)>, key: string)
    ensures Lookup([(k, v)] + rest, key) == if k == key then Some(v) else Lookup(rest, key)
  {
    assert ([(k, v)] + rest)[1..] == rest;
  }

  lemma AttachmentRoundTrip(a: Attachment)
    ensures AttachmentOf(AttachmentJson(a)) == Some(a)
  {
    var ms := [("filename", JString(a.filename)),
               ("content_type", JString(a.contentType)),
               ("size_bytes", JNumber(a.sizeBytes)),
               ("content", JString(a.content))];
    assert ms == [ms[0]] + ([ms[1]] + ([ms[2]] + ([ms[3]] + [])));
    forall key | key in {"filename", "content_type", "size_bytes", "content"}
      ensures Lookup(ms, key) == Some(if key == "filename" then ms[0].1 else if key == "content_type" then ms[1].1
                                      else if key == "size_bytes" then ms[2].1 else ms[3].1)
    {
      LookupCons(ms[0].0, ms[0].1, [ms[1]] + ([ms[2]] + ([ms[3]] + [])), key);
      LookupCons(ms[1].0, ms[1].1, [ms[2]] + ([ms[3]] + []), key);
      LookupCons(ms[2].0, ms[2].1, [ms[3]] + [], key);
      LookupCons(ms[3].0, ms[3].1, [], key);
    }
  }

  lemma {:induction false} AttachmentsRoundTrip(xs: seq<Attachment>)
    ensures AttachmentsOf(Attachments(xs)) == Some(xs)
  {
    if xs != [] {
      AttachmentRoundTrip(xs[0]);
      AttachmentsRoundTrip(xs[1..]);
      assert Attachments(xs)[1..] == Attachments(xs[1..]);
      assert [xs[0]] + xs[1..] == xs;
    }
  }

  predicate DistinctKeys(fields: seq<Field>) {
    forall i, j :: 0 <= i < j < |fields| ==> fields[i].key != fields[j].key
  }

  /** A key no field has is not written. */
  lemma {:induction false} LookupWrittenOther(fields: seq<Field>, key: string)
    requires forall i :: 0 <= i < |fields| ==> fields[i].key != key
    ensures Lookup(Written(fields), key) == None
  {
    if fields != [] {
      LookupWrittenOther(fields[1..], key);
      if fields[0].skip {
        assert Written(fields) == Written(fields[1..]);
      } else {
        LookupCons(fields[0].key, fields[0].value, Written(fields[1..]), key);
      }
    }
  }

  /**
   * With distinct keys, a field's key finds the field's value when it is
   * written and nothing when it is skipped.
   */
  lemma {:induction false} LookupWritten(fields: seq<Field>, i: nat)
    requires DistinctKeys(fields) && i < |fields|
    ensures Lookup(Written(fields), fields[i].key) == if fields[i].skip then None else Some(fields[i].value)
  {
    var key := fields[i].key;
    var rest := fields[1..];
    if i == 0 {
      if fields[0].skip {
        assert Written(fields) == Written(rest);
        LookupWrittenOther(rest, key);
      } else {
        LookupCons(key, fields[0].value, Written(rest), key);
      }
    } else {
      assert rest[i - 1] == fields[i];
      assert DistinctKeys(rest) by {
        forall a, b | 0 <= a < b < |rest| ensures rest[a].key != rest[b].key {
          assert rest[a] == fields[a + 1] && rest[b] == fields[b + 1];
        }
      }
      LookupWritten(rest, i - 1);
      if fields[0].skip {
        assert Written(fields) == Written(rest);
      } else {
        LookupCons(fields[0].key, fields[0].value, Written(rest), key);
      }
    }
  }

  lemma ReceiveKeysDistinct()
    ensures forall i, j :: 0 <= i < j < |ReceiveKeys| ==> ReceiveKeys[i] != ReceiveKeys[j]
  {
  }

  lemma ReceiveFieldsKeys(r: ReceiveEmailRequest)
    ensures |ReceiveFields(r)| == |ReceiveKeys|
    ensures forall i :: 0 <= i < |ReceiveKeys| ==> ReceiveFields(r)[i].key == ReceiveKeys[i]
    ensures DistinctKeys(ReceiveFields(r))
  {
    ReceiveKeysDistinct();
  }

  /**
   * What a serialised request holds under each key: `from`, `to`,
   * `subject`, `body_text` and `body_html` always, `cc`, `bcc` and
   * `attachments` exactly when non-empty and `headers` exactly when
   * present.
   */
  lemma ReceiveLookupEnvelope(r: ReceiveEmailRequest)
    ensures var ms := ReceiveMembers(r);
      && Lookup(ms, "from") == Some(JString(r.from))
      && Lookup(ms, "to") == Some(JArray(Strings(r.to)))
      && Lookup(ms, "cc") == (if r.cc == [] then None else Some(JArray(Strings(r.cc))))
      && Lookup(ms, "bcc") == (if r.bcc == [] then None else Some(JArray(Strings(r.bcc))))
  {
    ReceiveFieldsKeys(r);
    LookupWritten(ReceiveFields(r), 0);
    LookupWritten(ReceiveFields(r), 1);
    LookupWritten(ReceiveFields(r), 2);
    LookupWritten(ReceiveFields(r), 3);
  }

  lemma ReceiveLookupContent(r: ReceiveEmailRequest)
    ensures var ms := ReceiveMembers(r);
      && Lookup(ms, "subject") == Some(OptionalString(r.subject))
      && Lookup(ms, "body_text") == Some(OptionalString(r.bodyText))
      && Lookup(ms, "body_html") == Some(OptionalString(r.bodyHtml))
      && Lookup(ms, "headers") == r.headers
      && Lookup(ms, "attachments") == (if r.attachments == [] then None else Some(JArray(Attachments(r.attachments))))
  {
    ReceiveFieldsKeys(r);
    LookupWritten(ReceiveFields(r), 4);
    LookupWritten(ReceiveFields(r), 5);
    LookupWritten(ReceiveFields(r), 6);
    LookupWritten(ReceiveFields(r), 7);
    LookupWritten(ReceiveFields(r), 8);
  }

  /** Nothing is written under a key that is not one of the struct's fields. */
  lemma ReceiveOtherKey(r: ReceiveEmailRequest, key: string)
    requires key !in ReceiveKeys
    ensures Lookup(ReceiveMembers(r), key) == None
  {
    ReceiveFieldsKeys(r);
    LookupWrittenOther(ReceiveFields(r), key);
  }

  /** A field the serialiser skips is exactly an empty list or an absent value. */
  lemma ReceiveOmission(r: ReceiveEmailRequest)
    ensures "cc" in Keys(ReceiveMembers(r)) <==> r.cc != []
    ensures "bcc" in Keys(ReceiveMembers(r)) <==> r.bcc != []
    ensures "headers" in Keys(ReceiveMembers(r)) <==> r.headers.Some?
    ensures "attachments" in Keys(ReceiveMembers(r)) <==> r.attachments != []
    ensures "from" in Keys(ReceiveMembers(r)) && "to" in Keys(ReceiveMembers(r))
    ensures "subject" in Keys(ReceiveMembers(r)) && "body_text" in Keys(ReceiveMembers(r))
    ensures "body_html" in Keys(ReceiveMembers(r))
  {
    ReceiveLookupEnvelope(r);
    ReceiveLookupContent(r);
    var ms := ReceiveMembers(r);
    LookupKeys(ms, "from");
    LookupKeys(ms, "to");
    LookupKeys(ms, "cc");
    LookupKeys(ms, "bcc");
    LookupKeys(ms, "subject");
    LookupKeys(ms, "body_text");
    LookupKeys(ms, "body_html");
    LookupKeys(ms, "headers");
    LookupKeys(ms, "attachments");
  }

  lemma StringsFieldRead(ms: seq<(string, Json)>, key: string, required: bool, xs: seq<string>)
    requires Lookup(ms, key) == Some(JArray(Strings(xs))) || (!required && xs == [] && Lookup(ms, key) == None)
    ensures StringsField(ms, key, required) == Some(xs)
  {
    StringsRoundTrip(xs);
  }

  lemma AttachmentsFieldRead(ms: seq<(string, Json)>, key: string, xs: seq<Attachment>)
    requires Lookup(ms, key) == Some(JArray(Attachments(xs))) || (xs == [] && Lookup(ms, key) == None)
    ensures AttachmentsField(ms, key) == Some(xs)
  {
    AttachmentsRoundTrip(xs);
  }

  lemma OptionalFieldRead(ms: seq<(string, Json)>, key: string, o: Option<string>)
    requires Lookup(ms, key) == Some(OptionalString(o))
    ensures OptionalField(ms, key) == Some(o)
  {
    OptionalStringRoundTrip(o);
  }

  /** The envelope fields read back from the members they serialise to. */
  lemma ReadEnvelope(ms: seq<(string, Json)>, r: ReceiveEmailRequest)
    requires Lookup(ms, "to") == Some(JArray(Strings(r.to)))
    requires Lookup(ms, "cc") == (if r.cc == [] then None else Some(JArray(Strings(r.cc))))
    requires Lookup(ms, "bcc") == (if r.bcc == [] then None else Some(JArray(Strings(r.bcc))))
    ensures StringsField(ms, "to", true) == Some(r.to)
    ensures StringsField(ms, "cc", false) == Some(r.cc)
    ensures StringsField(ms, "bcc", false) == Some(r.bcc)
  {
    StringsFieldRead(ms, "to", true, r.to);
    StringsFieldRead(ms, "cc", false, r.cc);
    StringsFieldRead(ms, "bcc", false, r.bcc);
  }

  /** The content fields read back from the members they serialise to. */
  lemma ReadContent(ms: seq<(string, Json)>, r: ReceiveEmailRequest)
    requires Lookup(ms, "subject") == Some(OptionalString(r.subject))
    requires Lookup(ms, "body_text") == Some(OptionalString(r.bodyText))
    requires Lookup(ms, "body_html") == Some(OptionalString(r.bodyHtml))
    requires Lookup(ms, "attachments") == (if r.attachments == [] then None else Some(JArray(Attachments(r.attachments))))
    ensures OptionalField(ms, "subject") == Some(r.subject)
    ensures OptionalField(ms, "body_text") == Some(r.bodyText)
    ensures OptionalField(ms, "body_html") == Some(r.bodyHtml)
    ensures AttachmentsField(ms, "attachments") == Some(r.attachments)
  {
    OptionalFieldRead(ms, "subject", r.subject);
    OptionalFieldRead(ms, "body_text", r.bodyText);
    OptionalFieldRead(ms, "body_html", r.bodyHtml);
    AttachmentsFieldRead(ms, "attachments", r.attachments);
  }

  /** Reading a serialised request gives back the request. */
  lemma ReceiveRoundTrip(r: ReceiveEmailRequest)
    ensures ReceiveOf(ReceiveJson(r)) == Some(r)
  {
    var ms := ReceiveMembers(r);
    ReceiveLookupEnvelope(r);
    ReceiveLookupContent(r);
    ReadEnvelope(ms, r);
    ReadContent(ms, r);
    assert StringField(ms, "from") == Some(r.from);
    assert ReceiveOf(ReceiveJson(r)) ==
      Assemble(StringField(ms, "from"), StringsField(ms, "to", true), StringsField(ms, "cc", false),
               StringsField(ms, "bcc", false), OptionalField(ms, "subject"), OptionalField(ms, "body_text"),
               OptionalField(ms, "body_html"), Lookup(ms, "headers"), AttachmentsField(ms, "attachments"));
  }

  /** The body `receive_email` posts reads back, through the JSON text, as its request. */
  lemma ReceiveEmailBody(client: ApiClient, crypto: Crypto, timestamp: u64, request: ReceiveEmailRequest)
    ensures var body := Parse(ReceiveEmail(client, crypto, timestamp, request).body);
      body.Some? && ReceiveOf(body.value) == Some(request)
  {
    ParseRendered(ReceiveJson(request));
    ReceiveRoundTrip(request);
  }
}
