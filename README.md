# restmail-receiver, modelled in Dafny

restmail-receiver is a small mail gateway. It has three parts:

- a **policy service** that a mail transfer agent asks, one query per connection, whether a recipient is accepted;
- a **delivery service** that speaks a minimal SMTP dialogue and writes each message it receives to a file;
- an **email parser** and an **API client**. The parser turns the message text into a structured message. The client signs the requests it posts to the restmail REST API with HMAC-SHA256.

This project models these parts as Dafny functions, methods and lemmas, and proves properties of that model.

Modules:

- `Wrappers`: `Option` and `Outcome`. `Outcome.Panic` is a Rust panic.
- `Text`: the ASCII string operations the code uses: `trim`, `to_lowercase` / `to_uppercase`, `find`, `split`, `lines`, prefix and suffix tests.
- `EmailParser` (`src/email_parser.rs`):
  - the header and address helpers;
  - `parse_from_data` as a loop with its invariant, proved equal to a line-by-line state machine (`Parse`);
  - the properties of what that loop builds.
- `PolicyService` and `MailDelivery` (`src/main.rs`): the two connection handlers as methods over the chunks returned by successive `read_line` calls. Each is proved equal to a function of the input.
- `Encoding`: UTF-8 encoding of strings, lowercase hex of bytes and the decimal rendering of integers, each with its inverse.
- `Json`: the compact JSON text `serde_json::to_string` writes, with a reader proved to invert it.
- `ApiClient` (`src/api_client.rs`): request signing, the headers and URL of `post`, the status check, the four endpoints and the JSON body of `receive_email`.

How the environment appears in the model:

- **Socket input** is a sequence of chunks, one per `read_line`. An empty chunk is a read of zero bytes (end of stream), and so is the end of the sequence. **Socket output** is the sequence of replies written.
- **A file write** succeeds or fails according to `writeOk(n)`, the outcome of the n-th write.
- **SHA-256 and HMAC-SHA256** are the fields `sha256` and `hmacSha256` of a `Crypto` value. Both produce a 32-byte digest.
- **The clock** (`get_timestamp`) is the `timestamp` parameter.
- **The response decoder** (`response.json::<R>()`) is the `decode` parameter.

The code behaves as follows:

- The policy service decides with the static rule "the recipient ends with `@restmail.org`" (`src/main.rs:136-140`). There is no domain/email/alias lookup pipeline and no fail-open policy.
- The delivery service answers `250 2.0.0 Ok: Queued` or `451 4.3.0 Error: Could not write file`. It never answers "Partially queued", "Queued (file only)" or `550`, and it never calls the API.
- `str::lines` strips a final `\r` only from a line that ends in `\n`. A last line with no line feed keeps its `\r`. `Text.Lines` models this.
- `extract_email` slices between the first `<` and the first `>`. When that `>` comes before that `<`, the slice panics. The model carries that panic through `parse_address_list`, `add_header` and `parse_from_data`.

## Model

| member | source | states |
|---|---|---|
| EmailParser.ExtractEmail | src/email_parser.rs:105-112 | a successful result is never longer than the header value |
| EmailParser.ExtractEmailBetweenFirst | src/email_parser.rs:105-112 | with the first '<' at i and the first '>' at j: the result is the text strictly between them when i < j, and a panic when j < i |
| EmailParser.ExtractEmailUnbracketed | src/email_parser.rs:109-111 | a value lacking '<' or '>' gives the value trimmed |
| EmailParser.ExtractEmailNamed | src/email_parser.rs:105-112 | `Name <address>rest` gives exactly `address` whatever follows, the unit test's display-name case |
| EmailParser.ParseAddressListShape | src/email_parser.rs:115-121 | at most one address per comma-separated segment, and no address is empty |
| EmailParser.AddressesOfAppend | src/email_parser.rs:115-121 | the addresses of two runs of segments are those of the first followed by those of the second, and a panic in either is a panic of the whole |
| EmailParser.AddressesOfEach | src/email_parser.rs:115-121 | when every segment yields a non-empty address, the list has one address per segment, in order |
| EmailParser.ExtractDomain | src/email_parser.rs:124-126 | there is a domain exactly when the address contains '@' |
| EmailParser.ExtractDomainOf | src/email_parser.rs:124-126 | the domain is the lower-cased text after the first '@', up to a second '@' if there is one |
| EmailParser.NormalizeEmail | src/email_parser.rs:129-138 | the normalised address is never longer than the input |
| EmailParser.NormalizeEmailNoAt | src/email_parser.rs:137 | an address without '@' is returned unchanged |
| EmailParser.NormalizeEmailPlain | src/email_parser.rs:129-138 | an address whose local part has no '+' is returned unchanged |
| EmailParser.NormalizeEmailTagged | src/email_parser.rs:129-138 | `base+tag@domain` becomes `base@domain`: plus-addressing drops the tag |
| EmailParser.NormalizeEmailShape | src/email_parser.rs:129-138 | the result is a '+'-free prefix of the local part, cut at its first '+' if it has one, followed by everything from the first '@' on |
| EmailParser.NormalizeEmailIdempotent | src/email_parser.rs:129-138 | normalising twice gives the same as normalising once |
| EmailParser.Dispatch | src/email_parser.rs:80-99 | From becomes the extracted address of the value; To, Cc or Bcc becomes the parsed address list, replacing the old one; Subject becomes the value; every other field, the headers and the bodies stay as they were; unknown names change nothing; a panic happens exactly when From's address or an address list of To/Cc/Bcc panics |
| EmailParser.AddHeader | src/email_parser.rs:79-102 | the raw header is stored under its name as given, whatever the field; a name matched case-insensitively sets exactly its field (From to the extracted address, To/Cc/Bcc to the parsed list, Subject to the value) and leaves the others; the panic cases exactly |
| EmailParser.AddHeaderLastWriteWins | src/email_parser.rs:79-102 | adding the same header twice is the same as adding only the second value |
| EmailParser.ParseFromData | src/email_parser.rs:31-77 | the loop over the lines returns exactly what the line-by-line state machine `Parse` computes, panic included |
| EmailParser.ParseLine | src/email_parser.rs:38-69 | one pass of the loop is exactly one step of the state machine: blank line, continuation, new header or body line |
| EmailParser.RunLinesPanicSticks | src/email_parser.rs:38-69 | a panic on any line ends the whole parse in a panic |
| EmailParser.ParseBody | src/email_parser.rs:40-47 | the first empty line ends the headers; bodyText is the trimmed text of the lines after it, each with its line feed, and is absent when no line follows |
| EmailParser.ParseNeverSetsHtml | src/email_parser.rs:31-77 | the parser never sets bodyHtml |
| EmailParser.UnterminatedHeaderDropped | src/email_parser.rs:53-62 | with no empty line the parse never leaves the headers, and the header still pending at the end is never recorded |
| EmailParser.SeparatorRecordsPending | src/email_parser.rs:40-47 | the empty line records the pending header (when it has a name) and nothing else |
| EmailParser.HeaderLineStartsHeader | src/email_parser.rs:53-62 | a header line flushes the pending header and starts a new one split at its first ':', both sides trimmed |
| EmailParser.ContinuationAppends | src/email_parser.rs:50-52 | a line starting with space or tab adds one space and the trimmed line to the pending value |
| EmailParser.RunLinesAppend | src/email_parser.rs:38-69 | running the loop over two runs of lines is running it over the first and then, unless that panicked, over the second |
| EmailParser.BodyLinesCollected | src/email_parser.rs:40-47 | once the headers are over, every further line is appended to the body with its line feed, and nothing else changes |
| EmailParser.FromToLines | src/email_parser.rs:38-84 | after a From line and a To line, From holds the extracted address and is recorded, and the To header is pending |
| EmailParser.HeaderBlock | src/email_parser.rs:38-99 | a From, a To and a Subject line and the empty line set from, to and subject from their trimmed values, record the three raw headers and leave the headers |
| EmailParser.ParseThreeHeaders | src/email_parser.rs:31-102 | a message whose header block is a From, a To and a Subject line parses to those three fields, no Cc or Bcc, the three raw headers, and the trimmed body lines as bodyText |
| EmailParser.LoneAddress | src/email_parser.rs:105-112 | a bare address after the colon's space is extracted as itself |
| EmailParser.LoneRecipient | src/email_parser.rs:115-121 | a bare address without a comma, after the colon's space, is the address list of that one address |
| EmailParser.SimpleLines | src/email_parser.rs:38 | CR LF-terminated header lines and a last body line split into those lines, each without its CR LF |
| EmailParser.ParseSimpleEmail | src/email_parser.rs:193-201 | for a `From`, `To`, `Subject`, empty line and one body line, each ended by CR LF: from is the sender, to is the one recipient, subject and bodyText are the subject and body, as the unit test expects |
| PolicyService.HandlePolicy | src/main.rs:128-152 | the reply written is `Response` of the input: none when the stream ends first, otherwise one verdict after the first blank line; reading stops just after that line |
| PolicyService.VerdictRule | src/main.rs:136-140 | "action=OK" exactly when the recipient ends with "@restmail.org", otherwise the reject line, and the empty recipient is rejected |
| PolicyService.FirstEndIsFirst | src/main.rs:133-135 | no chunk before the one that ends the query is blank |
| PolicyService.FirstEndAt | src/main.rs:133-135 | the first blank chunk is the one that ends the query |
| PolicyService.FirstEndNone | src/main.rs:133-135 | with no blank chunk the query never ends |
| PolicyService.ResponseIgnoresRest | src/main.rs:143 | whatever follows the blank line is never read and cannot change the reply |
| PolicyService.RecipientAfterLastEquals | src/main.rs:146-148 | the recipient kept is the text after the last '=' of the line, and holds no '=' |
| PolicyService.RecipientOfAddress | src/main.rs:146-148 | the line `recipient=` + address, for an address without '=', records that address |
| PolicyService.RecordedLastWins | src/main.rs:146-148 | the last `recipient=` line before the blank line decides; later non-recipient lines change nothing |
| PolicyService.RecordedNone | src/main.rs:131 | with no `recipient=` line the recipient stays empty |
| PolicyService.NoRecipientRejects | src/main.rs:131-140 | a query without a recipient line is rejected |
| PolicyService.QueryVerdict | src/main.rs:128-152 | a query of attribute lines, then `recipient=address`, then a blank line gets the verdict for that address |
| PolicyService.TrimRecipientLine | src/main.rs:134 | trimming a `recipient=` line removes only its line feed |
| MailDelivery.HandleMailDelivery | src/main.rs:155-227 | the replies written (greeting first) and the messages stored are those of `Run` on the input chunks |
| MailDelivery.RunStep | src/main.rs:165-225 | one more chunk is one more step of the loop, unless the session is already over |
| MailDelivery.RunClosedSticks | src/main.rs:167 | once QUIT or end of stream is reached, later input is never read |
| MailDelivery.StepExtends | src/main.rs:165-225 | replies and stored messages are only ever appended to |
| MailDelivery.CommandLineReply | src/main.rs:205-223 | a command gets exactly one reply; only DATA enters data mode and only QUIT ends the session; nothing else changes |
| MailDelivery.BlankIsUnknown | src/main.rs:205-221 | a line of whitespace only trims to nothing, so it is an unknown command and never the terminator |
| MailDelivery.DataLineAppended | src/main.rs:201-203 | in data mode a line other than "." is appended to the message untrimmed, and nothing is written back |
| MailDelivery.DataLinesAppended | src/main.rs:201-203 | a run of message lines appends their concatenation to the message |
| MailDelivery.TerminatorWrites | src/main.rs:187-199 | the "." line tries one write: on success, "250 2.0.0 Ok: Queued" and the message is stored; on failure, "451 4.3.0 ..." and nothing is stored; either way data mode ends and the buffer is cleared |
| MailDelivery.StepCloses | src/main.rs:165-218 | the session ends exactly at end of stream or at QUIT in command mode |
| MailDelivery.RunReachable | src/main.rs:163-225 | every session starts with the greeting, holds no message outside data mode and stores at most one message per write |
| MailDelivery.RunExtends | src/main.rs:165-225 | feeding more input only extends the replies and the stored messages |
| MailDelivery.RunFromAppend | src/main.rs:165-225 | running two pieces of input one after the other is running their concatenation |
| MailDelivery.EnvelopeRun | src/main.rs:163-214 | HELO, MAIL FROM, RCPT TO and DATA get greeting, "250 Hello", "250 Ok", "250 Ok", "354 ..." and leave the session in data mode with nothing stored |
| MailDelivery.EndingRun | src/main.rs:173-218 | in data mode, "." and then QUIT store the message and answer "Queued" and "221 Bye" |
| MailDelivery.ClientSession | src/main.rs:155-227 | a whole client session (envelope, message lines, ".", QUIT) stores exactly the concatenated message lines and gets the six expected replies |
| Encoding.Utf8RoundTrip | src/api_client.rs:123 | decoding the UTF-8 bytes of a string gives the string back |
| Encoding.Utf8Injective | src/api_client.rs:131 | different messages have different UTF-8 bytes |
| Encoding.FromHexHex | src/api_client.rs:124 | lowercase hex of bytes reads back to the same bytes |
| Encoding.HexInjective | src/api_client.rs:133 | different digests have different hex renderings |
| Encoding.ParseDecimalDecimal | src/api_client.rs:163 | the decimal rendering of the timestamp reads back to the timestamp |
| Encoding.DecimalNoLeadingZero | src/api_client.rs:127 | the decimal rendering starts with '0' only for zero |
| Encoding.DecimalInjective | src/api_client.rs:127 | different timestamps have different renderings |
| Encoding.DigitRunDigits | src/api_client.rs:127 | the leading digit run of digits followed by a non-digit is exactly those digits |
| Json.ParseRendered | src/api_client.rs:153 | the compact JSON text of a value reads back to that value |
| Json.RenderInjective | src/api_client.rs:153 | different values have different JSON texts |
| Json.LookupKeys | src/api_client.rs:153 | a key is found in an object exactly when it is one of its member names |
| ApiClient.BodyHash | src/api_client.rs:122-124 | the body hash is 64 lowercase hex digits that read back to SHA-256 of the body's UTF-8 bytes |
| ApiClient.GenerateSignature | src/api_client.rs:114-136 | the signature is 71 characters: "sha256=" then 64 lowercase hex digits |
| ApiClient.SignatureCarriesMac | src/api_client.rs:126-133 | the hex after "sha256=" reads back to the HMAC, under the secret key, of timestamp + method + path + body hash |
| ApiClient.SignatureInjective | src/api_client.rs:126-133 | two equal signatures mean equal MACs of the two signed messages |
| ApiClient.SigningMessageParts | src/api_client.rs:127 | the signed message splits back uniquely into timestamp, method plus path, and body hash when the method does not start with a digit |
| ApiClient.SignedHeadersLookup | src/api_client.rs:160-163 | each of the four headers is found under its name with its value |
| ApiClient.PostHeaders | src/api_client.rs:152-164 | a POST carries Content-Type application/json, the service key, the signature of this body and path, and the timestamp in decimal |
| ApiClient.PostIsAuthentic | src/api_client.rs:147-166 | the request goes to base URL + path with the body signed, and a receiver recomputing the HMAC from the headers and body accepts it |
| ApiClient.ErrorStatusNotDecoded | src/api_client.rs:168-171 | a status outside 2xx is an error carrying that status, and the body is never decoded |
| ApiClient.SuccessDecoded | src/api_client.rs:168-175 | with a 2xx status the result succeeds exactly when a body was read and decodes, and it is the decoded value |
| ApiClient.Endpoints | src/api_client.rs:178-205 | the four operations post to their four paths and each request is authentic for its path |
| ApiClient.LookupBodies | src/api_client.rs:19-35 | the lookup bodies read back as `{"domain":...}` and `{"email":...}` |
| ApiClient.LookupWritten | src/api_client.rs:63-78 | in a record with distinct field names, a skipped field is absent from the JSON and any other is present with its value |
| ApiClient.ReceiveLookupEnvelope | src/api_client.rs:63-70 | from and to are always written; cc and bcc are written exactly when non-empty |
| ApiClient.ReceiveLookupContent | src/api_client.rs:71-77 | subject and the two bodies are always written (null when absent); headers only when present; attachments only when non-empty |
| ApiClient.ReceiveOtherKey | src/api_client.rs:63-78 | no other key appears in the body |
| ApiClient.ReceiveOmission | src/api_client.rs:63-78 | each of cc, bcc, headers and attachments is a member exactly when it is non-empty or present; the five other fields always are |
| ApiClient.AttachmentRoundTrip | src/api_client.rs:80-86 | an attachment's JSON object reads back to the attachment |
| ApiClient.ReceiveRoundTrip | src/api_client.rs:63-86 | the JSON of a request reads back to the same request: omitting empty fields loses nothing |
| ApiClient.ReceiveEmailBody | src/api_client.rs:202-205 | the body posted by receive_email is valid JSON that reads back to the request |

## Left out

- `main`, the accept loops and process start-up (`src/main.rs:29-64`): these are socket set-up and task spawning.
- `load_config` (`src/main.rs:66-125`): it reads the configuration file and the environment. The storage directory enters the model only through `writeOk`.
- Socket I/O errors: the `?` on reads and writes ends the session with an error. The model treats every read and write as succeeding. A read that is not valid UTF-8 is not modelled either.
- The file name built from the clock and a UUID (`src/main.rs:174-176`), and `create_dir_all`: only the success or failure of the file write is modelled.
- Log lines (`println!`, `eprintln!`): they have no effect on behaviour.
- The internals of SHA-256 and HMAC-SHA256: they are functions supplied in `Crypto`.
- `HmacSha256::new_from_slice` cannot fail for HMAC, so the error path after it is not modelled.
- The reqwest transport failure (`send().await?`) and the response types' serde decoding: decoding is the `decode` parameter.
- ApiClient.ErrorStatusNotDecoded: the error message's text (`API error <status>: <body>`) is kept as the status and the body, not formatted into a string.
- `serde_json` failing to serialise (`src/api_client.rs:153`): it cannot happen for these plain records, so that path is not modelled.
- The ordering of `serde_json::Value` maps: a `headers` value is rendered with its members in the order given.
- Json.ParseRendered: the JSON reader accepts the compact form `serde_json::to_string` writes. Whitespace between tokens is not accepted, and neither are numbers other than integers.
- ApiClient.ReceiveRoundTrip: the reader of a request body is a reference definition, not code from the repository. The repository has no deserialiser for `ReceiveEmailRequest`.
- `trim`, `to_lowercase` and `to_uppercase` are modelled on ASCII. Non-ASCII whitespace and non-ASCII case mapping are not modelled.
- The response types (`DomainLookupResponse` and the others, `src/api_client.rs:24-61` and `88-101`): only their decoding result enters the model.
- The literal unit tests of `src/email_parser.rs` (`150-202`) and `src/api_client.rs` (`213-229`) are not replayed on their literal data. Each is an instance of a general lemma above: ExtractEmailNamed and ExtractEmailUnbracketed (`test_extract_email`), AddressesOfEach with ExtractEmailNamed (`test_parse_address_list`), ExtractDomainOf and ExtractDomain (`test_extract_domain`), NormalizeEmailTagged and NormalizeEmailPlain (`test_normalize_email`), ParseSimpleEmail (`test_parse_simple_email`) and GenerateSignature.
- `test_restmail.py` is an end-to-end script against a running server and is not part of this model.
