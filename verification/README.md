# gecko-http request parser, modelled in Dafny

This project models the HTTP/1.1 request parser of gecko-http:
`gs_request_create`, `parse_request` and the request accessors in
`src/gecko-http/gs_request.c`. The model is a pure function.
`Parser.Create(first, second)` takes the receive buffer's text after the
first `recv` and its text after the one extra `recv` that follows a
`100 Continue`. It returns the parsed `gs_request_t` and whether the
`100 Continue` response was written.

The extra `recv` (line 282) reuses the same 10240-byte buffer without
clearing it or terminating what it writes. Line 283 therefore tokenizes the
new bytes followed by whatever of the first message lies beyond them, or the
whole first message again when nothing new arrives. `second` stands for that
whole text, so the model covers every such mix; nothing in it assumes that
`second` holds only new bytes.

The modules follow the parser's structure:

- `Wrappers` (`wrappers.dfy`): `Option` and `Result`.
- `CStrings` (`cstrings.dfy`): the C string primitives the parser uses.
  - `strcspn` with one reject character (`Cspn`, specified by `SpanEnd`).
  - `strstr` (`Strstr`, specified by `Contains`).
  - `CString`, a receive buffer read as a NUL-terminated string.
- `Tokenizer` (`tokenizer.dfy`): `apr_strtok` with the separators CR and LF. It has two partners:
  - a reference split at every separator (`SplitAtSeps`);
  - its inverse, joining lines with CR LF (`JoinLines`).
- `Requests` (`requests.dfy`): the `gs_request_t` record, its state after allocation, and the accessors.
- `Header` (`header.dfy`): the three-phase line loop, with these pieces:
  - `HeaderLoop`, the loop as written, including the blank-line test after every token;
  - `PhasedParse`, a reference definition: request line, then header field lines, then content;
  - `HeaderLoopByPhase`, a lemma proving the two equal.
- `Body` (`body.dfy`): the part after the loop.
  - The `Expect` gate.
  - Multipart detection.
  - The two-slot name/value sub-parser for form data. Its partner is a multipart encoder (`PartLines`).
- `Parser` (`parser.dfy`): the whole parse, plus end-to-end lemmas about method, resource, validity, fields, content, the continue gate, multipart flags and form data.

Where the C reads past the end of the current line (or, at one site, past
the end of a copied header value), the model deliberately gives the whole
parse no result: it returns `Err(Overread)`. `Overread` names the site:

- a request line with no space;
- a header line with no colon, or with nothing after its first colon;
- a multipart `Content-Type` with no `=`;
- a form-name line with no `"`.

`resource` and `boundary` are never initialised by `gs_request_create`, so
they are `Option`s, with `None` meaning the parser never assigned them.

Behaviour the code has that a reader of HTTP/1.1 might not expect (the
model follows the code):

- Header names are not trimmed. The value starts two characters after the
  first colon, whatever the character right after the colon is.
- A header line overreads only when nothing at all follows its first colon,
  or when it has no colon. A line like `A:x` stores `A` with the empty value.
- The switch to the content phase happens after the token whose separator is
  followed by `\n\r\n` (line 259). That token itself is still handled in the
  current phase. A request that uses bare LF line ends never reaches content.
- The boundary is everything after the first `=` of the `Content-Type`
  value, whatever the parameter is called.
- The multipart sub-parser only ever sees the lines of the extra read. Without
  an `Expect: 100…` header, a multipart body sent in the first buffer is
  appended to `content`, and the form data stays empty. So a single-buffer
  upload `POST /upload HTTP/1.1`, `Content-Type: multipart/form-data;
  boundary=XYZ`, blank line, then one part named `a`, yields no form field
  `a` (`Parser.MultipartOfRequest`, last conjunct).
- After a `100 Continue` for a request that is not multipart, the extra read
  is done and its lines are discarded (`Parser.SecondBufferOnlyFillsForms`).

## Model

| member | source | states |
|---|---|---|
| CStrings.Cspn | src/gecko-http/gs_request.c:208 | the `strcspn` result is the index of the first occurrence of the character, or the length when there is none |
| CStrings.CspnFindsOccurrence | src/gecko-http/gs_request.c:297-298 | `strcspn` stops before the end exactly when the character occurs |
| CStrings.Strstr | src/gecko-http/gs_request.c:259 | `strstr` returns the first offset where the pattern occurs, and NULL exactly when it does not occur |
| CStrings.CString | src/gecko-http/gs_request.c:182-183 | the buffer read as a C string is its prefix before the first NUL, and contains no NUL |
| CStrings.CStringWhole | src/gecko-http/gs_request.c:183 | a buffer without NUL is read whole |
| Tokenizer.NextToken | src/gecko-http/gs_request.c:187 | an `apr_strtok` token is non-empty and free of CR and LF, and the scan moves forward |
| Tokenizer.NextTokenNull | src/gecko-http/gs_request.c:262 | `apr_strtok` returns NULL exactly when only separators remain |
| Tokenizer.NextTokenDelimits | src/gecko-http/gs_request.c:262 | the token follows a run of separators, and `last` points one past the separator that ends it, or at the end |
| Tokenizer.Tokens | src/gecko-http/gs_request.c:187-262 | every line the loop receives is non-empty and free of CR and LF |
| Tokenizer.TokensArePieces | src/gecko-http/gs_request.c:187-262 | the loop's lines are the non-empty pieces of the buffer cut at every CR and LF, in order |
| Tokenizer.TokenizeJoinLines | src/gecko-http/gs_request.c:283-336 | tokenizing lines joined with CR LF gives back the non-empty lines |
| Requests.Initial | src/gecko-http/gs_request.c:61-69 | a new request is not valid, has method UNKNOWN, no content, no header field and no form value, is not multipart and has body type UNKNOWN |
| Requests.FieldByName | src/gecko-http/gs_request.c:105-112 | the stored header value, or NULL exactly when the name was never stored |
| Requests.HasField | src/gecko-http/gs_request.c:98-103 | true exactly when `field_by_name` finds a value |
| Requests.FormByName | src/gecko-http/gs_request.c:121-128 | the stored form value, or NULL exactly when the name was never stored |
| Requests.HasForm | src/gecko-http/gs_request.c:114-119 | true exactly when `form_by_name` finds a value |
| Requests.HasContent | src/gecko-http/gs_request.c:130-133 | TRUE exactly when the content pointer is set, FALSE otherwise |
| Requests.GetContent | src/gecko-http/gs_request.c:135-147 | SUCCESS with the content when `has_content` is TRUE, FAILED with NULL otherwise |
| Requests.IsMethod | src/gecko-http/gs_request.c:157-161 | true exactly when the request's method is the one asked about |
| Header.MethodOf | src/gecko-http/gs_request.c:210-228 | a recognised method is exactly the one spelled by the token; UNKNOWN only when no method is spelled that way |
| Header.ApplyRequestLine | src/gecko-http/gs_request.c:206-239 | the request line overreads exactly when it has no space; the method comes from the text before the first space; a leading space changes nothing; only method, resource and validity change |
| Header.RequestLineWellFormed | src/gecko-http/gs_request.c:208-236 | a line with a method token, a space and a non-empty run of non-spaces sets the method, sets the resource to that run, and marks the request valid |
| Header.RequestLineMalformed | src/gecko-http/gs_request.c:231-236 | any other request line leaves resource and validity unchanged |
| Header.ApplyField | src/gecko-http/gs_request.c:240-249 | the value is stored under the untrimmed name before the first colon, starting two characters after it; a leading colon stores nothing; the line overreads exactly when nothing follows its first colon or it has none |
| Header.AppendContent | src/gecko-http/gs_request.c:250-255 | a content line makes the content non-NULL and changes nothing else |
| Header.AppendContentExtends | src/gecko-http/gs_request.c:252-254 | the new content is the earlier content (empty for NULL) followed directly by the line, with nothing in between |
| Header.ApplyLine | src/gecko-http/gs_request.c:204-258 | after any line of the request-line or field phase the loop is in the field phase; the content phase is kept |
| Header.HeaderLoop | src/gecko-http/gs_request.c:192-263 | the loop leaves raw text, form data, multipart flags, boundary and body type alone; it ends in the content phase exactly when it started there or some token passed the blank-line test; from the content phase it never reads past a line |
| Header.BlankFollowsMeans | src/gecko-http/gs_request.c:259-261 | the blank-line test holds exactly when the text after the token's separator starts with LF CR LF |
| Header.FirstBlank | src/gecko-http/gs_request.c:259-261 | the index of the first token that the blank-line test accepts, or the number of tokens when none is accepted |
| Header.ContentFold | src/gecko-http/gs_request.c:250-255 | the content stays NULL until a line arrives; then it is the earlier content followed by all lines, with no separators |
| Header.ContentLoop | src/gecko-http/gs_request.c:250-262 | once the content phase is reached, every later token is content |
| Header.FieldsLoop | src/gecko-http/gs_request.c:240-262 | in the field phase, the tokens up to and including the first blank-tested one are fields, and the rest are content |
| Header.HeaderLoopByPhase | src/gecko-http/gs_request.c:192-263 | the line loop equals the reference parse: token 0 is the request line, then fields up to the first blank-tested token, then content |
| Header.FieldsLastWriteWins | src/gecko-http/gs_request.c:240-249 | after the field lines, a name is present exactly when it was before or some line stores it; its value is the one stored by the last such line |
| Header.PhasedFields | src/gecko-http/gs_request.c:240-249 | starting with no fields, the reference parse stores exactly what the field lines store, later lines winning |
| Header.PhasedContent | src/gecko-http/gs_request.c:250-255 | starting with no content, the reference parse's content is the content lines run together, and stays NULL when there are none |
| Body.ContinueTokenMeans | src/gecko-http/gs_request.c:269-271 | the prefix test accepts exactly `100` and values starting with `100-` |
| Body.ShouldContinue | src/gecko-http/gs_request.c:265-271 | the continue response is due exactly when the request is valid and its `Expect` value is `100` or starts with `100-` |
| Body.MultipartTypeTestMeans | src/gecko-http/gs_request.c:290-295 | the `Content-Type` test accepts exactly the values starting with `multipart/form-data;` |
| Body.DetectMultipart | src/gecko-http/gs_request.c:287-307 | only the multipart flags and the boundary change. A request that does not declare multipart is unchanged. A declared one without `=` overreads. Otherwise the request becomes multipart with the boundary after the first `=` |
| Body.ReadFormName | src/gecko-http/gs_request.c:317-324 | the name is the text between the first `"` and the next `"` or the end of the line; the guard on line 321 always holds; a line without `"` overreads |
| Body.FormStep | src/gecko-http/gs_request.c:315-335 | one pass keeps the value slot NULL between passes, with a name pending exactly outside name mode |
| Body.FormStepSkipsBoundary | src/gecko-http/gs_request.c:315 | a line containing the boundary changes nothing |
| Body.FormStepInNameMode | src/gecko-http/gs_request.c:316-325 | in name mode, a `form-data; name=` line takes the quoted name and leaves name mode, or overreads when it has no `"`; any other line changes nothing |
| Body.FormStepCommitsValue | src/gecko-http/gs_request.c:326-335 | outside name mode, the next line without the boundary becomes the value; the pair is committed, overwriting an earlier value under that name, and the slots are reset |
| Body.MultipartLoop | src/gecko-http/gs_request.c:314-337 | the loop keeps the slot invariant, and with no lines left it changes nothing |
| Body.ReadDispositionName | src/gecko-http/gs_request.c:317-324 | a `Content-Disposition: form-data; name="…"` header yields exactly the quoted name |
| Body.LoopOverPart | src/gecko-http/gs_request.c:314-337 | a part's delimiter, header and value lines commit exactly that name and value |
| Body.FormRoundTrip | src/gecko-http/gs_request.c:309-342 | fed the lines of an encoded form body, the sub-parser commits every part in order, later names overwriting earlier ones |
| Parser.Create | src/gecko-http/gs_request.c:177-343 | the raw text of a parsed request is the first buffer's text up to its NUL; without the continue response no form value is stored |
| Parser.AfterHeaders | src/gecko-http/gs_request.c:265-342 | the continue response is written exactly when the gate says so; without it the form data is unchanged; a request that does not declare a multipart body comes out as it went in |
| Parser.FinishBody | src/gecko-http/gs_request.c:287-342 | only the multipart flags, the boundary and the form data change; with no lines to read the form data is unchanged; without a multipart declaration the request is unchanged |
| Parser.CreateByPhase | src/gecko-http/gs_request.c:59-75 | the parse equals the reference header parse followed by the stage after the loop |
| Parser.HeadersFrame | src/gecko-http/gs_request.c:59-75 | the line loop leaves the raw text, form data, multipart flags, boundary and body type as `gs_request_create` set them |
| Parser.AfterHeadersEffect | src/gecko-http/gs_request.c:265-342 | after the loop, only the multipart flags, the boundary and the form data change. The continue response goes out exactly when the gate says so. The flags are set exactly for a declared multipart body. Without the continue response, the form data stays empty |
| Parser.RequestLineDecides | src/gecko-http/gs_request.c:206-239 | the request is valid exactly when the first line has a method token, a space and a non-empty resource run. The resource is that run, and is unset otherwise. The method is decided by the text before the first space, and is UNKNOWN when there is none |
| Parser.CreateKeepsHeaders | src/gecko-http/gs_request.c:265-342 | a successful parse is the header part with at most the multipart flags, boundary and form data changed |
| Parser.FieldsOfRequest | src/gecko-http/gs_request.c:240-262 | a header name is present exactly when some line before the first blank stores it, with the last such line's value; later lines never become fields |
| Parser.ContentOfRequest | src/gecko-http/gs_request.c:250-262 | the content is every line of the first buffer after the header, run together without separators, and is NULL when there is none |
| Parser.ContinueGate | src/gecko-http/gs_request.c:265-285 | `100 Continue` is written exactly when the request is valid and its `Expect` value is `100` or starts with `100-` |
| Parser.MultipartOfRequest | src/gecko-http/gs_request.c:287-342 | multipart exactly when valid with a `multipart/form-data;` content type; the boundary is everything after the first `=`, unset otherwise; form data only after a continue on a multipart request |
| Parser.MultipartWithoutBoundary | src/gecko-http/gs_request.c:297-302 | a multipart content type without `=` makes the parse read past the end of the value |
| Parser.SecondBufferOnlyFillsForms | src/gecko-http/gs_request.c:281-342 | unless a continue was sent for a multipart request, the extra read does not affect the result |
| Parser.MultipartRoundTrip | src/gecko-http/gs_request.c:281-342 | after a continue, a form body encoded with the declared boundary yields exactly that body's fields as form data |

## Left out

- Socket I/O. The two `recv` calls become the parameters `first` and
  `second`. The `write` of the continue response becomes the `continueSent`
  flag. The response text built by `gs_response_*` is not part of this model.
- The 10240-byte receive buffer, and a `recv` that fills it without a NUL or
  delivers a partial request. A buffer is any string, read up to its first NUL.
  Which bytes of the first message survive the extra `recv` is left to the
  caller: `second` is the buffer's text after it, whatever that holds.
- Memory: APR pools, `GS_REQUIRE_MALLOC`, `gs_request_dispose` and the `free` of the response text.
- `gs_hash_t` internals. The field and form tables are maps; a `set` on an existing key overwrites it.
- Null arguments: the `GS_REQUIRE_NONNULL` checks and the `GS_ILLEGALARG`
  of `has_content` for a NULL request. A model value always exists.
- The numeric values of `gs_status_t`. The accessors return `bool` or the `Status` datatype.
- `warn` on line 340 (logging only). The `panic` on line 256 cannot be reached with a closed phase type.
- What the C does at the four overread sites. The model deliberately gives
  these inputs no result. At the request-line, header-field and form-name
  sites the C reads on past the NUL that `apr_strtok` wrote, into the rest of
  the copied buffer. The next line becomes part of the resource or value.
  For example, `GET\r\nHost: x\r\n\r\n` gives method GET, resource
  `"\nHost:"`, a valid request and `Host` set to `x`. Only when the line is
  the buffer's last does that read leave the allocation. At the
  `Content-Type` site (lines 297-302) the boundary copy starts one past the
  value's terminating NUL with a length of -1, so it always leaves the
  value's copy.
- `gs_request_method`, `gs_request_resource`, `gs_request_is_valid` and
  `gs_request_raw` are plain field reads (`GetMethod`, `GetResource`,
  `IsValid`, `Raw`). What they return is stated by `Parser.Create` and the `Parser` lemmas rather
  than by contracts of their own.
- `include/gecko-http/gs_server.h` and the server/pool layer are not part of this model.
- Body.MultipartLoop: its contract only states the slot invariant. What it
  commits is characterised one line at a time (`Body.FormStepSkipsBoundary`,
  `Body.FormStepInNameMode`, `Body.FormStepCommitsValue`) and, for whole
  bodies, only for bodies in the encoder's layout (`Body.FormRoundTrip`).
