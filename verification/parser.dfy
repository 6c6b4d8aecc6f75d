/**
  `gs_request_create` followed by `parse_request`: the whole parse of one
  connection's request, with the socket replaced by the two buffers it
  would deliver.
 */
module Parser {
  import opened Wrappers
  import opened CStrings
  import opened Tokenizer
  import opened Requests
  import opened Header
  import opened Body

  /** The parsed request, and whether the `100 Continue` response was written. */
  datatype Parsed = Parsed(request: Request, continueSent: bool)

  /** The record the line loop starts from: the initial record holding the first buffer's text. */
  function Start(first: string): Request
  {
    Initial().(original := CString(first))
  }

  /**
    Lines 265-342, after the line loop: the continue gate, multipart
    detection, and the sub-parser over the lines of the extra read. The
    sub-parser never sees a line of the first buffer: the loop consumed them all.
   */
  function AfterHeaders(r1: Request, second: string): (res: Result<Parsed, Overread>)
    ensures res.Ok? ==> res.value.continueSent == ShouldContinue(r1)
    ensures res.Ok? && !ShouldContinue(r1) ==> res.value.request.formData == r1.formData
    ensures r1.bodyType == BodyUnknown && !DeclaresMultipart(r1) ==> res == Ok(Parsed(r1, ShouldContinue(r1)))
  {
    var continued := ShouldContinue(r1);
    FinishBody(r1, continued, if continued then Lines(Tokens(CString(second))) else [])
  }

  /**
    Multipart detection and the sub-parser, given whether the continue
    response went out and the lines of the extra read (none without it).
   */
  function FinishBody(r1: Request, continued: bool, pending: seq<string>): (res: Result<Parsed, Overread>)
    ensures res.Ok? ==> res.value.continueSent == continued
    ensures res.Ok? ==> var r2 := res.value.request;
              r2.(isMultipart := r1.isMultipart, boundary := r1.boundary, bodyType := r1.bodyType, formData := r1.formData) == r1
    ensures res.Ok? && pending == [] ==> res.value.request.formData == r1.formData
    ensures r1.bodyType == BodyUnknown && !DeclaresMultipart(r1) ==> res == Ok(Parsed(r1, continued))
  {
    var r2 :- DetectMultipart(r1);
    match (r2.bodyType, r2.boundary)
    case (Multipart, Some(boundary)) =>
      var st :- MultipartLoop(boundary, pending, FormStart(r2.formData));
      Ok(Parsed(r2.(formData := st.form), continued))
    case _ =>
      Ok(Parsed(r2, continued))
  }

  /**
    `gs_request_create` and `parse_request`. `first` is the receive buffer's
    text after the first `recv`; `second` is its text after the one extra
    `recv` that follows a `100 Continue`, read only when that response is
    sent. That `recv` writes over the start of the same unterminated buffer,
    so `second` may well end with bytes of the first message.
    The raw text is the first buffer's, and without the extra read no form
    value is stored.
   */
  function Create(first: string, second: string): (res: Result<Parsed, Overread>)
    ensures res.Ok? ==> Raw(res.value.request) == CString(first)
    ensures res.Ok? && !res.value.continueSent ==> res.value.request.formData == map[]
  {
    var loop :- HeaderLoop(Tokens(CString(first)), Start(first), MethodPhase);
    AfterHeaders(loop.0, second)
  }

  /** The header part of the parse, by the phase-by-phase reference definition. */
  function Headers(first: string): Result<Request, Overread>
  {
    PhasedParse(Start(first), Tokens(CString(first)))
  }

  /** The parse, with the line loop replaced by its reference definition. */
  lemma CreateByPhase(first: string, second: string)
    ensures Create(first, second) == (var r1 :- Headers(first); AfterHeaders(r1, second))
  {
    HeaderLoopByPhase(Tokens(CString(first)), Start(first));
  }

  /** The header part touches only method, resource, validity, fields and content. */
  lemma HeadersFrame(first: string)
    requires Headers(first).Ok?
    ensures var h := Headers(first).value;
            && h.original == CString(first)
            && h.formData == map[]
            && !h.isMultipart
            && h.boundary == None
            && h.bodyType == BodyUnknown
  {
  }

  /**
    After the line loop the parser changes only the multipart flags, the
    boundary and the form data; it writes the continue response exactly when
    the gate says so; the multipart flags are set exactly when the request
    declares a multipart form body; and without the extra read the form data
    stays empty.
   */
  lemma AfterHeadersEffect(r1: Request, second: string)
    requires r1.formData == map[] && !r1.isMultipart && r1.bodyType == BodyUnknown
    requires AfterHeaders(r1, second).Ok?
    ensures var p := AfterHeaders(r1, second).value;
            && p.continueSent == ShouldContinue(r1)
            && p.request.(isMultipart := false, boundary := r1.boundary, bodyType := BodyUnknown, formData := map[]) == r1
            && (p.request.isMultipart <==> DeclaresMultipart(r1))
            && (p.request.bodyType == Multipart <==> DeclaresMultipart(r1))
            && (!p.continueSent ==> p.request.formData == map[])
            && (!DeclaresMultipart(r1) ==> p.request == r1)
            && (DeclaresMultipart(r1) ==>
                  var ct := r1.fields[ContentTypeKey];
                  forall b :: SpanEnd(ct, '=', b) && b < |ct| ==> p.request.boundary == Some(ct[b + 1..]))
  {
    var r2 := DetectMultipart(r1).value;
    if DeclaresMultipart(r1) {
      var ct := r1.fields[ContentTypeKey];
      CspnFindsOccurrence(ct, '=');
      assert SpanEnd(ct, '=', Cspn(ct, '='));
    }
    if r2.bodyType == Multipart {
      assert DeclaresMultipart(r1);
      assert r2.boundary.Some?;
    }
  }

  /** Method, resource and validity come from the request line alone. */
  lemma HeadersRequestLine(first: string)
    requires Headers(first).Ok?
    ensures var ts := Tokens(CString(first));
            var h := Headers(first).value;
            ts != [] ==>
              var r1 := ApplyRequestLine(Start(first), ts[0].line);
              && r1.Ok?
              && h.httpMethod == r1.value.httpMethod
              && h.resource == r1.value.resource
              && h.isValid == r1.value.isValid
    ensures Tokens(CString(first)) == [] ==> Headers(first) == Ok(Start(first))
  {
    var ts := Tokens(CString(first));
    if ts != [] {
      var r1 := ApplyRequestLine(Start(first), ts[0].line).value;
      var c := HeadCount(ts);
      var r2 := FieldsFold(r1, ts[1..c]).value;
      assert Headers(first).value == ContentFold(r2, ts[c..]);
    }
  }

  /** A request line has at most one method/resource split. */
  lemma RequestLineShapeUnique(line: string, k: int, n: int, k': int, n': int)
    requires RequestLineShape(line, k, n) && RequestLineShape(line, k', n')
    ensures k == k' && n == n'
  {
    SpanEndUnique(line, ' ', k);
    SpanEndUnique(line, ' ', k');
    SpanEndUnique(line[k + 1..], ' ', n);
    SpanEndUnique(line[k + 1..], ' ', n');
  }

  /** A well-formed request line: validity, method and resource, whichever split is named. */
  lemma RequestLineShaped(r: Request, line: string, k: int, n: int)
    requires RequestLineShape(line, k, n)
    ensures var r1 := ApplyRequestLine(r, line).value;
            && r1.isValid
            && forall k', n' :: RequestLineShape(line, k', n') ==>
                 r1.httpMethod == MethodOf(line[..k']) && r1.resource == Some(line[k' + 1..k' + 1 + n'])
  {
    RequestLineWellFormed(r, line, k, n);
    forall k', n' | RequestLineShape(line, k', n')
      ensures k' == k && n' == n
    {
      RequestLineShapeUnique(line, k, n, k', n');
    }
  }

  /** What the request line does to a record that is not yet valid. */
  lemma RequestLineOutcome(r: Request, line: string)
    requires line != [] && ApplyRequestLine(r, line).Ok?
    requires !r.isValid && r.resource == None
    ensures var r1 := ApplyRequestLine(r, line).value;
            && (r1.isValid <==> exists k, n :: RequestLineShape(line, k, n))
            && (forall k, n :: RequestLineShape(line, k, n) ==>
                  r1.httpMethod == MethodOf(line[..k]) && r1.resource == Some(line[k + 1..k + 1 + n]))
            && (!r1.isValid ==> r1.resource == None)
  {
    if exists k, n :: RequestLineShape(line, k, n) {
      var k, n :| RequestLineShape(line, k, n);
      RequestLineShaped(r, line, k, n);
    } else {
      RequestLineMalformed(r, line);
    }
  }

  /** The request-line facts, for the header part. */
  lemma RequestLineFacts(first: string)
    requires Headers(first).Ok?
    ensures var h := Headers(first).value;
            var ts := Tokens(CString(first));
            && (h.isValid <==> ts != [] && exists k, n :: RequestLineShape(ts[0].line, k, n))
            && (forall k, n :: ts != [] && RequestLineShape(ts[0].line, k, n) ==>
                  h.httpMethod == MethodOf(ts[0].line[..k]) && h.resource == Some(ts[0].line[k + 1..k + 1 + n]))
            && (!h.isValid ==> h.resource == None)
            && (forall k :: ts != [] && 0 < k < |ts[0].line| && SpanEnd(ts[0].line, ' ', k) ==>
                  h.httpMethod == MethodOf(ts[0].line[..k]))
            && (ts == [] || ts[0].line[0] == ' ' ==> h.httpMethod == Unknown)
  {
    HeadersRequestLine(first);
    var ts := Tokens(CString(first));
    if ts != [] {
      RequestLineOutcome(Start(first), ts[0].line);
    }
  }

  /**
    `is_valid` is true exactly when the first line has a non-empty method
    token before its first space and a non-empty run of non-spaces right
    after it; the resource is that run, and stays unset otherwise. The
    method is decided by the text before the first space, and is UNKNOWN
    when there is no such text.
   */
  lemma RequestLineDecides(first: string, second: string)
    requires Create(first, second).Ok?
    ensures var req := Create(first, second).value.request;
            var ts := Tokens(CString(first));
            && (req.isValid <==> ts != [] && exists k, n :: RequestLineShape(ts[0].line, k, n))
            && (forall k, n :: ts != [] && RequestLineShape(ts[0].line, k, n) ==>
                  req.httpMethod == MethodOf(ts[0].line[..k]) && req.resource == Some(ts[0].line[k + 1..k + 1 + n]))
            && (!req.isValid ==> req.resource == None)
            && (forall k :: ts != [] && 0 < k < |ts[0].line| && SpanEnd(ts[0].line, ' ', k) ==>
                  req.httpMethod == MethodOf(ts[0].line[..k]))
            && (ts == [] || ts[0].line[0] == ' ' ==> req.httpMethod == Unknown)
  {
    CreateByPhase(first, second);
    var h := Headers(first).value;
    HeadersFrame(first);
    AfterHeadersEffect(h, second);
    RequestLineFacts(first);
    var req := Create(first, second).value.request;
    assert req.isValid == h.isValid && req.resource == h.resource && req.httpMethod == h.httpMethod;
  }

  // ---------------------------------------------------------------------------
  // The whole parse
  // ---------------------------------------------------------------------------

  /** The header field lines of the first buffer: tokens 1 up to and including the first one followed by a blank line. */
  function FieldTokens(first: string): seq<Token>
  {
    var ts := Tokens(CString(first));
    if ts == [] then [] else ts[1..HeadCount(ts)]
  }

  /** The content lines of the first buffer: every token after the header field lines. */
  function ContentTokens(first: string): seq<Token>
  {
    var ts := Tokens(CString(first));
    if ts == [] then [] else ts[HeadCount(ts)..]
  }

  /**
    A successful parse is the header part with at most the multipart flags,
    the boundary and the form data changed.
   */
  lemma CreateKeepsHeaders(first: string, second: string)
    requires Create(first, second).Ok?
    ensures Headers(first).Ok?
    ensures var p := Create(first, second).value;
            var h := Headers(first).value;
            && p.request.(isMultipart := false, boundary := None, bodyType := BodyUnknown, formData := map[]) == h
            && p.continueSent == ShouldContinue(h)
            && (p.request.isMultipart <==> DeclaresMultipart(h))
            && (p.request.bodyType == Multipart <==> DeclaresMultipart(h))
            && (!p.continueSent ==> p.request.formData == map[])
            && (!DeclaresMultipart(h) ==> p.request == h)
            && (DeclaresMultipart(h) ==>
                  var ct := h.fields[ContentTypeKey];
                  forall b :: SpanEnd(ct, '=', b) && b < |ct| ==> p.request.boundary == Some(ct[b + 1..]))
  {
    CreateByPhase(first, second);
    HeadersFrame(first);
    AfterHeadersEffect(Headers(first).value, second);
  }

  /** The header part's fields: the header field lines, later ones winning. */
  lemma HeadersFields(first: string, key: string)
    requires Headers(first).Ok?
    ensures var h := Headers(first).value;
            var fs := FieldTokens(first);
            && (key in h.fields <==> exists i :: 0 <= i < |fs| && StoresKey(fs[i], key))
            && forall i :: 0 <= i < |fs| && StoresKey(fs[i], key)
                           && (forall j :: i < j < |fs| ==> !StoresKey(fs[j], key)) ==>
                 h.fields[key] == FieldEntry(fs[i].line).value.1
  {
    var ts := Tokens(CString(first));
    if ts != [] {
      assert IsLine(ts[0].line);
      assert FieldTokens(first) == ts[1..HeadCount(ts)];
      PhasedFields(Start(first), ts, key);
    }
  }

  /** The header part's content: every content line, in order and without separators; unset when there is none. */
  lemma HeadersContent(first: string)
    requires Headers(first).Ok?
    ensures var cs := ContentTokens(first);
            Headers(first).value.content == if cs == [] then None else Some(Concat(Lines(cs)))
  {
    var ts := Tokens(CString(first));
    if ts != [] {
      PhasedContent(Start(first), ts);
    }
  }

  /**
    Header fields: a name is present exactly when some header field line
    stores it, and its value is the one the last such line stores. Lines
    after the first blank line never become fields.
   */
  lemma FieldsOfRequest(first: string, second: string, key: string)
    requires Create(first, second).Ok?
    ensures var req := Create(first, second).value.request;
            var fs := FieldTokens(first);
            && (key in req.fields <==> exists i :: 0 <= i < |fs| && StoresKey(fs[i], key))
            && forall i :: 0 <= i < |fs| && StoresKey(fs[i], key)
                           && (forall j :: i < j < |fs| ==> !StoresKey(fs[j], key)) ==>
                 req.fields[key] == FieldEntry(fs[i].line).value.1
  {
    CreateKeepsHeaders(first, second);
    HeadersFields(first, key);
  }

  /**
    The body held in the first buffer: every line after the header, run
    together without separators; unset when the first buffer holds no body
    line. The extra read never adds to it.
   */
  lemma ContentOfRequest(first: string, second: string)
    requires Create(first, second).Ok?
    ensures var cs := ContentTokens(first);
            Create(first, second).value.request.content == if cs == [] then None else Some(Concat(Lines(cs)))
  {
    CreateKeepsHeaders(first, second);
    HeadersContent(first);
  }

  /**
    The `100 Continue` response is written exactly when the request is valid
    and carries an `Expect` field whose value is `100` or starts with `100-`.
   */
  lemma ContinueGate(first: string, second: string)
    requires Create(first, second).Ok?
    ensures var p := Create(first, second).value;
            var req := p.request;
            p.continueSent <==> && req.isValid
                                && ExpectKey in req.fields
                                && (req.fields[ExpectKey] == "100" || StartsWith(req.fields[ExpectKey], "100-"))
  {
    CreateKeepsHeaders(first, second);
  }

  /**
    The request is multipart exactly when it is valid and its Content-Type
    starts with `multipart/form-data;`; the boundary is then everything
    after the first `=` of that value, and is unset otherwise. Form data is
    filled only for a multipart request after a `100 Continue`.
   */
  lemma MultipartOfRequest(first: string, second: string)
    requires Create(first, second).Ok?
    ensures var p := Create(first, second).value;
            var req := p.request;
            && (req.isMultipart <==> DeclaresMultipart(req))
            && (req.bodyType == Multipart <==> req.isMultipart)
            && (!req.isMultipart ==> req.boundary == None)
            && (req.isMultipart ==>
                  var ct := req.fields[ContentTypeKey];
                  forall b :: SpanEnd(ct, '=', b) && b < |ct| ==> req.boundary == Some(ct[b + 1..]))
            && (req.formData != map[] ==> p.continueSent && req.isMultipart)
  {
    CreateKeepsHeaders(first, second);
  }

  /** With the header part parsed, the rest is the post-loop stage on its result. */
  lemma CreateAfterHeaders(first: string, second: string)
    requires Headers(first).Ok?
    ensures Create(first, second) == AfterHeaders(Headers(first).value, second)
  {
    CreateByPhase(first, second);
  }

  /**
    A multipart Content-Type without `=` makes the C read past the end of
    the value.
   */
  lemma MultipartWithoutBoundary(first: string, second: string)
    requires Headers(first).Ok?
    requires DeclaresMultipart(Headers(first).value)
    requires '=' !in Headers(first).value.fields[ContentTypeKey]
    ensures Create(first, second) == Err(BoundaryWithoutEquals)
  {
    CreateAfterHeaders(first, second);
  }

  /** Without both the continue gate and a multipart body, the post-loop stage ignores the extra read. */
  lemma AfterHeadersIgnoresSecond(r1: Request, second: string, other: string)
    requires r1.bodyType == BodyUnknown
    requires !(ShouldContinue(r1) && DeclaresMultipart(r1))
    ensures AfterHeaders(r1, second) == AfterHeaders(r1, other)
  {
  }

  /**
    The extra read matters only for a multipart request after a
    `100 Continue`: otherwise the result does not depend on it.
   */
  lemma SecondBufferOnlyFillsForms(first: string, second: string, other: string)
    requires Headers(first).Ok?
    requires !(ShouldContinue(Headers(first).value) && DeclaresMultipart(Headers(first).value))
    ensures Create(first, second) == Create(first, other)
  {
    CreateAfterHeaders(first, second);
    CreateAfterHeaders(first, other);
    HeadersFrame(first);
    AfterHeadersIgnoresSecond(Headers(first).value, second, other);
  }

  /** The boundary a multipart request's Content-Type declares: everything after its first `=`. */
  function DeclaredBoundary(r: Request): string
    requires ContentTypeKey in r.fields
  {
    var ct := r.fields[ContentTypeKey];
    var b := Cspn(ct, '=');
    if b < |ct| then ct[b + 1..] else []
  }

  /** A form body for the post-loop stage: its lines carry no separator and its text no NUL. */
  predicate WireBody(boundary: string, parts: seq<Part>)
  {
    && (forall i :: 0 <= i < |parts| ==> Readable(boundary, parts[i]))
    && (forall i :: 0 <= i < |PartLines(boundary, parts)| ==> SepFree(PartLines(boundary, parts)[i]))
    && '\0' !in JoinLines(PartLines(boundary, parts))
  }

  /** The lines the extra read yields for an encoded form body: its non-empty lines. */
  lemma WireBodyLines(boundary: string, parts: seq<Part>)
    requires WireBody(boundary, parts)
    ensures Lines(Tokens(CString(JoinLines(PartLines(boundary, parts))))) == NonEmpty(PartLines(boundary, parts))
  {
    CStringWhole(JoinLines(PartLines(boundary, parts)));
    TokenizeJoinLines(PartLines(boundary, parts));
  }

  /** A multipart request with an `=` in its Content-Type gets the declared boundary. */
  lemma DetectDeclared(r1: Request)
    requires DeclaresMultipart(r1) && '=' in r1.fields[ContentTypeKey]
    ensures DetectMultipart(r1) == Ok(r1.(isMultipart := true, boundary := Some(DeclaredBoundary(r1)), bodyType := Multipart))
  {
    var ct := r1.fields[ContentTypeKey];
    CspnFindsOccurrence(ct, '=');
    assert SpanEnd(ct, '=', Cspn(ct, '='));
  }

  /** The post-loop stage reads an encoded form body back. */
  lemma AfterHeadersRoundTrip(r1: Request, parts: seq<Part>)
    requires ShouldContinue(r1) && DeclaresMultipart(r1)
    requires '=' in r1.fields[ContentTypeKey]
    requires WireBody(DeclaredBoundary(r1), parts)
    ensures var second := JoinLines(PartLines(DeclaredBoundary(r1), parts));
            && AfterHeaders(r1, second).Ok?
            && AfterHeaders(r1, second).value.request.formData == FormOf(parts, r1.formData)
  {
    var boundary := DeclaredBoundary(r1);
    var second := JoinLines(PartLines(boundary, parts));
    WireBodyLines(boundary, parts);
    assert AfterHeaders(r1, second) == FinishBody(r1, true, NonEmpty(PartLines(boundary, parts)));
    FinishRoundTrip(r1, parts);
  }

  /** Multipart detection and the sub-parser read the lines of an encoded form body back. */
  lemma FinishRoundTrip(r1: Request, parts: seq<Part>)
    requires DeclaresMultipart(r1)
    requires '=' in r1.fields[ContentTypeKey]
    requires forall i :: 0 <= i < |parts| ==> Readable(DeclaredBoundary(r1), parts[i])
    ensures var res := FinishBody(r1, true, NonEmpty(PartLines(DeclaredBoundary(r1), parts)));
            res.Ok? && res.value.request.formData == FormOf(parts, r1.formData)
  {
    var boundary := DeclaredBoundary(r1);
    FormRoundTrip(boundary, parts, r1.formData);
    FinishMultipart(r1, NonEmpty(PartLines(boundary, parts)), FormOf(parts, r1.formData));
  }

  /** For a multipart request, the form data is what the sub-parser leaves in the form. */
  lemma FinishMultipart(r1: Request, lines: seq<string>, form: map<string, string>)
    requires DeclaresMultipart(r1) && '=' in r1.fields[ContentTypeKey]
    requires MultipartLoop(DeclaredBoundary(r1), lines, FormStart(r1.formData)) == Ok(FormStart(form))
    ensures FinishBody(r1, true, lines)
            == Ok(Parsed(r1.(isMultipart := true, boundary := Some(DeclaredBoundary(r1)), bodyType := Multipart,
                             formData := form), true))
  {
    DetectDeclared(r1);
  }

  /**
    Round trip over the wire: after a `100 Continue`, a multipart request
    whose extra read is a form body encoded with the request's boundary, one
    line per CR LF, gets exactly that body's fields as its form data.
   */
  lemma MultipartRoundTrip(first: string, parts: seq<Part>)
    requires Headers(first).Ok?
    requires ShouldContinue(Headers(first).value) && DeclaresMultipart(Headers(first).value)
    requires '=' in Headers(first).value.fields[ContentTypeKey]
    requires WireBody(DeclaredBoundary(Headers(first).value), parts)
    ensures var second := JoinLines(PartLines(DeclaredBoundary(Headers(first).value), parts));
            && Create(first, second).Ok?
            && Create(first, second).value.request.formData == FormOf(parts, map[])
  {
    var h := Headers(first).value;
    var second := JoinLines(PartLines(DeclaredBoundary(h), parts));
    HeadersFrame(first);
    AfterHeadersRoundTrip(h, parts);
    CreateAfterHeaders(first, second);
  }
}
