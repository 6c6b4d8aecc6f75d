/**
  The line loop of `parse_request`: a three-phase state machine over the
  tokens of the first receive buffer (request line, header fields, content).
 */
module Header {
  import opened Wrappers
  import opened CStrings
  import opened Tokenizer
  import opened Requests

  /** `enum parsing_modus`; being closed, it leaves the `panic` default no case to catch. */
  datatype Phase = MethodPhase | FieldsPhase | ContentPhase

  /** The token a recognised method is spelled as on the request line. */
  function MethodToken(m: Method): string
  {
    match m
    case Options => "OPTIONS"
    case Get => "GET"
    case Head => "HEAD"
    case Post => "POST"
    case Put => "PUT"
    case Delete => "DELETE"
    case Trace => "TRACE"
    case Connect => "CONNECT"
    case Unknown => ""
  }

  /**
    The `strcmp` chain: exact, case-sensitive comparison with the eight
    method tokens; anything else is UNKNOWN.
   */
  function MethodOf(tok: string): (m: Method)
    ensures m != Unknown ==> MethodToken(m) == tok
    ensures m == Unknown ==> forall k: Method :: k != Unknown ==> MethodToken(k) != tok
  {
    if tok == "OPTIONS" then Options
    else if tok == "GET" then Get
    else if tok == "HEAD" then Head
    else if tok == "POST" then Post
    else if tok == "PUT" then Put
    else if tok == "DELETE" then Delete
    else if tok == "TRACE" then Trace
    else if tok == "CONNECT" then Connect
    else Unknown
  }

  /**
    `line` is a well-formed request line: a method token of `k` characters
    ended by the first space, then a resource of `n > 0` characters ended by
    the next space or by the end of the line.
   */
  predicate RequestLineShape(line: string, k: int, n: int)
  {
    && SpanEnd(line, ' ', k)
    && 0 < k < |line|
    && SpanEnd(line[k + 1..], ' ', n)
    && n > 0
  }

  /** The PARSE_HTTP_METHOD case: method, resource and validity from the first line. */
  function ApplyRequestLine(r: Request, line: string): (res: Result<Request, Overread>)
    requires line != []
    ensures res.Err? <==> ' ' !in line
    ensures res.Ok? ==> res.value.(httpMethod := r.httpMethod, resource := r.resource, isValid := r.isValid) == r
    ensures res.Ok? && line[0] == ' ' ==> res.value == r
    ensures forall k :: 0 < k < |line| && SpanEnd(line, ' ', k) ==>
              res.Ok? && res.value.httpMethod == MethodOf(line[..k])
  {
    var k := Cspn(line, ' ');
    CspnFindsOccurrence(line, ' ');
    if k > 0 then
      var withMethod := r.(httpMethod := MethodOf(line[..k]));
      if k == |line| then
        Err(RequestLineWithoutSpace)
      else
        var after := line[k + 1..];
        var n := Cspn(after, ' ');
        if n > 0 then Ok(withMethod.(resource := Some(after[..n]), isValid := true))
        else Ok(withMethod)
    else
      Ok(r)
  }

  /**
    The method is decided by the text before the first space, and a
    well-formed request line sets the resource to the run after that space
    and marks the request valid.
   */
  lemma RequestLineWellFormed(r: Request, line: string, k: int, n: int)
    requires RequestLineShape(line, k, n)
    ensures ApplyRequestLine(r, line)
            == Ok(r.(httpMethod := MethodOf(line[..k]), resource := Some(line[k + 1..k + 1 + n]), isValid := true))
  {
    SpanEndUnique(line, ' ', k);
    SpanEndUnique(line[k + 1..], ' ', n);
    assert line[k + 1..][..n] == line[k + 1..k + 1 + n];
  }

  /** Any other request line leaves resource and validity as they were. */
  lemma RequestLineMalformed(r: Request, line: string)
    requires line != []
    requires forall k, n :: !RequestLineShape(line, k, n)
    ensures ApplyRequestLine(r, line).Ok? ==>
              ApplyRequestLine(r, line).value.resource == r.resource
              && ApplyRequestLine(r, line).value.isValid == r.isValid
  {
    var k := Cspn(line, ' ');
    if 0 < k < |line| {
      assert !RequestLineShape(line, k, Cspn(line[k + 1..], ' '));
    }
  }

  /** The first colon of `line` is at `k`. */
  predicate FirstColonAt(line: string, k: int)
  {
    0 <= k < |line| && SpanEnd(line, ':', k)
  }

  /**
    The PARSE_HTTP_FIELDS case. The name is the untrimmed text before the
    first colon; the value starts two characters after it, so the one
    character after the colon is dropped whatever it is. A line starting
    with a colon stores nothing; one with no colon, or with nothing after
    its first colon, makes the C read past the end of the line.
   */
  function ApplyField(r: Request, line: string): (res: Result<Request, Overread>)
    requires line != []
    ensures res.Ok? ==> res.value.(fields := r.fields) == r
    ensures res.Err? <==> line[0] != ':' && forall i :: 0 <= i < |line| - 1 ==> line[i] != ':'
    ensures line[0] == ':' ==> res == Ok(r)
    ensures forall k :: 0 < k < |line| - 1 && FirstColonAt(line, k) ==>
              res == Ok(r.(fields := r.fields[line[..k] := line[k + 2..]]))
  {
    var k := Cspn(line, ':');
    if k > 0 then
      if k + 2 > |line| then Err(FieldWithoutValue)
      else Ok(r.(fields := r.fields[line[..k] := line[k + 2..]]))
    else
      Ok(r)
  }

  /**
    The PARSE_HTTP_CONTENT case: the line is appended, with nothing in
    between, to the content so far (none when the pointer was NULL).
   */
  function AppendContent(r: Request, line: string): (r': Request)
    ensures r'.(content := r.content) == r
    ensures r'.content.Some?
  {
    r.(content := Some(r.content.GetOr([]) + line))
  }

  /** The new content starts with the earlier content (none for NULL) and ends with the line. */
  lemma AppendContentExtends(r: Request, line: string)
    ensures var c := AppendContent(r, line).content.value;
            var before := r.content.GetOr([]);
            |c| == |before| + |line| && c[..|before|] == before && c[|before|..] == line
  {
  }

  /**
    The `switch (parsing_modus)` on one non-empty line. After the request
    line the phase is FIELDS; FIELDS and CONTENT keep their phase.
   */
  function ApplyLine(r: Request, phase: Phase, line: string): (res: Result<(Request, Phase), Overread>)
    requires line != []
    ensures res.Ok? ==> res.value.1 == if phase == ContentPhase then ContentPhase else FieldsPhase
  {
    match phase
    case MethodPhase =>
      var r' :- ApplyRequestLine(r, line);
      Ok((r', FieldsPhase))
    case FieldsPhase =>
      var r' :- ApplyField(r, line);
      Ok((r', FieldsPhase))
    case ContentPhase =>
      Ok((AppendContent(r, line), ContentPhase))
  }

  const BlankLine: string := "\n\r\n"

  /** The test of line 259: `strstr(last_line, "\n\r\n") == last_line`. */
  predicate BlankFollows(t: Token)
  {
    Strstr(t.rest, BlankLine) == Some(0)
  }

  /** Line 259 holds exactly when the text after the token's separator starts with LF CR LF. */
  lemma BlankFollowsMeans(t: Token)
    ensures BlankFollows(t) <==> StartsWith(t.rest, "\n\r\n")
  {
    StrstrAtStart(t.rest, BlankLine);
  }

  /**
    The `while (line != NULL)` loop: the `strlen(line)` guard, the phase
    switch, then the blank-line test, which runs in every phase.
   */
  function HeaderLoop(ts: seq<Token>, r: Request, phase: Phase): (res: Result<(Request, Phase), Overread>)
    ensures res.Ok? ==> var r' := res.value.0;
              && r'.original == r.original && r'.formData == r.formData
              && r'.isMultipart == r.isMultipart && r'.boundary == r.boundary && r'.bodyType == r.bodyType
    ensures res.Ok? ==>
              (res.value.1 == ContentPhase <==> phase == ContentPhase || exists i :: 0 <= i < |ts| && BlankFollows(ts[i]))
    ensures phase == ContentPhase ==> res.Ok?
    decreases |ts|
  {
    if ts == [] then
      Ok((r, phase))
    else
      var t := ts[0];
      var s :- if |t.line| > 0 then ApplyLine(r, phase, t.line) else Ok((r, phase));
      var next := if BlankFollows(t) then ContentPhase else s.1;
      HeaderLoop(ts[1..], s.0, next)
  }

  /** Drops the phase from a loop result. */
  function RequestOf(res: Result<(Request, Phase), Overread>): Result<Request, Overread>
  {
    match res
    case Ok(p) => Ok(p.0)
    case Err(e) => Err(e)
  }

  // ---------------------------------------------------------------------------
  // Reference definition of the loop, phase by phase
  // ---------------------------------------------------------------------------

  /** Index of the first token followed by a blank line, or `|ts|`. */
  function FirstBlank(ts: seq<Token>): (b: nat)
    ensures b <= |ts|
    ensures b < |ts| ==> BlankFollows(ts[b])
    ensures forall i :: 0 <= i < b ==> !BlankFollows(ts[i])
  {
    if ts == [] then 0
    else if BlankFollows(ts[0]) then 0
    else 1 + FirstBlank(ts[1..])
  }

  /** How many leading tokens of `ts` precede the content: up to and including the first blank one. */
  function HeadCount(ts: seq<Token>): (c: nat)
    ensures c <= |ts|
  {
    var b := FirstBlank(ts);
    if b < |ts| then b + 1 else |ts|
  }

  /** Header field lines applied one after another. */
  function FieldsFold(r: Request, ts: seq<Token>): (res: Result<Request, Overread>)
    ensures res.Ok? ==> res.value.(fields := r.fields) == r
    decreases |ts|
  {
    if ts == [] then
      Ok(r)
    else
      var r1 :- if ts[0].line != [] then ApplyField(r, ts[0].line) else Ok(r);
      FieldsFold(r1, ts[1..])
  }

  /** All strings of `ls`, one after another. */
  function Concat(ls: seq<string>): string
  {
    if ls == [] then [] else ls[0] + Concat(ls[1..])
  }

  /**
    Content lines appended one after another: the content is set as soon as
    one non-empty line arrives, and is then everything received, without
    separators.
   */
  function ContentFold(r: Request, ts: seq<Token>): (r': Request)
    ensures r'.(content := r.content) == r
    ensures r'.content == if NonEmpty(Lines(ts)) == [] then r.content
                          else Some(r.content.GetOr([]) + Concat(NonEmpty(Lines(ts))))
    decreases |ts|
  {
    if ts == [] then
      r
    else
      var l := ts[0].line;
      var r1 := if l != [] then AppendContent(r, l) else r;
      var more := Lines(ts[1..]);
      assert Lines(ts) == [l] + more;
      assert ([l] + more)[1..] == more;
      if l != [] then
        assert NonEmpty(Lines(ts)) == [l] + NonEmpty(more);
        assert ([l] + NonEmpty(more))[1..] == NonEmpty(more);
        assert Concat([l] + NonEmpty(more)) == l + Concat(NonEmpty(more));
        var prev := r.content.GetOr([]);
        var x := Concat(NonEmpty(more));
        assert NonEmpty(more) == [] ==> x == [];
        assert (prev + l) + x == prev + (l + x);
        assert x == [] ==> prev + l == prev + (l + x);
        ContentFold(r1, ts[1..])
      else
        assert NonEmpty(Lines(ts)) == NonEmpty(more);
        ContentFold(r1, ts[1..])
  }

  /** Field lines up to the first blank line, then content. */
  function FieldsThenContent(r: Request, ts: seq<Token>): Result<Request, Overread>
  {
    var c := HeadCount(ts);
    var r1 :- FieldsFold(r, ts[..c]);
    Ok(ContentFold(r1, ts[c..]))
  }

  /**
    Reference definition: token 0 is the request line; tokens 1 to b, where
    b is the first token followed by a blank line, are header fields (token
    b itself included, and none when b is 0); every later token is content.
   */
  function PhasedParse(r: Request, ts: seq<Token>): (res: Result<Request, Overread>)
    ensures res.Ok? ==> res.value.(httpMethod := r.httpMethod, resource := r.resource, isValid := r.isValid,
                                   fields := r.fields, content := r.content) == r
  {
    if ts == [] then
      Ok(r)
    else
      var c := HeadCount(ts);
      var r1 :- if ts[0].line != [] then ApplyRequestLine(r, ts[0].line) else Ok(r);
      var r2 :- FieldsFold(r1, ts[1..c]);
      Ok(ContentFold(r2, ts[c..]))
  }

  /** Once in the CONTENT phase, every further token is content. */
  lemma {:induction false} ContentLoop(ts: seq<Token>, r: Request)
    ensures HeaderLoop(ts, r, ContentPhase) == Ok((ContentFold(r, ts), ContentPhase))
    decreases |ts|
  {
    if ts != [] {
      var r1 := if ts[0].line != [] then AppendContent(r, ts[0].line) else r;
      ContentLoop(ts[1..], r1);
    }
  }

  /** In the FIELDS phase, tokens up to the first blank one are fields and the rest content. */
  lemma {:induction false} FieldsLoop(ts: seq<Token>, r: Request)
    ensures RequestOf(HeaderLoop(ts, r, FieldsPhase)) == FieldsThenContent(r, ts)
    decreases |ts|
  {
    if ts != [] {
      var c := HeadCount(ts);
      var head := ts[..c];
      assert head[0] == ts[0];
      var step := if ts[0].line != [] then ApplyField(r, ts[0].line) else Ok(r);
      assert FieldsFold(r, head) == (var r1 :- step; FieldsFold(r1, head[1..]));
      if step.Ok? {
        var r1 := step.value;
        assert HeaderLoop(ts, r, FieldsPhase)
               == HeaderLoop(ts[1..], r1, if BlankFollows(ts[0]) then ContentPhase else FieldsPhase);
        if BlankFollows(ts[0]) {
          ContentLoop(ts[1..], r1);
          assert head[1..] == [];
        } else {
          FieldsLoop(ts[1..], r1);
          assert c == 1 + HeadCount(ts[1..]);
          assert head[1..] == ts[1..][..c - 1];
          assert ts[c..] == ts[1..][c - 1..];
        }
      }
    }
  }

  /** The first step of the loop: the request line, then FIELDS or (after a blank line) CONTENT. */
  lemma FirstStep(ts: seq<Token>, r: Request)
    requires ts != [] && ts[0].line != []
    ensures var step := if ts[0].line != [] then ApplyRequestLine(r, ts[0].line) else Ok(r);
            RequestOf(HeaderLoop(ts, r, MethodPhase))
            == (var r1 :- step;
                RequestOf(HeaderLoop(ts[1..], r1, if BlankFollows(ts[0]) then ContentPhase else FieldsPhase)))
  {
  }

  /** The reference definition, unfolded once. */
  lemma PhasedParseStep(ts: seq<Token>, r: Request)
    requires ts != []
    ensures var step := if ts[0].line != [] then ApplyRequestLine(r, ts[0].line) else Ok(r);
            PhasedParse(r, ts)
            == (var r1 :- step;
                if BlankFollows(ts[0]) then Ok(ContentFold(r1, ts[1..])) else FieldsThenContent(r1, ts[1..]))
  {
    var c := HeadCount(ts);
    if BlankFollows(ts[0]) {
      assert ts[1..c] == [];
    } else {
      assert c == 1 + HeadCount(ts[1..]);
      assert ts[1..c] == ts[1..][..c - 1];
      assert ts[c..] == ts[1..][c - 1..];
    }
  }

  /** The loop, started in the METHOD phase, does what the reference definition says. */
  lemma HeaderLoopByPhase(ts: seq<Token>, r: Request)
    requires ts == [] || ts[0].line != []
    ensures RequestOf(HeaderLoop(ts, r, MethodPhase)) == PhasedParse(r, ts)
  {
    if ts != [] {
      FirstStep(ts, r);
      PhasedParseStep(ts, r);
      var step := if ts[0].line != [] then ApplyRequestLine(r, ts[0].line) else Ok(r);
      if step.Ok? {
        if BlankFollows(ts[0]) {
          ContentLoop(ts[1..], step.value);
        } else {
          FieldsLoop(ts[1..], step.value);
        }
      }
    }
  }

  // ---------------------------------------------------------------------------
  // What the header fields end up as
  // ---------------------------------------------------------------------------

  /** The (name, value) pair a FIELDS-phase line stores, if it stores one. */
  function FieldEntry(line: string): Option<(string, string)>
  {
    if line == [] then None
    else
      var k := Cspn(line, ':');
      if 0 < k && k + 2 <= |line| then Some((line[..k], line[k + 2..])) else None
  }

  /** The token stores a value under `key`. */
  predicate StoresKey(t: Token, key: string)
  {
    FieldEntry(t.line).Some? && FieldEntry(t.line).value.0 == key
  }

  /**
    Later lines win: after the field lines, `key` is present exactly when it
    was before or some line stores it, and its value is the one stored by
    the last such line (or the earlier value when no line stores it).
   */
  lemma {:induction false} FieldsLastWriteWins(r: Request, ts: seq<Token>, key: string)
    requires FieldsFold(r, ts).Ok?
    ensures key in FieldsFold(r, ts).value.fields <==>
              key in r.fields || exists i :: 0 <= i < |ts| && StoresKey(ts[i], key)
    ensures forall i :: 0 <= i < |ts| && StoresKey(ts[i], key)
                        && (forall j :: i < j < |ts| ==> !StoresKey(ts[j], key)) ==>
              FieldsFold(r, ts).value.fields[key] == FieldEntry(ts[i].line).value.1
    ensures (forall i :: 0 <= i < |ts| ==> !StoresKey(ts[i], key)) && key in r.fields ==>
              FieldsFold(r, ts).value.fields[key] == r.fields[key]
    decreases |ts|
  {
    if ts != [] {
      var r1 := (if ts[0].line != [] then ApplyField(r, ts[0].line) else Ok(r)).value;
      if StoresKey(ts[0], key) {
        assert key in r1.fields && r1.fields[key] == FieldEntry(ts[0].line).value.1;
      } else {
        assert key in r1.fields <==> key in r.fields;
        assert key in r.fields ==> r1.fields[key] == r.fields[key];
      }
      FieldsLastWriteWins(r1, ts[1..], key);
      assert forall i :: 1 <= i < |ts| ==> ts[i] == ts[1..][i - 1];
    }
  }

  /** Starting from no fields, the reference parse stores what the header field lines store, later ones winning. */
  lemma PhasedFields(r: Request, ts: seq<Token>, key: string)
    requires ts != [] && ts[0].line != [] && r.fields == map[]
    requires PhasedParse(r, ts).Ok?
    ensures var fields := PhasedParse(r, ts).value.fields;
            var fs := ts[1..HeadCount(ts)];
            && (key in fields <==> exists i :: 0 <= i < |fs| && StoresKey(fs[i], key))
            && forall i :: 0 <= i < |fs| && StoresKey(fs[i], key)
                           && (forall j :: i < j < |fs| ==> !StoresKey(fs[j], key)) ==>
                 fields[key] == FieldEntry(fs[i].line).value.1
  {
    var r1 := ApplyRequestLine(r, ts[0].line).value;
    FieldsLastWriteWins(r1, ts[1..HeadCount(ts)], key);
  }

  /** Starting from no content, the reference parse's content is the content lines run together. */
  lemma PhasedContent(r: Request, ts: seq<Token>)
    requires ts != [] && r.content == None
    requires forall i :: 0 <= i < |ts| ==> IsLine(ts[i].line)
    requires PhasedParse(r, ts).Ok?
    ensures var cs := ts[HeadCount(ts)..];
            PhasedParse(r, ts).value.content == if cs == [] then None else Some(Concat(Lines(cs)))
  {
    var c := HeadCount(ts);
    assert IsLine(ts[0].line);
    var r1 := ApplyRequestLine(r, ts[0].line).value;
    var r2 := FieldsFold(r1, ts[1..c]).value;
    assert r2.content == None;
    var cs := ts[c..];
    assert forall i :: 0 <= i < |cs| ==> cs[i] == ts[c + i];
    LinesAllNonEmpty(cs);
    assert Lines(cs) == [] <==> cs == [];
    assert PhasedParse(r, ts).value == ContentFold(r2, cs);
    assert [] + Concat(Lines(cs)) == Concat(Lines(cs));
  }
}
