/**
  What `parse_request` does after the line loop: the `Expect: 100-…`
  continuation gate, multipart detection from `Content-Type`, and the
  two-slot name/value sub-parser for multipart form data.
 */
module Body {
  import opened Wrappers
  import opened CStrings
  import opened Tokenizer
  import opened Requests

  const ExpectKey: string := "Expect"
  const ContentTypeKey: string := "Content-Type"
  const MultipartFormData: string := "multipart/form-data"
  const FormDataName: string := "form-data; name="

  // ---------------------------------------------------------------------------
  // Expect: 100-continue
  // ---------------------------------------------------------------------------

  /** Lines 269-271 on the Expect value: the text before the first `-` is non-empty and is "100". */
  predicate ContinueToken(v: string)
  {
    var k := Cspn(v, '-');
    k > 0 && v[..k] == "100"
  }

  /** The prefix test accepts exactly "100" and the values starting with "100-". */
  lemma ContinueTokenMeans(v: string)
    ensures ContinueToken(v) <==> v == "100" || StartsWith(v, "100-")
  {
    var k := Cspn(v, '-');
    if ContinueToken(v) {
      assert k == 3;
      if k < |v| {
        assert v[..4] == v[..3] + [v[3]];
      } else {
        assert v == v[..k];
      }
    }
    if v == "100" {
      SpanEndUnique(v, '-', 3);
    }
    if StartsWith(v, "100-") {
      assert v[3] == '-';
      SpanEndUnique(v, '-', 3);
    }
  }

  /**
    Lines 266-271: the parser writes one `100 Continue` response and reads
    once more exactly when the request is valid and its Expect value is
    "100" or starts with "100-".
   */
  function ShouldContinue(r: Request): (b: bool)
    ensures b <==> r.isValid && ExpectKey in r.fields
                   && (r.fields[ExpectKey] == "100" || StartsWith(r.fields[ExpectKey], "100-"))
  {
    if r.isValid && ExpectKey in r.fields && |r.fields[ExpectKey]| > 0 then
      ContinueTokenMeans(r.fields[ExpectKey]);
      ContinueToken(r.fields[ExpectKey])
    else
      false
  }

  // ---------------------------------------------------------------------------
  // Multipart detection
  // ---------------------------------------------------------------------------

  /** The request is valid and its Content-Type starts with "multipart/form-data;". */
  predicate DeclaresMultipart(r: Request)
  {
    && r.isValid
    && ContentTypeKey in r.fields
    && StartsWith(r.fields[ContentTypeKey], MultipartFormData + ";")
  }

  /** Lines 290-295 on the Content-Type value: it has a `;` and the text before the first one is the multipart type. */
  predicate MultipartTypeTest(ct: string)
  {
    && |ct| > 0
    && Contains(ct, ";")
    && var m := Cspn(ct, ';');
       m > 0 && ct[..m] == MultipartFormData
  }

  lemma MultipartTypeTestMeans(ct: string)
    ensures MultipartTypeTest(ct) <==> StartsWith(ct, MultipartFormData + ";")
  {
    ContainsChar(ct, ';');
    CspnFindsOccurrence(ct, ';');
    var m := Cspn(ct, ';');
    if StartsWith(ct, MultipartFormData + ";") {
      assert ';' !in MultipartFormData;
      SpanEndAfterPrefix(ct, MultipartFormData, ';');
      SpanEndUnique(ct, ';', 19);
      assert ct[..19] == (MultipartFormData + ";")[..19];
    }
    if MultipartTypeTest(ct) {
      assert m == 19 && m < |ct|;
      assert ct[..20] == ct[..19] + [ct[19]];
    }
  }

  /**
    Lines 288-307: a valid request whose Content-Type starts with
    "multipart/form-data;" becomes multipart, with the boundary everything
    after the first `=`; with no `=` the C reads past the end of the value.
    Any other request is left as it is.
   */
  function DetectMultipart(r: Request): (res: Result<Request, Overread>)
    ensures res.Ok? ==> res.value.(isMultipart := r.isMultipart, boundary := r.boundary, bodyType := r.bodyType) == r
    ensures !DeclaresMultipart(r) ==> res == Ok(r)
    ensures DeclaresMultipart(r) ==>
              var ct := r.fields[ContentTypeKey];
              && ('=' !in ct ==> res == Err(BoundaryWithoutEquals))
              && forall b :: SpanEnd(ct, '=', b) && b < |ct| ==>
                   res == Ok(r.(isMultipart := true, boundary := Some(ct[b + 1..]), bodyType := Multipart))
  {
    if r.isValid && ContentTypeKey in r.fields && |r.fields[ContentTypeKey]| > 0 then
      var ct := r.fields[ContentTypeKey];
      MultipartTypeTestMeans(ct);
      CspnFindsOccurrence(ct, '=');
      if Contains(ct, ";") then
        var m := Cspn(ct, ';');
        if m > 0 && ct[..m] == MultipartFormData then
          var b := Cspn(ct, '=');
          if b > 0 then
            if b == |ct| then Err(BoundaryWithoutEquals)
            else Ok(r.(isMultipart := true, boundary := Some(ct[b + 1..]), bodyType := Multipart))
          else
            Ok(r)
        else
          Ok(r)
      else
        Ok(r)
    else
      Ok(r)
  }

  // ---------------------------------------------------------------------------
  // The multipart sub-parser
  // ---------------------------------------------------------------------------

  /** The loop's variables: `read_name`, `attribute_name`, `attribute_value`, and `form_data`. */
  datatype FormState = FormState(readName: bool, name: Option<string>, value: Option<string>, form: map<string, string>)

  /** The state on entry to the loop: name mode, both slots NULL. */
  function FormStart(form: map<string, string>): FormState
  {
    FormState(true, None, None, form)
  }

  /** Holds at every loop head: the value slot is NULL, and a name is pending exactly outside name mode. */
  predicate SlotsInvariant(st: FormState)
  {
    st.value.None? && (st.name.Some? <==> !st.readName)
  }

  /**
    The first `"` of `line` is at `q` and the quoted name runs up to `e`,
    the next `"` or the end of the line.
   */
  predicate QuotedAt(line: string, q: int, e: int)
  {
    && SpanEnd(line, '"', q)
    && q < |line|
    && q < e
    && SpanEnd(line[q + 1..], '"', e - q - 1)
  }

  /**
    Lines 319-324: the name is the text after the first `"` up to the next
    `"` or the end of the line, and the guard of line 321 always holds once
    a `"` exists. Without a `"` the C reads past the end of the line.
   */
  function ReadFormName(line: string): (res: Result<Option<string>, Overread>)
    ensures res.Err? <==> '"' !in line
    ensures res.Ok? ==> res.value.Some?
    ensures forall q, e :: QuotedAt(line, q, e) ==> res == Ok(Some(line[q + 1..e]))
  {
    CspnFindsOccurrence(line, '"');
    var q := Cspn(line, '"');
    if q == |line| then
      Err(FormNameWithoutQuote)
    else
      var start := q + 1;
      var n := Cspn(line[start..], '"');
      assert forall q', e' :: QuotedAt(line, q', e') ==> q' == q && e' == start + n by {
        forall q', e' | QuotedAt(line, q', e')
          ensures q' == q && e' == start + n
        {
          SpanEndUnique(line, '"', q');
          SpanEndUnique(line[start..], '"', e' - q' - 1);
        }
      }
      if n < |line| then Ok(Some(line[start..start + n])) else Ok(None)
  }

  /** One pass of the loop body of lines 315-335. */
  function FormStep(boundary: string, st: FormState, line: string): (res: Result<FormState, Overread>)
    ensures SlotsInvariant(st) && res.Ok? ==> SlotsInvariant(res.value)
  {
    var st1 :-
      if Contains(line, boundary) then
        Ok(st)
      else if st.readName then
        if Contains(line, FormDataName) then
          var name :- ReadFormName(line);
          if name.Some? then Ok(st.(name := name, readName := false)) else Ok(st)
        else
          Ok(st)
      else
        Ok(st.(value := Some(line), readName := true));
    if st1.name.Some? && st1.value.Some? then
      Ok(st1.(form := st1.form[st1.name.value := st1.value.value], name := None, value := None))
    else
      Ok(st1)
  }

  /** A line containing the boundary leaves the state as it is. */
  lemma FormStepSkipsBoundary(boundary: string, st: FormState, line: string)
    requires SlotsInvariant(st) && Contains(line, boundary)
    ensures FormStep(boundary, st, line) == Ok(st)
  {
  }

  /**
    In name mode, a `form-data; name=` line with a `"` takes the quoted name
    and leaves name mode; one without a `"` makes the C read past its end.
    Any other line leaves the state as it is.
   */
  lemma FormStepInNameMode(boundary: string, st: FormState, line: string)
    requires SlotsInvariant(st) && st.readName && !Contains(line, boundary)
    ensures Contains(line, FormDataName) && '"' !in line ==> FormStep(boundary, st, line) == Err(FormNameWithoutQuote)
    ensures !Contains(line, FormDataName) ==> FormStep(boundary, st, line) == Ok(st)
    ensures forall q, e :: Contains(line, FormDataName) && QuotedAt(line, q, e) ==>
              FormStep(boundary, st, line) == Ok(st.(name := Some(line[q + 1..e]), readName := false))
  {
  }

  /** Outside name mode, the next line that does not contain the boundary is the value: the pair is committed. */
  lemma FormStepCommitsValue(boundary: string, st: FormState, line: string)
    requires SlotsInvariant(st) && !st.readName && !Contains(line, boundary)
    ensures FormStep(boundary, st, line) == Ok(FormStart(st.form[st.name.value := line]))
  {
  }

  /** The `while (line != NULL)` loop of lines 314-337 over the remaining lines. */
  function MultipartLoop(boundary: string, lines: seq<string>, st: FormState): (res: Result<FormState, Overread>)
    ensures SlotsInvariant(st) && res.Ok? ==> SlotsInvariant(res.value)
    ensures res.Ok? && lines == [] ==> res.value == st
    decreases |lines|
  {
    if lines == [] then
      Ok(st)
    else
      var st1 :- FormStep(boundary, st, lines[0]);
      MultipartLoop(boundary, lines[1..], st1)
  }

  // ---------------------------------------------------------------------------
  // Round trip against a multipart encoder
  // ---------------------------------------------------------------------------

  /** One form field as a client sends it. */
  datatype Part = Part(name: string, value: string)

  /** The disposition header up to the opening quote of the name. */
  const DispositionHead: string := "Content-Disposition: " + FormDataName

  /** The disposition header naming one form field. */
  function DispositionLine(name: string): string
  {
    DispositionHead + "\"" + name + "\""
  }

  /**
    The lines of a multipart/form-data body: per part a delimiter, the
    disposition header, a blank line and the value; then the closing delimiter.
   */
  function PartLines(boundary: string, parts: seq<Part>): seq<string>
  {
    if parts == [] then ["--" + boundary + "--"]
    else ["--" + boundary, DispositionLine(parts[0].name), "", parts[0].value] + PartLines(boundary, parts[1..])
  }

  /** The form the parts describe: later parts overwrite earlier ones with the same name. */
  function FormOf(parts: seq<Part>, form: map<string, string>): map<string, string>
  {
    if parts == [] then form else FormOf(parts[1..], form[parts[0].name := parts[0].value])
  }

  /** A part the sub-parser can read back: a quote-free name, a non-empty value, neither containing the boundary. */
  predicate Readable(boundary: string, p: Part)
  {
    && '"' !in p.name
    && p.value != []
    && !Contains(DispositionLine(p.name), boundary)
    && !Contains(p.value, boundary)
  }

  /** The disposition header carries `form-data; name=`. */
  lemma DispositionHasFormData(name: string)
    ensures Contains(DispositionLine(name), FormDataName)
  {
    var quoted := "\"" + name + "\"";
    assert DispositionLine(name) == "Content-Disposition: " + FormDataName + quoted;
    ContainsInfix("Content-Disposition: ", FormDataName, quoted);
  }

  /** In the disposition header the name is the first quoted run. */
  lemma DispositionQuoted(name: string)
    requires '"' !in name
    ensures QuotedAt(DispositionLine(name), |DispositionHead|, |DispositionHead| + 1 + |name|)
  {
    var line := DispositionLine(name);
    var q := |DispositionHead|;
    assert line[..q + 1] == DispositionHead + "\"";
    assert '"' !in DispositionHead;
    SpanEndAfterPrefix(line, DispositionHead, '"');
    assert line[q + 1..] == name + "\"";
    SpanEndAfterPrefix(line[q + 1..], name, '"');
  }

  /** The disposition header yields the part's name. */
  lemma ReadDispositionName(name: string)
    requires '"' !in name
    ensures Contains(DispositionLine(name), FormDataName)
    ensures ReadFormName(DispositionLine(name)) == Ok(Some(name))
  {
    DispositionHasFormData(name);
    DispositionQuoted(name);
    var line := DispositionLine(name);
    var q := |DispositionHead|;
    assert line[q + 1..q + 1 + |name|] == name;
  }

  /** The loop passes over a delimiter line in name mode. */
  lemma LoopOverDelimiter(boundary: string, rest: seq<string>, st: FormState)
    requires st == FormStart(st.form)
    ensures MultipartLoop(boundary, ["--" + boundary] + rest, st) == MultipartLoop(boundary, rest, st)
  {
    ContainsInfix("--", boundary, []);
    assert "--" + boundary + [] == "--" + boundary;
    LoopStep(boundary, "--" + boundary, rest, st, st);
  }

  /** In name mode, the loop takes the name from a part's disposition header. */
  lemma LoopOverHeader(boundary: string, p: Part, rest: seq<string>, st: FormState)
    requires Readable(boundary, p)
    requires st == FormStart(st.form)
    ensures MultipartLoop(boundary, [DispositionLine(p.name)] + rest, st)
            == MultipartLoop(boundary, rest, st.(name := Some(p.name), readName := false))
  {
    ReadDispositionName(p.name);
    LoopStep(boundary, DispositionLine(p.name), rest, st, st.(name := Some(p.name), readName := false));
  }

  /** In value mode, the loop commits the pending name with the part's value. */
  lemma LoopOverValue(boundary: string, p: Part, rest: seq<string>, st: FormState)
    requires Readable(boundary, p)
    requires st == FormStart(st.form)
    ensures MultipartLoop(boundary, [p.value] + rest, st.(name := Some(p.name), readName := false))
            == MultipartLoop(boundary, rest, FormStart(st.form[p.name := p.value]))
  {
    var named := st.(name := Some(p.name), readName := false);
    LoopStep(boundary, p.value, rest, named, FormStart(st.form[p.name := p.value]));
  }

  /** The loop consumes one part's three lines and commits the part. */
  lemma LoopOverPart(boundary: string, p: Part, tail: seq<string>, st: FormState)
    requires Readable(boundary, p)
    requires st == FormStart(st.form)
    ensures MultipartLoop(boundary, ["--" + boundary, DispositionLine(p.name), p.value] + tail, st)
            == MultipartLoop(boundary, tail, FormStart(st.form[p.name := p.value]))
  {
    var delimiter, header := "--" + boundary, DispositionLine(p.name);
    assert [delimiter, header, p.value] + tail == [delimiter] + ([header] + ([p.value] + tail));
    LoopOverDelimiter(boundary, [header] + ([p.value] + tail), st);
    LoopOverHeader(boundary, p, [p.value] + tail, st);
    LoopOverValue(boundary, p, tail, st);
  }

  /** The loop unfolded once. */
  lemma LoopStep(boundary: string, line: string, rest: seq<string>, st: FormState, st1: FormState)
    requires FormStep(boundary, st, line) == Ok(st1)
    ensures MultipartLoop(boundary, [line] + rest, st) == MultipartLoop(boundary, rest, st1)
  {
    assert ([line] + rest)[1..] == rest;
  }

  /** The non-empty lines of an encoded body: delimiter, header, value per part, then the closing delimiter. */
  lemma PartLinesNonEmpty(boundary: string, parts: seq<Part>)
    requires parts != [] && parts[0].value != []
    ensures NonEmpty(PartLines(boundary, parts))
            == ["--" + boundary, DispositionLine(parts[0].name), parts[0].value]
               + NonEmpty(PartLines(boundary, parts[1..]))
  {
    var p := parts[0];
    var rest := PartLines(boundary, parts[1..]);
    var four := ["--" + boundary, DispositionLine(p.name), "", p.value];
    assert PartLines(boundary, parts) == four + rest;
    NonEmptyAppend(four, rest);
    assert four[1..][1..][1..][1..] == [];
    assert NonEmpty(four[1..][1..][1..]) == [p.value];
    assert NonEmpty(four[1..][1..]) == [p.value];
    assert NonEmpty(four[1..]) == [DispositionLine(p.name), p.value];
  }

  /**
    Round trip: the sub-parser, fed the non-empty lines of an encoded body,
    commits every part, later names overwriting earlier ones.
   */
  lemma {:induction false} FormRoundTrip(boundary: string, parts: seq<Part>, form: map<string, string>)
    requires forall i :: 0 <= i < |parts| ==> Readable(boundary, parts[i])
    ensures MultipartLoop(boundary, NonEmpty(PartLines(boundary, parts)), FormStart(form))
            == Ok(FormStart(FormOf(parts, form)))
  {
    if parts == [] {
      var closing := "--" + boundary + "--";
      ContainsInfix("--", boundary, "--");
      assert NonEmpty([closing]) == [closing];
    } else {
      var p := parts[0];
      PartLinesNonEmpty(boundary, parts);
      LoopOverPart(boundary, p, NonEmpty(PartLines(boundary, parts[1..])), FormStart(form));
      FormRoundTrip(boundary, parts[1..], form[p.name := p.value]);
    }
  }
}
