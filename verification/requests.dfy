/**
  The request record `gs_request_t`, its state right after
  `gs_request_create` allocates it, and the public accessors.
 */
module Requests {
  import opened Wrappers

  /** `gs_http_method_e`. */
  datatype Method = Options | Get | Head | Post | Put | Delete | Trace | Connect | Unknown

  /** `gs_request_body_e`. */
  datatype BodyType = BodyUnknown | Multipart

  /** The `gs_status_t` values the accessors return. */
  datatype Status = Success | Failed | True | False

  /**
    Where the C code would read past the end of the current line; the model gives
    such inputs no result.
   */
  datatype Overread =
    | RequestLineWithoutSpace   // `line + method_ends_at + 1` when the line has no space
    | FieldWithoutValue         // `line + assignment_at + 2` when nothing follows the first colon
    | BoundaryWithoutEquals     // `content_type_value + boundary_def_prefix` when there is no `=`
    | FormNameWithoutQuote      // `line + name_starts_at` when the line has no `"`

  /**
    `gs_request_t` without its memory pool. `resource` and `boundary` are
    None while the parser has not assigned them (the C leaves them
    uninitialised); `content` is None for the NULL pointer.
   */
  datatype Request = Request(
    original: string,
    fields: map<string, string>,
    formData: map<string, string>,
    httpMethod: Method,
    resource: Option<string>,
    content: Option<string>,
    isValid: bool,
    isMultipart: bool,
    boundary: Option<string>,
    bodyType: BodyType)

  /**
    The record as `gs_request_create` sets it up before parsing: not valid,
    method unknown, no content, no header field and no form value, and no
    body type yet.
   */
  function Initial(): (r: Request)
    ensures !IsValid(r) && IsMethod(r, Unknown) && HasContent(r) == False
    ensures forall key :: !HasField(r, key) && !HasForm(r, key)
    ensures !r.isMultipart && r.bodyType == BodyUnknown
  {
    Request(
      original := [],
      fields := map[],
      formData := map[],
      httpMethod := Unknown,
      resource := None,
      content := None,
      isValid := false,
      isMultipart := false,
      boundary := None,
      bodyType := BodyUnknown)
  }

  /** `gs_request_raw`: the text of the first receive buffer. */
  function Raw(r: Request): string
  {
    r.original
  }

  /** `gs_request_field_by_name`: the header value, or NULL. */
  function FieldByName(r: Request, key: string): (v: Option<string>)
    ensures v.Some? <==> key in r.fields
    ensures v.Some? ==> v.value == r.fields[key]
  {
    if key in r.fields then Some(r.fields[key]) else None
  }

  /** `gs_request_has_field`: whether `field_by_name` would find a value. */
  function HasField(r: Request, key: string): (b: bool)
    ensures b <==> FieldByName(r, key).Some?
  {
    key in r.fields
  }

  /** `gs_request_form_by_name`: the form value, or NULL. */
  function FormByName(r: Request, key: string): (v: Option<string>)
    ensures v.Some? <==> key in r.formData
    ensures v.Some? ==> v.value == r.formData[key]
  {
    if key in r.formData then Some(r.formData[key]) else None
  }

  /** `gs_request_has_form`: whether `form_by_name` would find a value. */
  function HasForm(r: Request, key: string): (b: bool)
    ensures b <==> FormByName(r, key).Some?
  {
    key in r.formData
  }

  /** `gs_request_has_content`: TRUE when the content pointer is set, FALSE otherwise. */
  function HasContent(r: Request): (s: Status)
    ensures s == True || s == False
    ensures s == True <==> r.content.Some?
  {
    if r.content.Some? then True else False
  }

  /**
    `gs_request_get_content`: SUCCESS with the content when `has_content`
    says TRUE, FAILED with NULL otherwise.
   */
  function GetContent(r: Request): (res: (Status, Option<string>))
    ensures res.0 == Success || res.0 == Failed
    ensures res.0 == Success <==> HasContent(r) == True
    ensures res.0 == Success ==> res.1 == r.content
    ensures res.0 == Failed ==> res.1 == None
  {
    if HasContent(r) == True then (Success, r.content) else (Failed, None)
  }

  /** `gs_request_method`. */
  function GetMethod(r: Request): Method
  {
    r.httpMethod
  }

  /** `gs_request_is_method`: whether the request carries method `m`. */
  function IsMethod(r: Request, m: Method): (b: bool)
    ensures b <==> GetMethod(r) == m
  {
    r.httpMethod == m
  }

  /** `gs_request_resource`. */
  function GetResource(r: Request): Option<string>
  {
    r.resource
  }

  /** `gs_request_is_valid`. */
  function IsValid(r: Request): bool
  {
    r.isValid
  }
}
