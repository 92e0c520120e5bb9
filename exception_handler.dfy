/** The validation-error response of ExceptionHandler.java: every binding
    error of a rejected request body becomes one line of the ApiError. */
module ExceptionHandler {
  import opened Outcomes

  /** A FieldError as the handler reads it: the field and its default message (maybe null). */
  datatype FieldError = FieldError(field: string, defaultMessage: Option<string>)

  /** An ObjectError (a global error): the object name and its default message (maybe null). */
  datatype ObjectError = ObjectError(objectName: string, defaultMessage: Option<string>)

  /** ApiError(status, message, errors). */
  datatype ApiError = ApiError(status: int, message: string, errors: seq<string>)

  /** ResponseEntity.status(status).body(body). */
  datatype ResponseEntity = ResponseEntity(status: int, body: ApiError)

  /** Java's string concatenation writes a null reference as "null". */
  function Show(s: Option<string>): string
  {
    match s
    case Some(text) => text
    case None => "null"
  }

  /** One line: name + ": " + message. */
  function Entry(name: string, message: Option<string>): (line: string)
    ensures |line| == |name| + 2 + |Show(message)|
    ensures line[..|name|] == name && line[|name|..|name| + 2] == ": " && line[|name| + 2..] == Show(message)
  {
    name + ": " + Show(message)
  }

  /** The line of each field error, in binding-result order. */
  function FieldEntries(errors: seq<FieldError>): (lines: seq<string>)
    ensures |lines| == |errors|
    ensures forall i :: 0 <= i < |errors| ==> lines[i] == Entry(errors[i].field, errors[i].defaultMessage)
  {
    seq(|errors|, i requires 0 <= i < |errors| => Entry(errors[i].field, errors[i].defaultMessage))
  }

  /** The line of each global error, in binding-result order. */
  function GlobalEntries(errors: seq<ObjectError>): (lines: seq<string>)
    ensures |lines| == |errors|
    ensures forall i :: 0 <= i < |errors| ==> lines[i] == Entry(errors[i].objectName, errors[i].defaultMessage)
  {
    seq(|errors|, i requires 0 <= i < |errors| => Entry(errors[i].objectName, errors[i].defaultMessage))
  }

  const VALIDATION_ERROR := "Validation error"

  /** buildResponseEntity: the ApiError is the body, and its status the HTTP status. */
  function BuildResponseEntity(e: ApiError): (r: ResponseEntity)
    ensures r.status == e.status && r.body == e
  {
    ResponseEntity(e.status, e)
  }

  /** handleMethodArgumentNotValid: one line per field error, then one per global error. */
  method HandleMethodArgumentNotValid(fieldErrors: seq<FieldError>, globalErrors: seq<ObjectError>)
    returns (r: ResponseEntity)
    ensures r.status == BAD_REQUEST && r.body.status == BAD_REQUEST && r.body.message == VALIDATION_ERROR
    ensures r.body.errors == FieldEntries(fieldErrors) + GlobalEntries(globalErrors)
  {
    var errors: seq<string> := [];
    var i := 0;
    while i < |fieldErrors|
      invariant 0 <= i <= |fieldErrors|
      invariant errors == FieldEntries(fieldErrors[..i])
    {
      errors := errors + [Entry(fieldErrors[i].field, fieldErrors[i].defaultMessage)];
      i := i + 1;
    }
    assert fieldErrors[..i] == fieldErrors;
    var j := 0;
    while j < |globalErrors|
      invariant 0 <= j <= |globalErrors|
      invariant errors == FieldEntries(fieldErrors) + GlobalEntries(globalErrors[..j])
    {
      errors := errors + [Entry(globalErrors[j].objectName, globalErrors[j].defaultMessage)];
      j := j + 1;
    }
    assert globalErrors[..j] == globalErrors;
    r := BuildResponseEntity(ApiError(BAD_REQUEST, VALIDATION_ERROR, errors));
  }

  /** The list holds one line per error: the two counts add up. */
  lemma ErrorCount(fieldErrors: seq<FieldError>, globalErrors: seq<ObjectError>)
    ensures |FieldEntries(fieldErrors) + GlobalEntries(globalErrors)| == |fieldErrors| + |globalErrors|
  {
  }

  /** Field lines come first, global lines after, each group in its own order. */
  lemma ErrorOrder(fieldErrors: seq<FieldError>, globalErrors: seq<ObjectError>)
    ensures var errors := FieldEntries(fieldErrors) + GlobalEntries(globalErrors);
      && (forall i :: 0 <= i < |fieldErrors| ==>
            errors[i] == Entry(fieldErrors[i].field, fieldErrors[i].defaultMessage))
      && (forall k :: 0 <= k < |globalErrors| ==>
            errors[|fieldErrors| + k] == Entry(globalErrors[k].objectName, globalErrors[k].defaultMessage))
  {
  }

  /** Appending one more field error appends exactly its line before the global lines. */
  lemma {:induction false} FieldEntriesAppend(errors: seq<FieldError>, e: FieldError)
    ensures FieldEntries(errors + [e]) == FieldEntries(errors) + [Entry(e.field, e.defaultMessage)]
  {
    var lhs, rhs := FieldEntries(errors + [e]), FieldEntries(errors) + [Entry(e.field, e.defaultMessage)];
    assert |lhs| == |rhs|;
    forall i | 0 <= i < |lhs|
      ensures lhs[i] == rhs[i]
    {
      if i < |errors| {
        assert (errors + [e])[i] == errors[i];
      }
    }
  }
}
