/** The HTTP layer's answers (internal/handler/http/dto/response/response.go):
    `Bad` turns an error into a status code and a JSON `{"message": ...}` body,
    `Ok` writes data with status 200. Writing to the connection is left out;
    the functions give the status and the body that would be written. */
module Response {
  import opened Wrappers
  import opened Errors

  const StatusOK: int := 200
  const StatusBadRequest: int := 400
  const StatusNotFound: int := 404
  const StatusInternalServerError: int := 500

  /** The JSON body of an error answer. */
  datatype ErrorBody = ErrorBody(message: string)

  /** What is written back: the status line's code and the JSON body. */
  datatype Written<T> = Written(status: int, body: T)

  /** `ve[0]` is read when the error holds validator errors, so the list must
      not be empty then (only reached when the error is not a NotFound). */
  predicate Answerable(e: Error) {
    !Is(e, NotFound) && AsInvalid(e).Some? ==> |AsInvalid(e).value| > 0
  }

  /** The message for the first failed field. */
  function FieldMessage(fe: FieldError): string {
    "'" + fe.field + "': must be " + fe.tag
  }

  /** `Bad`: the first matching case of NotFound (anywhere in the chain),
      validator errors (anywhere in the chain), the bare `io.EOF`, anything
      else. Every answer is one of 404, 400 and 500. */
  function Bad(e: Error): (w: Written<ErrorBody>)
    requires Answerable(e)
    ensures w.status == StatusNotFound <==> Is(e, NotFound)
    ensures w.status == StatusBadRequest <==> !Is(e, NotFound) && (AsInvalid(e).Some? || e == EOF)
    ensures w.status == StatusInternalServerError <==> !Is(e, NotFound) && AsInvalid(e).None? && e != EOF
    ensures w.status != StatusBadRequest ==> w.body == ErrorBody(Text(e))
    ensures !Is(e, NotFound) && AsInvalid(e).Some? ==> w.body == ErrorBody(FieldMessage(AsInvalid(e).value[0]))
    ensures !Is(e, NotFound) && AsInvalid(e).None? && e == EOF ==> w.body == ErrorBody("body is empty")
  {
    if Is(e, NotFound) then Written(StatusNotFound, ErrorBody(Text(e)))
    else if AsInvalid(e).Some? then Written(StatusBadRequest, ErrorBody(FieldMessage(AsInvalid(e).value[0])))
    else if e == EOF then Written(StatusBadRequest, ErrorBody("body is empty"))
    else Written(StatusInternalServerError, ErrorBody(Text(e)))
  }

  /** `Ok`: status 200 and the data as given. */
  function Ok<T>(data: T): (w: Written<T>)
    ensures w.status == StatusOK && w.body == data
  {
    Written(StatusOK, data)
  }

  /** A NotFound anywhere in the chain wins over everything else it is joined
      with, validator errors included; the message is the error's own text. */
  lemma NotFoundWins(e: Error, other: Error)
    ensures Answerable(Join(e, other)) && Answerable(Join(other, e)) ==>
      (Is(e, NotFound) ==>
        Bad(Join(e, other)) == Written(StatusNotFound, ErrorBody(Text(Join(e, other))))
        && Bad(Join(other, e)) == Written(StatusNotFound, ErrorBody(Text(Join(other, e)))))
  {
  }

  /** Validator errors give 400 with the first failed field and its tag. */
  lemma ValidationMessage(fields: seq<FieldError>, text: string)
    requires |fields| > 0
    ensures Bad(Invalid(fields, text)) == Written(StatusBadRequest,
      ErrorBody("'" + fields[0].field + "': must be " + fields[0].tag))
  {
  }

  /** Only `io.EOF` itself is an empty body: wrapped, it is an internal error
      reported with its text. */
  lemma EofOnlyUnwrapped(detail: string)
    ensures Bad(EOF) == Written(StatusBadRequest, ErrorBody("body is empty"))
    ensures Bad(Wrap(EOF, detail)) == Written(StatusInternalServerError, ErrorBody("EOF: " + detail))
  {
    assert Text(Wrap(EOF, detail)) == "EOF" + ": " + detail;
    assert "EOF" + ": " + detail == "EOF: " + detail;
  }

  /** The errors the repositories and the car info client return: 404 for
      NotFound, 500 for Database and HTTPRequestFailed, with the error text as
      message either way. */
  lemma ClassifiedAnswer(e: Error)
    requires Classified(e)
    ensures Answerable(e)
    ensures Bad(e).body == ErrorBody(Text(e))
    ensures Bad(e).status == (if KindOf(e) == NotFound then StatusNotFound else StatusInternalServerError)
  {
    if e.Wrap? {
      assert AsInvalid(e) == AsInvalid(e.inner) == None;
    } else {
      assert AsInvalid(e.first) == None && AsInvalid(e.second) == None;
    }
    assert Is(e, NotFound) <==> KindOf(e) == NotFound;
  }
}
