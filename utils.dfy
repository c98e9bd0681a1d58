/** Formatting of validation failures for the error response
    (pkg/utils/response.go). */
module Utils {
  import opened Text
  import opened Response

  /** What the handler needs of a validator field error: the struct field
      name, the failing tag and the tag's parameter. */
  datatype FieldError = FieldError(Field: string, Tag: string, Param: string)

  /** The error handed to `ValidationErrorResponse`: either the validator's
      list of field errors or some other error. */
  datatype ValidationFailure =
    | ValidationErrors(errors: seq<FieldError>)
    | OtherError(message: string)

  const ErrorSeparator: string := "; "

  const KnownTags: set<string> := {"required", "min", "max", "len", "email", "oneof"}

  /** The text after the field name for each tag. */
  function TagSuffix(tag: string, param: string): string
  {
    match tag
    case "required" => " is required"
    case "min" => " must be at least " + param
    case "max" => " must be at most " + param
    case "len" => " must be exactly " + param + " characters"
    case "email" => " must be a valid email"
    case "oneof" => " must be one of: " + param
    case _ => " is invalid"
  }

  /** `formatValidationError`: the field name followed by a tag-specific
      suffix; any tag outside the six known ones reads "is invalid". */
  function FormatValidationError(e: FieldError): (r: string)
    ensures |r| > |e.Field| && r[..|e.Field|] == e.Field
    ensures e.Tag !in KnownTags ==> r == e.Field + " is invalid"
    ensures e.Tag == "required" ==> r == e.Field + " is required"
  {
    e.Field + TagSuffix(e.Tag, e.Param)
  }

  /** `joinErrors`: the accumulating loop, proved to build the messages
      separated by "; ". */
  method JoinErrors(errors: seq<string>) returns (result: string)
    ensures result == Joined(errors, ErrorSeparator)
  {
    result := "";
    for i := 0 to |errors|
      invariant result == Joined(errors[..i], ErrorSeparator)
    {
      if i > 0 {
        result := result + ErrorSeparator;
      }
      result := result + errors[i];
      assert errors[..i + 1][..i] == errors[..i];
    }
    assert errors[..|errors|] == errors;
  }

  /** The field errors formatted one by one, in order. */
  function FormatAll(errors: seq<FieldError>): (r: seq<string>)
    ensures |r| == |errors|
    ensures forall i :: 0 <= i < |errors| ==> r[i] == FormatValidationError(errors[i])
  {
    seq(|errors|, i requires 0 <= i < |errors| => FormatValidationError(errors[i]))
  }

  /** `ValidationErrorResponse` without the HTTP write: the error detail it
      sends. The loop collects the formatted field errors in order. */
  method ValidationErrorDetail(err: ValidationFailure) returns (d: ErrorDetail)
    ensures d.Code == "VALIDATION_ERROR" && d.Message == "Validation failed"
    ensures err.ValidationErrors? ==> d.Details == Joined(FormatAll(err.errors), ErrorSeparator)
    ensures err.OtherError? ==> d.Details == ""
  {
    var messages: seq<string> := [];
    if err.ValidationErrors? {
      var fieldErrors := err.errors;
      for i := 0 to |fieldErrors|
        invariant |messages| == i
        invariant forall j :: 0 <= j < i ==> messages[j] == FormatValidationError(fieldErrors[j])
      {
        messages := messages + [FormatValidationError(fieldErrors[i])];
      }
      assert messages == FormatAll(fieldErrors);
    }
    var details := JoinErrors(messages);
    d := ErrorDetail("VALIDATION_ERROR", "Validation failed", details);
  }

  // ------------------------------------------------- properties of the join

  /** No elements join to the empty text; one element joins to itself. */
  lemma JoinEmptyAndSingle(x: string)
    ensures Joined([], ErrorSeparator) == ""
    ensures Joined([x], ErrorSeparator) == x
  {
  }

  /** The length of the join is the total length of the elements plus two
      characters per separator, one separator fewer than elements. */
  lemma {:induction false} JoinLength(xs: seq<string>)
    requires |xs| >= 1
    ensures |Joined(xs, ErrorSeparator)| == TotalLength(xs) + 2 * (|xs| - 1)
  {
    if |xs| > 1 {
      JoinLength(xs[..|xs| - 1]);
    }
  }

  /** Joining two non-empty lists is joining each and putting exactly one
      separator between them: separators appear only between consecutive
      elements. */
  lemma {:induction false} JoinAppend(xs: seq<string>, ys: seq<string>)
    requires |xs| >= 1 && |ys| >= 1
    ensures Joined(xs + ys, ErrorSeparator)
         == Joined(xs, ErrorSeparator) + ErrorSeparator + Joined(ys, ErrorSeparator)
  {
    var zs := xs + ys;
    if |ys| == 1 {
      assert zs[..|zs| - 1] == xs;
    } else {
      var init := ys[..|ys| - 1];
      JoinAppend(xs, init);
      assert zs[..|zs| - 1] == xs + init;
    }
  }

  /** The join of a non-empty list starts with its first element and ends
      with its last: no leading or trailing separator. */
  lemma {:induction false} JoinBoundaries(xs: seq<string>)
    requires |xs| >= 1
    ensures |Joined(xs, ErrorSeparator)| >= |xs[0]| && |Joined(xs, ErrorSeparator)| >= |xs[|xs| - 1]|
    ensures Joined(xs, ErrorSeparator)[..|xs[0]|] == xs[0]
    ensures var j := Joined(xs, ErrorSeparator);
            j[|j| - |xs[|xs| - 1]|..] == xs[|xs| - 1]
  {
    if |xs| > 1 {
      var init := xs[..|xs| - 1];
      JoinBoundaries(init);
      var head := Joined(init, ErrorSeparator);
      var j := Joined(xs, ErrorSeparator);
      assert init[0] == xs[0];
      assert j == head + ErrorSeparator + xs[|xs| - 1];
      assert j[..|xs[0]|] == head[..|xs[0]|];
    }
  }
}
