/**
 The JSON body every handler answers with: `{status, error}`, and the
 builders `OK`, `Error` and `ValidationError`.
 */
module ApiResponse {
  import opened Options

  const StatusOk := "OK"
  const StatusError := "Error"

  /** `Response{Status, Error}`; an empty `error` is omitted from the JSON. */
  datatype Response = Response(status: string, error: string)

  /** What every builder guarantees: the status is one of the two
      constants, and a success never carries an error text. */
  predicate WellFormed(r: Response) {
    && (r.status == StatusOk || r.status == StatusError)
    && (r.status == StatusOk ==> r.error == "")
  }

  predicate IsSuccess(r: Response) {
    r.status == StatusOk
  }

  function OK(): (r: Response)
    ensures WellFormed(r) && IsSuccess(r)
    ensures r.error == ""
  {
    Response(StatusOk, "")
  }

  function Error(msg: string): (r: Response)
    ensures WellFormed(r) && !IsSuccess(r)
    ensures r.error == msg
  {
    Response(StatusError, msg)
  }

  // ---------------------------------------------------------------------
  // Validation messages

  /** One failed rule of the validator: the rule's tag and the struct
      field it failed on. */
  datatype FieldError = FieldError(tag: string, field: string)

  /** The three messages `ValidationError` can produce for a field. */
  datatype Rule = Required | Url | Other

  function RuleOf(tag: string): Rule {
    if tag == "required" then Required
    else if tag == "url" then Url
    else Other
  }

  const Prefix := "field "

  function Suffix(rule: Rule): string {
    match rule
    case Required => " is a required field"
    case Url => " is not a valid URL"
    case Other => " is not valid"
  }

  /** The message for one failed rule, chosen by the rule's tag. */
  function FieldMessage(e: FieldError): (m: string)
    ensures e.tag == "required" ==> m == "field " + e.field + " is a required field"
    ensures e.tag == "url" ==> m == "field " + e.field + " is not a valid URL"
    ensures e.tag != "required" && e.tag != "url" ==> m == "field " + e.field + " is not valid"
  {
    Prefix + e.field + Suffix(RuleOf(e.tag))
  }

  /** Reads a message back into the rule and the field it names: the
      inverse of `FieldMessage`. */
  function ParseMessage(m: string): (r: Option<(Rule, string)>)
    ensures r.Some? ==> FieldMessage(FieldError(TagOf(r.value.0), r.value.1)) == m
  {
    if |m| < |Prefix| || m[..|Prefix|] != Prefix then None
    else if EndsWith(m, Suffix(Required)) && |m| >= |Prefix| + |Suffix(Required)| then
      Some((Required, m[|Prefix|..|m| - |Suffix(Required)|]))
    else if EndsWith(m, Suffix(Url)) && |m| >= |Prefix| + |Suffix(Url)| then
      Some((Url, m[|Prefix|..|m| - |Suffix(Url)|]))
    else if EndsWith(m, Suffix(Other)) && |m| >= |Prefix| + |Suffix(Other)| then
      Some((Other, m[|Prefix|..|m| - |Suffix(Other)|]))
    else None
  }

  /** A tag that selects the given rule. */
  function TagOf(rule: Rule): (tag: string)
    ensures RuleOf(tag) == rule
  {
    match rule
    case Required => "required"
    case Url => "url"
    case Other => ""
  }

  predicate EndsWith(m: string, s: string) {
    |s| <= |m| && m[|m| - |s|..] == s
  }

  /** Every message names its field and its rule unambiguously: parsing
      it gives both back. */
  lemma ParseFieldMessage(e: FieldError)
    ensures ParseMessage(FieldMessage(e)) == Some((RuleOf(e.tag), e.field))
  {
    var rule := RuleOf(e.tag);
    var s := Suffix(rule);
    var m := Prefix + e.field + s;
    var n := |m|;
    assert m[..|Prefix|] == Prefix;
    assert m[n - |s|..] == s;
    assert m[|Prefix|..n - |s|] == e.field;
    // The suffixes end in "ld", "RL" and "id": none ends another.
    assert m[n - 1] == s[|s| - 1] && m[n - 2] == s[|s| - 2];
    assert EndsWith(m, Suffix(Required)) ==> m[n - 2] == 'l';
    assert EndsWith(m, Suffix(Url)) ==> m[n - 1] == 'L';
  }

  // ---------------------------------------------------------------------
  // strings.Join

  /** `strings.Join(ms, sep)`: no pieces give the empty string; otherwise
      the result is as long as the pieces plus one separator between each
      neighbouring pair, and it ends with the last piece. */
  function Join(ms: seq<string>, sep: string): (r: string)
    ensures |ms| == 0 ==> r == ""
    ensures |ms| > 0 ==> |r| + |sep| == Offset(ms, sep, |ms|)
    ensures |ms| > 0 ==> EndsWith(r, ms[|ms| - 1])
  {
    if |ms| == 0 then ""
    else if |ms| == 1 then ms[0]
    else
      var n := |ms|;
      OffsetOfPrefix(ms, sep, n - 1, n - 1);
      Join(ms[..n - 1], sep) + sep + ms[n - 1]
  }

  /** Where the i-th piece starts in the joined string. */
  function Offset(ms: seq<string>, sep: string, i: nat): nat
    requires i <= |ms|
  {
    if i == 0 then 0 else Offset(ms, sep, i - 1) + |ms[i - 1]| + |sep|
  }

  lemma {:induction false} OffsetOfPrefix(ms: seq<string>, sep: string, k: nat, i: nat)
    requires i <= k <= |ms|
    ensures Offset(ms[..k], sep, i) == Offset(ms, sep, i)
  {
    if i > 0 {
      OffsetOfPrefix(ms, sep, k, i - 1);
      assert ms[..k][i - 1] == ms[i - 1];
    }
  }

  /** The i-th piece sits at its offset in the joined string. */
  lemma {:induction false} JoinPiece(ms: seq<string>, sep: string, i: nat)
    requires i < |ms|
    ensures Offset(ms, sep, i) + |ms[i]| <= |Join(ms, sep)|
    ensures Join(ms, sep)[Offset(ms, sep, i)..Offset(ms, sep, i) + |ms[i]|] == ms[i]
  {
    var n := |ms|;
    if n > 1 {
      var init := ms[..n - 1];
      var ji := Join(init, sep);
      var j := Join(ms, sep);
      assert j == ji + sep + ms[n - 1];
      OffsetOfPrefix(ms, sep, n - 1, i);
      if i < n - 1 {
        JoinPiece(init, sep, i);
        assert init[i] == ms[i];
        assert j[Offset(ms, sep, i)..Offset(ms, sep, i) + |ms[i]|]
            == ji[Offset(init, sep, i)..Offset(init, sep, i) + |init[i]|];
      } else {
        OffsetOfPrefix(ms, sep, n - 1, n - 1);
      }
    }
  }

  /** Between the i-th and the next piece there is exactly one separator. */
  lemma {:induction false} JoinSeparator(ms: seq<string>, sep: string, i: nat)
    requires i + 1 < |ms|
    ensures Offset(ms, sep, i + 1) <= |Join(ms, sep)|
    ensures Join(ms, sep)[Offset(ms, sep, i) + |ms[i]|..Offset(ms, sep, i + 1)] == sep
  {
    var n := |ms|;
    var init := ms[..n - 1];
    var ji := Join(init, sep);
    var j := Join(ms, sep);
    assert j == ji + sep + ms[n - 1];
    OffsetOfPrefix(ms, sep, n - 1, i);
    OffsetOfPrefix(ms, sep, n - 1, i + 1);
    assert init[i] == ms[i];
    if i + 1 < n - 1 {
      JoinSeparator(init, sep, i);
      assert j[Offset(ms, sep, i) + |ms[i]|..Offset(ms, sep, i + 1)]
          == ji[Offset(init, sep, i) + |init[i]|..Offset(init, sep, i + 1)];
    }
  }

  // ---------------------------------------------------------------------
  // ValidationError

  /** One message per failed rule, in the validator's order. */
  function Messages(errs: seq<FieldError>): (ms: seq<string>)
    ensures |ms| == |errs|
    ensures forall i :: 0 <= i < |errs| ==> ms[i] == FieldMessage(errs[i])
  {
    seq(|errs|, i requires 0 <= i < |errs| => FieldMessage(errs[i]))
  }

  /** `ValidationError(errs)`: always an error response; its text is empty
      exactly when there were no failed rules. */
  function ValidationError(errs: seq<FieldError>): (r: Response)
    ensures WellFormed(r) && !IsSuccess(r)
    ensures r.error == "" <==> |errs| == 0
  {
    var ms := Messages(errs);
    Response(StatusError, Join(ms, ", "))
  }

  /** The i-th failed rule's message sits at the i-th offset of the
      `ValidationError` text, and a ", " follows it unless it is the last;
      with the length below this leaves room for nothing else. */
  lemma ValidationErrorLists(errs: seq<FieldError>, i: nat)
    requires i < |errs|
    ensures var text := ValidationError(errs).error;
            var ms := Messages(errs);
            && |text| + 2 == Offset(ms, ", ", |errs|)
            && Offset(ms, ", ", i) + |ms[i]| <= |text|
            && text[Offset(ms, ", ", i)..Offset(ms, ", ", i) + |ms[i]|] == FieldMessage(errs[i])
            && (i + 1 < |errs| ==> Offset(ms, ", ", i + 1) <= |text|)
            && (i + 1 < |errs| ==> text[Offset(ms, ", ", i) + |ms[i]|..Offset(ms, ", ", i + 1)] == ", ")
  {
    var ms := Messages(errs);
    JoinPiece(ms, ", ", i);
    if i + 1 < |errs| {
      JoinSeparator(ms, ", ", i);
    }
  }
}
