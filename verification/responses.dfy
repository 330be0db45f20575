/**
  `handleErrorResponse` (lib/response.ts): what the API answers when a handler throws. A zod
  validation error becomes a 400 whose message lists every issue; anything else is a 500
  carrying the error's message, the thrown string, or a generic sentence.
*/
module Responses {
  import opened Results
  import opened Text

  /** What a handler can throw. */
  datatype Thrown =
    | ZodFailure(issues: seq<Issue>)   // a `ZodError`
    | ErrorInstance(message: string)   // any other `Error`
    | StringThrown(text: string)       // a thrown string
    | OtherThrown                      // anything else

  /** An error response: its status and the body's `error` field. */
  datatype ErrorReply = ErrorReply(status: int, error: string)

  const ValidationPrefix := "Invalid request parameters: "
  const GenericMessage := "An unexpected internal server error occurred."

  /**
    `${e.path.join(".")}: ${e.message}`: the dotted path, a colon, and the message; a top-level
    field's issue reads `field: message`.
  */
  function FormatIssue(i: Issue): (s: string)
    ensures |i.path| == 1 ==> s == i.path[0] + ": " + i.message
    ensures |s| >= |i.message| + 2 && s[|s| - |i.message| - 2..] == ": " + i.message
    ensures |s| >= |i.message| + 2 && s[..|s| - |i.message| - 2] == Join(i.path, ".")
  {
    Join(i.path, ".") + ": " + i.message
  }

  /** Every issue formatted, joined with ", ". */
  function FormatIssues(issues: seq<Issue>): (s: string)
    ensures issues == [] <==> s == []
    decreases |issues|
  {
    if issues == [] then ""
    else if |issues| == 1 then FormatIssue(issues[0])
    else FormatIssue(issues[0]) + ", " + FormatIssues(issues[1..])
  }

  /**
    `handleErrorResponse(error)`: 400 exactly for a validation error, with the prefix followed by
    the formatted issues; otherwise 500 with the error's own message, the thrown string, or the
    generic sentence.
  */
  function HandleError(t: Thrown): (r: ErrorReply)
    ensures r.status == 400 <==> t.ZodFailure?
    ensures r.status == 500 <==> !t.ZodFailure?
    ensures t.ZodFailure? ==> r.error == ValidationPrefix + FormatIssues(t.issues)
    ensures t.ErrorInstance? ==> r.error == t.message
    ensures t.StringThrown? ==> r.error == t.text
    ensures t.OtherThrown? ==> r.error == GenericMessage
  {
    match t
    case ZodFailure(issues) => ErrorReply(400, ValidationPrefix + FormatIssues(issues))
    case ErrorInstance(message) => ErrorReply(500, message)
    case StringThrown(text) => ErrorReply(500, text)
    case OtherThrown => ErrorReply(500, GenericMessage)
  }

  /** Formatting a concatenation joins the two formatted parts with ", ". */
  lemma {:induction false} FormatIssuesAppend(a: seq<Issue>, b: seq<Issue>)
    requires a != [] && b != []
    ensures FormatIssues(a + b) == FormatIssues(a) + ", " + FormatIssues(b)
    decreases |a|
  {
    if |a| == 1 {
      assert (a + b)[1..] == b;
    } else {
      assert (a + b)[1..] == a[1..] + b;
      FormatIssuesAppend(a[1..], b);
    }
  }

  /** Every issue's formatted text occurs in the formatted list. */
  lemma {:induction false} IssueMentioned(issues: seq<Issue>, i: Issue)
    requires i in issues
    ensures Includes(FormatIssues(issues), FormatIssue(i))
    decreases |issues|
  {
    var s := FormatIssues(issues);
    if issues[0] == i {
      if |issues| == 1 {
        assert OccursAt(FormatIssue(i), s, 0);
      } else {
        assert s == FormatIssue(i) + (", " + FormatIssues(issues[1..]));
        assert s[..|FormatIssue(i)|] == FormatIssue(i);
        assert OccursAt(FormatIssue(i), s, 0);
      }
    } else {
      IssueMentioned(issues[1..], i);
      var rest := FormatIssues(issues[1..]);
      var k :| OccursAt(FormatIssue(i), rest, k);
      var head := FormatIssue(issues[0]) + ", ";
      assert s == head + rest;
      assert s[|head| + k..|head| + k + |FormatIssue(i)|] == rest[k..k + |FormatIssue(i)|];
      assert OccursAt(FormatIssue(i), s, |head| + k);
    }
  }

  /** A single missing field reads "Invalid request parameters: <field>: Required". */
  lemma MissingFieldMessage(field: string)
    ensures HandleError(ZodFailure([Issue([field], "Required")])).error
         == "Invalid request parameters: " + field + ": Required"
  {
    assert Join([field], ".") == field;
  }

  /** A validation reply names every issue: each one's formatted text occurs in its message. */
  lemma ValidationReplyMentions(issues: seq<Issue>, i: Issue)
    requires i in issues
    ensures HandleError(ZodFailure(issues)).status == 400
    ensures Includes(HandleError(ZodFailure(issues)).error, FormatIssue(i))
  {
    var body := FormatIssues(issues);
    var msg := ValidationPrefix + body;
    var f := FormatIssue(i);
    IssueMentioned(issues, i);
    var k :| OccursAt(f, body, k);
    assert msg[|ValidationPrefix| + k..|ValidationPrefix| + k + |f|] == body[k..k + |f|];
    assert OccursAt(f, msg, |ValidationPrefix| + k);
  }
}
