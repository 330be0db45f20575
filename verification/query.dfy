/**
  `getAlumniSchemaParams` (services/alumni/alumni-schema.ts): the query string of the alumni
  endpoint. `page` and `pageSize` are coerced to numbers and checked; the four filters are
  optional strings defaulting to the empty string; unknown parameters are dropped.
*/
module Query {
  import opened Results

  /** A JavaScript number as `Number(text)` produces it. */
  datatype JsNumber = NaN | Finite(value: real) | Infinity(positive: bool)

  /** The query parameters, each absent or its (last) string value. */
  datatype RawQuery = RawQuery(
    page: Option<string>,
    pageSize: Option<string>,
    name: Option<string>,
    skills: Option<string>,
    location: Option<string>,
    company: Option<string>)

  /** The parsed parameters. */
  datatype Params = Params(page: int, pageSize: int, name: string, skills: string, location: string, company: string)

  /** The checks chained on one coerced number: `.int(...)`, `.min(...)` and an optional `.max(...)`. */
  datatype Bounds = Bounds(intMessage: string, min: int, minMessage: string, max: Option<int>, maxMessage: string)

  const PageBounds := Bounds("Page must be an integer", 1, "Page must be at least 1", None, "")
  const PageSizeBounds := Bounds("PageSize must be an integer", 1, "PageSize must be at least 1", Some(100), "PageSize cannot exceed 100")
  const DefaultPage := 1
  const DefaultPageSize := 10

  /** zod's message when coercion yields `NaN`. */
  const NaNMessage := "Expected number, received nan"

  /** `Number.isInteger(n)`. */
  predicate IsInteger(n: JsNumber) {
    n.Finite? && n.value == n.value.Floor as real
  }

  /** `n < min`. */
  predicate Below(n: JsNumber, min: int) {
    match n
    case Finite(x) => x < min as real
    case Infinity(positive) => !positive
    case NaN => false
  }

  /** `n > max`, when there is a maximum. */
  predicate Above(n: JsNumber, max: Option<int>) {
    max.Some? &&
    match n
    case Finite(x) => x > max.value as real
    case Infinity(positive) => positive
    case NaN => false
  }

  /**
    The issues of one coerced number field: a `NaN` stops at the type issue; otherwise every
    failing check adds its own issue, in chain order.
  */
  function NumberIssues(key: string, n: JsNumber, b: Bounds): (issues: seq<Issue>)
    ensures issues == [] <==> Acceptable(n, b)
    ensures forall i <- issues :: i.path == [key]
    ensures n.NaN? ==> issues == [Issue([key], NaNMessage)]
    ensures |issues| <= 3
  {
    if n.NaN? then [Issue([key], NaNMessage)]
    else
      (if !IsInteger(n) then [Issue([key], b.intMessage)] else [])
      + (if Below(n, b.min) then [Issue([key], b.minMessage)] else [])
      + (if Above(n, b.max) then [Issue([key], b.maxMessage)] else [])
  }

  /** The value is a whole number within the bounds. */
  predicate Acceptable(n: JsNumber, b: Bounds) {
    n.Finite? && n.value == n.value.Floor as real && n.value >= b.min as real
    && (b.max.Some? ==> n.value <= b.max.value as real)
  }

  /**
    Issue by issue: each check's issue appears exactly when that check fails, every issue
    names the field, and there are none exactly when the value is acceptable.
  */
  lemma NumberIssuesSpec(key: string, n: JsNumber, b: Bounds)
    requires b.intMessage != b.minMessage && b.intMessage != b.maxMessage && b.minMessage != b.maxMessage
    requires NaNMessage !in {b.intMessage, b.minMessage, b.maxMessage}
    ensures var issues := NumberIssues(key, n, b);
            && (issues == [] <==> Acceptable(n, b))
            && (forall i <- issues :: i.path == [key])
            && (Issue([key], NaNMessage) in issues <==> n.NaN?)
            && (Issue([key], b.intMessage) in issues <==> !n.NaN? && !IsInteger(n))
            && (Issue([key], b.minMessage) in issues <==> Below(n, b.min))
            && (Issue([key], b.maxMessage) in issues <==> Above(n, b.max))
  {
  }

  /**
    One coerced number field with `.optional().default(d)`: absent gives the default; present
    text is coerced with `toNumber` and checked.
  */
  function NumberField(key: string, raw: Option<string>, toNumber: string -> JsNumber, default: int, b: Bounds): (r: Result<int, seq<Issue>>)
    ensures raw.None? ==> r == Success(default)
    ensures raw.Some? ==> (r.Success? <==> Acceptable(toNumber(raw.value), b))
    ensures raw.Some? && r.Success? ==> toNumber(raw.value) == Finite(r.value as real)
    ensures r.Failure? ==> raw.Some? && r.error == NumberIssues(key, toNumber(raw.value), b) != []
  {
    match raw
    case None => Success(default)
    case Some(text) =>
      var n := toNumber(text);
      var issues := NumberIssues(key, n, b);
      if issues == [] then Success(n.value.Floor) else Failure(issues)
  }

  /** The issues of a field result, none for a success. */
  function IssuesOf<T>(r: Result<T, seq<Issue>>): seq<Issue> {
    if r.Failure? then r.error else []
  }

  /** `.optional().default("")` on a string parameter. */
  function OrEmpty(s: Option<string>): string {
    if s.Some? then s.value else ""
  }

  /**
    `getAlumniSchemaParams.parse(query)`: the parameters when both numbers are acceptable,
    otherwise the issues of `page` followed by those of `pageSize`.
  */
  function ParseQuery(q: RawQuery, toNumber: string -> JsNumber): (r: Result<Params, seq<Issue>>)
    ensures r.Success? <==>
              && (q.page.None? || Acceptable(toNumber(q.page.value), PageBounds))
              && (q.pageSize.None? || Acceptable(toNumber(q.pageSize.value), PageSizeBounds))
    ensures r.Success? ==> 1 <= r.value.page && 1 <= r.value.pageSize <= 100
    ensures r.Success? ==> (q.page.None? ==> r.value.page == DefaultPage)
                           && (q.pageSize.None? ==> r.value.pageSize == DefaultPageSize)
                           && (q.page.Some? ==> toNumber(q.page.value) == Finite(r.value.page as real))
                           && (q.pageSize.Some? ==> toNumber(q.pageSize.value) == Finite(r.value.pageSize as real))
    ensures r.Success? ==> r.value.name == OrEmpty(q.name) && r.value.skills == OrEmpty(q.skills)
                           && r.value.location == OrEmpty(q.location) && r.value.company == OrEmpty(q.company)
    ensures r.Failure? ==> r.error != [] && forall i <- r.error :: i.path == ["page"] || i.path == ["pageSize"]
  {
    var page := NumberField("page", q.page, toNumber, DefaultPage, PageBounds);
    var pageSize := NumberField("pageSize", q.pageSize, toNumber, DefaultPageSize, PageSizeBounds);
    if page.Success? && pageSize.Success? then
      Success(Params(page.value, pageSize.value, OrEmpty(q.name), OrEmpty(q.skills), OrEmpty(q.location), OrEmpty(q.company)))
    else
      assert forall i <- IssuesOf(page) :: i.path == ["page"] by {
        if page.Failure? { NumberIssuesSpec("page", toNumber(q.page.value), PageBounds); }
      }
      assert forall i <- IssuesOf(pageSize) :: i.path == ["pageSize"] by {
        if pageSize.Failure? { NumberIssuesSpec("pageSize", toNumber(q.pageSize.value), PageSizeBounds); }
      }
      Failure(IssuesOf(page) + IssuesOf(pageSize))
  }

  /** With no parameters at all: page 1 of size 10, no filters. */
  lemma EmptyQueryDefaults(toNumber: string -> JsNumber)
    ensures ParseQuery(RawQuery(None, None, None, None, None, None), toNumber) == Success(Params(1, 10, "", "", "", ""))
  {
  }

  /** `page=0.5` fails both the integer and the minimum check, in that order. */
  lemma HalfPageTwoIssues(toNumber: string -> JsNumber, text: string)
    requires toNumber(text) == Finite(0.5)
    ensures ParseQuery(RawQuery(Some(text), None, None, None, None, None), toNumber)
         == Failure([Issue(["page"], "Page must be an integer"), Issue(["page"], "Page must be at least 1")])
  {
    var n := Finite(0.5);
    assert (0.5).Floor == 0;
    assert !IsInteger(n) && Below(n, 1) && !Above(n, None);
    assert NumberIssues("page", n, PageBounds)
        == [Issue(["page"], "Page must be an integer"), Issue(["page"], "Page must be at least 1")];
    var page := NumberField("page", Some(text), toNumber, DefaultPage, PageBounds);
    assert page == Failure(NumberIssues("page", n, PageBounds));
    assert IssuesOf(page) + IssuesOf(NumberField("pageSize", None, toNumber, DefaultPageSize, PageSizeBounds))
        == NumberIssues("page", n, PageBounds);
  }
}
