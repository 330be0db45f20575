/**
  `GET /api/v1/alumni` (app/api/v1/alumni/route.ts) and `getAlumni`
  (services/alumni/get-alumni.ts): parse the query, read and parse the sheet, keep the records
  matching every filter case-insensitively, and answer one page of them; anything thrown on
  the way becomes an error reply.

  The handler as written reads `record.address` for the location filter, a field no parsed
  record has; `GetAsWritten` models that, `Get` models the evidently intended `domicile`.
*/
module AlumniRoute {
  import opened Results
  import opened Seqs
  import opened Text
  import opened Links
  import opened Sheet
  import opened Query
  import opened Responses

  /** What reading the sheet gives: its values (absent when the API returns none), or what the client threw. */
  datatype Fetch = Fetched(values: Option<seq<seq<string>>>) | FetchFailed(thrown: Thrown)

  /** The endpoint's answer: 200 with one page of records, or an error reply. */
  datatype Reply = Page(data: seq<Record>) | Failed(reply: ErrorReply)

  /** Which record field the location filter reads. */
  datatype LocationField = Domicile | Address

  /** The TypeError message of calling `toLowerCase` on `undefined`. */
  const UndefinedReadMessage := "Cannot read properties of undefined (reading 'toLowerCase')"

  /**
    `getAlumni()`: no values or an empty grid give no records; otherwise the grid is parsed and
    a failing row throws its zod error.
  */
  function GetAlumni(parse: string -> Option<ParsedUrl>, fetch: Fetch): (r: Result<seq<Record>, Thrown>)
    ensures fetch.FetchFailed? ==> r == Failure(fetch.thrown)
    ensures fetch.Fetched? && (fetch.values.None? || fetch.values.value == []) ==> r == Success([])
    ensures fetch.Fetched? && fetch.values.Some? ==>
              match ParseSheetData(parse, fetch.values.value)
              case Success(rs) => r == Success(rs)
              case Failure(issues) => r == Failure(ZodFailure(issues))
  {
    match fetch
    case FetchFailed(t) => Failure(t)
    case Fetched(None) => Success([])
    case Fetched(Some(values)) =>
      if values == [] then Success([])
      else
        match ParseSheetData(parse, values)
        case Success(rs) => Success(rs)
        case Failure(issues) => Failure(ZodFailure(issues))
  }

  /** `text.toLowerCase().includes(filter.toLowerCase())`. */
  predicate ContainsIgnoreCase(text: string, filter: string) {
    Includes(ToLower(text), ToLower(filter))
  }

  /** The name filter and the skills filter, which the handler tests first. */
  predicate PassesNameAndSkills(p: Params, r: Record) {
    && ContainsIgnoreCase(r.name, p.name)
    && exists s <- r.skills :: ContainsIgnoreCase(s, p.skills)
  }

  /** All four filters, reading the location from `domicile`. */
  predicate Matches(p: Params, r: Record) {
    && PassesNameAndSkills(p, r)
    && ContainsIgnoreCase(r.domicile, p.location)
    && ContainsIgnoreCase(r.company, p.company)
  }

  /**
    The filter callback for one record. The tests run left to right and stop at the first that
    fails; reading the location from `address` throws once the first two have passed.
  */
  function Keep(p: Params, r: Record, field: LocationField): (k: Result<bool, Thrown>)
    ensures field == Domicile ==> k == Success(Matches(p, r))
    ensures field == Address ==> (k.Failure? <==> PassesNameAndSkills(p, r))
    ensures field == Address && k.Success? ==> !k.value
  {
    if !PassesNameAndSkills(p, r) then Success(false)
    else
      match field
      case Address => Failure(ErrorInstance(UndefinedReadMessage))
      case Domicile => Success(ContainsIgnoreCase(r.domicile, p.location) && ContainsIgnoreCase(r.company, p.company))
  }

  /**
    `alumni.filter(callback)`: the records kept, in order, unless the callback throws. Every
    kept record is one the callback accepted; a throw comes from some record's callback.
  */
  function FilterRecords(p: Params, rs: seq<Record>, field: LocationField): (r: Result<seq<Record>, Thrown>)
    ensures r.Success? ==> |r.value| <= |rs| && forall x <- r.value :: x in rs && Keep(p, x, field) == Success(true)
    ensures r.Success? <==> forall x <- rs :: Keep(p, x, field).Success?
    ensures r.Failure? ==> exists x <- rs :: Keep(p, x, field) == Failure(r.error)
    decreases |rs|
  {
    if rs == [] then Success([])
    else
      assert forall x <- rs :: x == rs[0] || x in rs[1..];
      assert forall x <- rs[1..] :: x in rs;
      match Keep(p, rs[0], field)
      case Failure(t) => Failure(t)
      case Success(k) =>
        match FilterRecords(p, rs[1..], field)
        case Failure(t) => Failure(t)
        case Success(rest) => Success(if k then [rs[0]] + rest else rest)
  }

  /** Reading `domicile`, the filter never throws and keeps exactly the matching records, in order. */
  lemma {:induction false} FilterByDomicile(p: Params, rs: seq<Record>)
    ensures FilterRecords(p, rs, Domicile) == Success(Filter(r => Matches(p, r), rs))
    decreases |rs|
  {
    if rs != [] {
      FilterByDomicile(p, rs[1..]);
    }
  }

  /**
    Reading `address`, the filter throws as soon as one record passes the name and skills
    tests, and otherwise keeps nothing.
  */
  lemma {:induction false} FilterByAddress(p: Params, rs: seq<Record>)
    ensures FilterRecords(p, rs, Address).Failure? <==> exists r <- rs :: PassesNameAndSkills(p, r)
    ensures FilterRecords(p, rs, Address).Failure? ==>
              FilterRecords(p, rs, Address).error == ErrorInstance(UndefinedReadMessage)
    ensures FilterRecords(p, rs, Address).Success? ==> FilterRecords(p, rs, Address).value == []
    decreases |rs|
  {
    if rs != [] {
      FilterByAddress(p, rs[1..]);
      assert forall r <- rs :: r == rs[0] || r in rs[1..];
    }
  }

  /** An empty filter matches any text: `includes("")` is always true. */
  lemma EmptyFilterMatches(text: string)
    ensures ContainsIgnoreCase(text, "")
  {
    assert OccursAt(ToLower(""), ToLower(text), 0);
  }

  /** An index argument of `Array.prototype.slice`: negative counts from the end, then clamped to the length. */
  function SliceIndex(len: nat, k: int): (r: nat)
    ensures r <= len
    ensures 0 <= k <= len ==> r == k
    ensures k > len ==> r == len
    ensures -(len as int) <= k < 0 ==> r == len + k
    ensures k < -(len as int) ==> r == 0
  {
    if k < 0 then (if len + k < 0 then 0 else len + k) else if k < len then k else len
  }

  /**
    `s.slice(start, end)`: the elements from the resolved start up to the resolved end, none
    when the end does not lie after the start.
  */
  function Slice<T>(s: seq<T>, start: int, end: int): (r: seq<T>)
    ensures var from, to := SliceIndex(|s|, start), SliceIndex(|s|, end);
            && |r| == (if from < to then to - from else 0)
            && forall j :: 0 <= j < |r| ==> r[j] == s[from + j]
    ensures forall x <- r :: x in s
  {
    var from, to := SliceIndex(|s|, start), SliceIndex(|s|, end);
    if from < to then s[from..to] else []
  }

  /**
    `filtered.slice((page - 1) * pageSize, page * pageSize)`. For a page and size of at least 1,
    the records from position `(page - 1) * pageSize` on: `pageSize` of them, or as many as are
    left before the end, and none past the end.
  */
  function Paginate(rs: seq<Record>, page: int, pageSize: int): (r: seq<Record>)
    ensures page >= 1 && pageSize >= 1 ==> |r| <= pageSize
    ensures page >= 1 && pageSize >= 1 && (page - 1) * pageSize >= |rs| ==> r == []
    ensures page >= 1 && pageSize >= 1 && (page - 1) * pageSize < |rs| ==>
              |r| == if |rs| - (page - 1) * pageSize < pageSize then |rs| - (page - 1) * pageSize else pageSize
    ensures page >= 1 && pageSize >= 1 ==>
              forall j :: 0 <= j < |r| ==> (page - 1) * pageSize + j < |rs| && r[j] == rs[(page - 1) * pageSize + j]
  {
    assert page >= 1 && pageSize >= 1 ==> 0 <= (page - 1) * pageSize && page * pageSize == (page - 1) * pageSize + pageSize;
    Slice(rs, (page - 1) * pageSize, page * pageSize)
  }

  /** Record `i` of the filtered list is entry `i % pageSize` of page `i / pageSize + 1`. */
  lemma PageOfIndex(rs: seq<Record>, pageSize: int, i: int)
    requires pageSize >= 1 && 0 <= i < |rs|
    ensures var page := Paginate(rs, i / pageSize + 1, pageSize);
            i % pageSize < |page| && page[i % pageSize] == rs[i]
  {
    var q, m := i / pageSize, i % pageSize;
    DivideIndex(pageSize, i);
    var page := Paginate(rs, q + 1, pageSize);
    assert m < |page|;
    assert page[m] == rs[(q + 1 - 1) * pageSize + m];
  }

  /** Euclidean division of an index by a positive page size. */
  lemma DivideIndex(pageSize: int, i: int)
    requires pageSize >= 1 && 0 <= i
    ensures i / pageSize >= 0 && 0 <= i % pageSize < pageSize
    ensures (i / pageSize + 1 - 1) * pageSize + i % pageSize == i
  {
  }

  /**
    The handler once the query has been parsed and the sheet read. A bad query is a 400
    whatever the sheet holds; a failure while reading or parsing the sheet, or inside the
    filter, goes through `handleErrorResponse`; otherwise the reply is one page of the
    filtered records.
  */
  function Respond(query: Result<Params, seq<Issue>>, alumni: Result<seq<Record>, Thrown>, field: LocationField): (r: Reply)
    ensures query.Failure? ==> r == Failed(ErrorReply(400, ValidationPrefix + FormatIssues(query.error)))
    ensures query.Success? && alumni.Failure? ==> r == Failed(HandleError(alumni.error))
    ensures r.Page? ==> query.Success? && alumni.Success? && forall x <- r.data :: x in alumni.value
    ensures r.Page? && query.value.page >= 1 && query.value.pageSize >= 1 ==> |r.data| <= query.value.pageSize
    ensures r.Failed? && r.reply.status == 400 ==> query.Failure? || (alumni.Failure? && alumni.error.ZodFailure?)
  {
    match query
    case Failure(issues) => Failed(HandleError(ZodFailure(issues)))
    case Success(p) =>
      match alumni
      case Failure(t) => Failed(HandleError(t))
      case Success(rs) =>
        match FilterRecords(p, rs, field)
        case Failure(t) => Failed(HandleError(t))
        case Success(kept) => Page(Paginate(kept, p.page, p.pageSize))
  }

  /** The handler: the query is parsed first, and the sheet is only read for a valid query. */
  function HandleGet(q: RawQuery, toNumber: string -> JsNumber, parse: string -> Option<ParsedUrl>, fetch: Fetch, field: LocationField): (r: Reply)
    ensures ParseQuery(q, toNumber).Failure? ==> r.Failed? && r.reply.status == 400
    ensures ParseQuery(q, toNumber).Success? && fetch.FetchFailed? ==> r == Failed(HandleError(fetch.thrown))
    ensures r.Page? ==> ParseQuery(q, toNumber).Success? && |r.data| <= ParseQuery(q, toNumber).value.pageSize <= 100
  {
    Respond(ParseQuery(q, toNumber), GetAlumni(parse, fetch), field)
  }

  /**
    With the location read from `domicile`: a 400 naming every query issue for a bad query,
    whatever the sheet; the sheet's failure, through `handleErrorResponse`; otherwise the
    requested page of the matching records, in sheet order, never more than the page size.
  */
  lemma RespondByDomicile(query: Result<Params, seq<Issue>>, alumni: Result<seq<Record>, Thrown>)
    ensures query.Failure? ==> Respond(query, alumni, Domicile) == Failed(ErrorReply(400, ValidationPrefix + FormatIssues(query.error)))
    ensures query.Success? && alumni.Failure? ==> Respond(query, alumni, Domicile) == Failed(HandleError(alumni.error))
    ensures query.Success? && alumni.Success? ==>
              var p := query.value;
              Respond(query, alumni, Domicile) == Page(Paginate(Filter(x => Matches(p, x), alumni.value), p.page, p.pageSize))
  {
    if query.Success? && alumni.Success? {
      FilterByDomicile(query.value, alumni.value);
    }
  }

  /**
    With the location read from `address`: a valid query against records one of which passes
    the name and skills filters answers 500 with the TypeError's message; with no such record
    it answers an empty page.
  */
  lemma RespondByAddress(p: Params, rs: seq<Record>)
    ensures (exists r <- rs :: PassesNameAndSkills(p, r)) ==>
              Respond(Success(p), Success(rs), Address) == Failed(ErrorReply(500, UndefinedReadMessage))
    ensures (forall r <- rs :: !PassesNameAndSkills(p, r)) ==> Respond(Success(p), Success(rs), Address) == Page([])
  {
    FilterByAddress(p, rs);
  }

  /** The handler with the location filter on `domicile`: every record it answers matches all four filters. */
  function Get(q: RawQuery, toNumber: string -> JsNumber, parse: string -> Option<ParsedUrl>, fetch: Fetch): (r: Reply)
    ensures r.Page? ==> ParseQuery(q, toNumber).Success? && forall x <- r.data :: Matches(ParseQuery(q, toNumber).value, x)
  {
    var query, alumni := ParseQuery(q, toNumber), GetAlumni(parse, fetch);
    assert query.Success? && alumni.Success? ==> Respond(query, alumni, Domicile).Page? by {
      if query.Success? && alumni.Success? {
        FilterByDomicile(query.value, alumni.value);
      }
    }
    assert Respond(query, alumni, Domicile).Page? ==> forall x <- Respond(query, alumni, Domicile).data :: Matches(query.value, x) by {
      if query.Success? && alumni.Success? {
        FilterByDomicile(query.value, alumni.value);
      }
    }
    HandleGet(q, toNumber, parse, fetch, Domicile)
  }

  /**
    The handler as written, with the location filter on the missing `address` field: it never
    answers a record, only an empty page or an error.
  */
  function GetAsWritten(q: RawQuery, toNumber: string -> JsNumber, parse: string -> Option<ParsedUrl>, fetch: Fetch): (r: Reply)
    ensures r.Page? ==> r.data == []
  {
    var query, alumni := ParseQuery(q, toNumber), GetAlumni(parse, fetch);
    assert Respond(query, alumni, Address).Page? ==> Respond(query, alumni, Address).data == [] by {
      if query.Success? && alumni.Success? {
        FilterByAddress(query.value, alumni.value);
      }
    }
    HandleGet(q, toNumber, parse, fetch, Address)
  }

  /**
    As written, the default query (no name or skills filter) against any sheet with a parsed
    record answers 500: every record passes the first two tests because its skills list is
    never empty.
  */
  lemma AsWrittenDefaultQueryFails(q: RawQuery, toNumber: string -> JsNumber, parse: string -> Option<ParsedUrl>, values: seq<seq<string>>)
    requires q.name.None? && q.skills.None?
    requires ParseQuery(q, toNumber).Success?
    requires ParseSheetData(parse, values).Success? && ParseSheetData(parse, values).value != []
    ensures GetAsWritten(q, toNumber, parse, Fetched(Some(values))) == Failed(ErrorReply(500, UndefinedReadMessage))
  {
    var p := ParseQuery(q, toNumber).value;
    var rs := ParseSheetData(parse, values).value;
    assert values != [];
    assert GetAlumni(parse, Fetched(Some(values))) == Success(rs);
    SheetRecordsHaveSkills(parse, values);
    var r := rs[0];
    EmptyFilterMatches(r.name);
    EmptyFilterMatches(r.skills[0]);
    assert r.skills[0] in r.skills;
    assert PassesNameAndSkills(p, r);
    RespondByAddress(p, rs);
  }

  /** With the location read from `domicile`, the default query against a valid sheet answers its first ten records. */
  lemma DefaultQueryFirstPage(toNumber: string -> JsNumber, parse: string -> Option<ParsedUrl>, values: seq<seq<string>>)
    requires ParseSheetData(parse, values).Success?
    ensures var rs := ParseSheetData(parse, values).value;
            Get(RawQuery(None, None, None, None, None, None), toNumber, parse, Fetched(Some(values)))
              == Page(rs[..if |rs| < 10 then |rs| else 10])
  {
    var rs := ParseSheetData(parse, values).value;
    var p := Params(1, 10, "", "", "", "");
    EmptyQueryDefaults(toNumber);
    assert GetAlumni(parse, Fetched(Some(values))) == Success(rs);
    SheetRecordsHaveSkills(parse, values);
    forall r <- rs ensures Matches(p, r) {
      EmptyFilterMatches(r.name);
      EmptyFilterMatches(r.skills[0]);
      assert r.skills[0] in r.skills;
      EmptyFilterMatches(r.domicile);
      EmptyFilterMatches(r.company);
    }
    FilterKeepsAll(x => Matches(p, x), rs);
    RespondByDomicile(Success(p), Success(rs));
  }

  /** Filtering with a predicate every element satisfies changes nothing. */
  lemma {:induction false} FilterKeepsAll<T>(keep: T -> bool, s: seq<T>)
    requires forall x <- s :: keep(x)
    ensures Filter(keep, s) == s
    decreases |s|
  {
    if s != [] {
      assert forall x <- s[1..] :: x in s;
      FilterKeepsAll(keep, s[1..]);
    }
  }
}
