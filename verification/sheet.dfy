/**
  `parseSheetData` (services/alumni/alumni-schema.ts): turns the spreadsheet grid, a header
  row followed by data rows, into alumni records. Each data row is first assembled into a
  loose map keyed by normalised header (phase one), then checked against the seven-field
  `alumniSheetSchema` (phase two); one row that fails the check fails the whole grid.
*/
module Sheet {
  import opened Results
  import opened Text
  import opened Links
  import CamelCase

  /** A value of the loose row object: a raw cell string, or the split list of the `skills` column. */
  datatype Cell = Plain(text: string) | List(items: seq<string>)

  /** The row object before validation: header-keyed cells, plus the collected link entries. */
  datatype LooseRow = LooseRow(fields: map<string, Cell>, links: seq<LinkEntry>)

  /** A validated alumni record: exactly the fields of `alumniSheetSchema`. */
  datatype Record = Record(
    name: string,
    email: string,
    domicile: string,
    currentJob: string,
    company: string,
    skills: seq<string>,
    links: seq<LinkEntry>)

  /** `EXCLUDED_FIELD`: columns dropped from every row. */
  const ExcludedFields: seq<string> := ["phoneNumber", "timestamp", "dateOfBirth", "address"]

  /** The string-valued fields of `alumniSheetSchema`, in schema order. */
  const StringFields: seq<string> := ["name", "email", "domicile", "currentJob", "company"]

  /** The record key of a header. */
  function Key(header: string): string {
    CamelCase.ToCamelCase(header)
  }

  /** `row[index] || ""`: a cell past the end of a short row reads as the empty string. */
  function CellAt(row: seq<string>, i: nat): (v: string)
    ensures i < |row| ==> v == row[i]
    ensures i >= |row| ==> v == ""
  {
    if i < |row| then row[i] else ""
  }

  /** `value.split(",").map((item) => item.trim())`: empty pieces are kept. */
  function SplitSkills(v: string): (skills: seq<string>)
    ensures |skills| == |Split(v, ',')| >= 1
    ensures forall i :: 0 <= i < |skills| ==> skills[i] == Trim(Split(v, ',')[i]) && IsTrimmed(skills[i])
  {
    TrimEach(Split(v, ','))
  }

  /** Splitting the comma-join of trimmed, comma-free skills gives the skills back. */
  lemma SplitSkillsJoin(skills: seq<string>)
    requires |skills| >= 1
    requires forall s <- skills :: ',' !in s && IsTrimmed(s)
    ensures SplitSkills(Join(skills, ",")) == skills
  {
    assert [','] == ",";
    SplitJoin(skills, ',');
    forall i | 0 <= i < |skills| ensures Trim(skills[i]) == skills[i] {
      assert skills[i] in skills;
      TrimTrimmed(skills[i]);
    }
  }

  /** Position `i` holds the last occurrence of `k` among the first `n` keys. */
  ghost predicate LastOccurrence(keys: seq<string>, n: nat, i: nat, k: string) {
    && i < n <= |keys|
    && keys[i] == k
    && forall j :: i < j < n ==> keys[j] != k
  }

  /** A key that occurs among the first `n` has a last occurrence there. */
  lemma {:induction false} LastOccurrenceExists(keys: seq<string>, n: nat, k: string)
    requires n <= |keys|
    requires exists i :: 0 <= i < n && keys[i] == k
    ensures exists i :: LastOccurrence(keys, n, i, k)
    decreases n
  {
    if keys[n - 1] == k {
      assert LastOccurrence(keys, n, n - 1, k);
    } else {
      var i :| 0 <= i < n && keys[i] == k;
      LastOccurrenceExists(keys, n - 1, k);
      var j :| LastOccurrence(keys, n - 1, j, k);
      assert LastOccurrence(keys, n, j, k);
    }
  }

  /** Column `i` is the last column whose header normalises to `k`. */
  ghost predicate LastColumn(headers: seq<string>, i: nat, k: string) {
    LastOccurrence(Keys(headers), |headers|, i, k)
  }

  /** Column `i` is a link column of kind `kind` whose cell in `row` is non-empty. */
  ghost predicate LinkColumn(headers: seq<string>, row: seq<string>, i: nat, kind: Link) {
    i < |headers| && LinkOfKey(Keys(headers)[i]) == Some(kind) && CellAt(row, i) != ""
  }

  /** The three kinds of special key are disjoint: `skills`, the link names and the excluded fields. */
  lemma RoutingKeysDisjoint()
    ensures "skills" !in ExcludedFields && LinkOfKey("skills").None?
    ensures forall k :: LinkOfKey(k).Some? ==> k !in ExcludedFields
  {
    forall k | LinkOfKey(k).Some? ensures k !in ExcludedFields {
      assert k == Name(LinkOfKey(k).value);
    }
  }

  /** Where the cell of one column goes. */
  datatype Route =
    | ToSkills(items: seq<string>)       // the `skills` column, split and trimmed
    | ToLinks(entry: Option<LinkEntry>)  // a non-empty link cell; no entry when it does not validate
    | Dropped                            // an excluded column
    | ToField(text: string)              // any other column, the raw cell under its key

  /**
    The branch one step of `headers.forEach` takes for a column with key `key` and cell
    `value`: `skills` is split; a link name with a non-empty cell becomes a link entry of that
    kind; an excluded key is dropped; anything else, including a link name with an empty
    cell, is kept raw.
  */
  function RouteOf(parse: string -> Option<ParsedUrl>, key: string, value: string): (r: Route)
    ensures r.ToSkills? <==> key == "skills"
    ensures r.ToSkills? ==> r.items == SplitSkills(value)
    ensures r.ToLinks? <==> LinkOfKey(key).Some? && value != ""
    ensures r.ToLinks? ==> r.entry == ColumnLink(parse, LinkOfKey(key).value, value)
    ensures r.ToLinks? && r.entry.Some? ==> r.entry.value.kind == LinkOfKey(key).value && WellShaped(r.entry.value)
    ensures r.Dropped? <==> key in ExcludedFields
    ensures r.ToField? ==> r.text == value
  {
    RoutingKeysDisjoint();
    if key == "skills" then
      ToSkills(SplitSkills(value))
    else if LinkOfKey(key).Some? && value != "" then
      ToLinks(ColumnLink(parse, LinkOfKey(key).value, value))
    else if key in ExcludedFields then
      Dropped
    else
      ToField(value)
  }

  /** The cell a route writes under its key, if any. */
  function Stored(route: Route): Option<Cell> {
    match route
    case ToSkills(items) => Some(List(items))
    case ToField(text) => Some(Plain(text))
    case _ => None
  }

  /** The link entry a route appends, if any. */
  function Appended(route: Route): seq<LinkEntry> {
    if route.ToLinks? && route.entry.Some? then [route.entry.value] else []
  }

  /** Applies one column's route to the row object: a later write under the same key wins. */
  function Apply(acc: LooseRow, key: string, route: Route): LooseRow {
    match route
    case ToSkills(items) => acc.(fields := acc.fields[key := List(items)])
    case ToLinks(entry) => if entry.Some? then acc.(links := acc.links + [entry.value]) else acc
    case Dropped => acc
    case ToField(text) => acc.(fields := acc.fields[key := Plain(text)])
  }

  /** Phase one over the first `n` routed columns, left to right. */
  function Build(keys: seq<string>, routes: seq<Route>, n: nat): LooseRow
    requires n <= |keys| && n <= |routes|
    decreases n
  {
    if n == 0 then LooseRow(map[], [])
    else Apply(Build(keys, routes, n - 1), keys[n - 1], routes[n - 1])
  }

  /** The key of every header. */
  function Keys(headers: seq<string>): (keys: seq<string>)
    ensures |keys| == |headers|
  {
    seq(|headers|, i requires 0 <= i < |headers| => Key(headers[i]))
  }

  /** The route of every column of one data row. */
  function Routes(parse: string -> Option<ParsedUrl>, headers: seq<string>, row: seq<string>): (routes: seq<Route>)
    ensures |routes| == |headers|
  {
    seq(|headers|, i requires 0 <= i < |headers| => RouteOf(parse, Key(headers[i]), CellAt(row, i)))
  }

  /** Every key of the row object is the key of one of the first `n` columns. */
  lemma {:induction false} BuildFieldKeys(keys: seq<string>, routes: seq<Route>, n: nat)
    requires n <= |keys| && n <= |routes|
    ensures forall k <- Build(keys, routes, n).fields :: k in keys[..n]
    decreases n
  {
    if n > 0 {
      BuildFieldKeys(keys, routes, n - 1);
      assert forall k <- keys[..n - 1] :: k in keys[..n];
      assert keys[n - 1] in keys[..n];
    }
  }

  /** Phase one for a whole row: every header column, left to right. Only header keys appear. */
  function AssembleRow(parse: string -> Option<ParsedUrl>, headers: seq<string>, row: seq<string>): (r: LooseRow)
    ensures forall k <- r.fields :: k in Keys(headers)
  {
    var keys, routes := Keys(headers), Routes(parse, headers, row);
    BuildFieldKeys(keys, routes, |headers|);
    assert keys[..|headers|] == keys;
    Build(keys, routes, |headers|)
  }

  /** Column `i` is the last of the first `n` to write under `k`. */
  ghost predicate LastWriter(keys: seq<string>, routes: seq<Route>, n: nat, i: nat, k: string) {
    && i < n <= |keys| && n <= |routes|
    && keys[i] == k && Stored(routes[i]).Some?
    && forall j :: i < j < n && keys[j] == k ==> Stored(routes[j]).None?
  }

  /** The last column to write under a key decides its cell. */
  lemma {:induction false} LastWriterWins(keys: seq<string>, routes: seq<Route>, n: nat, i: nat, k: string)
    requires LastWriter(keys, routes, n, i, k)
    ensures k in Build(keys, routes, n).fields
    ensures Build(keys, routes, n).fields[k] == Stored(routes[i]).value
    decreases n
  {
    if i < n - 1 {
      assert LastWriter(keys, routes, n - 1, i, k);
      LastWriterWins(keys, routes, n - 1, i, k);
    }
  }

  /** A key no column writes under is absent. */
  lemma {:induction false} NoWriterAbsent(keys: seq<string>, routes: seq<Route>, n: nat, k: string)
    requires n <= |keys| && n <= |routes|
    requires forall j :: 0 <= j < n && keys[j] == k ==> Stored(routes[j]).None?
    ensures k !in Build(keys, routes, n).fields
    decreases n
  {
    if n > 0 {
      NoWriterAbsent(keys, routes, n - 1, k);
    }
  }

  /** The link entries of the routes, in column order. */
  function Collected(routes: seq<Route>): seq<LinkEntry>
    decreases |routes|
  {
    if routes == [] then [] else Collected(routes[..|routes| - 1]) + Appended(routes[|routes| - 1])
  }

  /** An entry is collected exactly when some route appends it. */
  lemma {:induction false} CollectedMembers(routes: seq<Route>, e: LinkEntry)
    ensures e in Collected(routes) <==> exists i :: 0 <= i < |routes| && routes[i] == ToLinks(Some(e))
    decreases |routes|
  {
    if routes != [] {
      var init := routes[..|routes| - 1];
      CollectedMembers(init, e);
      assert forall i :: 0 <= i < |init| ==> init[i] == routes[i];
      if e in Collected(init) {
        var i :| 0 <= i < |init| && init[i] == ToLinks(Some(e));
        assert routes[i] == ToLinks(Some(e));
      }
    }
  }

  /** The row object's links are the entries of its link columns, in column order. */
  lemma {:induction false} BuildLinks(keys: seq<string>, routes: seq<Route>, n: nat)
    requires n <= |keys| && n <= |routes|
    ensures Build(keys, routes, n).links == Collected(routes[..n])
    decreases n
  {
    if n > 0 {
      BuildLinks(keys, routes, n - 1);
      assert routes[..n][..n - 1] == routes[..n - 1];
    }
  }

  /** The cell an ordinary column or the `skills` column writes for a raw value. */
  function ColumnCell(k: string, v: string): Cell {
    if k == "skills" then List(SplitSkills(v)) else Plain(v)
  }

  /**
    Last column wins: for a key that is neither a link name nor excluded, the row object holds
    the cell of the last column whose header normalises to it, raw for an ordinary column and
    split and trimmed for `skills`.
  */
  lemma LastColumnWins(parse: string -> Option<ParsedUrl>, headers: seq<string>, row: seq<string>, i: nat, k: string)
    requires LastColumn(headers, i, k)
    requires LinkOfKey(k).None? && k !in ExcludedFields
    ensures k in AssembleRow(parse, headers, row).fields
    ensures AssembleRow(parse, headers, row).fields[k] == ColumnCell(k, CellAt(row, i))
  {
    var keys, routes := Keys(headers), Routes(parse, headers, row);
    assert routes[i] == RouteOf(parse, k, CellAt(row, i));
    LastWriterWins(keys, routes, |headers|, i, k);
  }

  /** A key no header normalises to is absent from the row object. */
  lemma NoColumnAbsent(parse: string -> Option<ParsedUrl>, headers: seq<string>, row: seq<string>, k: string)
    requires k !in Keys(headers)
    ensures k !in AssembleRow(parse, headers, row).fields
  {
    var keys, routes := Keys(headers), Routes(parse, headers, row);
    NoWriterAbsent(keys, routes, |headers|, k);
  }

  /** An excluded column never reaches the row object, whatever the headers. */
  lemma ExcludedNeverStored(parse: string -> Option<ParsedUrl>, headers: seq<string>, row: seq<string>, k: string)
    requires k in ExcludedFields
    ensures k !in AssembleRow(parse, headers, row).fields
  {
    var keys, routes := Keys(headers), Routes(parse, headers, row);
    forall j | 0 <= j < |headers| && keys[j] == k ensures Stored(routes[j]).None? {
      assert routes[j] == RouteOf(parse, k, CellAt(row, j));
    }
    NoWriterAbsent(keys, routes, |headers|, k);
  }

  /**
    The row object's links are the link entries of its columns in column order; each is well
    shaped and comes from a link column of its kind whose cell is non-empty.
  */
  lemma RowLinks(parse: string -> Option<ParsedUrl>, headers: seq<string>, row: seq<string>)
    ensures AssembleRow(parse, headers, row).links == Collected(Routes(parse, headers, row))
    ensures forall e <- AssembleRow(parse, headers, row).links ::
              WellShaped(e) && exists i :: LinkColumn(headers, row, i, e.kind) && ColumnLink(parse, e.kind, CellAt(row, i)) == Some(e)
  {
    var keys, routes := Keys(headers), Routes(parse, headers, row);
    BuildLinks(keys, routes, |headers|);
    assert routes[..|headers|] == routes;
    forall e <- AssembleRow(parse, headers, row).links
      ensures WellShaped(e) && exists i :: LinkColumn(headers, row, i, e.kind) && ColumnLink(parse, e.kind, CellAt(row, i)) == Some(e)
    {
      CollectedMembers(routes, e);
      var i :| 0 <= i < |routes| && routes[i] == ToLinks(Some(e));
      assert routes[i] == RouteOf(parse, keys[i], CellAt(row, i));
      assert LinkColumn(headers, row, i, e.kind) && ColumnLink(parse, e.kind, CellAt(row, i)) == Some(e);
    }
  }

  /** The fields `alumniSheetSchema` reads from the row object's cells, in schema order. */
  const CellFields: seq<string> := StringFields + ["skills"]

  /** The field has the type `alumniSheetSchema` demands of it. */
  predicate FieldPresent(fields: map<string, Cell>, key: string) {
    key in fields && (if key == "skills" then fields[key].List? else fields[key].Plain?)
  }

  /** zod's issue for one field: "Required" when missing, a type mismatch when of the wrong shape. */
  function FieldIssues(fields: map<string, Cell>, key: string): (issues: seq<Issue>)
    ensures issues == [] <==> FieldPresent(fields, key)
    ensures forall i <- issues :: i.path == [key]
    ensures key !in fields ==> issues == [Issue([key], "Required")]
  {
    if FieldPresent(fields, key) then []
    else if key !in fields then [Issue([key], "Required")]
    else if key == "skills" then [Issue([key], "Expected array, received string")]
    else [Issue([key], "Expected string, received array")]
  }

  /**
    The issues of the listed fields, in order: none exactly when every field is present
    with its type, each naming one listed field that is not, and "Required" for every
    listed field that is missing.
  */
  function IssuesFor(fields: map<string, Cell>, keys: seq<string>): (issues: seq<Issue>)
    ensures issues == [] <==> forall k <- keys :: FieldPresent(fields, k)
    ensures forall i <- issues :: |i.path| == 1 && i.path[0] in keys && !FieldPresent(fields, i.path[0])
    ensures forall k <- keys :: k !in fields ==> Issue([k], "Required") in issues
    decreases |keys|
  {
    if keys == [] then []
    else
      var head, rest := FieldIssues(fields, keys[0]), IssuesFor(fields, keys[1..]);
      assert forall k <- keys :: k == keys[0] || k in keys[1..];
      assert forall i <- head + rest :: i in head || i in rest;
      head + rest
  }

  /**
    Phase two, `alumniSheetSchema.parse(rowData)`: the record when all six cell fields are
    present with the right type (unknown keys are stripped and `links` is the collected
    entries), otherwise every problem, in schema order, each naming one offending field,
    with "Required" for each missing one.
  */
  function Validate(row: LooseRow): (r: Result<Record, seq<Issue>>)
    ensures r.Success? <==> forall k <- CellFields :: FieldPresent(row.fields, k)
    ensures r.Success? ==>
              && "name" in row.fields && row.fields["name"] == Plain(r.value.name)
              && "email" in row.fields && row.fields["email"] == Plain(r.value.email)
              && "domicile" in row.fields && row.fields["domicile"] == Plain(r.value.domicile)
              && "currentJob" in row.fields && row.fields["currentJob"] == Plain(r.value.currentJob)
              && "company" in row.fields && row.fields["company"] == Plain(r.value.company)
              && "skills" in row.fields && row.fields["skills"] == List(r.value.skills)
              && r.value.links == row.links
    ensures r.Failure? ==> r.error == IssuesFor(row.fields, CellFields) != []
  {
    var issues := IssuesFor(row.fields, CellFields);
    if issues == [] then
      assert forall k <- CellFields :: FieldPresent(row.fields, k);
      assert FieldPresent(row.fields, "name") && FieldPresent(row.fields, "email");
      assert FieldPresent(row.fields, "domicile") && FieldPresent(row.fields, "currentJob");
      assert FieldPresent(row.fields, "company") && FieldPresent(row.fields, "skills");
      var f := row.fields;
      Success(Record(f["name"].text, f["email"].text, f["domicile"].text, f["currentJob"].text,
                     f["company"].text, f["skills"].items, row.links))
    else
      Failure(issues)
  }

  /** Both phases for one data row. */
  function ParseRow(parse: string -> Option<ParsedUrl>, headers: seq<string>, row: seq<string>): (r: Result<Record, seq<Issue>>)
    ensures r.Success? <==> forall k <- CellFields :: FieldPresent(AssembleRow(parse, headers, row).fields, k)
    ensures r.Success? ==> r.value.links == AssembleRow(parse, headers, row).links
    ensures r.Failure? ==> r.error != [] && forall i <- r.error :: |i.path| == 1 && i.path[0] in CellFields
  {
    Validate(AssembleRow(parse, headers, row))
  }

  /** Element `i` is the first element of `xs` that `f` fails on. */
  ghost predicate FirstFailure<A, B, E>(f: A -> Result<B, E>, xs: seq<A>, i: int) {
    && 0 <= i < |xs|
    && f(xs[i]).Failure?
    && forall j :: 0 <= j < i ==> f(xs[j]).Success?
  }

  /**
    `xs.map(f)` where `f` throws: every result in order when `f` succeeds on every element,
    otherwise the error of the first element it fails on.
  */
  function MapAll<A, B, E>(f: A -> Result<B, E>, xs: seq<A>): (r: Result<seq<B>, E>)
    ensures r.Success? <==> forall i :: 0 <= i < |xs| ==> f(xs[i]).Success?
    ensures r.Success? ==> |r.value| == |xs| && forall i :: 0 <= i < |xs| ==> f(xs[i]) == Success(r.value[i])
    ensures r.Failure? ==> exists i :: FirstFailure(f, xs, i) && f(xs[i]) == Failure(r.error)
    decreases |xs|
  {
    if xs == [] then Success([])
    else
      match f(xs[0])
      case Failure(e) =>
        assert FirstFailure(f, xs, 0);
        Failure(e)
      case Success(first) =>
        var rest := MapAll(f, xs[1..]);
        assert forall i :: 1 <= i < |xs| ==> xs[i] == xs[1..][i - 1];
        match rest
        case Failure(e) =>
          assert exists i :: FirstFailure(f, xs, i) && f(xs[i]) == Failure(e) by {
            var i :| FirstFailure(f, xs[1..], i) && f(xs[1..][i]) == Failure(e);
            assert FirstFailure(f, xs, i + 1);
          }
          Failure(e)
        case Success(recs) =>
          var r := [first] + recs;
          assert forall i :: 0 <= i < |xs| ==> f(xs[i]) == Success(r[i]) by {
            forall i | 0 <= i < |xs| ensures f(xs[i]) == Success(r[i]) {
              if i > 0 {
                assert xs[i] == xs[1..][i - 1] && r[i] == recs[i - 1];
              }
            }
          }
          Success(r)
  }

  /**
    `rows.map(...)` with the schema check throwing: one record per row in row order when every
    row validates, otherwise the issues of the first row that does not.
  */
  function ParseRows(parse: string -> Option<ParsedUrl>, headers: seq<string>, rows: seq<seq<string>>): (r: Result<seq<Record>, seq<Issue>>)
    ensures r.Success? <==> forall i :: 0 <= i < |rows| ==> ParseRow(parse, headers, rows[i]).Success?
    ensures r.Success? ==> |r.value| == |rows| && forall i :: 0 <= i < |rows| ==> ParseRow(parse, headers, rows[i]) == Success(r.value[i])
    ensures r.Failure? ==> exists i :: 0 <= i < |rows| && ParseRow(parse, headers, rows[i]) == Failure(r.error)
                                      && forall j :: 0 <= j < i ==> ParseRow(parse, headers, rows[j]).Success?
  {
    var f := row => ParseRow(parse, headers, row);
    var r := MapAll(f, rows);
    assert r.Failure? ==> exists i :: 0 <= i < |rows| && f(rows[i]) == Failure(r.error)
                                      && forall j :: 0 <= j < i ==> f(rows[j]).Success? by {
      if r.Failure? {
        var i :| FirstFailure(f, rows, i) && f(rows[i]) == Failure(r.error);
      }
    }
    r
  }

  /**
    `parseSheetData(data)`: the first row is the header row. An empty grid and a grid with
    only a header row both give no records; otherwise there is one record per data row.
  */
  function ParseSheetData(parse: string -> Option<ParsedUrl>, data: seq<seq<string>>): (r: Result<seq<Record>, seq<Issue>>)
    ensures |data| <= 1 ==> r == Success([])
    ensures r.Success? && |data| >= 1 ==> |r.value| == |data| - 1
  {
    if data == [] then Success([]) else ParseRows(parse, data[0], data[1..])
  }

  /** The schema's cell fields are ordinary columns: neither link names nor excluded. */
  lemma CellFieldsOrdinary()
    ensures forall k <- CellFields :: LinkOfKey(k).None? && k !in ExcludedFields
  {
    assert CellFields == ["name", "email", "domicile", "currentJob", "company", "skills"];
  }

  /** Each of the schema's cell fields of a valid row has a last column normalising to it. */
  lemma CellFieldColumns(parse: string -> Option<ParsedUrl>, headers: seq<string>, row: seq<string>)
    requires ParseRow(parse, headers, row).Success?
    ensures forall k <- CellFields :: exists i :: LastColumn(headers, i, k)
  {
    var fields := AssembleRow(parse, headers, row).fields;
    var keys := Keys(headers);
    forall k <- CellFields ensures exists i :: LastColumn(headers, i, k) {
      assert k in fields;
      var j :| 0 <= j < |keys| && keys[j] == k;
      LastOccurrenceExists(keys, |headers|, k);
      var i :| LastOccurrence(keys, |headers|, i, k);
      assert LastColumn(headers, i, k);
    }
  }

  /**
    A record carries, for each field, the cell of the last column whose header normalises to
    that field: the raw string for the five text fields and the split, trimmed list for
    `skills`; every field has such a column.
  */
  lemma RecordFromColumns(parse: string -> Option<ParsedUrl>, headers: seq<string>, row: seq<string>, rec: Record)
    requires ParseRow(parse, headers, row) == Success(rec)
    ensures forall k <- CellFields :: exists i :: LastColumn(headers, i, k)
    ensures forall i :: LastColumn(headers, i, "name") ==> rec.name == CellAt(row, i)
    ensures forall i :: LastColumn(headers, i, "email") ==> rec.email == CellAt(row, i)
    ensures forall i :: LastColumn(headers, i, "domicile") ==> rec.domicile == CellAt(row, i)
    ensures forall i :: LastColumn(headers, i, "currentJob") ==> rec.currentJob == CellAt(row, i)
    ensures forall i :: LastColumn(headers, i, "company") ==> rec.company == CellAt(row, i)
    ensures forall i :: LastColumn(headers, i, "skills") ==> rec.skills == SplitSkills(CellAt(row, i))
  {
    var r := AssembleRow(parse, headers, row);
    CellFieldColumns(parse, headers, row);
    assert Validate(r) == Success(rec);
    forall i | LastColumn(headers, i, "name") ensures rec.name == CellAt(row, i) {
      CellFromColumn(parse, headers, row, i, "name");
    }
    forall i | LastColumn(headers, i, "email") ensures rec.email == CellAt(row, i) {
      CellFromColumn(parse, headers, row, i, "email");
    }
    forall i | LastColumn(headers, i, "domicile") ensures rec.domicile == CellAt(row, i) {
      CellFromColumn(parse, headers, row, i, "domicile");
    }
    forall i | LastColumn(headers, i, "currentJob") ensures rec.currentJob == CellAt(row, i) {
      CellFromColumn(parse, headers, row, i, "currentJob");
    }
    forall i | LastColumn(headers, i, "company") ensures rec.company == CellAt(row, i) {
      CellFromColumn(parse, headers, row, i, "company");
    }
    forall i | LastColumn(headers, i, "skills") ensures rec.skills == SplitSkills(CellAt(row, i)) {
      CellFromColumn(parse, headers, row, i, "skills");
    }
  }

  /** The row object's cell under a schema field is that of the field's last column. */
  lemma CellFromColumn(parse: string -> Option<ParsedUrl>, headers: seq<string>, row: seq<string>, i: nat, k: string)
    requires k in CellFields && LastColumn(headers, i, k)
    ensures k in AssembleRow(parse, headers, row).fields
    ensures AssembleRow(parse, headers, row).fields[k] == ColumnCell(k, CellAt(row, i))
  {
    CellFieldsOrdinary();
    LastColumnWins(parse, headers, row, i, k);
  }

  /** Every record has a non-empty list of trimmed skills. */
  lemma RecordSkills(parse: string -> Option<ParsedUrl>, headers: seq<string>, row: seq<string>, rec: Record)
    requires ParseRow(parse, headers, row) == Success(rec)
    ensures |rec.skills| >= 1 && forall s <- rec.skills :: IsTrimmed(s)
  {
    RecordFromColumns(parse, headers, row, rec);
    assert "skills" in CellFields;
    var i :| LastColumn(headers, i, "skills");
    assert rec.skills == SplitSkills(CellAt(row, i));
  }

  /**
    A record's links are the row's link entries in column order, each well shaped and from a
    non-empty link column of its kind.
  */
  lemma RecordLinks(parse: string -> Option<ParsedUrl>, headers: seq<string>, row: seq<string>, rec: Record)
    requires ParseRow(parse, headers, row) == Success(rec)
    ensures rec.links == Collected(Routes(parse, headers, row))
    ensures forall e <- rec.links ::
              WellShaped(e) && exists i :: LinkColumn(headers, row, i, e.kind) && ColumnLink(parse, e.kind, CellAt(row, i)) == Some(e)
  {
    RowLinks(parse, headers, row);
  }

  /**
    A header row with no column for one of the schema's cell fields fails every grid that has
    a data row, and the issues name that field as "Required".
  */
  lemma MissingColumnFails(parse: string -> Option<ParsedUrl>, data: seq<seq<string>>, k: string)
    requires |data| >= 2
    requires k in CellFields
    requires k !in Keys(data[0])
    ensures ParseSheetData(parse, data).Failure?
    ensures Issue([k], "Required") in ParseSheetData(parse, data).error
  {
    var headers, rows := data[0], data[1..];
    var fr := row => ParseRow(parse, headers, row);
    forall row ensures ParseRow(parse, headers, row).Failure? && Issue([k], "Required") in ParseRow(parse, headers, row).error {
      NoColumnAbsent(parse, headers, row, k);
    }
    assert !ParseRow(parse, headers, rows[0]).Success?;
  }

  /** Every record of a parsed grid has a non-empty list of trimmed skills. */
  lemma SheetRecordsHaveSkills(parse: string -> Option<ParsedUrl>, data: seq<seq<string>>)
    requires ParseSheetData(parse, data).Success?
    ensures forall rec <- ParseSheetData(parse, data).value :: |rec.skills| >= 1 && forall s <- rec.skills :: IsTrimmed(s)
  {
    var recs := ParseSheetData(parse, data).value;
    forall rec <- recs ensures |rec.skills| >= 1 && forall s <- rec.skills :: IsTrimmed(s) {
      var i :| 0 <= i < |recs| && recs[i] == rec;
      RecordSkills(parse, data[0], data[1..][i], rec);
    }
  }
}
