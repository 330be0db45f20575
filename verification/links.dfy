/**
  Link columns of the alumni sheet (services/alumni/alumni-schema.ts): the fixed list of
  link names, the base URL of each handle platform, `parseLink`, `normalizeAndValidateUrl`,
  and the per-column decision of which link entry, if any, a non-empty cell produces.
  Parsing a URL (the URL Standard's basic URL parser behind `new URL`) is not modelled:
  it is the parameter `parse`, which returns the parsed hostname and serialised href, or
  `None` where `new URL` throws.
*/
module Links {
  import opened Results
  import opened Seqs
  import opened Text

  /** The values of `LINKS`. */
  datatype Link = Instagram | Twitter | Github | Behance | Youtube | Website | Others

  /** The column key each link is recognised by. */
  function Name(l: Link): string {
    match l
    case Instagram => "instagram"
    case Twitter => "twitter"
    case Github => "github"
    case Behance => "behance"
    case Youtube => "youtube"
    case Website => "website"
    case Others => "others"
  }

  /** `LINKS.includes(key)`, returning the link the key names. */
  function LinkOfKey(key: string): (r: Option<Link>)
    ensures r.Some? ==> Name(r.value) == key
    ensures r.None? ==> forall l: Link :: Name(l) != key
  {
    if key == "instagram" then Some(Instagram)
    else if key == "twitter" then Some(Twitter)
    else if key == "github" then Some(Github)
    else if key == "behance" then Some(Behance)
    else if key == "youtube" then Some(Youtube)
    else if key == "website" then Some(Website)
    else if key == "others" then Some(Others)
    else None
  }

  /** `baseUrls`: the profile URL prefix of the five handle platforms. */
  function BaseUrl(l: Link): Option<string> {
    match l
    case Instagram => Some("https://instagram.com/")
    case Twitter => Some("https://twitter.com/")
    case Github => Some("https://github.com/")
    case Behance => Some("https://behance.net/")
    case Youtube => Some("https://youtube.com/")
    case Website => None
    case Others => None
  }

  /** A link entry carries one URL, or a list of URLs for the `others` column. */
  datatype LinkValue = Single(url: string) | Several(urls: seq<string>)

  /** `{ type, value }` as pushed onto a record's `links`. */
  datatype LinkEntry = LinkEntry(kind: Link, value: LinkValue)

  /** What a successful `new URL(s)` exposes to the code: `hostname` and `href`. */
  datatype ParsedUrl = ParsedUrl(hostname: string, href: string)

  /** `/^https?:\/\//i.test(s)`: an `http://` or `https://` prefix in any letter case. */
  predicate HasHttpScheme(s: string) {
    StartsWith(ToLower(s), "http://") || StartsWith(ToLower(s), "https://")
  }

  /**
    The string handed to the URL parser: the input itself when it already names an http(s)
    scheme, otherwise the input behind `https://`. The result always names an http(s) scheme.
  */
  function WithScheme(input: string): (candidate: string)
    ensures HasHttpScheme(candidate)
    ensures HasHttpScheme(input) ==> candidate == input
    ensures !HasHttpScheme(input) ==> candidate == "https://" + input
  {
    if HasHttpScheme(input) then input
    else
      var c := "https://" + input;
      assert ToLower(c)[..8] == "https://";
      c
  }

  /** Adding the scheme is idempotent: a candidate is passed to the parser unchanged. */
  lemma WithSchemeIdempotent(input: string)
    ensures WithScheme(WithScheme(input)) == WithScheme(input)
  {}

  /**
    The hostname tests of `normalizeAndValidateUrl`: no dot, or a `localhost`, `127.` or
    `0.0.0.0` prefix, rejects the URL.
  */
  predicate RejectedHostname(hostname: string) {
    || '.' !in hostname
    || StartsWith(hostname, "localhost")
    || StartsWith(hostname, "127.")
    || StartsWith(hostname, "0.0.0.0")
  }

  /**
    `normalizeAndValidateUrl(input)`: the parser's href for the input with an https scheme
    added when it has none, or `None` (JavaScript `null`) when parsing fails or the hostname
    is rejected.
  */
  function NormalizeUrl(parse: string -> Option<ParsedUrl>, input: string): (r: Option<string>)
    ensures r.Some? <==> parse(WithScheme(input)).Some? && !RejectedHostname(parse(WithScheme(input)).value.hostname)
    ensures r.Some? ==> r.value == parse(WithScheme(input)).value.href
  {
    match parse(WithScheme(input))
    case None => None
    case Some(u) => if RejectedHostname(u.hostname) then None else Some(u.href)
  }

  /**
    Only the scheme decision touches the input before parsing: normalising a string and
    normalising it with its scheme already added give the same answer, and an accepted URL
    has a dotted hostname that is not a loopback name.
  */
  lemma NormalizeUrlSchemeInvariant(parse: string -> Option<ParsedUrl>, input: string)
    ensures NormalizeUrl(parse, WithScheme(input)) == NormalizeUrl(parse, input)
    ensures NormalizeUrl(parse, input).Some? ==>
              exists u :: parse(WithScheme(input)) == Some(u) && '.' in u.hostname
                          && !StartsWith(u.hostname, "localhost") && !StartsWith(u.hostname, "127.")
                          && !StartsWith(u.hostname, "0.0.0.0") && NormalizeUrl(parse, input) == Some(u.href)
  {
    WithSchemeIdempotent(input);
  }

  /**
    `parseLink(type, value)`: a value that starts with `https://` is kept, an `@handle` on a
    handle platform becomes the platform's base URL followed by the handle, anything else
    is kept as written.
  */
  function ParseLink(kind: Link, value: string): (r: string)
    ensures StartsWith(value, "https://") ==> r == value
    ensures !StartsWith(value, "https://") && StartsWith(value, "@") && BaseUrl(kind).Some? ==>
              r == BaseUrl(kind).value + value[1..]
    ensures !StartsWith(value, "@") ==> r == value
    ensures StartsWith(value, "@") && BaseUrl(kind).None? ==> r == value
  {
    if StartsWith(value, "https://") then value
    else if StartsWith(value, "@") && BaseUrl(kind).Some? then BaseUrl(kind).value + value[1..]
    else value
  }

  /** On a handle platform, `@handle` becomes the profile URL, which then stays as it is. */
  lemma ParseLinkHandle(kind: Link, handle: string)
    requires BaseUrl(kind).Some?
    ensures ParseLink(kind, "@" + handle) == BaseUrl(kind).value + handle
    ensures StartsWith(ParseLink(kind, "@" + handle), "https://")
  {
    assert ("@" + handle)[1..] == handle;
    assert ("@" + handle)[..1] == "@";
    assert !StartsWith("@" + handle, "https://") by {
      assert ("@" + handle)[0] != "https://"[0];
    }
    var b := BaseUrl(kind).value;
    assert (b + handle)[..8] == b[..8];
  }

  /** `parseLink` is idempotent: its output is a fixed point. */
  lemma ParseLinkIdempotent(kind: Link, value: string)
    ensures ParseLink(kind, ParseLink(kind, value)) == ParseLink(kind, value)
  {
    if !StartsWith(value, "https://") && StartsWith(value, "@") && BaseUrl(kind).Some? {
      var b := BaseUrl(kind).value;
      assert (b + value[1..])[..8] == b[..8];
    }
  }

  /** `filter(Boolean)` on strings: drop the empty ones. */
  function DropEmpty(ps: seq<string>): (r: seq<string>)
    ensures forall p <- r :: p != ""
    ensures IsSubsequence(r, ps)
    ensures forall p <- ps :: p != "" ==> p in r
    ensures multiset(r) <= multiset(ps)
    ensures forall p <- ps :: multiset(r)[p] == if p != "" then multiset(ps)[p] else 0
  {
    Filter((p: string) => p != "", ps)
  }

  /** `map((url) => url.trim())`. */
  function TrimEach(ps: seq<string>): (r: seq<string>)
    ensures |r| == |ps| && forall i :: 0 <= i < |ps| ==> r[i] == Trim(ps[i])
  {
    seq(|ps|, i requires 0 <= i < |ps| => Trim(ps[i]))
  }

  /** `normalizeAndValidateUrl(p)` with `null` read as the empty string: both are falsy. */
  function Href(parse: string -> Option<ParsedUrl>, p: string): (h: string)
    ensures h != "" <==> NormalizeUrl(parse, p).Some? && NormalizeUrl(parse, p).value != ""
    ensures h != "" ==> NormalizeUrl(parse, p) == Some(h)
  {
    if NormalizeUrl(parse, p).Some? then NormalizeUrl(parse, p).value else ""
  }

  /** `map(normalizeAndValidateUrl)`. */
  function Hrefs(parse: string -> Option<ParsedUrl>, ps: seq<string>): (hs: seq<string>)
    ensures |hs| == |ps|
    ensures forall i :: 0 <= i < |ps| ==> hs[i] == Href(parse, ps[i])
  {
    seq(|ps|, i requires 0 <= i < |ps| => Href(parse, ps[i]))
  }

  /** A non-empty href comes from a piece that normalises to it. */
  lemma HrefSource(parse: string -> Option<ParsedUrl>, ps: seq<string>, u: string)
    requires u in Hrefs(parse, ps) && u != ""
    ensures exists p <- ps :: NormalizeUrl(parse, p) == Some(u)
  {
    var i :| 0 <= i < |ps| && Hrefs(parse, ps)[i] == u;
    assert ps[i] in ps;
  }

  /** Every piece contributes its href. */
  lemma HrefOfPiece(parse: string -> Option<ParsedUrl>, ps: seq<string>, p: string)
    requires p in ps
    ensures Href(parse, p) in Hrefs(parse, ps)
  {
    var i :| 0 <= i < |ps| && ps[i] == p;
    assert Hrefs(parse, ps)[i] == Href(parse, p);
  }

  /**
    `map(normalizeAndValidateUrl).filter(Boolean)`: the non-empty normalised URLs, one per
    piece that validates, in piece order and with their repetitions.
  */
  function NormalizeEach(parse: string -> Option<ParsedUrl>, ps: seq<string>): (r: seq<string>)
    ensures |r| <= |ps|
    ensures forall u <- r :: u != "" && exists p <- ps :: NormalizeUrl(parse, p) == Some(u)
    ensures forall p <- ps :: Href(parse, p) != "" ==> Href(parse, p) in r
    ensures IsSubsequence(r, Hrefs(parse, ps))
    ensures forall u <- Hrefs(parse, ps) :: multiset(r)[u] == if u != "" then multiset(Hrefs(parse, ps))[u] else 0
  {
    var hs := Hrefs(parse, ps);
    var r := Filter((u: string) => u != "", hs);
    assert forall u <- r :: u != "" && exists p <- ps :: NormalizeUrl(parse, p) == Some(u) by {
      forall u <- r ensures u != "" && exists p <- ps :: NormalizeUrl(parse, p) == Some(u) {
        HrefSource(parse, ps, u);
      }
    }
    assert forall p <- ps :: Href(parse, p) != "" ==> Href(parse, p) in r by {
      forall p <- ps ensures Href(parse, p) != "" ==> Href(parse, p) in r {
        HrefOfPiece(parse, ps, p);
      }
    }
    r
  }

  /** Normalising the pieces of a concatenation normalises each part and concatenates the results. */
  lemma NormalizeEachAppend(parse: string -> Option<ParsedUrl>, a: seq<string>, b: seq<string>)
    ensures NormalizeEach(parse, a + b) == NormalizeEach(parse, a) + NormalizeEach(parse, b)
  {
    assert Hrefs(parse, a + b) == Hrefs(parse, a) + Hrefs(parse, b);
    FilterAppend((u: string) => u != "", Hrefs(parse, a), Hrefs(parse, b));
  }

  /** One piece gives its normalised URL when that validates and is non-empty, and nothing otherwise. */
  lemma NormalizeEachSingle(parse: string -> Option<ParsedUrl>, p: string)
    ensures NormalizeEach(parse, [p]) ==
              if NormalizeUrl(parse, p).Some? && NormalizeUrl(parse, p).value != "" then [NormalizeUrl(parse, p).value] else []
  {
    assert Hrefs(parse, [p])[1..] == [];
  }

  /**
    The URLs of an `others` cell: split at commas, drop the empty pieces, trim what is left,
    normalise each piece and keep those that validate.
  */
  function OtherLinks(parse: string -> Option<ParsedUrl>, value: string): (urls: seq<string>)
    ensures forall u <- urls :: u != "" && exists p <- Split(value, ',') :: p != "" && NormalizeUrl(parse, Trim(p)) == Some(u)
    ensures forall p <- Split(value, ',') :: p != "" && Href(parse, Trim(p)) != "" ==> Href(parse, Trim(p)) in urls
  {
    var pieces := DropEmpty(Split(value, ','));
    var urls := NormalizeEach(parse, TrimEach(pieces));
    assert forall u <- urls :: u != "" && exists p <- Split(value, ',') :: p != "" && NormalizeUrl(parse, Trim(p)) == Some(u) by {
      forall u <- urls ensures u != "" && exists p <- Split(value, ',') :: p != "" && NormalizeUrl(parse, Trim(p)) == Some(u) {
        var t :| t in TrimEach(pieces) && NormalizeUrl(parse, t) == Some(u);
        TrimmedSource(pieces, t);
      }
    }
    assert forall p <- Split(value, ',') :: p != "" && Href(parse, Trim(p)) != "" ==> Href(parse, Trim(p)) in urls by {
      forall p <- Split(value, ',') | p != "" && Href(parse, Trim(p)) != "" ensures Href(parse, Trim(p)) in urls {
        TrimmedPiece(pieces, p);
      }
    }
    urls
  }

  /** A trimmed piece is the trimmed text of some piece. */
  lemma TrimmedSource(pieces: seq<string>, t: string)
    requires t in TrimEach(pieces)
    ensures exists p <- pieces :: Trim(p) == t
  {
    var ts := TrimEach(pieces);
    var i :| 0 <= i < |ts| && ts[i] == t;
    assert pieces[i] in pieces;
  }

  /** Each piece's trimmed text is among the trimmed pieces. */
  lemma TrimmedPiece(pieces: seq<string>, p: string)
    requires p in pieces
    ensures Trim(p) in TrimEach(pieces)
  {
    var i :| 0 <= i < |pieces| && pieces[i] == p;
    assert TrimEach(pieces)[i] == Trim(p);
  }

  /** `others` carries a non-empty list; every other link carries a single string. */
  predicate WellShaped(e: LinkEntry) {
    match e.value
    case Several(urls) => e.kind == Others && urls != []
    case Single(_) => e.kind != Others
  }

  /**
    The link entry produced by a non-empty cell of a link column: for `others` the list of
    URLs that validate, present only when there is one; for `website` the normalised URL,
    present only when it validates; for a handle platform the parsed link, always present.
  */
  function ColumnLink(parse: string -> Option<ParsedUrl>, kind: Link, value: string): (r: Option<LinkEntry>)
    requires value != ""
    ensures r.Some? ==> r.value.kind == kind && WellShaped(r.value)
    ensures kind == Others ==> (r.Some? <==> OtherLinks(parse, value) != [])
    ensures kind == Others && r.Some? ==> r.value.value == Several(OtherLinks(parse, value))
    ensures kind == Website ==>
              (r.Some? <==> NormalizeUrl(parse, value).Some? && NormalizeUrl(parse, value).value != "")
    ensures kind == Website && r.Some? ==> r.value.value == Single(NormalizeUrl(parse, value).value)
    ensures kind != Others && kind != Website ==> r == Some(LinkEntry(kind, Single(ParseLink(kind, value))))
  {
    match kind
    case Others =>
      var urls := OtherLinks(parse, value);
      if urls != [] then Some(LinkEntry(Others, Several(urls))) else None
    case Website =>
      (match NormalizeUrl(parse, value)
       case Some(u) => if u != "" then Some(LinkEntry(Website, Single(u))) else None
       case None => None)
    case _ => Some(LinkEntry(kind, Single(ParseLink(kind, value))))
  }
}
