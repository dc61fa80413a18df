/** `arxiv_sanity_bot/arxiv/arxiv_abstracts.py`: the arXiv export-API
    fetcher. Identifiers are cut out of abs URLs by a regular expression;
    result pages are requested `maxResults` entries at a time until a page
    comes back empty, short, broken or not at all; entries outside the
    inclusive window are skipped; and the caller narrows to the open window,
    joins Altmetric scores and orders by score, highest first.

    The HTTP responses are the sequence `responses` (request `k` gets
    `responses[k]`; a request past its end fails), timestamps are the
    opaque `parse`, and the score service is the oracle `gatherScores`. */
module ArxivApi {
  import opened Wrappers
  import opened Seqs
  import opened Sorting
  import opened PyStrings

  /** `[0-9\.]`. */
  predicate IsIdChar(c: char) {
    ('0' <= c <= '9') || c == '.'
  }

  /** What the identifier group can capture: a non-empty run of digits
      and dots. */
  predicate IsArxivId(s: string) {
    s != [] && forall i :: 0 <= i < |s| ==> IsIdChar(s[i])
  }

  /** Length of the run of digits and dots `s` starts with. */
  function IdRunLength(s: string): (n: nat)
    ensures n <= |s|
    ensures forall i :: 0 <= i < n ==> IsIdChar(s[i])
    ensures n < |s| ==> !IsIdChar(s[n])
  {
    if s == [] || !IsIdChar(s[0]) then 0 else 1 + IdRunLength(s[1..])
  }

  /** `.+abs/[0-9\.]` matches at the start of `s` with the `abs/` at
      position `p`: at least one character before it, none of them a
      newline (which `.` does not match). */
  predicate MatchesAt(s: string, p: int) {
    && 1 <= p && p + 5 <= |s|
    && s[p] == 'a' && s[p + 1] == 'b' && s[p + 2] == 's' && s[p + 3] == '/'
    && IsIdChar(s[p + 4])
    && forall i :: 0 <= i < p ==> s[i] != '\n'
  }

  /** The largest match position below `k`. */
  function LastMatchBelow(s: string, k: nat): (r: Option<nat>)
    ensures r.Some? ==> r.value < k && MatchesAt(s, r.value)
    ensures r.Some? ==> forall q :: r.value < q < k ==> !MatchesAt(s, q)
    ensures r.None? ==> forall q :: 0 <= q < k ==> !MatchesAt(s, q)
  {
    if k == 0 then None
    else if MatchesAt(s, k - 1) then Some(k - 1)
    else LastMatchBelow(s, k - 1)
  }

  /** The identifier that follows `abs/` at `p`. */
  function IdAt(s: string, p: nat): string
    requires p + 4 <= |s|
  {
    s[p + 4..p + 4 + IdRunLength(s[p + 4..])]
  }

  /** `_extract_arxiv_id`: `re.match(r".+abs/([0-9\.]+)(v[0-9]+)?", s)`
      then the first group; `None` where the match fails and `.groups()`
      raises. The greedy `.+` puts the `abs/` at the last position where
      the rest can match, and the greedy group takes the whole run of
      digits and dots there; the optional version suffix never changes the
      group. */
  function ExtractArxivId(s: string): (r: Option<string>)
    ensures r.Some? ==> IsArxivId(r.value)
  {
    match LastMatchBelow(s, |s|)
    case None => None
    case Some(p) => Some(IdAt(s, p))
  }

  /** The extraction fails exactly when the pattern matches nowhere. */
  lemma ExtractArxivIdFails(s: string)
    ensures ExtractArxivId(s).None? <==> forall p :: !MatchesAt(s, p)
  {
    var m := LastMatchBelow(s, |s|);
  }

  /** The match is the last one. */
  lemma ExtractArxivIdAt(s: string, p: nat)
    requires MatchesAt(s, p)
    requires forall q :: p < q ==> !MatchesAt(s, q)
    ensures ExtractArxivId(s) == Some(IdAt(s, p))
  {
  }

  /** `v[0-9]+`, or nothing. */
  predicate IsVersion(v: string) {
    v == [] || (|v| >= 2 && v[0] == 'v' && forall i :: 1 <= i < |v| ==> '0' <= v[i] <= '9')
  }

  lemma IdRunOfId(id: string, v: string)
    requires IsArxivId(id) && IsVersion(v)
    ensures IdRunLength(id + v) == |id|
  {
    assert forall i :: 0 <= i < |id| ==> (id + v)[i] == id[i];
    if v != [] {
      assert (id + v)[|id|] == v[0] == 'v';
    }
  }

  /** Past the last `a`, nothing can match. */
  lemma NoMatchPast(s: string, p: nat)
    requires forall q :: p < q < |s| ==> s[q] != 'a'
    ensures forall q :: p < q ==> !MatchesAt(s, q)
  {
  }

  /** Round trip: behind any one-line prefix, `abs/`, an identifier and an
      optional version suffix, the identifier is what comes back. */
  lemma ExtractFromAbsLink(prefix: string, id: string, v: string)
    requires prefix != [] && forall i :: 0 <= i < |prefix| ==> prefix[i] != '\n'
    requires IsArxivId(id) && IsVersion(v)
    ensures ExtractArxivId(prefix + "abs/" + id + v) == Some(id)
  {
    var s := prefix + "abs/" + id + v;
    var p := |prefix|;
    assert MatchesAt(s, p) by {
      assert s[p] == 'a' && s[p + 1] == 'b' && s[p + 2] == 's' && s[p + 3] == '/';
      assert s[p + 4] == id[0];
      assert forall i :: 0 <= i < p ==> s[i] == prefix[i];
    }
    assert s[p + 4..] == id + v;
    forall q | p < q < |s| ensures s[q] != 'a' {
      if q >= p + 4 {
        assert s[q] == (id + v)[q - p - 4];
      }
    }
    NoMatchPast(s, p);
    ExtractArxivIdAt(s, p);
    IdRunOfId(id, v);
    assert IdAt(s, p) == (id + v)[..|id|];
  }

  const AbsHost := "https://arxiv.org/"

  /** `get_url`: the abs page on arxiv.org, from which the identifier
      can be read back. */
  function GetUrl(id: string): string {
    AbsHost + "abs/" + id
  }

  /** The identifier comes back out of its own URL, with or without a
      version suffix. */
  lemma ExtractFromUrl(id: string, v: string)
    requires IsArxivId(id) && IsVersion(v)
    ensures ExtractArxivId(GetUrl(id) + v) == Some(id)
    ensures ExtractArxivId(GetUrl(id)) == Some(id)
  {
    assert forall i :: 0 <= i < |AbsHost| ==> AbsHost[i] != '\n';
    ExtractFromAbsLink(AbsHost, id, v);
    ExtractFromAbsLink(AbsHost, id, []);
    assert GetUrl(id) + [] == GetUrl(id);
  }

  lemma ExtractArxivIdVersionExample()
    ensures ExtractArxivId("http://arxiv.org/abs/0000.00000v99") == Some("0000.00000")
  {
    ExampleLinkParts();
    ExtractFromAbsLink("http://arxiv.org/", "0000.00000", "v99");
  }

  lemma ExampleLinkParts()
    ensures forall i :: 0 <= i < |"http://arxiv.org/"| ==> "http://arxiv.org/"[i] != '\n'
    ensures IsArxivId("0000.00000") && IsVersion("v99")
    ensures "http://arxiv.org/" + "abs/" + "0000.00000" + "v99" == "http://arxiv.org/abs/0000.00000v99"
  {
  }

  lemma GetUrlExample()
    ensures GetUrl("2101.12345") == "https://arxiv.org/abs/2101.12345"
  {
  }

  /** One `<entry>` of the Atom feed. `None` stands for an element that is
      absent or has no text, whose `.text` access raises. */
  datatype Entry = Entry(id: Option<string>, title: Option<string>, summary: Option<string>,
                         published: Option<string>, categories: seq<string>)

  datatype ArxivRow = ArxivRow(arxiv: string, title: string, abstractText: string,
                               publishedOn: string, categories: seq<string>)

  datatype EntryOutcome = Kept(row: ArxivRow) | OutOfWindow | Raised

  /** `after <= published <= before`, for a date that parses. */
  predicate InClosedWindow(parse: string -> Option<int>, after: int, before: int, published: string) {
    parse(published).Some? && after <= parse(published).value <= before
  }

  /** The body of the entry loop: the date is read and compared first, so
      an out-of-window entry is skipped before its other fields are
      touched; a missing field or an unparsable date raises. */
  function ReadEntry(e: Entry, parse: string -> Option<int>, after: int, before: int): (o: EntryOutcome)
    ensures o.Kept? ==> RowOk(parse, after, before, o.row)
    ensures o.Kept? ==> e.id.Some? && Some(o.row.arxiv) == ExtractArxivId(e.id.value)
    ensures o.Kept? ==> NoEdgeSpace(o.row.title) && NoEdgeSpace(o.row.abstractText)
    ensures o.OutOfWindow? <==> (e.published.Some? && parse(e.published.value).Some?
                                 && !InClosedWindow(parse, after, before, e.published.value))
    ensures o.Kept? <==> && e.published.Some? && InClosedWindow(parse, after, before, e.published.value)
                         && e.id.Some? && ExtractArxivId(e.id.value).Some?
                         && e.title.Some? && e.summary.Some?
    ensures o.Kept? ==> && e.title.Some? && o.row.title == Strip(e.title.value)
                        && e.summary.Some? && o.row.abstractText == Strip(e.summary.value)
                        && e.published == Some(o.row.publishedOn) && o.row.categories == e.categories
  {
    if e.published.None? || parse(e.published.value).None? then Raised
    else if !InClosedWindow(parse, after, before, e.published.value) then OutOfWindow
    else if e.id.None? || ExtractArxivId(e.id.value).None? || e.title.None? || e.summary.None? then Raised
    else Kept(ArxivRow(ExtractArxivId(e.id.value).value, Strip(e.title.value), Strip(e.summary.value),
                       e.published.value, e.categories))
  }

  /** What every gathered row satisfies: a date inside the inclusive
      window and a well-formed identifier. */
  predicate RowOk(parse: string -> Option<int>, after: int, before: int, row: ArxivRow) {
    InClosedWindow(parse, after, before, row.publishedOn) && IsArxivId(row.arxiv)
  }

  predicate RowsOk(parse: string -> Option<int>, after: int, before: int, rows: seq<ArxivRow>) {
    forall j :: 0 <= j < |rows| ==> RowOk(parse, after, before, rows[j])
  }

  /** No whitespace at either end, as `str.strip()` leaves. */
  predicate NoEdgeSpace(s: string) {
    s != [] ==> !IsSpace(s[0]) && !IsSpace(s[|s| - 1])
  }

  /** The entry loop body for one window, as a function value. */
  function Reader(parse: string -> Option<int>, after: int, before: int): Entry -> EntryOutcome {
    (e: Entry) => ReadEntry(e, parse, after, before)
  }

  /** The rows of the kept entries, in feed order. */
  function KeptRows(es: seq<Entry>, read: Entry -> EntryOutcome): (r: seq<ArxivRow>)
    ensures |r| <= |es|
    ensures forall k :: 0 <= k < |es| && read(es[k]).Kept? ==> read(es[k]).row in r
    ensures forall row :: row in r ==> exists k :: 0 <= k < |es| && read(es[k]) == Kept(row)
    decreases |es|
  {
    if es == [] then []
    else
      var rest := KeptRows(es[1..], read);
      assert forall k :: 1 <= k < |es| ==> es[k] == es[1..][k - 1];
      (if read(es[0]).Kept? then [read(es[0]).row] else []) + rest
  }

  /** The position of the first entry that raises, or `|es|`. */
  function FirstRaised(es: seq<Entry>, read: Entry -> EntryOutcome): (r: nat)
    ensures r <= |es|
    ensures forall k :: 0 <= k < r ==> !read(es[k]).Raised?
    ensures r < |es| ==> read(es[r]).Raised?
    decreases |es|
  {
    if es == [] || read(es[0]).Raised? then 0
    else
      assert forall k :: 1 <= k < |es| ==> es[k] == es[1..][k - 1];
      1 + FirstRaised(es[1..], read)
  }

  /** The entries of one page, up to the first that raises; the flag says
      whether one did. The rows appended before an exception stay. */
  function ScanPage(es: seq<Entry>, read: Entry -> EntryOutcome): (r: (seq<ArxivRow>, bool))
    ensures |r.0| <= |es|
  {
    if es == [] then ([], false)
    else
      var rest := ScanPage(es[1..], read);
      match read(es[0])
      case Raised => ([], true)
      case OutOfWindow => rest
      case Kept(row) => ([row] + rest.0, rest.1)
  }

  /** A page yields exactly the rows of its kept entries before the first
      entry that raises, in feed order, and raises exactly when some entry
      does. */
  lemma {:induction false} ScanPageExact(es: seq<Entry>, read: Entry -> EntryOutcome)
    ensures ScanPage(es, read).0 == KeptRows(es[..FirstRaised(es, read)], read)
    ensures ScanPage(es, read).1 <==> FirstRaised(es, read) < |es|
    decreases |es|
  {
    if es != [] {
      ScanPageExact(es[1..], read);
      var n := FirstRaised(es, read);
      if n > 0 {
        assert es[..n][1..] == es[1..][..n - 1];
        assert es[..n][0] == es[0];
      }
    }
  }

  /** A reader that keeps only rows satisfying `RowOk`. */
  ghost predicate SoundReader(read: Entry -> EntryOutcome, parse: string -> Option<int>, after: int, before: int) {
    forall e :: read(e).Kept? ==> RowOk(parse, after, before, read(e).row)
  }

  lemma ReaderSound(parse: string -> Option<int>, after: int, before: int)
    ensures SoundReader(Reader(parse, after, before), parse, after, before)
  {
    forall e | Reader(parse, after, before)(e).Kept?
      ensures RowOk(parse, after, before, Reader(parse, after, before)(e).row)
    {
      assert Reader(parse, after, before)(e) == ReadEntry(e, parse, after, before);
    }
  }

  lemma {:induction false} ScanPageRowsOk(es: seq<Entry>, read: Entry -> EntryOutcome,
                                          parse: string -> Option<int>, after: int, before: int)
    requires SoundReader(read, parse, after, before)
    ensures RowsOk(parse, after, before, ScanPage(es, read).0)
    decreases |es|
  {
    if es != [] {
      ScanPageRowsOk(es[1..], read, parse, after, before);
    }
  }

  /** A page raises exactly when one of its entries does; when none does,
      every kept entry is in the page's rows. */
  lemma {:induction false} ScanPageComplete(es: seq<Entry>, read: Entry -> EntryOutcome)
    ensures var r := ScanPage(es, read);
            && (r.1 <==> exists k :: 0 <= k < |es| && read(es[k]).Raised?)
            && (!r.1 ==> forall k :: 0 <= k < |es| && read(es[k]).Kept? ==> read(es[k]).row in r.0)
    decreases |es|
  {
    if es != [] {
      ScanPageComplete(es[1..], read);
      assert forall k :: 1 <= k < |es| ==> es[k] == es[1..][k - 1];
    }
  }

  datatype ApiResponse = ApiOk(entries: seq<Entry>) | ApiError

  /** A page after which the loop asks for the next one: it arrived, is
      non-empty, is full, and none of its entries raised. */
  predicate Continues(page: ApiResponse, read: Entry -> EntryOutcome, maxResults: nat) {
    && page.ApiOk? && page.entries != [] && |page.entries| >= maxResults
    && !ScanPage(page.entries, read).1
  }

  /** The rows a response contributes. */
  function PageRows(page: ApiResponse, read: Entry -> EntryOutcome): seq<ArxivRow> {
    if page.ApiOk? then ScanPage(page.entries, read).0 else []
  }

  /** From request `i` on: the rows gathered and the number of requests
      made. */
  function Harvest(responses: seq<ApiResponse>, read: Entry -> EntryOutcome, maxResults: nat, i: nat): (r: (seq<ArxivRow>, nat))
    ensures r.1 >= 1
    decreases |responses| - i
  {
    if i >= |responses| then ([], 1)
    else
      var rows := PageRows(responses[i], read);
      if !Continues(responses[i], read, maxResults) then (rows, 1)
      else
        var rest := Harvest(responses, read, maxResults, i + 1);
        (rows + rest.0, 1 + rest.1)
  }

  /** The rows of the first page a harvest reads are kept whatever
      happens to the later requests. */
  lemma HarvestKeepsPage(responses: seq<ApiResponse>, read: Entry -> EntryOutcome, maxResults: nat, i: nat)
    requires i < |responses|
    ensures PageRows(responses[i], read) <= Harvest(responses, read, maxResults, i).0
  {
  }

  /** Every gathered row lies in the inclusive window and has a
      well-formed identifier. */
  lemma {:induction false} HarvestRowsOk(responses: seq<ApiResponse>, read: Entry -> EntryOutcome, maxResults: nat, i: nat,
                                         parse: string -> Option<int>, after: int, before: int)
    requires SoundReader(read, parse, after, before)
    ensures RowsOk(parse, after, before, Harvest(responses, read, maxResults, i).0)
    decreases |responses| - i
  {
    if i < |responses| {
      var rows := PageRows(responses[i], read);
      if responses[i].ApiOk? {
        ScanPageRowsOk(responses[i].entries, read, parse, after, before);
      }
      assert RowsOk(parse, after, before, rows);
      if Continues(responses[i], read, maxResults) {
        HarvestRowsOk(responses, read, maxResults, i + 1, parse, after, before);
        var rest := Harvest(responses, read, maxResults, i + 1).0;
        assert Harvest(responses, read, maxResults, i).0 == rows + rest;
        RowsOkAppend(parse, after, before, rows, rest);
      }
    }
  }

  lemma RowsOkAppend(parse: string -> Option<int>, after: int, before: int, a: seq<ArxivRow>, b: seq<ArxivRow>)
    requires RowsOk(parse, after, before, a) && RowsOk(parse, after, before, b)
    ensures RowsOk(parse, after, before, a + b)
  {
    forall j | 0 <= j < |a + b| ensures RowOk(parse, after, before, (a + b)[j]) {
      if j >= |a| {
        assert (a + b)[j] == b[j - |a|];
      }
    }
  }

  /** `_fetch_from_arxiv_3`. Every exception inside the loop, from the
      request to the last entry, is caught and ends it, keeping the rows
      already gathered. `starts` are the `start` offsets requested. */
  method FetchFromArxiv3(responses: seq<ApiResponse>, parse: string -> Option<int>, after: int, before: int,
                         maxResults: nat)
    returns (papers: seq<ArxivRow>, starts: seq<nat>)
    ensures (papers, |starts|) == Harvest(responses, Reader(parse, after, before), maxResults, 0)
    ensures RowsOk(parse, after, before, papers)
    ensures starts[0] == 0
    ensures forall k :: 0 < k < |starts| ==> starts[k] == starts[k - 1] + maxResults
  {
    papers, starts := FetchPages(responses, Reader(parse, after, before), maxResults);
    ReaderSound(parse, after, before);
    HarvestRowsOk(responses, Reader(parse, after, before), maxResults, 0, parse, after, before);
  }

  /** The `start` offsets of `n` requests: `0`, `step`, `2*step`, ... */
  function Offsets(n: nat, step: nat): (r: seq<nat>)
    ensures |r| == n
    ensures n > 0 ==> r[0] == 0
    ensures forall k :: 0 < k < n ==> r[k] == r[k - 1] + step
  {
    seq(n, k requires 0 <= k < n => k * step)
  }

  lemma OffsetsNext(n: nat, step: nat)
    ensures Offsets(n + 1, step) == Offsets(n, step) + [n * step]
    ensures (n + 1) * step == n * step + step
  {
  }

  /** The request loop of `_fetch_from_arxiv_3`, for any entry reader. */
  method FetchPages(responses: seq<ApiResponse>, read: Entry -> EntryOutcome, maxResults: nat)
    returns (papers: seq<ArxivRow>, starts: seq<nat>)
    ensures (papers, |starts|) == Harvest(responses, read, maxResults, 0)
    ensures starts[0] == 0
    ensures forall k :: 0 < k < |starts| ==> starts[k] == starts[k - 1] + maxResults
  {
    papers := [];
    starts := [];
    var start: nat := 0;
    var i: nat := 0;
    while true
      invariant i <= |responses|
      invariant starts == Offsets(i, maxResults) && start == i * maxResults
      invariant Harvest(responses, read, maxResults, 0).0 == papers + Harvest(responses, read, maxResults, i).0
      invariant Harvest(responses, read, maxResults, 0).1 == i + Harvest(responses, read, maxResults, i).1
      decreases |responses| - i
    {
      HarvestStep(responses, read, maxResults, i);
      OffsetsNext(i, maxResults);
      starts := starts + [start];
      if i == |responses| {
        // the request raises
        assert papers + [] == papers;
        break;
      }
      var response := responses[i];
      var rows := PageRows(response, read);
      ghost var gathered := papers;
      papers := papers + rows;
      if !Continues(response, read, maxResults) {
        // a failed request, an empty or short page, or an entry that raises
        break;
      }
      assert gathered + (rows + Harvest(responses, read, maxResults, i + 1).0) == papers + Harvest(responses, read, maxResults, i + 1).0;
      start := start + maxResults;
      i := i + 1;
    }
  }

  /** One request of the harvest: past the responses it raises; a page that
      stops the loop ends it with its rows; otherwise its rows come first. */
  lemma HarvestStep(responses: seq<ApiResponse>, read: Entry -> EntryOutcome, maxResults: nat, i: nat)
    ensures i >= |responses| ==> Harvest(responses, read, maxResults, i) == ([], 1)
    ensures i < |responses| && !Continues(responses[i], read, maxResults) ==>
              Harvest(responses, read, maxResults, i) == (PageRows(responses[i], read), 1)
    ensures i < |responses| && Continues(responses[i], read, maxResults) ==>
              var rest := Harvest(responses, read, maxResults, i + 1);
              Harvest(responses, read, maxResults, i) == (PageRows(responses[i], read) + rest.0, 1 + rest.1)
  {
  }

  /** Every request before the last one got a page that continues the
      loop; the last one failed, or got a page that stops it. */
  lemma {:induction false} HarvestRequests(responses: seq<ApiResponse>, read: Entry -> EntryOutcome, maxResults: nat, i: nat)
    requires i <= |responses|
    ensures var n := Harvest(responses, read, maxResults, i).1;
            && 1 <= n <= |responses| - i + 1
            && (forall k :: i <= k < i + n - 1 ==> Continues(responses[k], read, maxResults))
            && (i + n - 1 < |responses| ==> !Continues(responses[i + n - 1], read, maxResults))
    decreases |responses| - i
  {
    if i < |responses| && Continues(responses[i], read, maxResults) {
      HarvestRequests(responses, read, maxResults, i + 1);
    }
  }

  /** A stopping page ends the loop after the pages before it: the first
      request that meets an empty, short, broken or missing page is the
      last one made. */
  lemma {:induction false} HarvestStopsAt(responses: seq<ApiResponse>, read: Entry -> EntryOutcome, maxResults: nat, i: nat, k: nat)
    requires i <= k <= |responses|
    requires forall j :: i <= j < k ==> Continues(responses[j], read, maxResults)
    requires k < |responses| ==> !Continues(responses[k], read, maxResults)
    ensures Harvest(responses, read, maxResults, i).1 == k - i + 1
    decreases k - i
  {
    if i < k {
      HarvestStopsAt(responses, read, maxResults, i + 1, k);
    }
  }

  datatype ScoreRow = ScoreRow(arxiv: string, score: real)
  datatype ScoredRow = ScoredRow(row: ArxivRow, score: real)

  /** The score rows that share `l`'s identifier, joined to `l`, in score
      order. */
  function Matches(l: ArxivRow, scores: seq<ScoreRow>): (r: seq<ScoredRow>)
    ensures |r| <= |scores|
    decreases |scores|
  {
    if scores == [] then []
    else
      var s := scores[|scores| - 1];
      Matches(l, scores[..|scores| - 1]) + (if s.arxiv == l.arxiv then [ScoredRow(l, s.score)] else [])
  }

  /** Every match pairs `l` with one of its scores, and every score of
      `l` is matched. */
  lemma {:induction false} MatchesPairs(l: ArxivRow, scores: seq<ScoreRow>)
    ensures var r := Matches(l, scores);
            && (forall i :: 0 <= i < |r| ==> r[i].row == l && ScoreRow(l.arxiv, r[i].score) in scores)
            && (forall s :: s in scores && s.arxiv == l.arxiv ==> ScoredRow(l, s.score) in r)
  {
    var f := Filter(scores, HasId(l.arxiv));
    MatchesAreFilter(l, scores);
    FilterMembers(scores, HasId(l.arxiv));
    var r := Matches(l, scores);
    forall i | 0 <= i < |r| ensures r[i].row == l && ScoreRow(l.arxiv, r[i].score) in scores {
      assert r[i] == ScoredRow(l, f[i].score) && f[i] in scores && f[i].arxiv == l.arxiv;
    }
    forall s | s in scores && s.arxiv == l.arxiv ensures ScoredRow(l, s.score) in r {
      var k :| 0 <= k < |scores| && scores[k] == s;
      assert HasId(l.arxiv)(scores[k]);
      var j :| 0 <= j < |f| && f[j] == s;
      assert r[j] == ScoredRow(l, s.score);
    }
  }

  /** `abstracts.merge(scores, on="arxiv")`: the inner join, rows in the
      left order. */
  function Join(left: seq<ArxivRow>, scores: seq<ScoreRow>): seq<ScoredRow>
    decreases |left|
  {
    if left == [] then []
    else Join(left[..|left| - 1], scores) + Matches(left[|left| - 1], scores)
  }

  /** Inner join on the identifier: every output pairs a left row with one
      of its scores, and every such pair is in the output. */
  lemma {:induction false} JoinPairs(left: seq<ArxivRow>, scores: seq<ScoreRow>)
    ensures var r := Join(left, scores);
            && (forall i :: 0 <= i < |r| ==> r[i].row in left && ScoreRow(r[i].row.arxiv, r[i].score) in scores)
            && (forall l, s :: l in left && s in scores && l.arxiv == s.arxiv ==> ScoredRow(l, s.score) in r)
    decreases |left|
  {
    if left != [] {
      var init, l := left[..|left| - 1], left[|left| - 1];
      JoinPairs(init, scores);
      MatchesPairs(l, scores);
      var j, m := Join(init, scores), Matches(l, scores);
      var r := j + m;
      forall i | 0 <= i < |r| ensures r[i].row in left && ScoreRow(r[i].row.arxiv, r[i].score) in scores {
        if i < |j| {
          assert r[i] == j[i] && j[i].row in init;
          var k :| 0 <= k < |init| && init[k] == j[i].row;
          assert left[k] == init[k];
        } else {
          assert r[i] == m[i - |j|] && m[i - |j|].row == left[|left| - 1];
        }
      }
      forall l', s | l' in left && s in scores && l'.arxiv == s.arxiv ensures ScoredRow(l', s.score) in r {
        var k :| 0 <= k < |left| && left[k] == l';
        if k < |left| - 1 {
          assert l' == init[k];
          assert ScoredRow(l', s.score) in j;
        } else {
          assert ScoredRow(l', s.score) in m;
        }
      }
    }
  }

  /** Score rows for identifier `id`. */
  function HasId(id: string): ScoreRow -> bool {
    (s: ScoreRow) => s.arxiv == id
  }

  /** `l` joined to each of `scores`, in their order. */
  function WithRow(l: ArxivRow, scores: seq<ScoreRow>): (r: seq<ScoredRow>)
    ensures |r| == |scores|
  {
    seq(|scores|, i requires 0 <= i < |scores| => ScoredRow(l, scores[i].score))
  }

  /** A left row appears once per score row with its identifier, with
      those scores in order: the join keeps duplicates. */
  lemma {:induction false} MatchesAreFilter(l: ArxivRow, scores: seq<ScoreRow>)
    ensures Matches(l, scores) == WithRow(l, Filter(scores, HasId(l.arxiv)))
    decreases |scores|
  {
    if scores != [] {
      var init, s := scores[..|scores| - 1], scores[|scores| - 1];
      MatchesAreFilter(l, init);
      var f := Filter(init, HasId(l.arxiv));
      assert Filter(scores, HasId(l.arxiv)) == f + (if HasId(l.arxiv)(s) then [s] else []);
      if s.arxiv == l.arxiv {
        assert WithRow(l, f + [s]) == WithRow(l, f) + [ScoredRow(l, s.score)];
      } else {
        assert f + [] == f;
      }
    }
  }

  /** The join of a concatenation is the concatenation of the joins: each
      left row contributes its matches where it stands. */
  lemma {:induction false} JoinAppend(a: seq<ArxivRow>, b: seq<ArxivRow>, scores: seq<ScoreRow>)
    ensures Join(a + b, scores) == Join(a, scores) + Join(b, scores)
    decreases |b|
  {
    if b == [] {
      assert a + b == a;
    } else {
      var init, l := b[..|b| - 1], b[|b| - 1];
      JoinAppend(a, init, scores);
      assert (a + b)[..|a + b| - 1] == a + init && (a + b)[|a + b| - 1] == l;
      var ja, ji, m := Join(a, scores), Join(init, scores), Matches(l, scores);
      calc {
        Join(a + b, scores);
        Join(a + init, scores) + m;
        (ja + ji) + m;
        { assert (ja + ji) + m == ja + (ji + m); }
        ja + Join(b, scores);
      }
    }
  }

  function Ids(rows: seq<ArxivRow>): (r: seq<string>)
    ensures |r| == |rows| && forall i :: 0 <= i < |rows| ==> r[i] == rows[i].arxiv
  {
    seq(|rows|, i requires 0 <= i < |rows| => rows[i].arxiv)
  }

  /** `published_on < before and published_on > after`. */
  function StrictlyInside(parse: string -> Option<int>, after: int, before: int): ArxivRow -> bool {
    (r: ArxivRow) => parse(r.publishedOn).Some? && after < parse(r.publishedOn).value < before
  }

  predicate ScoreGe(a: ScoredRow, b: ScoredRow) {
    a.score >= b.score
  }

  lemma ScoreGeTotalPreorder()
    ensures TotalPreorder(ScoreGe)
  {
  }

  /** `get_all_abstracts`: at most `chunkSize * maxPages` results per
      request, the open window, the score join, then score order. Pandas'
      default sort is not stable, so only the order and the rows are
      promised. */
  method GetAllAbstracts(after: int, before: int, maxPages: nat, chunkSize: nat,
                         responses: seq<ApiResponse>, parse: string -> Option<int>,
                         gatherScores: seq<string> -> seq<ScoreRow>)
    returns (r: seq<ScoredRow>)
    ensures var rows := Harvest(responses, Reader(parse, after, before), chunkSize * maxPages, 0).0;
            var recent := Filter(rows, StrictlyInside(parse, after, before));
            multiset(r) == multiset(Join(recent, gatherScores(Ids(recent))))
    ensures Sorted(r, ScoreGe)
    ensures forall i :: 0 <= i < |r| ==> StrictlyInside(parse, after, before)(r[i].row) && IsArxivId(r[i].row.arxiv)
  {
    var rows, starts := FetchFromArxiv3(responses, parse, after, before, chunkSize * maxPages);
    r := RankRecent(rows, after, before, parse, gatherScores);
  }

  /** The part of `get_all_abstracts` after the fetch. */
  method RankRecent(rows: seq<ArxivRow>, after: int, before: int, parse: string -> Option<int>,
                    gatherScores: seq<string> -> seq<ScoreRow>)
    returns (r: seq<ScoredRow>)
    requires RowsOk(parse, after, before, rows)
    ensures var recent := Filter(rows, StrictlyInside(parse, after, before));
            multiset(r) == multiset(Join(recent, gatherScores(Ids(recent))))
    ensures Sorted(r, ScoreGe)
    ensures forall i :: 0 <= i < |r| ==> StrictlyInside(parse, after, before)(r[i].row) && IsArxivId(r[i].row.arxiv)
  {
    if |rows| == 0 {
      return [];
    }
    var recent := Filter(rows, StrictlyInside(parse, after, before));
    if |recent| == 0 {
      return [];
    }
    var scores := gatherScores(Ids(recent));
    var joined := Join(recent, scores);
    r := StableSort(joined, ScoreGe);
    ScoreGeTotalPreorder();
    StableSortSorted(joined, ScoreGe);
    forall i | 0 <= i < |r|
      ensures StrictlyInside(parse, after, before)(r[i].row) && IsArxivId(r[i].row.arxiv)
    {
      assert r[i] in multiset(joined);
      JoinPairs(recent, scores);
      FilterMembers(rows, StrictlyInside(parse, after, before));
    }
  }
}
