/** The paper ranking pipeline of `arxiv_sanity_bot/ranking/ranked_papers.py`:
    field extraction from feed JSON, record adaptation, the paginated
    alphaXiv loop with its vote cut, the day-by-day HuggingFace loop, the
    merge-and-score step, the inclusive publication-time window, and the
    orchestration that chains them.

    The network is an oracle: `fetchPage(k)` is what the (retried) alphaXiv
    request for page `k` ends with, `fetchDay(i)` what the HuggingFace
    request for the day `i` days before today ends with. Publication dates
    are parsed by an opaque `parse` into timestamps, and the vote percentile
    is an opaque `threshold` of the vote list. */
module RankedPapers {
  import opened Wrappers
  import opened Seqs
  import opened Sorting
  import opened Schemas
  import opened PyStrings

  // ---------------------------------------------------------------------
  // Feed JSON and field extraction
  // ---------------------------------------------------------------------

  /** A decoded JSON value as the feeds deliver it. */
  datatype Json =
    | JNull
    | JBool(b: bool)
    | JInt(i: int)
    | JStr(s: string)
    | JList(items: seq<Json>)
    | JObj(fields: map<string, Json>)

  /** Python truthiness of a decoded JSON value. */
  predicate Truthy(j: Json) {
    match j
    case JNull => false
    case JBool(b) => b
    case JInt(i) => i != 0
    case JStr(s) => s != []
    case JList(items) => items != []
    case JObj(fields) => fields != map[]
  }

  /** The position of the first of `names` that `fields` holds. */
  function PresentAt(fields: map<string, Json>, names: seq<string>): (r: Option<nat>)
    ensures r.None? <==> forall i :: 0 <= i < |names| ==> names[i] !in fields
    ensures r.Some? ==> r.value < |names| && names[r.value] in fields
                        && forall j :: 0 <= j < r.value ==> names[j] !in fields
    decreases |names|
  {
    if names == [] then None
    else if names[0] in fields then Some(0)
    else
      match PresentAt(fields, names[1..])
      case None => None
      case Some(i) => Some(i + 1)
  }

  /** The value of the first of `names` that `fields` holds. */
  function FirstPresent(fields: map<string, Json>, names: seq<string>): (r: Option<Json>)
    ensures r.None? <==> forall i :: 0 <= i < |names| ==> names[i] !in fields
    ensures r.Some? ==>
              exists i :: 0 <= i < |names| && names[i] in fields && r.value == fields[names[i]]
                          && forall j :: 0 <= j < i ==> names[j] !in fields
  {
    var k := PresentAt(fields, names);
    if k.None? then None else Some(fields[names[k.value]])
  }

  /** `nested` is a key of `data` whose value is a JSON object. */
  predicate IsNestedObject(data: map<string, Json>, nested: string) {
    nested in data && data[nested].JObj?
  }

  /** The nested half of `_extract_field`: the first nested key, in order,
      naming an object that holds one of `names`, and that object's value
      for the first such name. */
  function FirstNested(data: map<string, Json>, names: seq<string>, nestedKeys: seq<string>): (r: Option<Json>)
    ensures r.None? <==>
              forall i :: 0 <= i < |nestedKeys| && IsNestedObject(data, nestedKeys[i]) ==>
                FirstPresent(data[nestedKeys[i]].fields, names).None?
    ensures r.Some? ==>
              exists i :: 0 <= i < |nestedKeys| && IsNestedObject(data, nestedKeys[i])
                          && r == FirstPresent(data[nestedKeys[i]].fields, names)
    decreases |nestedKeys|
  {
    if nestedKeys == [] then None
    else
      var k := nestedKeys[0];
      if IsNestedObject(data, k) && FirstPresent(data[k].fields, names).Some? then
        FirstPresent(data[k].fields, names)
      else
        var r := FirstNested(data, names, nestedKeys[1..]);
        assert forall i :: 1 <= i < |nestedKeys| ==> nestedKeys[i] == nestedKeys[1..][i - 1];
        r
  }

  /** `_extract_field`: a name present at top level wins, whatever its value
      (an empty string included); only when none is present are the nested
      objects searched; otherwise `None`. */
  function ExtractField(data: map<string, Json>, names: seq<string>, nestedKeys: seq<string>): (r: Option<Json>)
    ensures (exists i :: 0 <= i < |names| && names[i] in data) ==>
              exists i :: 0 <= i < |names| && names[i] in data && r == Some(data[names[i]])
                          && forall j :: 0 <= j < i ==> names[j] !in data
    ensures r.None? <==>
              (forall i :: 0 <= i < |names| ==> names[i] !in data)
              && forall i :: 0 <= i < |nestedKeys| && IsNestedObject(data, nestedKeys[i]) ==>
                   forall j :: 0 <= j < |names| ==> names[j] !in data[nestedKeys[i]].fields
    ensures (forall i :: 0 <= i < |names| ==> names[i] !in data) ==> r == FirstNested(data, names, nestedKeys)
  {
    var top := FirstPresent(data, names);
    if top.Some? then top else FirstNested(data, names, nestedKeys)
  }

  /** Both test shapes: a top-level id, and an id found only inside `paper`. */
  lemma ExtractFieldExamples()
    ensures ExtractField(map["universal_paper_id" := JStr("2411.12345")], ["universal_paper_id"], [])
            == Some(JStr("2411.12345"))
    ensures ExtractField(map["paper" := JObj(map["id" := JStr("2411.67890")])], ["id"], ["paper"])
            == Some(JStr("2411.67890"))
    ensures ExtractField(map["id" := JStr("2411.11111")], ["universal_paper_id", "id"], [])
            == Some(JStr("2411.11111"))
    ensures ExtractField(map["other_field" := JStr("value")], ["id"], []) == None
  {
    var m2 := map["paper" := JObj(map["id" := JStr("2411.67890")])];
    assert FirstPresent(m2, ["id"]) == None;
    var m3 := map["id" := JStr("2411.11111")];
    assert ["universal_paper_id", "id"][1..] == ["id"];
    assert FirstPresent(m3, ["universal_paper_id", "id"]) == FirstPresent(m3, ["id"]);
  }

  /** An empty top-level id shadows a good nested one. */
  lemma EmptyTopLevelWins()
    ensures ExtractField(map["id" := JStr(""), "paper" := JObj(map["id" := JStr("2411.1")])], ["id"], ["paper"])
            == Some(JStr(""))
  {
  }

  // ---------------------------------------------------------------------
  // Record adaptation
  // ---------------------------------------------------------------------

  /** What adapting one feed item ends with: the item is skipped (`None`),
      a record is built, or pydantic's validation (or a malformed `metrics`)
      raises. */
  datatype Adapted = Skipped | Built(paper: RawPaper) | Rejected

  const Nested: seq<string> := ["paper"]
  const AlphaxivIdNames: seq<string> := ["universal_paper_id", "id"]
  const AlphaxivDateNames: seq<string> := ["publication_date", "publishedAt"]

  /** A value a `min_length=1` string field accepts as it stands. */
  predicate IsText(v: Option<Json>) {
    v.Some? && v.value.JStr? && v.value.s != []
  }

  /** `if not arxiv_id: return None`. */
  predicate IdMissing(v: Option<Json>) {
    v.None? || !Truthy(v.value)
  }

  /** What pydantic's lax `int | None` makes of a JSON value: `null` is
      `None`; an integer is kept; `true` and `false` are 1 and 0; a string
      spelling an integer is that integer; anything else fails validation
      (the outer `None`). */
  function LaxOptionalInt(j: Json): (r: Option<Option<int>>)
    ensures r == Some(None) <==> j.JNull?
    ensures r.None? <==> j.JList? || j.JObj? || (j.JStr? && ParseInt(j.s).None?)
    ensures j.JInt? ==> r == Some(Some(j.i))
    ensures j.JBool? ==> r == Some(Some(if j.b then 1 else 0))
    ensures j.JStr? && r.Some? ==> r == Some(ParseInt(j.s))
  {
    match j
    case JNull => Some(None)
    case JInt(v) => Some(Some(v))
    case JBool(b) => Some(Some(if b then 1 else 0))
    case JStr(s) => if ParseInt(s).Some? then Some(ParseInt(s)) else None
    case _ => None
  }

  /** `paper.get("metrics", {}).get("public_total_votes", 0)`, and what the
      `votes: int | None` field makes of it; `None` when either step
      raises (a `metrics` that is not an object has no `.get`). */
  function VotesField(item: map<string, Json>): (r: Option<Option<int>>)
    ensures "metrics" !in item ==> r == Some(Some(0))
    ensures "metrics" in item && !item["metrics"].JObj? ==> r.None?
    ensures "metrics" in item && item["metrics"].JObj? ==>
              var m := item["metrics"].fields;
              r == if "public_total_votes" in m then LaxOptionalInt(m["public_total_votes"]) else Some(Some(0))
  {
    if "metrics" !in item then Some(Some(0))
    else match item["metrics"]
      case JObj(m) =>
        if "public_total_votes" !in m then Some(Some(0))
        else LaxOptionalInt(m["public_total_votes"])
      case _ => None
  }

  /** Lax validation reads any spelled-out integer and a boolean as vote
      counts. */
  lemma LaxVotes(n: int, b: bool)
    ensures VotesField(map["metrics" := JObj(map["public_total_votes" := JStr(ShowInt(n))])]) == Some(Some(n))
    ensures VotesField(map["metrics" := JObj(map["public_total_votes" := JBool(b)])]) == Some(Some(if b then 1 else 0))
  {
    ParseShowInt(n);
  }

  /** `_from_alphaxiv`. */
  function FromAlphaxiv(item: map<string, Json>): (r: Adapted)
    ensures r.Skipped? <==> IdMissing(ExtractField(item, AlphaxivIdNames, Nested))
    ensures r.Built? <==>
              && IsText(ExtractField(item, AlphaxivIdNames, Nested))
              && IsText(ExtractField(item, ["title"], Nested))
              && IsText(ExtractField(item, ["abstract"], Nested))
              && IsText(ExtractField(item, AlphaxivDateNames, Nested))
              && VotesField(item).Some?
    ensures r.Built? ==>
              && ExtractField(item, AlphaxivIdNames, Nested) == Some(JStr(r.paper.arxivId))
              && ExtractField(item, ["title"], Nested) == Some(JStr(r.paper.title))
              && ExtractField(item, ["abstract"], Nested) == Some(JStr(r.paper.abstractText))
              && ExtractField(item, AlphaxivDateNames, Nested) == Some(JStr(r.paper.publishedOn))
              && Some(r.paper.votes) == VotesField(item)
  {
    var id := ExtractField(item, AlphaxivIdNames, Nested);
    if IdMissing(id) then Skipped
    else
      var title := ExtractField(item, ["title"], Nested);
      var abs := ExtractField(item, ["abstract"], Nested);
      var date := ExtractField(item, AlphaxivDateNames, Nested);
      var votes := VotesField(item);
      if IsText(id) && IsText(title) && IsText(abs) && IsText(date) && votes.Some? then
        Built(RawPaper(id.value.s, title.value.s, abs.value.s, date.value.s, votes.value))
      else Rejected
  }

  /** `_from_huggingface`: same shape, other field names, no votes. */
  function FromHuggingface(item: map<string, Json>): (r: Adapted)
    ensures r.Skipped? <==> IdMissing(ExtractField(item, ["id"], Nested))
    ensures r.Built? <==>
              && IsText(ExtractField(item, ["id"], Nested))
              && IsText(ExtractField(item, ["title"], Nested))
              && IsText(ExtractField(item, ["summary"], Nested))
              && IsText(ExtractField(item, ["publishedAt"], Nested))
    ensures r.Built? ==>
              && ExtractField(item, ["id"], Nested) == Some(JStr(r.paper.arxivId))
              && ExtractField(item, ["title"], Nested) == Some(JStr(r.paper.title))
              && ExtractField(item, ["summary"], Nested) == Some(JStr(r.paper.abstractText))
              && ExtractField(item, ["publishedAt"], Nested) == Some(JStr(r.paper.publishedOn))
              && r.paper.votes == None
  {
    var id := ExtractField(item, ["id"], Nested);
    if IdMissing(id) then Skipped
    else
      var title := ExtractField(item, ["title"], Nested);
      var abs := ExtractField(item, ["summary"], Nested);
      var date := ExtractField(item, ["publishedAt"], Nested);
      if IsText(id) && IsText(title) && IsText(abs) && IsText(date) then
        Built(RawPaper(id.value.s, title.value.s, abs.value.s, date.value.s, None))
      else Rejected
  }

  /** A present id with a missing title does not yield an empty title: the
      record is rejected. */
  lemma MissingTitleRejected()
    ensures FromHuggingface(map["id" := JStr("2411.1"), "summary" := JStr("s"), "publishedAt" := JStr("d")])
            == Rejected
  {
    var item := map["id" := JStr("2411.1"), "summary" := JStr("s"), "publishedAt" := JStr("d")];
    assert ExtractField(item, ["title"], Nested) == None;
  }

  /** `BasePaper`'s `min_length=1`: an item with an id whose title,
      abstract or date is missing (and so defaults to `""`) or empty is
      rejected by either adapter, never built with an empty field. */
  lemma EmptyFieldRejected(item: map<string, Json>, idNames: seq<string>, absName: string, dateNames: seq<string>)
    requires (idNames, absName, dateNames) == (AlphaxivIdNames, "abstract", AlphaxivDateNames)
             || (idNames, absName, dateNames) == (["id"], "summary", ["publishedAt"])
    requires !IdMissing(ExtractField(item, idNames, Nested))
    requires || EmptyOrMissing(ExtractField(item, ["title"], Nested))
             || EmptyOrMissing(ExtractField(item, [absName], Nested))
             || EmptyOrMissing(ExtractField(item, dateNames, Nested))
    ensures idNames == AlphaxivIdNames ==> FromAlphaxiv(item) == Rejected
    ensures idNames == ["id"] ==> FromHuggingface(item) == Rejected
  {
  }

  /** `_extract_field(...) or ""` gives `""`. */
  predicate EmptyOrMissing(v: Option<Json>) {
    v.None? || v == Some(JStr(""))
  }

  /** The shape of the HuggingFace test item: every field sits under
      `paper` except the date, which is read from the top level. */
  lemma FromHuggingfaceExample(id: Text, title: Text, abs: Text, date: Text)
    ensures FromHuggingface(map["paper" := JObj(map["id" := JStr(id), "title" := JStr(title), "summary" := JStr(abs)]),
                                "publishedAt" := JStr(date)])
            == Built(RawPaper(id, title, abs, date, None))
  {
    var inner := map["id" := JStr(id), "title" := JStr(title), "summary" := JStr(abs)];
    var item := map["paper" := JObj(inner), "publishedAt" := JStr(date)];
    ExtractNestedOnly(item, "id", inner);
    ExtractNestedOnly(item, "title", inner);
    ExtractNestedOnly(item, "summary", inner);
    assert FirstPresent(item, ["publishedAt"]) == Some(JStr(date));
    FromHuggingfaceFields(item, id, title, abs, date);
  }

  /** Four text fields found give the record of those texts. */
  lemma FromHuggingfaceFields(item: map<string, Json>, id: Text, title: Text, abs: Text, date: Text)
    requires ExtractField(item, ["id"], Nested) == Some(JStr(id))
    requires ExtractField(item, ["title"], Nested) == Some(JStr(title))
    requires ExtractField(item, ["summary"], Nested) == Some(JStr(abs))
    requires ExtractField(item, ["publishedAt"], Nested) == Some(JStr(date))
    ensures FromHuggingface(item) == Built(RawPaper(id, title, abs, date, None))
  {
  }

  /** A name absent at the top level is read from the `paper` object. */
  lemma ExtractNestedOnly(item: map<string, Json>, name: string, inner: map<string, Json>)
    requires name !in item && "paper" in item && item["paper"] == JObj(inner) && name in inner
    ensures ExtractField(item, [name], Nested) == Some(inner[name])
  {
    assert FirstPresent(item, [name]) == None;
    assert FirstPresent(inner, [name]) == Some(inner[name]);
  }

  /** The per-item loop of a page fetch: skipped items are dropped, built
      records kept in feed order, and a rejected item makes the fetch raise
      (`None`). */
  method AdaptPage(items: seq<map<string, Json>>, adapt: map<string, Json> -> Adapted)
    returns (r: Option<seq<RawPaper>>)
    ensures r.None? <==> exists i :: 0 <= i < |items| && adapt(items[i]).Rejected?
    ensures r.Some? ==> r.value == BuiltRecords(items, adapt)
  {
    var papers: seq<RawPaper> := [];
    var i := 0;
    while i < |items|
      invariant 0 <= i <= |items|
      invariant forall j :: 0 <= j < i ==> !adapt(items[j]).Rejected?
      invariant papers == BuiltRecords(items[..i], adapt)
    {
      var a := adapt(items[i]);
      if a.Rejected? {
        return None;
      }
      assert items[..i + 1][..i] == items[..i];
      if a.Built? {
        papers := papers + [a.paper];
      }
      i := i + 1;
    }
    assert items[..i] == items;
    r := Some(papers);
  }

  /** The records built from `items`, in order. */
  function BuiltRecords(items: seq<map<string, Json>>, adapt: map<string, Json> -> Adapted): seq<RawPaper>
    decreases |items|
  {
    if items == [] then []
    else
      var last := adapt(items[|items| - 1]);
      BuiltRecords(items[..|items| - 1], adapt) + (if last.Built? then [last.paper] else [])
  }

  // ---------------------------------------------------------------------
  // The alphaXiv loop
  // ---------------------------------------------------------------------

  /** How one retried page request ends: a list of records, or an exception
      that propagates out of `fetch_alphaxiv_papers`. */
  datatype PageResult = PageOk(papers: seq<RawPaper>) | PageFailed

  datatype FetchError = AlphaxivPageFailed(page: nat) | HfDayRaised(day: nat)

  function PapersOfPage(p: PageResult): seq<RawPaper> {
    if p.PageOk? then p.papers else []
  }

  /** `all_papers` after pages `0 .. k-1` were fetched. */
  function Gathered(fetchPage: nat -> PageResult, k: nat): seq<RawPaper> {
    if k == 0 then [] else Gathered(fetchPage, k - 1) + PapersOfPage(fetchPage(k - 1))
  }

  /** `max_pages = (max_papers + PAGE_SIZE - 1) // PAGE_SIZE`. */
  function MaxPages(maxPapers: int, pageSize: nat): int
    requires pageSize > 0
  {
    (maxPapers + pageSize - 1) / pageSize
  }

  predicate HasVotes(p: RawPaper) {
    p.votes.Some?
  }

  /** `[p.votes for p in papers if p.votes is not None]`. */
  function VoteValues(papers: seq<RawPaper>): (r: seq<int>)
    ensures |r| <= |papers|
    ensures forall i :: 0 <= i < |papers| && papers[i].votes.Some? ==> papers[i].votes.value in r
    ensures forall v :: v in r ==> exists i :: 0 <= i < |papers| && papers[i].votes == Some(v)
    decreases |papers|
  {
    if papers == [] then []
    else
      var p := papers[|papers| - 1];
      VoteValues(papers[..|papers| - 1]) + (if p.votes.Some? then [p.votes.value] else [])
  }

  function MeetsThreshold(t: real): RawPaper -> bool {
    (p: RawPaper) => p.votes.Some? && p.votes.value as real >= t
  }

  /** The vote cut that ends `fetch_alphaxiv_papers`: keep the papers with
      votes, drop those below the threshold computed from their votes, and
      cut to `max_papers`. */
  function VoteCut(all: seq<RawPaper>, maxPapers: int, threshold: seq<int> -> real): (r: seq<RawPaper>)
    ensures IsSubsequence(r, all)
    ensures forall i :: 0 <= i < |r| ==>
              r[i].votes.Some? && r[i].votes.value as real >= threshold(VoteValues(Filter(all, HasVotes)))
    ensures maxPapers >= 0 ==> |r| <= maxPapers
    ensures (forall i :: 0 <= i < |all| ==> all[i].votes.None?) ==> r == []
  {
    var withVotes := Filter(all, HasVotes);
    if withVotes == [] then []
    else
      var t := threshold(VoteValues(withVotes));
      var kept := Filter(withVotes, MeetsThreshold(t));
      FilterMembers(all, HasVotes);
      FilterMembers(withVotes, MeetsThreshold(t));
      FilterIsSubsequence(all, HasVotes);
      FilterIsSubsequence(withVotes, MeetsThreshold(t));
      SubsequenceTransitive(kept, withVotes, all);
      var r := SliceTo(kept, maxPapers);
      PrefixIsSubsequence(kept, |r|);
      SubsequenceTransitive(r, kept, all);
      assert forall i :: 0 <= i < |r| ==> r[i] == kept[i];
      r
  }

  /** The cut exactly: the papers, in feed order, whose votes reach the
      threshold of the vote list, cut to `max_papers`. Nothing that reaches
      the threshold is dropped before the cap. */
  lemma VoteCutExact(all: seq<RawPaper>, maxPapers: int, threshold: seq<int> -> real)
    ensures var t := threshold(VoteValues(Filter(all, HasVotes)));
            VoteCut(all, maxPapers, threshold) == SliceTo(Filter(all, MeetsThreshold(t)), maxPapers)
  {
    var withVotes := Filter(all, HasVotes);
    var t := threshold(VoteValues(withVotes));
    FilterFilter(all, HasVotes, MeetsThreshold(t), MeetsThreshold(t));
    if withVotes == [] {
      assert Filter(all, MeetsThreshold(t)) == Filter(withVotes, MeetsThreshold(t)) == [];
    }
  }

  /** A percentile never exceeds the largest vote, so the cut keeps at least
      one paper whenever some paper has votes and room is left. */
  lemma {:induction false} VoteCutKeepsTopVoted(all: seq<RawPaper>, maxPapers: int, threshold: seq<int> -> real)
    requires maxPapers > 0
    requires exists i :: 0 <= i < |all| && all[i].votes.Some?
    requires forall vs: seq<int> :: vs != [] ==> exists v :: v in vs && threshold(vs) <= v as real
    ensures VoteCut(all, maxPapers, threshold) != []
  {
    var withVotes := Filter(all, HasVotes);
    var i :| 0 <= i < |all| && all[i].votes.Some?;
    FilterMembers(all, HasVotes);
    assert all[i] in withVotes;
    var vs := VoteValues(withVotes);
    assert vs != [] by {
      var k :| 0 <= k < |withVotes| && withVotes[k] == all[i];
      assert withVotes[k].votes.value in vs;
    }
    var t := threshold(vs);
    var v :| v in vs && t <= v as real;
    var j :| 0 <= j < |withVotes| && withVotes[j].votes == Some(v);
    var kept := Filter(withVotes, MeetsThreshold(t));
    FilterMembers(withVotes, MeetsThreshold(t));
    assert withVotes[j] in kept;
  }

  /** The alphaXiv test: votes 10, 5, 1 and a threshold between 5 and 10
      (the 66.6th percentile is 6.66) keep only the first paper. */
  lemma VoteCutExample(p1: RawPaper, p2: RawPaper, p3: RawPaper, threshold: seq<int> -> real)
    requires p1.votes == Some(10) && p2.votes == Some(5) && p3.votes == Some(1)
    requires 5.0 < threshold([10, 5, 1]) <= 10.0
    ensures VoteCut([p1, p2, p3], 100, threshold) == [p1]
  {
    var all := [p1, p2, p3];
    VoteCutAllVoted(all, 100, threshold);
    ExampleVoteValues(p1, p2, p3);
    ExampleThresholdFilter(p1, p2, p3, threshold([10, 5, 1]));
    assert SliceTo([p1], 100) == [p1];
  }

  /** When every paper has votes, the cut is the threshold filter over all
      of them, truncated. */
  lemma VoteCutAllVoted(all: seq<RawPaper>, maxPapers: int, threshold: seq<int> -> real)
    requires all != [] && forall i :: 0 <= i < |all| ==> all[i].votes.Some?
    ensures VoteCut(all, maxPapers, threshold)
            == SliceTo(Filter(all, MeetsThreshold(threshold(VoteValues(all)))), maxPapers)
  {
    FilterAllKept(all, HasVotes);
  }

  lemma ExampleVoteValues(p1: RawPaper, p2: RawPaper, p3: RawPaper)
    requires p1.votes == Some(10) && p2.votes == Some(5) && p3.votes == Some(1)
    ensures VoteValues([p1, p2, p3]) == [10, 5, 1]
  {
    assert [p1, p2, p3][..2] == [p1, p2] && [p1, p2][..1] == [p1];
    assert VoteValues([p1]) == [10];
    assert VoteValues([p1, p2]) == [10, 5];
  }

  lemma ExampleThresholdFilter(p1: RawPaper, p2: RawPaper, p3: RawPaper, t: real)
    requires p1.votes == Some(10) && p2.votes == Some(5) && p3.votes == Some(1)
    requires 5.0 < t <= 10.0
    ensures Filter([p1, p2, p3], MeetsThreshold(t)) == [p1]
  {
    var keep := MeetsThreshold(t);
    assert [p1, p2, p3][..2] == [p1, p2] && [p1, p2][..1] == [p1];
    assert Filter([p1], keep) == [p1];
    assert Filter([p1, p2], keep) == [p1];
  }

  /** Before each of the first `n` requests fewer than `maxPapers` papers
      had been gathered. */
  predicate RoomBefore(fetchPage: nat -> PageResult, n: nat, maxPapers: int) {
    forall k :: 0 <= k < n ==> |Gathered(fetchPage, k)| < maxPapers
  }

  /** The first `n` pages arrived and were non-empty. */
  predicate FullPages(fetchPage: nat -> PageResult, n: nat) {
    forall k :: 0 <= k < n ==> fetchPage(k).PageOk? && fetchPage(k).papers != []
  }

  lemma RoomBeforeNext(fetchPage: nat -> PageResult, n: nat, maxPapers: int)
    requires RoomBefore(fetchPage, n, maxPapers) && |Gathered(fetchPage, n)| < maxPapers
    ensures RoomBefore(fetchPage, n + 1, maxPapers)
  {
  }

  lemma FullPagesNext(fetchPage: nat -> PageResult, n: nat)
    requires FullPages(fetchPage, n) && fetchPage(n).PageOk? && fetchPage(n).papers != []
    ensures FullPages(fetchPage, n + 1)
  {
  }

  /** `fetch_alphaxiv_papers`. `requested` counts the page requests, which go
      to pages `0, 1, ...` in turn. */
  method FetchAlphaxivPapers(fetchPage: nat -> PageResult, maxPapers: int, pageSize: nat,
                             threshold: seq<int> -> real)
    returns (r: Result<seq<RawPaper>, FetchError>, requested: nat)
    requires pageSize > 0
    ensures maxPapers <= 0 ==> requested == 0 && r == Success([])
    ensures maxPapers > 0 ==> 1 <= requested <= MaxPages(maxPapers, pageSize)
    ensures RoomBefore(fetchPage, requested, maxPapers)
    ensures requested > 0 ==> FullPages(fetchPage, requested - 1)
    ensures r.Failure? <==> requested > 0 && fetchPage(requested - 1).PageFailed?
    ensures r.Failure? ==> r.error == AlphaxivPageFailed(requested - 1)
    ensures r.Success? ==> r.value == VoteCut(Gathered(fetchPage, requested), maxPapers, threshold)
    ensures r.Success? && requested > 0 ==>
              || fetchPage(requested - 1).papers == []
              || requested >= MaxPages(maxPapers, pageSize)
              || |Gathered(fetchPage, requested)| >= maxPapers
  {
    var allPapers: seq<RawPaper> := [];
    var pageNum: nat := 0;
    var maxPages := MaxPages(maxPapers, pageSize);
    MaxPagesPositive(maxPapers, pageSize);
    requested := 0;
    while |allPapers| < maxPapers
      invariant allPapers == Gathered(fetchPage, pageNum)
      invariant requested == pageNum
      invariant maxPapers > 0 ==> pageNum <= maxPages
      invariant |allPapers| < maxPapers ==> pageNum < maxPages
      invariant RoomBefore(fetchPage, pageNum, maxPapers)
      invariant FullPages(fetchPage, pageNum)
      decreases maxPapers - |allPapers|
    {
      var page := fetchPage(pageNum);
      RoomBeforeNext(fetchPage, pageNum, maxPapers);
      requested := pageNum + 1;
      if page.PageFailed? {
        r := Failure(AlphaxivPageFailed(pageNum));
        return;
      }
      var papers := page.papers;
      if papers == [] {
        assert Gathered(fetchPage, requested) == allPapers;
        break;
      }
      FullPagesNext(fetchPage, pageNum);
      allPapers := allPapers + papers;
      pageNum := pageNum + 1;
      if pageNum >= maxPages {
        break;
      }
    }
    assert allPapers == Gathered(fetchPage, requested);
    r := Success(VoteCut(allPapers, maxPapers, threshold));
  }

  lemma MaxPagesPositive(maxPapers: int, pageSize: nat)
    requires pageSize > 0
    ensures maxPapers > 0 <==> MaxPages(maxPapers, pageSize) > 0
  {
    var n := maxPapers + pageSize - 1;
    if maxPapers > 0 {
      assert n >= pageSize;
      DivAtLeastOne(n, pageSize);
    } else {
      assert n < pageSize;
    }
  }

  lemma DivAtLeastOne(n: int, d: nat)
    requires d > 0 && n >= d
    ensures n / d >= 1
  {
  }

  // ---------------------------------------------------------------------
  // The HuggingFace loop
  // ---------------------------------------------------------------------

  /** How one retried day request ends: a list of records; an API error
      (`HuggingFaceAPIError`, which the loop logs and skips); or any other
      exception, such as a record failing validation, which propagates. */
  datatype DayResult = DayOk(papers: seq<RawPaper>) | DayApiError | DayRaised

  /** The records of days `0 .. n-1`, today first, failed days contributing nothing. */
  function SuccessfulDays(fetchDay: nat -> DayResult, n: nat): seq<RawPaper> {
    if n == 0 then []
    else SuccessfulDays(fetchDay, n - 1) + (if fetchDay(n - 1).DayOk? then fetchDay(n - 1).papers else [])
  }

  /** `fetch_hf_papers_date_range`: one request per day, `days` in all
      unless a day raises something other than an API error. */
  method FetchHfPapersDateRange(fetchDay: nat -> DayResult, days: int)
    returns (r: Result<seq<RawPaper>, FetchError>, requested: nat)
    ensures r.Success? <==> forall i :: 0 <= i < days ==> !fetchDay(i).DayRaised?
    ensures r.Success? ==> requested == (if days > 0 then days else 0)
                           && r.value == SuccessfulDays(fetchDay, requested)
    ensures r.Failure? ==> && 0 < requested <= days
                           && fetchDay(requested - 1).DayRaised?
                           && (forall i :: 0 <= i < requested - 1 ==> !fetchDay(i).DayRaised?)
                           && r.error == HfDayRaised(requested - 1)
  {
    var allPapers: seq<RawPaper> := [];
    var i: nat := 0;
    while i < days
      invariant allPapers == SuccessfulDays(fetchDay, i)
      invariant forall j :: 0 <= j < i ==> !fetchDay(j).DayRaised?
      invariant days > 0 ==> i <= days
      invariant days <= 0 ==> i == 0
      decreases days - i
    {
      var day := fetchDay(i);
      if day.DayRaised? {
        return Failure(HfDayRaised(i)), i + 1;
      }
      if day.DayOk? {
        allPapers := allPapers + day.papers;
      }
      i := i + 1;
    }
    requested := i;
    r := Success(allPapers);
  }

  /** `n` copies of `s`, one after the other. */
  function Repeat(s: seq<RawPaper>, n: nat): (r: seq<RawPaper>)
    ensures forall k :: 0 <= k < |r| ==> r[k] in s
  {
    if n == 0 then [] else Repeat(s, n - 1) + s
  }

  /** The test's shape: every day answers with the same list, so `n` days
      give `n` copies of it, today's first. */
  lemma {:induction false} UniformDays(fetchDay: nat -> DayResult, papers: seq<RawPaper>, n: nat)
    requires forall i :: 0 <= i < n ==> fetchDay(i) == DayOk(papers)
    ensures SuccessfulDays(fetchDay, n) == Repeat(papers, n)
  {
    if n > 0 {
      UniformDays(fetchDay, papers, n - 1);
    }
  }

  /** A day that ends in an API error contributes nothing: the result is the
      one a successful but empty day would give. */
  lemma {:induction false} ApiErrorDayContributesNothing(
    f: nat -> DayResult, g: nat -> DayResult, d: nat, n: nat)
    requires f(d) == DayApiError && g(d) == DayOk([])
    requires forall i :: 0 <= i < n && i != d ==> f(i) == g(i)
    ensures SuccessfulDays(f, n) == SuccessfulDays(g, n)
  {
    if n > 0 {
      ApiErrorDayContributesNothing(f, g, d, n - 1);
      if n - 1 == d {
        assert SuccessfulDays(g, n) == SuccessfulDays(g, n - 1) + [];
      }
    }
  }

  // ---------------------------------------------------------------------
  // Merge and score
  // ---------------------------------------------------------------------

  /** Occurrences of `id` in a feed list. */
  function IdCount(s: seq<RawPaper>, id: string): nat
    decreases |s|
  {
    if s == [] then 0
    else IdCount(s[..|s| - 1], id) + (if s[|s| - 1].arxivId == id then 1 else 0)
  }

  /** Index of the last occurrence of `id` in `s`. */
  function LastIndex(s: seq<RawPaper>, id: string): (r: Option<nat>)
    ensures r.None? <==> IdCount(s, id) == 0
    ensures r.Some? ==> r.value < |s| && s[r.value].arxivId == id
                        && forall j :: r.value < j < |s| ==> s[j].arxivId != id
    decreases |s|
  {
    if s == [] then None
    else if s[|s| - 1].arxivId == id then Some(|s| - 1)
    else LastIndex(s[..|s| - 1], id)
  }

  /** `id` occurs in `s` exactly when its count is positive. */
  lemma {:induction false} IdCountPositive(s: seq<RawPaper>, id: string)
    ensures IdCount(s, id) > 0 <==> exists j :: 0 <= j < |s| && s[j].arxivId == id
    decreases |s|
  {
    if s != [] {
      var s' := s[..|s| - 1];
      IdCountPositive(s', id);
      if exists j :: 0 <= j < |s| && s[j].arxivId == id {
        var j :| 0 <= j < |s| && s[j].arxivId == id;
        if j < |s| - 1 {
          assert s'[j].arxivId == id;
        }
      }
    }
  }

  /** Index of the first occurrence of `id` in `s`. */
  function FirstIndex(s: seq<RawPaper>, id: string): (r: Option<nat>)
    ensures r.None? <==> IdCount(s, id) == 0
    ensures r.Some? ==> r.value < |s| && s[r.value].arxivId == id
                        && forall j :: 0 <= j < r.value ==> s[j].arxivId != id
    decreases |s|
  {
    if s == [] then None
    else if IdCount(s[..|s| - 1], id) > 0 then FirstIndex(s[..|s| - 1], id)
    else if s[|s| - 1].arxivId == id then
      IdCountPositive(s[..|s| - 1], id);
      Some(|s| - 1)
    else None
  }

  /** The distinct ids of `s` in order of first appearance: the key order of
      a Python dict filled from `s`. */
  function DistinctIds(s: seq<RawPaper>): (r: seq<string>)
    ensures forall i, j :: 0 <= i < j < |r| ==> r[i] != r[j]
    ensures forall id :: id in r <==> IdCount(s, id) > 0
    decreases |s|
  {
    if s == [] then []
    else
      var prev := DistinctIds(s[..|s| - 1]);
      var id := s[|s| - 1].arxivId;
      if id in prev then prev else prev + [id]
  }

  lemma {:induction false} IdCountAppend(a: seq<RawPaper>, b: seq<RawPaper>, id: string)
    ensures IdCount(a + b, id) == IdCount(a, id) + IdCount(b, id)
    decreases |b|
  {
    if b == [] {
      assert a + b == a;
    } else {
      assert (a + b)[..|a + b| - 1] == a + b[..|b| - 1];
      IdCountAppend(a, b[..|b| - 1], id);
    }
  }

  lemma IdCountAppendAll(a: seq<RawPaper>, b: seq<RawPaper>)
    ensures forall id :: IdCount(a + b, id) == IdCount(a, id) + IdCount(b, id)
  {
    forall id ensures IdCount(a + b, id) == IdCount(a, id) + IdCount(b, id) {
      IdCountAppend(a, b, id);
    }
  }

  /** The record the merge holds for `id` once both lists are processed,
      stated from the two lists directly:
      - ranks are the positions of the id's LAST occurrence in each list;
      - title, abstract and date come from the last alphaXiv occurrence,
        or, for an id alphaXiv lacks, from its first HuggingFace occurrence;
      - the score is 2, and the source BOTH, exactly when some HuggingFace
        occurrence meets the id already in the dict: the id is in both
        lists, or occurs twice in the HuggingFace list. */
  function MergedRecord(alpha: seq<RawPaper>, hf: seq<RawPaper>, id: string): (r: RankedPaper)
    requires IdCount(alpha, id) + IdCount(hf, id) > 0
    ensures r.arxivId == id
  {
    var inAlpha := IdCount(alpha, id) > 0;
    var origin := if inAlpha then alpha[LastIndex(alpha, id).value] else hf[FirstIndex(hf, id).value];
    var both := IdCount(hf, id) > 0 && IdCount(alpha, id) + IdCount(hf, id) >= 2;
    RankedPaper(origin.arxivId, origin.title, origin.abstractText, origin.publishedOn,
                if both then 2 else 1,
                LastIndex(alpha, id), LastIndex(hf, id),
                if both then Both else if inAlpha then Alphaxiv else HuggingFace)
  }

  /** The dict's values in insertion order. */
  function MergedValues(alpha: seq<RawPaper>, hf: seq<RawPaper>): (r: seq<RankedPaper>)
    ensures |r| == |DistinctIds(alpha + hf)|
    ensures forall i :: 0 <= i < |r| ==> r[i].arxivId == DistinctIds(alpha + hf)[i]
  {
    var ids := DistinctIds(alpha + hf);
    IdCountAppendAll(alpha, hf);
    seq(|ids|, i requires 0 <= i < |ids| => MergedRecord(alpha, hf, ids[i]))
  }

  /** What `_merge_and_score_papers` returns. */
  function MergeSpec(alpha: seq<RawPaper>, hf: seq<RawPaper>): seq<RankedPaper> {
    StableSort(MergedValues(alpha, hf), PaperLe)
  }

  /** The dict after the alphaXiv loop has seen `alpha[..k]`. */
  ghost predicate AlphaLoopState(alpha: seq<RawPaper>, k: nat, papers: map<string, RankedPaper>, order: seq<string>)
    requires k <= |alpha|
  {
    && order == DistinctIds(alpha[..k])
    && (forall id :: id in papers <==> id in order)
    && forall id :: id in papers ==> papers[id] == MergedRecord(alpha[..k], [], id)
  }

  /** The dict after the HuggingFace loop has seen `hf[..k]`. */
  ghost predicate HfLoopState(alpha: seq<RawPaper>, hf: seq<RawPaper>, k: nat,
                              papers: map<string, RankedPaper>, order: seq<string>)
    requires k <= |hf|
  {
    && order == DistinctIds(alpha + hf[..k])
    && (forall id :: id in papers <==> id in order)
    && ValuesMerged(alpha, hf[..k], papers)
  }

  /** Every value of the dict is the merged record of its id. */
  ghost predicate ValuesMerged(alpha: seq<RawPaper>, h: seq<RawPaper>, papers: map<string, RankedPaper>) {
    forall id :: id in papers ==> IdCount(alpha, id) + IdCount(h, id) > 0 && papers[id] == MergedRecord(alpha, h, id)
  }

  lemma IdCountStep(hf: seq<RawPaper>, k: nat, id: string)
    requires k < |hf|
    ensures IdCount(hf[..k + 1], id) == IdCount(hf[..k], id) + (if hf[k].arxivId == id then 1 else 0)
  {
    assert hf[..k + 1][..k] == hf[..k];
  }

  lemma AlphaRecordStep(alpha: seq<RawPaper>, k: nat, id: string)
    requires k < |alpha| && IdCount(alpha[..k + 1], id) > 0
    ensures id != alpha[k].arxivId ==> IdCount(alpha[..k], id) > 0
    ensures MergedRecord(alpha[..k + 1], [], id)
            == if id == alpha[k].arxivId then
                 RankedPaper(alpha[k].arxivId, alpha[k].title, alpha[k].abstractText, alpha[k].publishedOn,
                             1, Some(k), None, Alphaxiv)
               else MergedRecord(alpha[..k], [], id)
  {
    assert alpha[..k + 1][..k] == alpha[..k];
  }

  lemma AlphaLoopStep(alpha: seq<RawPaper>, k: nat, papers: map<string, RankedPaper>, order: seq<string>)
    requires k < |alpha| && AlphaLoopState(alpha, k, papers, order)
    ensures var p := alpha[k];
            AlphaLoopState(alpha, k + 1,
                           papers[p.arxivId := RankedPaper(p.arxivId, p.title, p.abstractText, p.publishedOn,
                                                           1, Some(k), None, Alphaxiv)],
                           if p.arxivId in papers then order else order + [p.arxivId])
  {
    var p := alpha[k];
    assert alpha[..k + 1][..k] == alpha[..k];
    var papers' := papers[p.arxivId := RankedPaper(p.arxivId, p.title, p.abstractText, p.publishedOn,
                                                   1, Some(k), None, Alphaxiv)];
    forall id | id in papers' ensures papers'[id] == MergedRecord(alpha[..k + 1], [], id) {
      AlphaRecordStep(alpha, k, id);
    }
  }

  lemma HfRecordStep(alpha: seq<RawPaper>, hf: seq<RawPaper>, k: nat, id: string)
    requires k < |hf| && IdCount(alpha, id) + IdCount(hf[..k + 1], id) > 0
    ensures IdCount(alpha, id) + IdCount(hf[..k], id) > 0 ==>
              MergedRecord(alpha, hf[..k + 1], id)
              == if id == hf[k].arxivId then
                   MergedRecord(alpha, hf[..k], id).(score := 2, hfRank := Some(k), source := Both)
                 else MergedRecord(alpha, hf[..k], id)
    ensures IdCount(alpha, id) + IdCount(hf[..k], id) == 0 ==>
              id == hf[k].arxivId
              && MergedRecord(alpha, hf[..k + 1], id)
                 == RankedPaper(hf[k].arxivId, hf[k].title, hf[k].abstractText, hf[k].publishedOn,
                                1, None, Some(k), HuggingFace)
  {
    assert hf[..k + 1][..k] == hf[..k];
  }

  /** The key order after one more HuggingFace item: its id is appended
      unless already present. */
  lemma HfOrderStep(alpha: seq<RawPaper>, hf: seq<RawPaper>, k: nat, order: seq<string>)
    requires k < |hf| && order == DistinctIds(alpha + hf[..k])
    ensures (if hf[k].arxivId in order then order else order + [hf[k].arxivId]) == DistinctIds(alpha + hf[..k + 1])
  {
    var s := alpha + hf[..k + 1];
    assert s[..|s| - 1] == alpha + hf[..k];
    assert s[|s| - 1] == hf[k];
  }

  lemma HfLoopStep(alpha: seq<RawPaper>, hf: seq<RawPaper>, k: nat,
                   papers: map<string, RankedPaper>, order: seq<string>)
    requires k < |hf| && HfLoopState(alpha, hf, k, papers, order)
    ensures var p := hf[k];
            if p.arxivId in papers then
              HfLoopState(alpha, hf, k + 1,
                          papers[p.arxivId := papers[p.arxivId].(score := 2, hfRank := Some(k), source := Both)],
                          order)
            else
              HfLoopState(alpha, hf, k + 1,
                          papers[p.arxivId := RankedPaper(p.arxivId, p.title, p.abstractText, p.publishedOn,
                                                          1, None, Some(k), HuggingFace)],
                          order + [p.arxivId])
  {
    var p := hf[k];
    if p.arxivId in papers {
      HfLoopStepSeen(alpha, hf, k, papers, order);
    } else {
      HfLoopStepNew(alpha, hf, k, papers, order);
    }
  }

  /** An id already in the dict: its record becomes a `Both` record of
      score 2 with this HuggingFace rank. */
  lemma HfLoopStepSeen(alpha: seq<RawPaper>, hf: seq<RawPaper>, k: nat,
                       papers: map<string, RankedPaper>, order: seq<string>)
    requires k < |hf| && HfLoopState(alpha, hf, k, papers, order) && hf[k].arxivId in papers
    ensures HfLoopState(alpha, hf, k + 1,
                        papers[hf[k].arxivId := papers[hf[k].arxivId].(score := 2, hfRank := Some(k), source := Both)],
                        order)
  {
    HfOrderStep(alpha, hf, k, order);
    HfValuesSeen(alpha, hf, k, papers);
  }

  lemma HfValuesSeen(alpha: seq<RawPaper>, hf: seq<RawPaper>, k: nat, papers: map<string, RankedPaper>)
    requires k < |hf| && ValuesMerged(alpha, hf[..k], papers) && hf[k].arxivId in papers
    ensures ValuesMerged(alpha, hf[..k + 1],
                         papers[hf[k].arxivId := papers[hf[k].arxivId].(score := 2, hfRank := Some(k), source := Both)])
  {
    var id0 := hf[k].arxivId;
    var papers' := papers[id0 := papers[id0].(score := 2, hfRank := Some(k), source := Both)];
    forall id | id in papers'
      ensures IdCount(alpha, id) + IdCount(hf[..k + 1], id) > 0
      ensures papers'[id] == MergedRecord(alpha, hf[..k + 1], id)
    {
      IdCountStep(hf, k, id);
      HfRecordStep(alpha, hf, k, id);
    }
  }

  /** A new id: a HuggingFace record of score 1 is added and its id
      appended to the key order. */
  lemma HfLoopStepNew(alpha: seq<RawPaper>, hf: seq<RawPaper>, k: nat,
                      papers: map<string, RankedPaper>, order: seq<string>)
    requires k < |hf| && HfLoopState(alpha, hf, k, papers, order) && hf[k].arxivId !in papers
    ensures var p := hf[k];
            HfLoopState(alpha, hf, k + 1,
                        papers[p.arxivId := RankedPaper(p.arxivId, p.title, p.abstractText, p.publishedOn,
                                                        1, None, Some(k), HuggingFace)],
                        order + [p.arxivId])
  {
    HfOrderStep(alpha, hf, k, order);
    IdCountAppend(alpha, hf[..k], hf[k].arxivId);
    HfValuesNew(alpha, hf, k, papers);
  }

  lemma HfValuesNew(alpha: seq<RawPaper>, hf: seq<RawPaper>, k: nat, papers: map<string, RankedPaper>)
    requires k < |hf| && ValuesMerged(alpha, hf[..k], papers) && hf[k].arxivId !in papers
    requires IdCount(alpha, hf[k].arxivId) + IdCount(hf[..k], hf[k].arxivId) == 0
    ensures var p := hf[k];
            ValuesMerged(alpha, hf[..k + 1],
                         papers[p.arxivId := RankedPaper(p.arxivId, p.title, p.abstractText, p.publishedOn,
                                                         1, None, Some(k), HuggingFace)])
  {
    var p := hf[k];
    var papers' := papers[p.arxivId := RankedPaper(p.arxivId, p.title, p.abstractText, p.publishedOn,
                                                   1, None, Some(k), HuggingFace)];
    forall id | id in papers'
      ensures IdCount(alpha, id) + IdCount(hf[..k + 1], id) > 0
      ensures papers'[id] == MergedRecord(alpha, hf[..k + 1], id)
    {
      IdCountStep(hf, k, id);
      HfRecordStep(alpha, hf, k, id);
    }
  }

  /** Between the two loops: the dict of the alphaXiv loop is the dict of the
      HuggingFace loop before its first item. */
  lemma LoopsMeet(alpha: seq<RawPaper>, hf: seq<RawPaper>, papers: map<string, RankedPaper>, order: seq<string>)
    requires AlphaLoopState(alpha, |alpha|, papers, order)
    ensures HfLoopState(alpha, hf, 0, papers, order)
  {
    assert alpha[..|alpha|] == alpha && alpha + hf[..0] == alpha;
  }

  /** After both loops, the dict's values in key order are `MergedValues`. */
  lemma LoopsDone(alpha: seq<RawPaper>, hf: seq<RawPaper>, papers: map<string, RankedPaper>, order: seq<string>)
    requires HfLoopState(alpha, hf, |hf|, papers, order)
    ensures seq(|order|, i requires 0 <= i < |order| => papers[order[i]]) == MergedValues(alpha, hf)
  {
    assert hf[..|hf|] == hf;
  }

  /** `_merge_and_score_papers`. The dict's key order, which Python keeps
      implicitly, is the explicit list `order`. */
  method MergeAndScore(alpha: seq<RawPaper>, hf: seq<RawPaper>) returns (r: seq<RankedPaper>)
    ensures r == MergeSpec(alpha, hf)
  {
    var papers: map<string, RankedPaper> := map[];
    var order: seq<string> := [];
    for rank := 0 to |alpha|
      invariant AlphaLoopState(alpha, rank, papers, order)
    {
      var p := alpha[rank];
      AlphaLoopStep(alpha, rank, papers, order);
      if p.arxivId !in papers {
        order := order + [p.arxivId];
      }
      papers := papers[p.arxivId := RankedPaper(p.arxivId, p.title, p.abstractText, p.publishedOn,
                                                 1, Some(rank), None, Alphaxiv)];
    }
    LoopsMeet(alpha, hf, papers, order);
    for rank := 0 to |hf|
      invariant HfLoopState(alpha, hf, rank, papers, order)
    {
      var p := hf[rank];
      HfLoopStep(alpha, hf, rank, papers, order);
      if p.arxivId in papers {
        papers := papers[p.arxivId := papers[p.arxivId].(score := 2, hfRank := Some(rank), source := Both)];
      } else {
        order := order + [p.arxivId];
        papers := papers[p.arxivId := RankedPaper(p.arxivId, p.title, p.abstractText, p.publishedOn,
                                                   1, None, Some(rank), HuggingFace)];
      }
    }
    LoopsDone(alpha, hf, papers, order);
    var values := seq(|order|, i requires 0 <= i < |order| => papers[order[i]]);
    r := StableSort(values, PaperLe);
  }

  // ---------------------------------------------------------------------
  // Properties of the merge
  // ---------------------------------------------------------------------

  predicate DistinctIdsIn(ps: seq<RankedPaper>) {
    forall i, j :: 0 <= i < j < |ps| ==> ps[i].arxivId != ps[j].arxivId
  }

  lemma {:induction false} DistinctHasSingletonMultiset<T>(s: seq<T>, x: T)
    requires forall i, j :: 0 <= i < j < |s| ==> s[i] != s[j]
    ensures multiset(s)[x] <= 1
    decreases |s|
  {
    if s != [] {
      var s' := s[..|s| - 1];
      DistinctHasSingletonMultiset(s', x);
      assert s == s' + [s[|s| - 1]];
      if x == s[|s| - 1] {
        assert x !in s';
      }
    }
  }

  lemma RepeatedElementMultiset<T>(s: seq<T>, i: nat, j: nat)
    requires i < j < |s| && s[i] == s[j]
    ensures multiset(s)[s[i]] >= 2
  {
    assert s == s[..j] + [s[j]] + s[j + 1..];
    assert s[i] in s[..j];
  }

  /** A permutation of a list without repeats has no repeats. */
  lemma PermutationDistinct<T>(a: seq<T>, b: seq<T>)
    requires multiset(a) == multiset(b)
    requires forall i, j :: 0 <= i < j < |b| ==> b[i] != b[j]
    ensures forall i, j :: 0 <= i < j < |a| ==> a[i] != a[j]
  {
    forall i, j | 0 <= i < j < |a| ensures a[i] != a[j] {
      if a[i] == a[j] {
        RepeatedElementMultiset(a, i, j);
        DistinctHasSingletonMultiset(b, a[i]);
      }
    }
  }

  /** The merged records carry distinct ids, as their ids are the dict's keys. */
  lemma MergedValuesDistinct(alpha: seq<RawPaper>, hf: seq<RawPaper>)
    ensures forall i, j :: 0 <= i < j < |MergedValues(alpha, hf)| ==> MergedValues(alpha, hf)[i] != MergedValues(alpha, hf)[j]
  {
    var values := MergedValues(alpha, hf);
    forall i, j | 0 <= i < j < |values| ensures values[i] != values[j] {
      assert values[i].arxivId != values[j].arxivId;
    }
  }

  /** One record per distinct id of the two inputs, no id twice. */
  lemma MergeDistinct(alpha: seq<RawPaper>, hf: seq<RawPaper>)
    ensures |MergeSpec(alpha, hf)| == |DistinctIds(alpha + hf)|
    ensures DistinctIdsIn(MergeSpec(alpha, hf))
  {
    var values := MergedValues(alpha, hf);
    var r := MergeSpec(alpha, hf);
    MergedValuesDistinct(alpha, hf);
    PermutationDistinct(r, values);
    ReorderedAreMerged(alpha, hf, r);
    assert |r| == |multiset(r)| == |multiset(values)| == |values|;
  }

  /** Every record of a reordering of the merged values is the
      `MergedRecord` of its own id, and every input id has one. */
  lemma ReorderedRecords(alpha: seq<RawPaper>, hf: seq<RawPaper>, r: seq<RankedPaper>)
    requires multiset(r) == multiset(MergedValues(alpha, hf))
    ensures forall i :: 0 <= i < |r| ==>
              var id := r[i].arxivId;
              IdCount(alpha, id) + IdCount(hf, id) > 0 && r[i] == MergedRecord(alpha, hf, id)
    ensures forall id :: IdCount(alpha, id) + IdCount(hf, id) > 0 <==>
              exists i :: 0 <= i < |r| && r[i].arxivId == id
  {
    ReorderedAreMerged(alpha, hf, r);
    ReorderedCoverIds(alpha, hf, r);
  }

  lemma ReorderedAreMerged(alpha: seq<RawPaper>, hf: seq<RawPaper>, r: seq<RankedPaper>)
    requires multiset(r) == multiset(MergedValues(alpha, hf))
    ensures forall i :: 0 <= i < |r| ==>
              var id := r[i].arxivId;
              IdCount(alpha, id) + IdCount(hf, id) > 0 && r[i] == MergedRecord(alpha, hf, id)
  {
    var values := MergedValues(alpha, hf);
    var ids := DistinctIds(alpha + hf);
    IdCountAppendAll(alpha, hf);
    forall i | 0 <= i < |r|
      ensures IdCount(alpha, r[i].arxivId) + IdCount(hf, r[i].arxivId) > 0
      ensures r[i] == MergedRecord(alpha, hf, r[i].arxivId)
    {
      assert r[i] in multiset(values);
      var k :| 0 <= k < |values| && values[k] == r[i];
      assert values[k] == MergedRecord(alpha, hf, ids[k]);
    }
  }

  lemma ReorderedCoverIds(alpha: seq<RawPaper>, hf: seq<RawPaper>, r: seq<RankedPaper>)
    requires multiset(r) == multiset(MergedValues(alpha, hf))
    ensures forall id :: IdCount(alpha, id) + IdCount(hf, id) > 0 <==>
              exists i :: 0 <= i < |r| && r[i].arxivId == id
  {
    var values := MergedValues(alpha, hf);
    var ids := DistinctIds(alpha + hf);
    IdCountAppendAll(alpha, hf);
    ReorderedAreMerged(alpha, hf, r);
    forall id | IdCount(alpha, id) + IdCount(hf, id) > 0
      ensures exists i :: 0 <= i < |r| && r[i].arxivId == id
    {
      var k :| 0 <= k < |ids| && ids[k] == id;
      assert values[k] in multiset(r);
      var i :| 0 <= i < |r| && r[i] == values[k];
      assert r[i].arxivId == id;
    }
  }

  /** Every record of the merge is the `MergedRecord` of its own id, and
      every id of either input has a record. */
  lemma MergeMembers(alpha: seq<RawPaper>, hf: seq<RawPaper>)
    ensures forall i :: 0 <= i < |MergeSpec(alpha, hf)| ==>
              var id := MergeSpec(alpha, hf)[i].arxivId;
              IdCount(alpha, id) + IdCount(hf, id) > 0 && MergeSpec(alpha, hf)[i] == MergedRecord(alpha, hf, id)
    ensures forall id :: IdCount(alpha, id) + IdCount(hf, id) > 0 <==>
              exists i :: 0 <= i < |MergeSpec(alpha, hf)| && MergeSpec(alpha, hf)[i].arxivId == id
  {
    ReorderedRecords(alpha, hf, MergeSpec(alpha, hf));
  }

  /** Score 2 and source BOTH go together, and both mean that the id is on
      the HuggingFace list and was already in the dict when one of its
      HuggingFace occurrences came up. */
  lemma MergeScores(alpha: seq<RawPaper>, hf: seq<RawPaper>)
    ensures forall i :: 0 <= i < |MergeSpec(alpha, hf)| ==>
              var p := MergeSpec(alpha, hf)[i];
              && (p.score == 2 <==> p.source == Both)
              && (p.score == 2 <==>
                    IdCount(hf, p.arxivId) > 0 && (IdCount(alpha, p.arxivId) > 0 || IdCount(hf, p.arxivId) >= 2))
              && (p.source == Alphaxiv ==> IdCount(alpha, p.arxivId) > 0 && IdCount(hf, p.arxivId) == 0)
              && (p.source == HuggingFace ==> IdCount(alpha, p.arxivId) == 0 && IdCount(hf, p.arxivId) == 1)
  {
    MergeMembers(alpha, hf);
  }

  /** The output follows `sort_key`, and papers with equal keys keep the
      dict's insertion order. */
  lemma MergeOrdering(alpha: seq<RawPaper>, hf: seq<RawPaper>, k: RankedPaper)
    ensures Sorted(MergeSpec(alpha, hf), PaperLe)
    ensures Filter(MergeSpec(alpha, hf), SameKeyAs(PaperLe, k))
            == Filter(MergedValues(alpha, hf), SameKeyAs(PaperLe, k))
  {
    PaperLeTotalPreorder();
    StableSortSorted(MergedValues(alpha, hf), PaperLe);
    StableSortKeepsClassOrder(MergedValues(alpha, hf), PaperLe, k);
  }

  lemma {:induction false} DistinctIdsCovered(s: seq<RawPaper>, t: seq<RawPaper>)
    requires forall i :: 0 <= i < |t| ==> IdCount(s, t[i].arxivId) > 0
    ensures DistinctIds(s + t) == DistinctIds(s)
    decreases |t|
  {
    if t == [] {
      assert s + t == s;
    } else {
      var t' := t[..|t| - 1];
      assert (s + t)[..|s + t| - 1] == s + t';
      DistinctIdsCovered(s, t');
      IdCountAppend(s, t', t[|t| - 1].arxivId);
    }
  }

  /** Merging a list with itself: one record per distinct id, every one
      scored 2 with source BOTH. */
  lemma MergeWithItself(a: seq<RawPaper>)
    ensures |MergeSpec(a, a)| == |DistinctIds(a)|
    ensures forall i :: 0 <= i < |MergeSpec(a, a)| ==>
              MergeSpec(a, a)[i].score == 2 && MergeSpec(a, a)[i].source == Both
  {
    forall i | 0 <= i < |a| ensures IdCount(a, a[i].arxivId) > 0 {
      IdCountPositive(a, a[i].arxivId);
    }
    DistinctIdsCovered(a, a);
    MergeDistinct(a, a);
    MergeMembers(a, a);
  }

  /** Two feeds each with one paper of their own and one shared paper: the
      shared paper comes first with score 2; the other two follow with score
      1, the alphaXiv one first as their average ranks tie and it was
      inserted first. */
  lemma MergeScenario(a: RawPaper, b: RawPaper, a2: RawPaper, c: RawPaper)
    requires a2.arxivId == a.arxivId
    requires a.arxivId != b.arxivId && a.arxivId != c.arxivId && b.arxivId != c.arxivId
    ensures MergeSpec([a, b], [a2, c]) ==
              [RankedPaper(a.arxivId, a.title, a.abstractText, a.publishedOn, 2, Some(0), Some(0), Both),
               RankedPaper(b.arxivId, b.title, b.abstractText, b.publishedOn, 1, Some(1), None, Alphaxiv),
               RankedPaper(c.arxivId, c.title, c.abstractText, c.publishedOn, 1, None, Some(1), HuggingFace)]
  {
    ScenarioValues(a, b, a2, c);
    ScenarioSorted(
      RankedPaper(a.arxivId, a.title, a.abstractText, a.publishedOn, 2, Some(0), Some(0), Both),
      RankedPaper(b.arxivId, b.title, b.abstractText, b.publishedOn, 1, Some(1), None, Alphaxiv),
      RankedPaper(c.arxivId, c.title, c.abstractText, c.publishedOn, 1, None, Some(1), HuggingFace));
  }

  lemma ScenarioIds(a: RawPaper, b: RawPaper, a2: RawPaper, c: RawPaper)
    requires a2.arxivId == a.arxivId
    requires a.arxivId != b.arxivId && a.arxivId != c.arxivId && b.arxivId != c.arxivId
    ensures DistinctIds([a, b] + [a2, c]) == [a.arxivId, b.arxivId, c.arxivId]
  {
    var s, ids := [a, b, a2], [a.arxivId, b.arxivId];
    assert DistinctIds(s) == ids by {
      ScenarioIdsPrefix(a, b, a2);
    }
    assert c.arxivId !in ids;
    assert DistinctIds(s + [c]) == ids + [c.arxivId] by {
      DistinctIdsSnoc(s, c);
    }
    assert [a, b] + [a2, c] == s + [c];
  }

  lemma ScenarioIdsPrefix(a: RawPaper, b: RawPaper, a2: RawPaper)
    requires a2.arxivId == a.arxivId && a.arxivId != b.arxivId
    ensures DistinctIds([a, b, a2]) == [a.arxivId, b.arxivId]
  {
    DistinctIdsPair(a, b);
    DistinctIdsSnoc([a, b], a2);
    assert [a, b] + [a2] == [a, b, a2];
  }

  lemma DistinctIdsPair(a: RawPaper, b: RawPaper)
    requires a.arxivId != b.arxivId
    ensures DistinctIds([a, b]) == [a.arxivId, b.arxivId]
  {
    DistinctIdsSnoc([], a);
    assert [] + [a] == [a];
    DistinctIdsSnoc([a], b);
    assert [a] + [b] == [a, b];
  }

  /** Appending one paper appends its id unless already seen. */
  lemma DistinctIdsSnoc(s: seq<RawPaper>, p: RawPaper)
    ensures DistinctIds(s + [p]) ==
              if p.arxivId in DistinctIds(s) then DistinctIds(s) else DistinctIds(s) + [p.arxivId]
  {
    assert (s + [p])[..|s|] == s;
  }

  lemma ScenarioValues(a: RawPaper, b: RawPaper, a2: RawPaper, c: RawPaper)
    requires a2.arxivId == a.arxivId
    requires a.arxivId != b.arxivId && a.arxivId != c.arxivId && b.arxivId != c.arxivId
    ensures MergedValues([a, b], [a2, c]) ==
              [RankedPaper(a.arxivId, a.title, a.abstractText, a.publishedOn, 2, Some(0), Some(0), Both),
               RankedPaper(b.arxivId, b.title, b.abstractText, b.publishedOn, 1, Some(1), None, Alphaxiv),
               RankedPaper(c.arxivId, c.title, c.abstractText, c.publishedOn, 1, None, Some(1), HuggingFace)]
  {
    var alpha, hf := [a, b], [a2, c];
    ScenarioIds(a, b, a2, c);
    assert alpha[..1] == [a] && hf[..1] == [a2];
    assert [a][..0] == [] && [a2][..0] == [];
    assert IdCount([a], a.arxivId) == 1 && IdCount([a], b.arxivId) == 0 && IdCount([a], c.arxivId) == 0;
    assert IdCount([a2], a.arxivId) == 1 && IdCount([a2], b.arxivId) == 0 && IdCount([a2], c.arxivId) == 0;
    assert IdCount(alpha, a.arxivId) == 1 && IdCount(hf, a.arxivId) == 1;
    assert IdCount(alpha, b.arxivId) == 1 && IdCount(hf, b.arxivId) == 0;
    assert IdCount(alpha, c.arxivId) == 0 && IdCount(hf, c.arxivId) == 1;
    assert LastIndex(alpha, a.arxivId) == Some(0) && LastIndex(hf, a.arxivId) == Some(0);
    assert LastIndex(alpha, b.arxivId) == Some(1) && LastIndex(hf, b.arxivId) == None;
    assert LastIndex(alpha, c.arxivId) == None && LastIndex(hf, c.arxivId) == Some(1);
    assert FirstIndex(hf, c.arxivId) == Some(1);
  }

  lemma ScenarioSorted(ra: RankedPaper, rb: RankedPaper, rc: RankedPaper)
    requires ra.score == 2 && ra.alphaxivRank == Some(0) && ra.hfRank == Some(0)
    requires rb.score == 1 && rb.alphaxivRank == Some(1) && rb.hfRank == None
    requires rc.score == 1 && rc.alphaxivRank == None && rc.hfRank == Some(1)
    ensures StableSort([ra, rb, rc], PaperLe) == [ra, rb, rc]
  {
    assert [ra, rb, rc][..2] == [ra, rb] && [ra, rb][..1] == [ra];
    assert PaperLe(ra, rb) && PaperLe(rb, rc);
    assert StableSort([ra], PaperLe) == [ra];
    assert StableSort([ra, rb], PaperLe) == [ra, rb];
  }

  // ---------------------------------------------------------------------
  // The publication-time window and the orchestration
  // ---------------------------------------------------------------------

  /** The paper's date parses and lies in `[after, before]`. */
  function InWindow(parse: string -> Option<int>, after: int, before: int): RankedPaper -> bool {
    (p: RankedPaper) => parse(p.publishedOn).Some? && after <= parse(p.publishedOn).value <= before
  }

  /** `_filter_by_date_range`. */
  method FilterByDateRange(papers: seq<RankedPaper>, parse: string -> Option<int>, after: int, before: int)
    returns (r: seq<RankedPaper>)
    ensures r == Filter(papers, InWindow(parse, after, before))
    ensures IsSubsequence(r, papers)
    ensures forall i :: 0 <= i < |r| ==>
              parse(r[i].publishedOn).Some? && after <= parse(r[i].publishedOn).value <= before
    ensures forall i :: (0 <= i < |papers| && parse(papers[i].publishedOn).Some?
                         && after <= parse(papers[i].publishedOn).value <= before) ==> papers[i] in r
  {
    r := [];
    for i := 0 to |papers|
      invariant r == Filter(papers[..i], InWindow(parse, after, before))
    {
      assert papers[..i + 1][..i] == papers[..i];
      var published := parse(papers[i].publishedOn);
      if published.None? {
        continue;
      }
      if after <= published.value <= before {
        r := r + [papers[i]];
      }
    }
    assert papers[..|papers|] == papers;
    FilterIsSubsequence(papers, InWindow(parse, after, before));
    FilterMembers(papers, InWindow(parse, after, before));
  }

  /** What `fetch_alphaxiv_papers` promises about the pages it asked for:
      at least one when papers are wanted, no more than the page cap, room
      left before each one, and every page but the last one full. */
  predicate PagesRequested(fetchPage: nat -> PageResult, maxPapers: int, pageSize: int, requested: nat)
    requires pageSize > 0
  {
    && (maxPapers <= 0 ==> requested == 0)
    && (maxPapers > 0 ==> 1 <= requested <= MaxPages(maxPapers, pageSize))
    && RoomBefore(fetchPage, requested, maxPapers)
    && (requested > 0 ==> FullPages(fetchPage, requested - 1))
  }

  /** The last alphaXiv request raised. */
  predicate AlphaFailed(fetchPage: nat -> PageResult, requested: nat) {
    requested > 0 && fetchPage(requested - 1).PageFailed?
  }

  /** `get_all_abstracts`. Both feeds are read over a fixed 7-day lookback;
      `alpha` and `hf` are the two fetched lists. */
  method GetAllAbstracts(after: int, before: int,
                         fetchPage: nat -> PageResult, fetchDay: nat -> DayResult,
                         parse: string -> Option<int>,
                         maxPapers: int, pageSize: nat, threshold: seq<int> -> real)
    returns (r: Result<seq<RankedPaper>, FetchError>, alpha: seq<RawPaper>, hf: seq<RawPaper>,
             pagesRequested: nat, daysRequested: nat)
    requires pageSize > 0
    ensures after >= before ==> r == Success([]) && pagesRequested == 0 && daysRequested == 0
    // the alphaXiv requests, as `fetch_alphaxiv_papers` makes them
    ensures after < before ==> PagesRequested(fetchPage, maxPapers, pageSize, pagesRequested)
    ensures after < before && !AlphaFailed(fetchPage, pagesRequested) ==>
              && alpha == VoteCut(Gathered(fetchPage, pagesRequested), maxPapers, threshold)
              && (pagesRequested > 0 ==>
                    || fetchPage(pagesRequested - 1).papers == []
                    || pagesRequested >= MaxPages(maxPapers, pageSize)
                    || |Gathered(fetchPage, pagesRequested)| >= maxPapers)
    // when the whole call fails, and with which error
    ensures after < before ==>
              (r.Failure? <==> AlphaFailed(fetchPage, pagesRequested) || exists i :: 0 <= i < 7 && fetchDay(i).DayRaised?)
    ensures AlphaFailed(fetchPage, pagesRequested) ==>
              r == Failure(AlphaxivPageFailed(pagesRequested - 1)) && daysRequested == 0
    ensures r.Failure? && !AlphaFailed(fetchPage, pagesRequested) ==>
              && 0 < daysRequested <= 7 && r.error == HfDayRaised(daysRequested - 1)
              && fetchDay(daysRequested - 1).DayRaised?
              && forall i :: 0 <= i < daysRequested - 1 ==> !fetchDay(i).DayRaised?
    ensures after < before && r.Success? ==>
              && hf == SuccessfulDays(fetchDay, 7) && daysRequested == 7
              && r.value == Filter(MergeSpec(alpha, hf), InWindow(parse, after, before))
  {
    alpha, hf, pagesRequested, daysRequested := [], [], 0, 0;
    if after >= before {
      return Success([]), alpha, hf, pagesRequested, daysRequested;
    }
    var fetchedAlpha;
    fetchedAlpha, pagesRequested := FetchAlphaxivPapers(fetchPage, maxPapers, pageSize, threshold);
    assert PagesRequested(fetchPage, maxPapers, pageSize, pagesRequested);
    assert fetchedAlpha.Failure? <==> AlphaFailed(fetchPage, pagesRequested);
    if fetchedAlpha.Failure? {
      return Failure(fetchedAlpha.error), alpha, hf, pagesRequested, daysRequested;
    }
    alpha := fetchedAlpha.value;
    var fetchedHf;
    fetchedHf, daysRequested := FetchHfPapersDateRange(fetchDay, 7);
    if fetchedHf.Failure? {
      assert fetchDay(daysRequested - 1).DayRaised?;
      return Failure(fetchedHf.error), alpha, hf, pagesRequested, daysRequested;
    }
    hf := fetchedHf.value;
    assert !exists i :: 0 <= i < 7 && fetchDay(i).DayRaised?;
    var scored := MergeAndScore(alpha, hf);
    if scored == [] {
      return Success([]), alpha, hf, pagesRequested, daysRequested;
    }
    var filtered := FilterByDateRange(scored, parse, after, before);
    r := Success(filtered);
  }
}
