/** `arxiv_sanity_bot/arxiv_sanity/abstracts.py`: the older arxiv-sanity
    scraper. Its text cleaner lacks the final collapse of
    `sanitize_text.py`; its identifiers are the last path segment of an
    href; its pages are downloaded in consecutive batches starting at page
    1; and its rows are cut to those published strictly after `after` and
    ordered by score, highest first.

    The browser session that renders each page and the Altmetric lookup are
    the oracle `bulkDownload`, which maps a batch of page numbers to the
    rows scraped from them; `published_on` arrives as a timestamp. */
module ArxivSanity {
  import opened Seqs
  import opened Sorting
  import opened PyStrings
  import opened Config
  import Sanitize

  /** No allowed character is whitespace except the space. */
  lemma AllowedWhitespaceIsSpace()
    ensures forall c :: IsAllowed(c) && IsSpace(c) ==> c == ' '
  {
    forall c | IsAllowed(c) && IsSpace(c) ensures c == ' ' {
      AllowedCharacters(c);
    }
  }

  /** `sanitize_text` as this module writes it: newline replacement,
      whitespace collapse, allowed-character filter, and no more. Collapsing
      its output gives the other module's `sanitize_text`. */
  function SanitizeText(s: string): (r: string)
    ensures forall i :: 0 <= i < |r| ==> IsAllowed(r[i])
    ensures forall i :: 0 <= i < |r| && IsSpace(r[i]) ==> r[i] == ' '
    ensures Collapse(r) == Sanitize.SanitizeText(s)
  {
    AllowedWhitespaceIsSpace();
    FilterMembers(Collapse(Sanitize.ReplaceNewlines(s)), IsAllowed);
    Sanitize.KeepAllowed(Collapse(Sanitize.ReplaceNewlines(s)))
  }

  /** This variant word by word: split on whitespace, drop the disallowed
      characters of each word, and join with single spaces, so a word left
      empty leaves a double space. */
  lemma SanitizeWords(s: string)
    ensures SanitizeText(s) == Join(Sanitize.KeptWords(Split(s)))
  {
    Sanitize.SplitReplaceNewlines(s);
    Sanitize.KeepAllowedJoin(Split(s));
  }

  /** The unit test's example, its input written as its whitespace runs
      and words and its output as its words joined by single spaces:
      newlines and runs of spaces collapse, the trailing `#@*%&` goes, and
      so does the whitespace at either end. */
  lemma SanitizeTextExample()
    ensures SanitizeText(Interleave(["\n  ", "  ", "  ", "  \n ", "    ", " ", "  ", "   "],
                                    ["This", "is", "a", "test", "with", "extraneous", "characters!#@*%&"]))
            == Join(["This", "is", "a", "test", "with", "extraneous", "characters!"])
  {
    var seps := ["\n  ", "  ", "  ", "  \n ", "    ", " ", "  ", "   "];
    var ws := ["This", "is", "a", "test", "with", "extraneous", "characters!#@*%&"];
    var kept := ["This", "is", "a", "test", "with", "extraneous", "characters!"];
    var s := Interleave(seps, ws);
    assert Split(s) == ws by {
      ExampleLayout(seps, ws);
      SplitInterleave(seps, ws);
    }
    assert Sanitize.KeptWords(ws) == kept by {
      ExampleWordsKept(ws, kept);
    }
    SanitizeWords(s);
  }

  lemma ExampleLayout(seps: seq<string>, ws: seq<string>)
    requires seps == ["\n  ", "  ", "  ", "  \n ", "    ", " ", "  ", "   "]
    requires ws == ["This", "is", "a", "test", "with", "extraneous", "characters!#@*%&"]
    ensures AllWords(ws) && Separators(seps)
  {
  }

  lemma ExampleWordsKept(ws: seq<string>, kept: seq<string>)
    requires ws == ["This", "is", "a", "test", "with", "extraneous", "characters!#@*%&"]
    requires kept == ["This", "is", "a", "test", "with", "extraneous", "characters!"]
    ensures Sanitize.KeptWords(ws) == kept
  {
    forall i | 0 <= i < 6 ensures Sanitize.KeepAllowed(ws[i]) == kept[i] {
      assert ws[i] == kept[i];
      LettersKept(ws[i]);
    }
    assert Sanitize.KeepAllowed(ws[6]) == kept[6] by {
      var word, junk := kept[6], "#@*%&";
      assert ws[6] == word + junk;
      JunkDropped(word, junk);
    }
  }

  lemma LettersKept(w: string)
    requires forall i :: 0 <= i < |w| ==> ('a' <= w[i] <= 'z') || ('A' <= w[i] <= 'Z') || w[i] == '!'
    ensures Sanitize.KeepAllowed(w) == w
  {
    forall i | 0 <= i < |w| ensures IsAllowed(w[i]) {
      AllowedCharacters(w[i]);
    }
    FilterAllKept(w, IsAllowed);
  }

  lemma JunkDropped(word: string, junk: string)
    requires word == "characters!" && junk == "#@*%&"
    ensures Sanitize.KeepAllowed(word + junk) == word
  {
    LettersKept(word);
    FilterAppend(word, junk, IsAllowed);
    forall i | 0 <= i < |junk| ensures !IsAllowed(junk[i]) {
      AllowedCharacters(junk[i]);
    }
    FilterNoneKept(junk, IsAllowed);
    assert word + [] == word;
  }

  /** Both variants keep the same non-whitespace characters: the allowed
      ones of the input, in order. */
  lemma SanitizeKeepsAllowedText(s: string)
    ensures NonSpaces(SanitizeText(s)) == Filter(s, Sanitize.KeptChar)
  {
    CollapseKeepsNonSpaces(SanitizeText(s));
    Sanitize.SanitizeKeepsAllowedText(s);
  }

  /** Dropping a disallowed character that stands between two spaces leaves
      a double space, which the final collapse of the other variant
      removes. */
  lemma SanitizeLeavesDoubleSpace()
    ensures SanitizeText("a # b") == "a  b"
    ensures !SingleSpaced(SanitizeText("a # b"))
    ensures Sanitize.SanitizeText("a # b") == "a b"
  {
    var s, t := "a # b", "a  b";
    assert Sanitize.ReplaceNewlines(s) == s by {
      Sanitize.ReplaceNewlinesNone(s);
    }
    assert Collapse(s) == s by {
      CollapseExample();
    }
    assert SanitizeText(s) == t by {
      KeepAllowedExample();
    }
    assert Sanitize.SanitizeText(s) == Collapse(t);
    CollapseDoubleSpace();
    assert t[1] == ' ' && t[2] == ' ';
  }

  lemma CollapseExample()
    ensures Collapse("a # b") == "a # b"
  {
    assert Join(["a", "#", "b"]) == "a # b" by {
      assert ["a", "#", "b"][1..] == ["#", "b"];
      assert ["#", "b"][1..] == ["b"];
    }
    SplitJoin(["a", "#", "b"]);
  }

  lemma KeepAllowedExample()
    ensures Sanitize.KeepAllowed("a # b") == "a  b"
  {
    ExampleCharacters();
    var p, q, r := ['a', ' '], ['#'], [' ', 'b'];
    assert Filter(p + q, IsAllowed) == p by {
      FilterAppend(p, q, IsAllowed);
      FilterSingleton('#', IsAllowed);
      FilterPair('a', ' ');
    }
    assert Filter(p + q + r, IsAllowed) == p + r by {
      FilterAppend(p + q, r, IsAllowed);
      FilterPair(' ', 'b');
    }
    assert "a # b" == p + q + r;
    assert p + r == "a  b";
  }

  lemma ExampleCharacters()
    ensures IsAllowed('a') && IsAllowed('b') && IsAllowed(' ') && !IsAllowed('#')
  {
    AllowedCharacters('a');
    AllowedCharacters('b');
    AllowedCharacters(' ');
    AllowedCharacters('#');
  }

  lemma FilterPair(x: char, y: char)
    requires IsAllowed(x) && IsAllowed(y)
    ensures Filter([x, y], IsAllowed) == [x, y]
  {
    assert [x, y] == [x] + [y];
    FilterAppend([x], [y], IsAllowed);
    FilterSingleton(x, IsAllowed);
    FilterSingleton(y, IsAllowed);
  }

  lemma CollapseDoubleSpace()
    ensures Collapse("a  b") == "a b"
  {
    var t := "a  b";
    assert Join(["a", "b"]) == "a b" by {
      assert ["a", "b"][1..] == ["b"];
    }
    assert LeadingSpaces(t) == 0;
    assert WordLength(t) == 1 by {
      assert t[1..] == "  b";
      assert WordLength(t[1..]) == 0;
    }
    assert t[0..] == t && t[..1] == "a";
    var u := "  b";
    assert t[1..] == u;
    assert LeadingSpaces(u) == 2 by {
      assert u[1..] == " b" && u[1..][1..] == "b";
      assert LeadingSpaces("b") == 0;
    }
    assert Split(u) == ["b"] by {
      assert u[2..] == "b";
      SplitJoin(["b"]);
    }
  }

  /** Length of the part of `href` after its last slash. */
  function SegmentLength(href: string): (n: nat)
    ensures n <= |href|
    ensures forall i :: |href| - n <= i < |href| ==> href[i] != '/'
    ensures n < |href| ==> href[|href| - n - 1] == '/'
    decreases |href|
  {
    if href == [] || href[|href| - 1] == '/' then 0
    else
      var prefix := href[..|href| - 1];
      assert forall i :: 0 <= i < |prefix| ==> prefix[i] == href[i];
      1 + SegmentLength(prefix)
  }

  /** `_extract_arxiv_number`: `href.split("/")[-1]`, the part after the
      last slash (the whole string when there is none). */
  function ExtractArxivNumber(href: string): (r: string)
    ensures '/' !in r
    ensures |r| <= |href| && r == href[|href| - |r|..]
    ensures |r| < |href| ==> href[|href| - |r| - 1] == '/'
  {
    href[|href| - SegmentLength(href)..]
  }

  /** Any slash-free identifier is recovered from a link ending in it. */
  lemma ExtractFromLink(prefix: string, id: string)
    requires '/' !in id
    ensures ExtractArxivNumber(prefix + "/" + id) == id
  {
    var h := prefix + "/" + id;
    assert h[|h| - |id|..] == id;
    assert h[|prefix|] == '/';
  }

  lemma ExtractArxivNumberExample()
    ensures ExtractArxivNumber("http://arxiv.org/abs/2303.11177") == "2303.11177"
  {
    assert "http://arxiv.org/abs/2303.11177" == "http://arxiv.org/abs" + "/" + "2303.11177";
    ExtractFromLink("http://arxiv.org/abs", "2303.11177");
  }

  /** One scraped row: identifier, cleaned title and abstract, Altmetric
      score, publication timestamp. */
  datatype SanityRow = SanityRow(arxiv: string, title: string, abstractText: string,
                                 score: int, publishedOn: int)

  /** `range(lo, lo + n)`. */
  function PageRange(lo: int, n: nat): (r: seq<int>)
    ensures |r| == n && forall i :: 0 <= i < n ==> r[i] == lo + i
  {
    seq(n, i requires 0 <= i < n => lo + i)
  }

  /** The rows of each batch, batch by batch. */
  function Downloads(bulkDownload: seq<int> -> seq<SanityRow>, batches: seq<seq<int>>): seq<seq<SanityRow>> {
    seq(|batches|, i requires 0 <= i < |batches| => bulkDownload(batches[i]))
  }

  /** The download loop of `get_all_abstracts`: batch `k` asks for pages
      `1 + k*chunkSize` up to `(k+1)*chunkSize`, until page `maxPages` is
      covered. */
  method DownloadAllPages(maxPages: int, chunkSize: nat, bulkDownload: seq<int> -> seq<SanityRow>)
    returns (abstracts: seq<SanityRow>, batches: seq<seq<int>>)
    requires chunkSize > 0
    ensures forall i :: 0 <= i < |batches| ==> |batches[i]| == chunkSize
    ensures Flatten(batches) == PageRange(1, |Flatten(batches)|)
    ensures maxPages >= 1 ==> maxPages <= |Flatten(batches)| < maxPages + chunkSize
    ensures maxPages < 1 ==> batches == []
    ensures abstracts == Flatten(Downloads(bulkDownload, batches))
  {
    abstracts := [];
    batches := [];
    var page := 1;
    while page < maxPages + 1
      invariant page >= 1
      invariant Flatten(batches) == PageRange(1, page - 1)
      invariant forall i :: 0 <= i < |batches| ==> |batches[i]| == chunkSize
      invariant page == 1 || page - 1 < maxPages + chunkSize
      invariant maxPages < 1 ==> batches == []
      invariant abstracts == Flatten(Downloads(bulkDownload, batches))
      decreases maxPages + 1 - page
    {
      var urls := PageRange(page, chunkSize);
      var results := bulkDownload(urls);
      assert (batches + [urls])[..|batches|] == batches;
      assert Downloads(bulkDownload, batches + [urls]) == Downloads(bulkDownload, batches) + [results];
      assert Downloads(bulkDownload, batches + [urls])[..|batches|] == Downloads(bulkDownload, batches);
      assert PageRange(1, page - 1) + urls == PageRange(1, page - 1 + chunkSize);
      abstracts := abstracts + results;
      batches := batches + [urls];
      page := page + chunkSize;
    }
  }

  function PublishedAfter(after: int): SanityRow -> bool {
    (r: SanityRow) => r.publishedOn > after
  }

  /** Score order, highest first. */
  predicate ScoreGe(a: SanityRow, b: SanityRow) {
    a.score >= b.score
  }

  lemma ScoreGeTotalPreorder()
    ensures TotalPreorder(ScoreGe)
  {
  }

  /** `get_all_abstracts`. Pandas' default sort is not stable, so only the
      order by score and the row multiset are promised; the model picks the
      stable order. */
  method GetAllAbstracts(maxPages: int, after: int, chunkSize: nat, bulkDownload: seq<int> -> seq<SanityRow>)
    returns (r: seq<SanityRow>, batches: seq<seq<int>>)
    requires chunkSize > 0
    ensures forall i :: 0 <= i < |batches| ==> |batches[i]| == chunkSize
    ensures Flatten(batches) == PageRange(1, |Flatten(batches)|)
    ensures maxPages >= 1 ==> maxPages <= |Flatten(batches)| < maxPages + chunkSize
    ensures Sorted(r, ScoreGe)
    ensures multiset(r) == multiset(Filter(Flatten(Downloads(bulkDownload, batches)), PublishedAfter(after)))
    ensures forall i :: 0 <= i < |r| ==> r[i].publishedOn > after
  {
    var abstracts;
    abstracts, batches := DownloadAllPages(maxPages, chunkSize, bulkDownload);
    if abstracts == [] {
      return [], batches;
    }
    var recent := Filter(abstracts, PublishedAfter(after));
    r := StableSort(recent, ScoreGe);
    ScoreGeTotalPreorder();
    StableSortSorted(recent, ScoreGe);
    FilterMembers(abstracts, PublishedAfter(after));
    forall i | 0 <= i < |r| ensures r[i].publishedOn > after {
      assert r[i] in multiset(recent);
    }
  }
}
