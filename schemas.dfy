/** The record types of `arxiv_sanity_bot/schemas.py`. Pydantic's field
    constraints become subset types, so a record that exists satisfies them:
    the four text fields are non-empty and a score is 1 or 2. Floating-point
    average ranks are exact reals here, with `Infinity` for `float("inf")`. */
module Schemas {
  import opened Wrappers
  import Sorting

  /** A string field declared with `min_length=1`. */
  type Text = s: string | s != [] witness "?"

  /** `RankedPaper.score`, declared with `ge=1, le=2`. */
  type Score = x: int | 1 <= x <= 2 witness 1

  datatype PaperSource = Alphaxiv | HuggingFace | Both

  /** `RawPaper`: one record of one feed, before merging. */
  datatype RawPaper = RawPaper(
    arxivId: Text, title: Text, abstractText: Text, publishedOn: Text,
    votes: Option<int>)

  /** `RankedPaper`: one paper after merging both feeds. */
  datatype RankedPaper = RankedPaper(
    arxivId: Text, title: Text, abstractText: Text, publishedOn: Text,
    score: Score, alphaxivRank: Option<int>, hfRank: Option<int>,
    source: PaperSource)

  /** A float average rank: finite, or `float("inf")`. */
  datatype AvgRank = Finite(value: real) | Infinity

  /** `average_rank`: the mean of the ranks that are present. */
  function AverageRank(p: RankedPaper): (r: AvgRank)
    ensures r.Infinity? <==> p.alphaxivRank.None? && p.hfRank.None?
    ensures p.alphaxivRank.Some? && p.hfRank.Some? ==>
              r.Finite? && 2.0 * r.value == (p.alphaxivRank.value + p.hfRank.value) as real
    ensures p.alphaxivRank.Some? && p.hfRank.None? ==> r == Finite(p.alphaxivRank.value as real)
    ensures p.alphaxivRank.None? && p.hfRank.Some? ==> r == Finite(p.hfRank.value as real)
    ensures r.Finite? && p.alphaxivRank.Some? && p.hfRank.Some? ==>
              var lo := if p.alphaxivRank.value <= p.hfRank.value then p.alphaxivRank.value else p.hfRank.value;
              var hi := if p.alphaxivRank.value <= p.hfRank.value then p.hfRank.value else p.alphaxivRank.value;
              lo as real <= r.value <= hi as real
  {
    match (p.alphaxivRank, p.hfRank)
    case (Some(a), Some(h)) => Finite((a + h) as real / 2.0)
    case (Some(a), None) => Finite(a as real)
    case (None, Some(h)) => Finite(h as real)
    case (None, None) => Infinity
  }

  /** Float `<=` between two average ranks; infinity is above every finite rank. */
  predicate AvgRankLe(a: AvgRank, b: AvgRank) {
    match (a, b)
    case (Finite(x), Finite(y)) => x <= y
    case (_, Infinity) => true
    case (Infinity, Finite(_)) => false
  }

  /** `sort_key() = (-score, average_rank)`. */
  datatype SortKey = SortKey(negScore: int, avg: AvgRank)

  function SortKeyOf(p: RankedPaper): SortKey {
    SortKey(-(p.score as int), AverageRank(p))
  }

  /** Tuple order on sort keys: "not `b < a`", which is how a stable sort
      compares keys. */
  predicate KeyLe(a: SortKey, b: SortKey) {
    a.negScore < b.negScore || (a.negScore == b.negScore && AvgRankLe(a.avg, b.avg))
  }

  /** `p` may precede `q` in the merged output. */
  predicate PaperLe(p: RankedPaper, q: RankedPaper) {
    KeyLe(SortKeyOf(p), SortKeyOf(q))
  }

  lemma PaperLeTotalPreorder()
    ensures Sorting.TotalPreorder(PaperLe)
  {
  }

  /** The tiers of the ordering contract: a score-2 paper comes strictly
      before a score-1 paper whatever their ranks; inside a tier the lower
      average rank comes first, and a paper with no rank comes last. */
  lemma OrderingTiers(p: RankedPaper, q: RankedPaper)
    ensures p.score == 2 && q.score == 1 ==> PaperLe(p, q) && !PaperLe(q, p)
    ensures p.score == q.score ==>
              (PaperLe(p, q) <==> AvgRankLe(AverageRank(p), AverageRank(q)))
    ensures p.score == q.score && AverageRank(p).Finite? && AverageRank(q).Infinity? ==>
              PaperLe(p, q) && !PaperLe(q, p)
  {
  }
}
