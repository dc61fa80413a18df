/** The constants of `arxiv_sanity_bot/config.py` that the modelled code reads. */
module Config {

  /** Completion rounds before an LLM summarizer gives up. */
  const ChatGptTrials: nat := 10

  /** Room left in a tweet once the shortened URL and its space are added. */
  const UrlLength: nat := 19
  const TweetTextLength: nat := 280 - UrlLength

  /** Pages read from arxiv-sanity, and how many of them per batch. */
  const ArxivSanityMaxPages: nat := 10
  const ArxivSanityConcurrentDownloads: nat := 5

  /** The characters from `lo` to `hi`, in code-point order. */
  function CharRange(lo: char, hi: char): (r: string)
    requires lo <= hi && hi as int < 0xD800
    ensures |r| == hi as int - lo as int + 1
  {
    seq(hi as int - lo as int + 1, i requires 0 <= i <= hi as int - lo as int => (lo as int + i) as char)
  }

  lemma CharRangeMembers(lo: char, hi: char)
    requires lo <= hi && hi as int < 0xD800
    ensures forall c :: c in CharRange(lo, hi) <==> lo <= c <= hi
  {
    var r := CharRange(lo, hi);
    forall c | lo <= c <= hi ensures c in r {
      assert r[c as int - lo as int] == c;
    }
  }

  /** Characters an abstract may keep after sanitizing: the lower-case
      letters, the upper-case letters and the digits, each run in order,
      then `.,!?'- `. */
  const AbstractAllowedCharacters: string :=
    CharRange('a', 'z') + CharRange('A', 'Z') + CharRange('0', '9') + ".,!?'- "

  predicate IsAllowed(c: char) {
    c in AbstractAllowedCharacters
  }

  /** Membership in the allowed set, character class by character class. */
  lemma AllowedCharacters(c: char)
    ensures IsAllowed(c) <==>
              || ('a' <= c <= 'z') || ('A' <= c <= 'Z') || ('0' <= c <= '9')
              || c == '.' || c == ',' || c == '!' || c == '?' || c == '\'' || c == '-' || c == ' '
  {
    CharRangeMembers('a', 'z');
    CharRangeMembers('A', 'Z');
    CharRangeMembers('0', '9');
    var p := ".,!?'- ";
    assert c in p <==> c == '.' || c == ',' || c == '!' || c == '?' || c == '\'' || c == '-' || c == ' ';
  }
}
