/** `arxiv_sanity_bot/sanitize_text.py`: newlines become spaces, whitespace
    runs collapse, characters outside the allowed set are dropped, and
    whitespace collapses once more. */
module Sanitize {
  import opened Seqs
  import opened PyStrings
  import opened Config

  /** `text.replace("\n", " ")`. */
  function ReplaceNewlines(s: string): (r: string)
    ensures |r| == |s|
    ensures forall i :: 0 <= i < |s| ==> r[i] != '\n' && (s[i] != '\n' ==> r[i] == s[i])
    ensures forall i :: 0 <= i < |s| && s[i] == '\n' ==> r[i] == ' '
    decreases |s|
  {
    if s == [] then []
    else ReplaceNewlines(s[..|s| - 1]) + [if s[|s| - 1] == '\n' then ' ' else s[|s| - 1]]
  }

  /** `"".join(char for char in text if char in allowed_characters)`. */
  function KeepAllowed(s: string): string {
    Filter(s, IsAllowed)
  }

  /** Each word with its disallowed characters dropped; a word can come
      out empty. */
  function KeptWords(vs: seq<string>): (r: seq<string>)
    ensures |r| == |vs| && forall i :: 0 <= i < |vs| ==> r[i] == KeepAllowed(vs[i])
  {
    seq(|vs|, i requires 0 <= i < |vs| => KeepAllowed(vs[i]))
  }

  /** Words with their disallowed characters dropped still hold no
      whitespace. */
  lemma KeptWordsNoSpace(vs: seq<string>)
    requires AllWords(vs)
    ensures forall i :: 0 <= i < |vs| ==> NoSpace(KeptWords(vs)[i])
  {
    forall i | 0 <= i < |vs| ensures NoSpace(KeptWords(vs)[i]) {
      FilterMembers(vs[i], IsAllowed);
    }
  }

  /** Newlines only ever stand between words, so replacing them changes
      no word. */
  lemma SplitReplaceNewlines(s: string)
    ensures Split(ReplaceNewlines(s)) == Split(s)
  {
    assert IsSpace('\n') && IsSpace(' ');
    SplitSameShape(ReplaceNewlines(s), s);
  }

  /** The space is allowed, so filtering a space-joined text filters each
      word and keeps the separators. */
  lemma {:induction false} KeepAllowedJoin(vs: seq<string>)
    ensures KeepAllowed(Join(vs)) == Join(KeptWords(vs))
    decreases |vs|
  {
    if |vs| == 1 {
      assert KeptWords(vs) == [KeepAllowed(vs[0])];
    } else if |vs| > 1 {
      var j := Join(vs[1..]);
      KeepAllowedJoin(vs[1..]);
      KeepAllowedAroundSpace(vs[0], j);
      var kw := KeptWords(vs);
      assert kw[1..] == KeptWords(vs[1..]);
      assert Join(kw) == kw[0] + " " + Join(kw[1..]);
    }
  }

  lemma KeepAllowedAroundSpace(v: string, j: string)
    ensures KeepAllowed(v + " " + j) == KeepAllowed(v) + " " + KeepAllowed(j)
  {
    assert IsAllowed(' ') by {
      AllowedCharacters(' ');
    }
    FilterAroundKept(v, ' ', j, IsAllowed);
  }

  /** `sanitize_text` word by word: split on whitespace (newlines
      included), drop the disallowed characters of each word, drop the
      words left empty, and join with single spaces. */
  lemma SanitizeWords(s: string)
    ensures SanitizeText(s) == Join(Filter(KeptWords(Split(s)), NonEmpty))
  {
    var vs := Split(s);
    SplitReplaceNewlines(s);
    KeepAllowedJoin(vs);
    KeptWordsNoSpace(vs);
    SplitJoinNonEmpty(KeptWords(vs));
  }

  /** The characters `sanitize_text` keeps as they are. */
  predicate KeptChar(c: char) {
    IsAllowed(c) && !IsSpace(c)
  }

  function SanitizeText(s: string): (r: string)
    ensures forall i :: 0 <= i < |r| ==> IsAllowed(r[i])
    ensures SingleSpaced(r)
  {
    var u := KeepAllowed(Collapse(ReplaceNewlines(s)));
    FilterMembers(Collapse(ReplaceNewlines(s)), IsAllowed);
    CollapseChars(u);
    CollapseIdempotent(u);
    Collapse(u)
  }

  /** A newline is whitespace, and so is the space that replaces it. */
  lemma {:induction false} ReplaceNewlinesKeepsNonSpaces(s: string)
    ensures NonSpaces(ReplaceNewlines(s)) == NonSpaces(s)
    decreases |s|
  {
    if s != [] {
      var s' := s[..|s| - 1];
      ReplaceNewlinesKeepsNonSpaces(s');
      assert ReplaceNewlines(s)[..|s| - 1] == ReplaceNewlines(s');
    }
  }

  lemma {:induction false} ReplaceNewlinesNone(s: string)
    requires forall i :: 0 <= i < |s| ==> s[i] != '\n'
    ensures ReplaceNewlines(s) == s
    decreases |s|
  {
    if s != [] {
      ReplaceNewlinesNone(s[..|s| - 1]);
    }
  }

  /** The non-whitespace characters of the output are exactly the allowed
      non-whitespace characters of the input, in their input order. */
  lemma SanitizeKeepsAllowedText(s: string)
    ensures NonSpaces(SanitizeText(s)) == Filter(s, KeptChar)
  {
    var c := Collapse(ReplaceNewlines(s));
    var u := KeepAllowed(c);
    calc {
      NonSpaces(SanitizeText(s));
      { CollapseKeepsNonSpaces(u); }
      Filter(Filter(c, IsAllowed), NotSpace);
      { FilterFilter(c, IsAllowed, NotSpace, KeptChar); }
      Filter(c, KeptChar);
      { FilterFilter(c, NotSpace, IsAllowed, KeptChar); }
      Filter(NonSpaces(c), IsAllowed);
      { CollapseKeepsNonSpaces(ReplaceNewlines(s)); ReplaceNewlinesKeepsNonSpaces(s); }
      Filter(NonSpaces(s), IsAllowed);
      { FilterFilter(s, NotSpace, IsAllowed, KeptChar); }
      Filter(s, KeptChar);
    }
  }

  /** The output is empty exactly when the input has no allowed
      non-whitespace character: empty, whitespace-only and wholly
      disallowed inputs all give "". */
  lemma SanitizeEmpty(s: string)
    ensures SanitizeText(s) == [] <==> forall i :: 0 <= i < |s| ==> !KeptChar(s[i])
  {
    var r := SanitizeText(s);
    SanitizeKeepsAllowedText(s);
    FilterMembers(s, KeptChar);
    FilterMembers(r, NotSpace);
    if r != [] {
      assert r[0] != ' ';
      assert r[0] in NonSpaces(r);
      var k :| 0 <= k < |s| && s[k] == r[0];
    } else {
      assert NonSpaces(r) == [];
    }
  }

  /** Sanitizing sanitized text changes nothing. */
  lemma SanitizeIdempotent(s: string)
    ensures SanitizeText(SanitizeText(s)) == SanitizeText(s)
  {
    var t := SanitizeText(s);
    assert IsSpace('\n');
    ReplaceNewlinesNone(t);
    var ws := Split(KeepAllowed(Collapse(ReplaceNewlines(s))));
    assert t == Join(ws);
    SplitJoin(ws);
    assert Collapse(t) == t;
    FilterAllKept(t, IsAllowed);
    assert KeepAllowed(Collapse(ReplaceNewlines(t))) == t;
  }
}
