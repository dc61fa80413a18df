/** The Python string operations the modelled code leans on: `str.split()`
    with no argument, `" ".join(...)`, and `str.strip()` with no argument.
    All three treat as whitespace exactly the characters `str.isspace`
    accepts. */
module PyStrings {
  import opened Wrappers
  import opened Seqs

  /** Python's whitespace: the characters `str.split()` and `str.strip()`
      break and trim on. */
  predicate IsSpace(c: char) {
    || ('\t' <= c <= '\r')
    || ('\U{1C}' <= c <= '\U{1F}')
    || c == ' '
    || c == '\U{85}'
    || c == '\U{A0}'
    || c == '\U{1680}'
    || ('\U{2000}' <= c <= '\U{200A}')
    || c == '\U{2028}'
    || c == '\U{2029}'
    || c == '\U{202F}'
    || c == '\U{205F}'
    || c == '\U{3000}'
  }

  predicate NotSpace(c: char) {
    !IsSpace(c)
  }

  predicate NoSpace(s: string) {
    forall i :: 0 <= i < |s| ==> !IsSpace(s[i])
  }

  /** A word as `str.split()` yields it. */
  predicate IsWord(w: string) {
    w != [] && NoSpace(w)
  }

  predicate AllWords(ws: seq<string>) {
    forall i :: 0 <= i < |ws| ==> ws[i] != [] && NoSpace(ws[i])
  }

  /** The non-whitespace characters of `s`, in order. */
  function NonSpaces(s: string): string {
    Filter(s, NotSpace)
  }

  /** Number of whitespace characters `s` starts with. */
  function LeadingSpaces(s: string): (n: nat)
    ensures n <= |s|
    ensures forall i :: 0 <= i < n ==> IsSpace(s[i])
    ensures n < |s| ==> !IsSpace(s[n])
  {
    if s == [] || !IsSpace(s[0]) then 0 else 1 + LeadingSpaces(s[1..])
  }

  /** Number of whitespace characters `s` ends with. */
  function TrailingSpaces(s: string): (n: nat)
    ensures n <= |s|
    ensures forall i :: |s| - n <= i < |s| ==> IsSpace(s[i])
    ensures n < |s| ==> !IsSpace(s[|s| - n - 1])
  {
    if s == [] || !IsSpace(s[|s| - 1]) then 0 else 1 + TrailingSpaces(s[..|s| - 1])
  }

  /** Length of the word `s` starts with. */
  function WordLength(s: string): (n: nat)
    ensures n <= |s|
    ensures forall i :: 0 <= i < n ==> !IsSpace(s[i])
    ensures n < |s| ==> IsSpace(s[n])
  {
    if s == [] || IsSpace(s[0]) then 0 else 1 + WordLength(s[1..])
  }

  /** `s.split()`: the maximal runs of non-whitespace characters, in order. */
  function Split(s: string): (r: seq<string>)
    ensures AllWords(r)
    decreases |s|
  {
    var k := LeadingSpaces(s);
    if k == |s| then []
    else
      var t := s[k..];
      var n := WordLength(t);
      AllWordsCons(t[..n], Split(t[n..]));
      [t[..n]] + Split(t[n..])
  }

  lemma AllWordsCons(w: string, rest: seq<string>)
    requires IsWord(w) && AllWords(rest)
    ensures AllWords([w] + rest)
  {
    assert forall i :: 1 <= i < |rest| + 1 ==> ([w] + rest)[i] == rest[i - 1];
  }

  /** `" ".join(ws)`. */
  function Join(ws: seq<string>): string
    decreases |ws|
  {
    if ws == [] then ""
    else if |ws| == 1 then ws[0]
    else ws[0] + " " + Join(ws[1..])
  }

  /** `" ".join(s.split())`: runs of whitespace become one space, and
      leading and trailing whitespace go. */
  function Collapse(s: string): string {
    Join(Split(s))
  }

  /** The shape `Collapse` leaves: single spaces between words, no other
      whitespace, none at either end. */
  predicate SingleSpaced(t: string) {
    && (forall i :: 0 <= i < |t| && IsSpace(t[i]) ==> t[i] == ' ')
    && (t != [] ==> t[0] != ' ' && t[|t| - 1] != ' ')
    && (forall i :: 0 <= i < |t| - 1 && t[i] == ' ' ==> t[i + 1] != ' ')
  }

  /** `s.strip()`. */
  function Strip(s: string): (r: string)
    ensures LeadingSpaces(s) + |r| <= |s|
    ensures r == s[LeadingSpaces(s)..LeadingSpaces(s) + |r|]
    ensures forall k :: LeadingSpaces(s) + |r| <= k < |s| ==> IsSpace(s[k])
    ensures r != [] ==> !IsSpace(r[0]) && !IsSpace(r[|r| - 1])
  {
    var t := s[LeadingSpaces(s)..];
    t[..|t| - TrailingSpaces(t)]
  }

  /** Stripping twice strips nothing more, and a string with no whitespace
      at either end is left as it is. */
  lemma StripIdempotent(s: string)
    ensures Strip(Strip(s)) == Strip(s)
    ensures (s == [] || (!IsSpace(s[0]) && !IsSpace(s[|s| - 1]))) ==> Strip(s) == s
  {
    var r := Strip(s);
    assert LeadingSpaces(r) == 0;
    if s != [] && !IsSpace(s[0]) && !IsSpace(s[|s| - 1]) {
      assert LeadingSpaces(s) == 0;
      assert |r| == |s|;
    }
  }

  /** The whitespace before the first word is not part of the split. */
  lemma SplitSkipsLeading(s: string)
    ensures Split(s) == Split(s[LeadingSpaces(s)..])
  {
    var k := LeadingSpaces(s);
    var t := s[k..];
    assert LeadingSpaces(t) == 0 by {
      if t != [] {
        assert t[0] == s[k];
      }
    }
    assert t[0..] == t;
  }

  lemma WordLengthOfJoin(w: string, rest: string)
    requires IsWord(w)
    ensures WordLength(w + " " + rest) == |w|
  {
    var s := w + " " + rest;
    assert forall i :: 0 <= i < |w| ==> s[i] == w[i];
    assert s[|w|] == ' ';
  }

  lemma {:induction false} LeadingSpacesOfWord(w: string, rest: string)
    requires IsWord(w)
    ensures LeadingSpaces(w + rest) == 0
  {
    assert (w + rest)[0] == w[0];
  }

  /** Round trip: splitting a join of words gives back the words. */
  lemma {:induction false} SplitJoin(ws: seq<string>)
    requires AllWords(ws)
    ensures Split(Join(ws)) == ws
    decreases |ws|
  {
    if ws == [] {
    } else if |ws| == 1 {
      var w := ws[0];
      LeadingSpacesOfWord(w, []);
      assert w + [] == w;
      assert w[0..] == w && w[..|w|] == w && w[|w|..] == [];
    } else {
      var w, rest := ws[0], ws[1..];
      var j := Join(rest);
      SplitJoin(rest);
      var s := w + " " + j;
      assert Join(ws) == s;
      LeadingSpacesOfWord(w, " " + j);
      assert w + (" " + j) == s;
      assert s[0..] == s;
      WordLengthOfJoin(w, j);
      assert s[..|w|] == w;
      var tail := s[|w|..];
      assert tail == " " + j;
      assert j != [] && !IsSpace(j[0]) by {
        JoinStartsWithWord(rest);
      }
      assert LeadingSpaces(tail) == 1 by {
        assert tail[1..] == j;
        assert LeadingSpaces(j) == 0;
      }
      SplitSkipsLeading(tail);
      assert tail[1..] == j;
    }
  }

  lemma JoinStartsWithWord(ws: seq<string>)
    requires ws != [] && AllWords(ws)
    ensures Join(ws) != [] && Join(ws)[0] == ws[0][0]
    ensures Join(ws)[|Join(ws)| - 1] == ws[|ws| - 1][|ws[|ws| - 1]| - 1]
    decreases |ws|
  {
    if |ws| > 1 {
      JoinStartsWithWord(ws[1..]);
    }
  }

  /** Joined words are single-spaced. */
  lemma {:induction false} JoinSingleSpaced(ws: seq<string>)
    requires AllWords(ws)
    ensures SingleSpaced(Join(ws))
    decreases |ws|
  {
    if |ws| > 1 {
      var w, rest := ws[0], ws[1..];
      var j := Join(rest);
      JoinSingleSpaced(rest);
      JoinStartsWithWord(rest);
      var t := w + " " + j;
      assert Join(ws) == t;
      forall i | 0 <= i < |t| && IsSpace(t[i]) ensures t[i] == ' ' {
        if i > |w| {
          assert t[i] == j[i - |w| - 1];
        }
      }
      forall i | 0 <= i < |t| - 1 && t[i] == ' ' ensures t[i + 1] != ' ' {
        if i > |w| {
          assert t[i] == j[i - |w| - 1] && t[i + 1] == j[i - |w|];
        }
      }
    }
  }

  lemma NonSpacesAppend(a: string, b: string)
    ensures NonSpaces(a + b) == NonSpaces(a) + NonSpaces(b)
  {
    FilterAppend(a, b, NotSpace);
  }

  /** Leading whitespace contributes no non-whitespace character. */
  lemma NonSpacesAfterLeading(s: string)
    ensures NonSpaces(s) == NonSpaces(s[LeadingSpaces(s)..])
  {
    var k := LeadingSpaces(s);
    assert s == s[..k] + s[k..];
    NonSpacesAppend(s[..k], s[k..]);
    FilterNoneKept(s[..k], NotSpace);
  }

  lemma NonSpacesOfJoin(w: string, ws: seq<string>)
    requires IsWord(w) && ws != []
    ensures Join([w] + ws) == w + " " + Join(ws)
    ensures NonSpaces(Join([w] + ws)) == w + NonSpaces(Join(ws))
  {
    assert ([w] + ws)[1..] == ws;
    NonSpacesAppend(w + " ", Join(ws));
    NonSpacesAppend(w, " ");
    FilterAllKept(w, NotSpace);
    assert NonSpaces(" ") == [];
  }

  /** The collapsed string's non-whitespace characters are the input's. */
  lemma {:induction false} CollapseKeepsNonSpaces(s: string)
    ensures NonSpaces(Collapse(s)) == NonSpaces(s)
    decreases |s|
  {
    var k := LeadingSpaces(s);
    NonSpacesAfterLeading(s);
    if k < |s| {
      var t := s[k..];
      var n := WordLength(t);
      var w := t[..n];
      assert t == w + t[n..];
      NonSpacesAppend(w, t[n..]);
      FilterAllKept(w, NotSpace);
      CollapseKeepsNonSpaces(t[n..]);
      var ws := Split(t[n..]);
      assert Split(s) == [w] + ws;
      NonSpacesOfJoinCons(w, ws, t[n..]);
    }
  }

  lemma NonSpacesOfJoinCons(w: string, ws: seq<string>, rest: string)
    requires IsWord(w) && NonSpaces(Join(ws)) == NonSpaces(rest)
    ensures NonSpaces(Join([w] + ws)) == w + NonSpaces(rest)
  {
    if ws != [] {
      NonSpacesOfJoin(w, ws);
    } else {
      assert [w] + ws == [w];
      FilterAllKept(w, NotSpace);
    }
  }

  /** The characters of `Collapse(s)` are spaces or non-whitespace
      characters of `s`. */
  lemma CollapseChars(s: string)
    ensures forall i :: 0 <= i < |Collapse(s)| ==>
              Collapse(s)[i] == ' ' || (Collapse(s)[i] in s && !IsSpace(Collapse(s)[i]))
  {
    var t := Collapse(s);
    JoinSingleSpaced(Split(s));
    CollapseKeepsNonSpaces(s);
    FilterMembers(t, NotSpace);
    FilterMembers(s, NotSpace);
    forall i | 0 <= i < |t| && t[i] != ' ' ensures t[i] in s && !IsSpace(t[i]) {
      assert t[i] in NonSpaces(t);
    }
  }

  /** Collapsing is idempotent. */
  lemma CollapseIdempotent(s: string)
    ensures Collapse(Collapse(s)) == Collapse(s)
    ensures SingleSpaced(Collapse(s))
  {
    SplitJoin(Split(s));
    JoinSingleSpaced(Split(s));
  }

  // ---------------------------------------------------------------------
  // Splitting strings built from words and whitespace
  // ---------------------------------------------------------------------

  predicate AllSpace(s: string) {
    forall i :: 0 <= i < |s| ==> IsSpace(s[i])
  }

  lemma {:induction false} LeadingSpacesAppend(sp: string, t: string)
    requires AllSpace(sp)
    ensures LeadingSpaces(sp + t) == |sp| + LeadingSpaces(t)
    decreases |sp|
  {
    if sp == [] {
      assert sp + t == t;
    } else {
      assert (sp + t)[1..] == sp[1..] + t;
      LeadingSpacesAppend(sp[1..], t);
    }
  }

  /** Whitespace in front does not change the split. */
  lemma SplitAfterSpaces(sp: string, t: string)
    requires AllSpace(sp)
    ensures Split(sp + t) == Split(t)
  {
    LeadingSpacesAppend(sp, t);
    assert (sp + t)[|sp| + LeadingSpaces(t)..] == t[LeadingSpaces(t)..];
  }

  lemma {:induction false} WordLengthAppend(w: string, t: string)
    requires NoSpace(w) && (t == [] || IsSpace(t[0]))
    ensures WordLength(w + t) == |w|
    decreases |w|
  {
    if w == [] {
      assert w + t == t;
    } else {
      assert (w + t)[1..] == w[1..] + t;
      WordLengthAppend(w[1..], t);
    }
  }

  /** A word followed by whitespace, or by nothing, is split off first. */
  lemma SplitWord(w: string, t: string)
    requires IsWord(w) && (t == [] || IsSpace(t[0]))
    ensures Split(w + t) == [w] + Split(t)
  {
    LeadingSpacesOfWord(w, t);
    WordLengthAppend(w, t);
    var s := w + t;
    assert s[0..] == s;
    assert s[..|w|] == w && s[|w|..] == t;
  }

  /** `seps[0] + ws[0] + seps[1] + ... + ws[n - 1] + seps[n]`. */
  function Interleave(seps: seq<string>, ws: seq<string>): (r: string)
    requires |seps| == |ws| + 1
    ensures seps[0] <= r
    ensures ws == [] ==> r == seps[0]
    decreases |ws|
  {
    if ws == [] then seps[0] else seps[0] + ws[0] + Interleave(seps[1..], ws[1..])
  }

  /** Words set apart by whitespace runs, with any whitespace or none at
      either end, split back into exactly those words. */
  lemma {:induction false} SplitInterleave(seps: seq<string>, ws: seq<string>)
    requires |seps| == |ws| + 1 && AllWords(ws) && Separators(seps)
    ensures Split(Interleave(seps, ws)) == ws
    decreases |ws|
  {
    if ws == [] {
      assert seps[0] + [] == seps[0];
      SplitAfterSpaces(seps[0], []);
    } else {
      var seps', ws' := seps[1..], ws[1..];
      InterleaveTail(seps, ws);
      var rest := Interleave(seps', ws');
      SplitInterleave(seps', ws');
      SplitSeparatedWord(seps[0], ws[0], rest);
      assert [ws[0]] + ws' == ws;
    }
  }

  /** The tail of a layout is a layout, and what follows the first word
      is empty or starts with whitespace. */
  lemma InterleaveTail(seps: seq<string>, ws: seq<string>)
    requires |seps| == |ws| + 1 && AllWords(ws) && Separators(seps) && ws != []
    ensures AllWords(ws[1..]) && Separators(seps[1..])
    ensures AllSpace(seps[0]) && IsWord(ws[0])
    ensures var rest := Interleave(seps[1..], ws[1..]); rest == [] || IsSpace(rest[0])
  {
    var seps', ws' := seps[1..], ws[1..];
    forall i | 0 <= i < |seps'| ensures AllSpace(seps'[i]) && (0 < i < |seps'| - 1 ==> seps'[i] != []) {
      assert seps'[i] == seps[i + 1];
    }
    forall i | 0 <= i < |ws'| ensures ws'[i] != [] && NoSpace(ws'[i]) {
      assert ws'[i] == ws[i + 1];
    }
    var rest := Interleave(seps', ws');
    assert seps'[0] == seps[1] && AllSpace(seps[1]) && seps'[0] <= rest;
    if |ws| > 1 {
      assert seps[1] != [];
    }
  }

  lemma SplitSeparatedWord(sep: string, w: string, rest: string)
    requires AllSpace(sep) && IsWord(w) && (rest == [] || IsSpace(rest[0]))
    ensures Split(sep + w + rest) == [w] + Split(rest)
  {
    SplitWord(w, rest);
    assert sep + w + rest == sep + (w + rest);
    SplitAfterSpaces(sep, w + rest);
  }

  /** Whitespace runs, non-empty except possibly the first and the last. */
  predicate Separators(seps: seq<string>) {
    forall i :: 0 <= i < |seps| ==> AllSpace(seps[i]) && (0 < i < |seps| - 1 ==> seps[i] != [])
  }

  /** Whitespace at the same places and the same other characters. */
  predicate SameShape(a: string, b: string) {
    && |a| == |b|
    && forall i :: 0 <= i < |a| ==> (IsSpace(a[i]) <==> IsSpace(b[i])) && (!IsSpace(a[i]) ==> a[i] == b[i])
  }

  lemma {:induction false} SameShapeRuns(a: string, b: string)
    requires SameShape(a, b)
    ensures LeadingSpaces(a) == LeadingSpaces(b) && WordLength(a) == WordLength(b)
    decreases |a|
  {
    if a != [] {
      assert SameShape(a[1..], b[1..]);
      SameShapeRuns(a[1..], b[1..]);
    }
  }

  /** Which whitespace character separates the words does not matter to
      the split. */
  lemma {:induction false} SplitSameShape(a: string, b: string)
    requires SameShape(a, b)
    ensures Split(a) == Split(b)
    decreases |a|
  {
    SameShapeRuns(a, b);
    var k := LeadingSpaces(a);
    if k < |a| {
      var ta, tb := a[k..], b[k..];
      assert SameShape(ta, tb);
      SameShapeRuns(ta, tb);
      var n := WordLength(ta);
      assert ta[..n] == tb[..n];
      assert SameShape(ta[n..], tb[n..]);
      SplitSameShape(ta[n..], tb[n..]);
    }
  }

  predicate NonEmpty(w: string) {
    w != []
  }

  /** Joining pieces that may be empty and splitting again drops the empty
      ones: `" ".join` leaves a double space where one was, and `split()`
      skips it. */
  lemma {:induction false} SplitJoinNonEmpty(us: seq<string>)
    requires forall i :: 0 <= i < |us| ==> NoSpace(us[i])
    ensures Split(Join(us)) == Filter(us, NonEmpty)
    decreases |us|
  {
    if us != [] {
      var u, tail := us[0], us[1..];
      FilterCons(u, tail);
      assert us == [u] + tail;
      if tail == [] {
        assert Join(us) == u + [];
        SplitPiece(u, []);
      } else {
        assert forall i :: 0 <= i < |tail| ==> tail[i] == us[i + 1];
        SplitJoinNonEmpty(tail);
        SplitJoinCons(u, tail);
      }
    }
  }

  lemma FilterCons(u: string, tail: seq<string>)
    ensures Filter([u] + tail, NonEmpty) == (if u == [] then [] else [u]) + Filter(tail, NonEmpty)
  {
    FilterAppend([u], tail, NonEmpty);
    FilterSingleton(u, NonEmpty);
  }

  lemma SplitJoinCons(u: string, tail: seq<string>)
    requires NoSpace(u) && tail != []
    ensures Split(Join([u] + tail)) == (if u == [] then [] else [u]) + Split(Join(tail))
  {
    var j := Join(tail);
    assert ([u] + tail)[1..] == tail;
    assert Join([u] + tail) == u + (" " + j);
    SplitPiece(u, " " + j);
    SplitAfterSpaces(" ", j);
  }

  /** A whitespace-free piece before whitespace or nothing is split off as
      a word, unless it is empty. */
  lemma SplitPiece(u: string, t: string)
    requires NoSpace(u) && (t == [] || IsSpace(t[0]))
    ensures Split(u + t) == (if u == [] then [] else [u]) + Split(t)
  {
    if u != [] {
      SplitWord(u, t);
    } else {
      assert u + t == t;
    }
  }

  // ---------------------------------------------------------------------
  // Decimal integers, as pydantic's lax `int` reads a string
  // ---------------------------------------------------------------------

  predicate IsDigit(c: char) {
    '0' <= c <= '9'
  }

  predicate AllDigits(s: string) {
    forall i :: 0 <= i < |s| ==> IsDigit(s[i])
  }

  /** The value of a run of ASCII digits, most significant first. */
  function DigitsValue(s: string): nat
    requires AllDigits(s)
    decreases |s|
  {
    if s == [] then 0
    else 10 * DigitsValue(s[..|s| - 1]) + (s[|s| - 1] as int - '0' as int)
  }

  /** An optional sign and at least one ASCII digit: the integer it
      spells, or `None` for any other string. */
  function ParseInt(s: string): (r: Option<int>)
    ensures r.Some? <==> (s != [] && AllDigits(s)) || (|s| >= 2 && (s[0] == '-' || s[0] == '+') && AllDigits(s[1..]))
    ensures r.Some? && s[0] == '-' ==> r.value <= 0
    ensures r.Some? && s[0] != '-' ==> r.value >= 0
  {
    if s != [] && AllDigits(s) then Some(DigitsValue(s))
    else if |s| >= 2 && s[0] == '-' && AllDigits(s[1..]) then Some(0 - DigitsValue(s[1..]) as int)
    else if |s| >= 2 && s[0] == '+' && AllDigits(s[1..]) then Some(DigitsValue(s[1..]))
    else None
  }

  /** The decimal spelling of `n`, without leading zeros. */
  function ShowNat(n: nat): (r: string)
    ensures r != [] && AllDigits(r)
    ensures |r| > 1 ==> r[0] != '0'
  {
    var d := ['0' + (n % 10) as char];
    if n < 10 then d
    else
      var p := ShowNat(n / 10);
      assert (p + d)[0] == p[0];
      p + d
  }

  /** `str(n)`. */
  function ShowInt(n: int): string {
    if n < 0 then "-" + ShowNat(-n) else ShowNat(n)
  }

  lemma {:induction false} DigitsOfShowNat(n: nat)
    ensures DigitsValue(ShowNat(n)) == n
    decreases n
  {
    if n >= 10 {
      DigitsOfShowNat(n / 10);
      var s := ShowNat(n);
      assert s[..|s| - 1] == ShowNat(n / 10);
    }
  }

  /** Reading back the spelling of any integer gives that integer. */
  lemma ParseShowInt(n: int)
    ensures ParseInt(ShowInt(n)) == Some(n)
  {
    if n < 0 {
      DigitsOfShowNat(-n);
      assert ShowInt(n)[1..] == ShowNat(-n);
      assert !AllDigits(ShowInt(n)) by {
        assert ShowInt(n)[0] == '-';
      }
    } else {
      DigitsOfShowNat(n);
    }
  }
}
