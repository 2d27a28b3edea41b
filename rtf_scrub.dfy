/**
 * The RTF clean-up of `extraerTexto`: one global regular-expression replace
 * whose pattern is an alternation of fourteen branches (font and font-size
 * control words with one argument character, paragraph and tab marks,
 * curly quotes, six accented-letter escapes and `\u` Unicode escapes), and
 * whose replacement is one space.
 *
 * `String.prototype.replace` with a global pattern looks for the leftmost
 * match, replaces it, and goes on searching right after it. At one position
 * the alternation tries its branches in the written order and the first that
 * matches wins. The model is the equivalent scan over the text: at each
 * position either a branch matches, and the matched text becomes one space,
 * or none does, and the character is kept.
 */
module RtfScrub {
  import opened Results
  import opened GlobalReplace

  /** One branch of the alternation. */
  datatype Alternative =
    | Word(w: string)       // the literal text `w`, such as `\par`
    | WordThenArg(w: string) // `w` followed by one of `0`-`9` or `x`, such as `\f[0-9x]`
    | UnicodeEscape         // `\u[0-9]{4,5}\??`

  /** The branches in the order the pattern lists them; the third repeats the first. */
  const Alternatives: seq<Alternative> := [
    WordThenArg("\\f"), WordThenArg("\\fs"), WordThenArg("\\f"),
    Word("\\par"), Word("\\tab"), Word("\\ldblquote"), Word("\\rdblquote"),
    Word("\\'e1"), Word("\\'e9"), Word("\\'ed"), Word("\\'f3"), Word("\\'fa"), Word("\\'f1"),
    UnicodeEscape
  ]

  predicate IsDigit(c: char) { '0' <= c <= '9' }

  /** The class `[0-9x]` after a font or font-size control word. */
  predicate IsFontArg(c: char) { IsDigit(c) || c == 'x' }

  predicate AllDigits(s: string) { forall i | 0 <= i < |s| :: IsDigit(s[i]) }

  /**
   * The length of the text branch `a` matches at the start of `t`, if it
   * matches there. `[0-9]{4,5}` is greedy and `\??` optional, so the escape
   * takes a fifth digit and a question mark whenever they follow.
   */
  function MatchAlternative(a: Alternative, t: string): (r: Option<nat>)
    ensures r.Some? ==> r.value <= |t|
  {
    match a
    case Word(w) =>
      if w <= t then Some(|w|) else None
    case WordThenArg(w) =>
      if |w| < |t| && w <= t && IsFontArg(t[|w|]) then Some(|w| + 1) else None
    case UnicodeEscape =>
      if |t| >= 6 && t[..2] == "\\u" && AllDigits(t[2..6]) then
        var digitsEnd := if |t| > 6 && IsDigit(t[6]) then 7 else 6;
        Some(if digitsEnd < |t| && t[digitsEnd] == '?' then digitsEnd + 1 else digitsEnd)
      else None
  }

  /** Which branch matched, and how many characters it took. */
  datatype Hit = Hit(alt: nat, len: nat)

  /** The first branch, from the `k`-th on, that matches at the start of `t`. */
  function FirstMatchFrom(t: string, k: nat): (r: Option<Hit>)
    requires k <= |Alternatives|
    ensures r.Some? ==>
      && k <= r.value.alt < |Alternatives|
      && MatchAlternative(Alternatives[r.value.alt], t) == Some(r.value.len)
      && forall j | k <= j < r.value.alt :: MatchAlternative(Alternatives[j], t).None?
    ensures r.None? ==> forall j | k <= j < |Alternatives| :: MatchAlternative(Alternatives[j], t).None?
    decreases |Alternatives| - k
  {
    if k == |Alternatives| then None
    else
      var m := MatchAlternative(Alternatives[k], t);
      if m.Some? then Some(Hit(k, m.value)) else FirstMatchFrom(t, k + 1)
  }

  /** Every branch matches at least three characters, starts with a backslash and contains no space. */
  lemma MatchShape(k: nat, t: string)
    requires k < |Alternatives|
    requires MatchAlternative(Alternatives[k], t).Some?
    ensures var n := MatchAlternative(Alternatives[k], t).value;
      3 <= n <= |t| && t[0] == '\\' && ' ' !in t[..n]
  {
    var n := MatchAlternative(Alternatives[k], t).value;
    match Alternatives[k]
    case Word(w) =>
      assert t[..n] == w;
    case WordThenArg(w) =>
      assert t[..n] == w + [t[|w|]];
    case UnicodeEscape =>
      assert forall i | 2 <= i < n :: IsDigit(t[i]) || t[i] == '?';
  }

  /** The match of the whole alternation at the start of `t`. */
  function FirstMatch(t: string): (r: Option<Hit>)
    ensures r.Some? ==> 3 <= r.value.len <= |t| && t[0] == '\\' && ' ' !in t[..r.value.len]
  {
    var r := FirstMatchFrom(t, 0);
    if r.Some? then MatchShape(r.value.alt, t); r else r
  }

  /** The length of the pattern's match at the start of `t`; 0 when it does not match there. */
  function MatchLength(t: string): (n: nat)
    ensures n == 0 || (3 <= n <= |t| && t[0] == '\\' && ' ' !in t[..n])
  {
    if FirstMatch(t).Some? then FirstMatch(t).value.len else 0
  }

  /** A branch matches any text that starts with the characters it took from another. */
  lemma AlternativeOnSamePrefix(a: Alternative, w: string, t: string)
    requires MatchAlternative(a, w).Some?
    requires MatchAlternative(a, w).value <= |t|
    requires t[..MatchAlternative(a, w).value] == w[..MatchAlternative(a, w).value]
    ensures MatchAlternative(a, t).Some?
  {
    var n := MatchAlternative(a, w).value;
    match a
    case Word(v) =>
      assert v == w[..n] == t[..n];
    case WordThenArg(v) =>
      assert v == w[..|v|] == t[..|v|];
      assert t[|v|] == t[..n][|v|];
    case UnicodeEscape =>
      assert 6 <= n && w[..2] == "\\u" && AllDigits(w[2..6]);
      assert t[..6] == w[..6] by {
        assert t[..6] == t[..n][..6] && w[..6] == w[..n][..6];
      }
      assert t[..2] == t[..6][..2] == w[..6][..2] == w[..2];
      assert t[2..6] == t[..6][2..6] == w[..6][2..6] == w[2..6];
  }

  /** A text that starts with the characters a match took matches as well. */
  lemma MatchOnSamePrefix(w: string, t: string)
    requires 0 < MatchLength(w) <= |t|
    requires t[..MatchLength(w)] == w[..MatchLength(w)]
    ensures MatchLength(t) > 0
  {
    var h := FirstMatchFrom(w, 0).value;
    AlternativeOnSamePrefix(Alternatives[h.alt], w, t);
    assert FirstMatchFrom(t, 0).Some?;
  }

  /** A match never contains a space. */
  lemma MatchHasNoSpace(t: string)
    ensures forall j | 0 <= j < MatchLength(t) :: t[j] != ' '
  {
    forall j | 0 <= j < MatchLength(t) ensures t[j] != ' ' {
      assert t[j] == t[..MatchLength(t)][j];
    }
  }

  // ---------------------------------------------------------------------
  // The RTF clean-up: `String.prototype.replace` with the pattern above,
  // global, and one space as the replacement.
  // ---------------------------------------------------------------------

  /** The length of the pattern's match at every position of `t`. */
  function Matches(t: string): (ms: seq<nat>)
    ensures |ms| == |t|
  {
    if t == [] then [] else [MatchLength(t)] + Matches(t[1..])
  }

  /** The RTF clean-up: every match of the pattern, found left to right, becomes one space. */
  function Scrub(t: string): string
  {
    ReplaceFrom(t, Matches(t), 0)
  }

  /** No match of the pattern starts anywhere in `t`. */
  ghost predicate MatchFree(t: string)
  {
    NoneBetween(Matches(t), 0, |t|)
  }

  /** Position `i` of `Matches(t)` is the pattern's match at position `i` of `t`. */
  lemma {:induction false} MatchesAt(t: string, i: nat)
    requires i < |t|
    ensures Matches(t)[i] == MatchLength(t[i..])
    decreases i
  {
    if i > 0 {
      MatchesAt(t[1..], i - 1);
      assert t[1..][i - 1..] == t[i..];
    }
  }

  /** The pattern's matches stay within the text and are at least three characters long. */
  lemma MatchesSpan(t: string)
    ensures Spans(t, Matches(t)) && AtLeastThree(Matches(t))
  {
    forall i | 0 <= i < |t| ensures Matches(t)[i] <= |t| - i && (Matches(t)[i] == 0 || Matches(t)[i] >= 3) {
      MatchesAt(t, i);
    }
  }

  /** `MatchFree` says that the pattern matches at no position. */
  lemma MatchFreeMeans(t: string)
    ensures MatchFree(t) <==> forall i | 0 <= i < |t| :: MatchLength(t[i..]) == 0
  {
    forall i | 0 <= i < |t| ensures Matches(t)[i] == MatchLength(t[i..]) {
      MatchesAt(t, i);
    }
  }

  /** The match lengths of a suffix are those of the whole text from there on. */
  lemma {:induction false} MatchesOfSuffix(t: string, p: nat)
    requires p <= |t|
    ensures Matches(t)[p..] == Matches(t[p..])
    decreases p
  {
    if p > 0 {
      MatchesOfSuffix(t[1..], p - 1);
      assert t[1..][p - 1..] == t[p..];
    }
  }

  /** A match at the head of scrubbed text whose first character was kept was a match of the input. */
  lemma MatchAtKeptHead(t: string, i: nat)
    requires i < |t|
    ensures MatchLength([t[i]] + ReplaceFrom(t, Matches(t), i + 1)) > 0 ==> MatchLength(t[i..]) > 0
  {
    var s := [t[i]] + ReplaceFrom(t, Matches(t), i + 1);
    var n := MatchLength(s);
    if n > 0 {
      MatchHasNoSpace(s);
      KeptHeadText(t, Matches(t), i, n);
      SliceOfSuffix(t, i, n);
      MatchOnSamePrefix(s, t[i..]);
    }
  }

  lemma SliceOfSuffix(t: string, i: nat, n: nat)
    requires i + n <= |t|
    ensures t[i..][..n] == t[i..i + n]
  {
  }

  /** A match that starts inside a text ends inside it. */
  lemma MatchesBound(t: string, i: nat)
    requires i < |t|
    ensures i + Matches(t)[i] <= |t|
  {
    MatchesSpan(t);
  }

  /** A match replaced by a space, in front of match-free text, keeps it match-free. */
  lemma {:induction false} ReplacedConsMatchFree(t: string, i: nat)
    requires i < |t| && Matches(t)[i] > 0
    ensures MatchFree(ReplaceFrom(t, Matches(t), i))
    decreases |t| - i, 0
  {
    var ms := Matches(t);
    MatchesBound(t, i);
    ScrubbedIsMatchFree(t, i + ms[i]);
    SpaceStepMatchFree(t, ms, i);
  }

  /** Replacing a match by a space in front of match-free text keeps it match-free. */
  lemma SpaceStepMatchFree(t: string, ms: seq<nat>, i: nat)
    requires |ms| == |t| && i < |t| && ms[i] > 0
    requires MatchFree(ReplaceFrom(t, ms, i + ms[i]))
    ensures MatchFree(ReplaceFrom(t, ms, i))
  {
    SpaceStep(t, ms, i);
    SpaceConsMatchFree(ReplaceFrom(t, ms, i + ms[i]));
  }

  /** A kept character that starts no match, in front of match-free text, keeps it match-free. */
  lemma {:induction false} KeptConsMatchFree(t: string, i: nat)
    requires i < |t| && Matches(t)[i] == 0
    ensures MatchFree(ReplaceFrom(t, Matches(t), i))
    decreases |t| - i, 0
  {
    ScrubbedIsMatchFree(t, i + 1);
    KeepStep(t, Matches(t), i);
    MatchesAt(t, i);
    MatchAtKeptHead(t, i);
    MatchFreeCons(t[i], ReplaceFrom(t, Matches(t), i + 1));
  }

  /** A space starts no match, so one in front of match-free text keeps it match-free. */
  lemma SpaceConsMatchFree(s: string)
    requires MatchFree(s)
    ensures MatchFree(" " + s)
  {
    var cs := " " + s;
    assert cs[0] == ' ';
    assert MatchLength(cs) == 0;
    assert cs == [' '] + s;
    MatchFreeCons(' ', s);
  }

  /** Putting a character that starts no match in front of match-free text keeps it match-free. */
  lemma MatchFreeCons(c: char, s: string)
    requires MatchFree(s) && MatchLength([c] + s) == 0
    ensures MatchFree([c] + s)
  {
    var cs := [c] + s;
    assert cs[1..] == s;
    assert Matches(cs) == [0] + Matches(s);
  }

  /** Nothing in scrubbed text matches any more. */
  lemma {:induction false} ScrubbedIsMatchFree(t: string, i: nat)
    requires i <= |t|
    ensures MatchFree(ReplaceFrom(t, Matches(t), i))
    decreases |t| - i, 1
  {
    EndStep(t, Matches(t), i);
    if i < |t| {
      if Matches(t)[i] > 0 {
        ReplacedConsMatchFree(t, i);
      } else {
        KeptConsMatchFree(t, i);
      }
    }
  }

  /**
   * The scrub keeps the length of a text exactly when nothing in it matches,
   * and then it returns the text itself; otherwise it is at least two
   * characters shorter.
   */
  lemma ScrubLength(t: string)
    ensures |Scrub(t)| <= |t|
    ensures MatchFree(t) ==> Scrub(t) == t
    ensures !MatchFree(t) ==> |Scrub(t)| <= |t| - 2
  {
    MatchesSpan(t);
    ReplaceFromLength(t, Matches(t), 0);
    assert t[0..] == t;
  }

  /** Text without a backslash passes through the scrub unchanged. */
  lemma NoBackslashUnchanged(t: string)
    requires '\\' !in t
    ensures Scrub(t) == t
  {
    forall i | 0 <= i < |t| ensures Matches(t)[i] == 0 {
      MatchesAt(t, i);
      assert t[i..][0] == t[i];
    }
    ScrubLength(t);
  }

  /** Scrubbing twice is scrubbing once. */
  lemma ScrubIdempotent(t: string)
    ensures Scrub(Scrub(t)) == Scrub(t)
  {
    ScrubbedIsMatchFree(t, 0);
    ScrubLength(Scrub(t));
  }

  /**
   * The scan is the global replace of `String.prototype.replace`: the text
   * before the leftmost match is kept as it is, the match becomes one space,
   * and the search resumes right after it.
   */
  lemma ScrubKeepsMatchFreePrefix(t: string, p: nat)
    requires p <= |t|
    requires forall q | 0 <= q < p :: MatchLength(t[q..]) == 0
    ensures Scrub(t) == t[..p] + Scrub(t[p..])
  {
    forall q | 0 <= q < p ensures Matches(t)[q] == 0 {
      MatchesAt(t, q);
    }
    ReplaceFromKeepsMatchFree(t, Matches(t), 0, p);
    ReplaceFromSuffix(t, Matches(t), p, 0);
    MatchesOfSuffix(t, p);
  }

  lemma ScrubReplacesMatch(t: string)
    requires MatchLength(t) > 0
    ensures Scrub(t) == " " + Scrub(t[MatchLength(t)..])
  {
    var n := MatchLength(t);
    MatchesAt(t, 0);
    assert t[0..] == t;
    ReplaceHead(t, Matches(t), n);
    MatchesOfSuffix(t, n);
  }

  /** The repeated `\f[0-9x]` branch is never the one that matches: the first branch always takes it. */
  lemma RepeatedBranchUnused(t: string)
    requires FirstMatch(t).Some?
    ensures FirstMatch(t).value.alt != 2
  {
  }

  /** Branches that do not match are passed over. */
  lemma {:induction false} SkipUnmatched(t: string, k: nat, m: nat)
    requires k <= m <= |Alternatives|
    requires forall j | k <= j < m :: MatchAlternative(Alternatives[j], t).None?
    ensures FirstMatchFrom(t, k) == FirstMatchFrom(t, m)
    decreases m - k
  {
    if k < m {
      SkipUnmatched(t, k + 1, m);
    }
  }

  /** At `\u` only the last branch can match: no other branch starts with `\u`. */
  lemma UnicodeEscapeOnly(t: string)
    requires |t| >= 2 && t[..2] == "\\u"
    ensures MatchLength(t) ==
      if MatchAlternative(UnicodeEscape, t).Some? then MatchAlternative(UnicodeEscape, t).value else 0
  {
    var last := |Alternatives| - 1;
    forall j | 0 <= j < last ensures MatchAlternative(Alternatives[j], t).None? {
      var w := Alternatives[j].w;
      assert |w| >= 2 && w[1] != 'u';
      assert t[1] == t[..2][1];
    }
    SkipUnmatched(t, 0, last);
    assert FirstMatchFrom(t, last + 1).None?;
  }

  /** The branch that matches first decides the match length. */
  lemma HitAt(t: string, k: nat, n: nat)
    requires k < |Alternatives| && MatchAlternative(Alternatives[k], t) == Some(n)
    requires forall j | 0 <= j < k :: MatchAlternative(Alternatives[j], t).None?
    ensures FirstMatch(t) == Some(Hit(k, n)) && MatchLength(t) == n
  {
    SkipUnmatched(t, 0, k);
  }

  /** A text made of one match followed by backslash-free text scrubs to a space and that text. */
  lemma ScrubMatchThenPlain(t: string, n: nat, rest: string)
    requires 0 < n <= |t| && MatchLength(t) == n && t[n..] == rest && '\\' !in rest
    ensures Scrub(t) == " " + rest
  {
    ScrubReplacesMatch(t);
    NoBackslashUnchanged(rest);
  }

  /** `\par` is matched by the fourth branch. */
  lemma ScrubParagraph()
    ensures Scrub("\\par") == " "
  {
    var t := "\\par";
    forall j | 0 <= j < 3 ensures MatchAlternative(Alternatives[j], t).None? {
      assert t[1] == 'p';
    }
    assert Alternatives[3] == Word("\\par");
    HitAt(t, 3, 4);
    ScrubMatchThenPlain(t, 4, "");
  }

  /** `\pard` is `\par` followed by `d`: only the control word `\par` goes. */
  lemma ScrubParagraphDefault()
    ensures Scrub("\\pard") == " d"
  {
    var t := "\\pard";
    forall j | 0 <= j < 3 ensures MatchAlternative(Alternatives[j], t).None? {
      assert t[1] == 'p';
    }
    assert Alternatives[3] == Word("\\par");
    assert t[..4] == "\\par";
    HitAt(t, 3, 4);
    assert t[4..] == "d";
    ScrubMatchThenPlain(t, 4, "d");
  }

  /** A font number is taken by the first branch, `\f[0-9x]`. */
  lemma ScrubFontNumber()
    ensures FirstMatch("\\f0") == Some(Hit(0, 3))
    ensures Scrub("\\f0") == " "
  {
    var t := "\\f0";
    assert Alternatives[0] == WordThenArg("\\f");
    assert t[..2] == "\\f" && IsFontArg(t[2]);
    HitAt(t, 0, 3);
    ScrubMatchThenPlain(t, 3, "");
  }

  /**
   * `\fs` is not `\f` and a digit, so it falls through to the second branch,
   * which takes one digit only: the rest of a two-digit size stays in the text.
   */
  lemma ScrubFontSize()
    ensures FirstMatch("\\fs24") == Some(Hit(1, 4))
    ensures Scrub("\\fs24") == " 4"
  {
    var t := "\\fs24";
    assert Alternatives[0] == WordThenArg("\\f");
    assert !IsFontArg(t[2]);
    assert Alternatives[1] == WordThenArg("\\fs");
    assert t[..3] == "\\fs" && IsFontArg(t[3]);
    HitAt(t, 1, 4);
    assert t[4..] == "4";
    ScrubMatchThenPlain(t, 4, "4");
  }

  /** A five-digit escape with its question mark goes as a whole. */
  lemma ScrubUnicodeEscape()
    ensures Scrub("\\u12345?") == " "
  {
    var t := "\\u12345?";
    assert t[..2] == "\\u" && t[2..6] == "1234";
    assert IsDigit(t[6]) && t[7] == '?';
    assert MatchAlternative(UnicodeEscape, t) == Some(8);
    UnicodeEscapeOnly(t);
    ScrubMatchThenPlain(t, 8, "");
  }

  /** An escape with fewer than four digits is not matched and stays. */
  lemma ScrubShortUnicodeEscape()
    ensures Scrub("\\u123") == "\\u123"
  {
    var t := "\\u123";
    assert t[..2] == "\\u";
    UnicodeEscapeOnly(t);
    forall i | 1 <= i < 5 ensures MatchLength(t[i..]) == 0 {
      assert t[i..][0] == t[i] != '\\';
    }
    assert t[0..] == t;
    ScrubLength(t);
  }
}
