/**
 * `String.prototype.replace` with a global pattern and one space as the
 * replacement, for any pattern whose matches are never empty: the text is
 * scanned left to right, given the length of the pattern's match at each
 * position (0 where it does not match).
 */
module GlobalReplace {
  /** `ms[i]` is the length of a match at position `i` of `t`, 0 for none; no match runs past the end. */
  ghost predicate Spans(t: string, ms: seq<nat>)
  {
    |ms| == |t| && forall i | 0 <= i < |t| :: ms[i] <= |t| - i
  }

  /** Every match is at least three characters long. */
  ghost predicate AtLeastThree(ms: seq<nat>)
  {
    forall i | 0 <= i < |ms| :: ms[i] == 0 || ms[i] >= 3
  }

  /** No match starts at a position from `i` up to, not including, `p`. */
  ghost predicate NoneBetween(ms: seq<nat>, i: nat, p: nat)
    requires p <= |ms|
  {
    forall q | i <= q < p :: ms[q] == 0
  }

  /**
   * The global replace of `t` from position `i` on: where a match starts it
   * becomes one space and the search goes on after it; where none starts the
   * character is kept and the search goes on at the next one.
   */
  function ReplaceFrom(t: string, ms: seq<nat>, i: nat): string
    requires |ms| == |t|
    decreases |t| - i
  {
    if i >= |t| then []
    else if ms[i] > 0 then " " + ReplaceFrom(t, ms, i + ms[i])
    else [t[i]] + ReplaceFrom(t, ms, i + 1)
  }

  /** Where the text ends, nothing is left to replace. */
  lemma EndStep(t: string, ms: seq<nat>, i: nat)
    requires |ms| == |t|
    ensures i >= |t| ==> ReplaceFrom(t, ms, i) == []
  {
  }

  /** A character where no match starts is kept. */
  lemma KeepStep(t: string, ms: seq<nat>, i: nat)
    requires |ms| == |t| && i < |t| && ms[i] == 0
    ensures ReplaceFrom(t, ms, i) == [t[i]] + ReplaceFrom(t, ms, i + 1)
  {
  }

  /** A match becomes one space, and the scan resumes after it. */
  lemma SpaceStep(t: string, ms: seq<nat>, i: nat)
    requires |ms| == |t| && i < |t| && ms[i] > 0
    ensures ReplaceFrom(t, ms, i) == " " + ReplaceFrom(t, ms, i + ms[i])
  {
  }

  /** Replaced text starts with a space exactly where a match starts. */
  lemma HeadStep(t: string, ms: seq<nat>, i: nat)
    requires |ms| == |t| && i < |t|
    ensures |ReplaceFrom(t, ms, i)| > 0
    ensures ReplaceFrom(t, ms, i)[0] == ' ' <==> ms[i] > 0 || t[i] == ' '
  {
    if ms[i] > 0 {
      SpaceStep(t, ms, i);
    } else {
      KeepStep(t, ms, i);
    }
  }

  /** Putting a character in front of a slice and then text after it. */
  lemma ConsSlice(t: string, i: nat, p: nat, r: string)
    requires i < p <= |t|
    ensures [t[i]] + (t[i + 1..p] + r) == t[i..p] + r
  {
    assert t[i..p] == [t[i]] + t[i + 1..p];
  }

  /** The replaced text is never longer than the text. */
  lemma {:induction false} ReplaceFromShorter(t: string, ms: seq<nat>, i: nat)
    requires |ms| == |t| && i <= |t|
    ensures |ReplaceFrom(t, ms, i)| <= |t| - i
    decreases |t| - i
  {
    if i < |t| {
      if ms[i] == 0 {
        KeepStep(t, ms, i);
        ReplaceFromShorter(t, ms, i + 1);
      } else {
        SpaceStep(t, ms, i);
        EndStep(t, ms, i + ms[i]);
        if i + ms[i] <= |t| {
          ReplaceFromShorter(t, ms, i + ms[i]);
        }
      }
    }
  }

  /** A stretch in which no match starts is copied through unchanged. */
  lemma {:induction false} ReplaceFromKeepsMatchFree(t: string, ms: seq<nat>, i: nat, p: nat)
    requires |ms| == |t| && i <= p <= |t|
    requires NoneBetween(ms, i, p)
    ensures ReplaceFrom(t, ms, i) == t[i..p] + ReplaceFrom(t, ms, p)
    decreases p - i
  {
    if i < p {
      ReplaceFromKeepsMatchFree(t, ms, i + 1, p);
      KeepStep(t, ms, i);
      ConsSlice(t, i, p, ReplaceFrom(t, ms, p));
    }
  }

  /** The first position from `i` on where a match starts. */
  lemma {:induction false} FirstMatchAt(ms: seq<nat>, i: nat) returns (q: nat)
    requires i <= |ms| && !NoneBetween(ms, i, |ms|)
    ensures i <= q < |ms| && ms[q] > 0 && NoneBetween(ms, i, q)
    decreases |ms| - i
  {
    if ms[i] > 0 {
      q := i;
    } else {
      q := FirstMatchAt(ms, i + 1);
    }
  }

  /**
   * Without a match the rest of the text is copied; with one, the result is
   * at least two characters shorter, since every match is at least three
   * characters long and becomes one.
   */
  lemma ReplaceFromLength(t: string, ms: seq<nat>, i: nat)
    requires Spans(t, ms) && AtLeastThree(ms) && i <= |t|
    ensures NoneBetween(ms, i, |t|) ==> ReplaceFrom(t, ms, i) == t[i..]
    ensures !NoneBetween(ms, i, |t|) ==> |ReplaceFrom(t, ms, i)| <= |t| - i - 2
  {
    if NoneBetween(ms, i, |t|) {
      ReplaceFromKeepsMatchFree(t, ms, i, |t|);
      EndStep(t, ms, |t|);
    } else {
      var q := FirstMatchAt(ms, i);
      ReplaceFromKeepsMatchFree(t, ms, i, q);
      SpaceStep(t, ms, q);
      ReplaceFromShorter(t, ms, q + ms[q]);
    }
  }

  /** A match at the start becomes one space, and the scan goes on over the text after it. */
  lemma ReplaceHead(t: string, ms: seq<nat>, n: nat)
    requires |ms| == |t| && 0 < n <= |t| && ms[0] == n
    ensures ReplaceFrom(t, ms, 0) == " " + ReplaceFrom(t[n..], ms[n..], 0)
  {
    SpaceStep(t, ms, 0);
    ReplaceFromSuffix(t, ms, n, 0);
  }

  /** Scanning `t` from `i + k` is scanning its suffix `t[i..]` from `k`. */
  lemma {:induction false} ReplaceFromSuffix(t: string, ms: seq<nat>, i: nat, k: nat)
    requires |ms| == |t| && i + k <= |t|
    ensures ReplaceFrom(t, ms, i + k) == ReplaceFrom(t[i..], ms[i..], k)
    decreases |t| - i - k
  {
    if i + k == |t| {
      EndStep(t, ms, i + k);
      EndStep(t[i..], ms[i..], k);
    } else if ms[i + k] == 0 {
      ReplaceFromSuffix(t, ms, i, k + 1);
      SuffixKeepCase(t, ms, i, k);
    } else if i + k + ms[i + k] <= |t| {
      ReplaceFromSuffix(t, ms, i, k + ms[i + k]);
      SuffixSpaceCase(t, ms, i, k);
    } else {
      SuffixOvershootCase(t, ms, i, k);
    }
  }

  /** The kept-character case of `ReplaceFromSuffix`. */
  lemma SuffixKeepCase(t: string, ms: seq<nat>, i: nat, k: nat)
    requires |ms| == |t| && i + k < |t| && ms[i + k] == 0
    requires ReplaceFrom(t, ms, i + k + 1) == ReplaceFrom(t[i..], ms[i..], k + 1)
    ensures ReplaceFrom(t, ms, i + k) == ReplaceFrom(t[i..], ms[i..], k)
  {
    SuffixKeepStep(t, ms, i, k);
  }

  /** The case of `ReplaceFromSuffix` where a match ends inside the text. */
  lemma SuffixSpaceCase(t: string, ms: seq<nat>, i: nat, k: nat)
    requires |ms| == |t| && i + k < |t| && ms[i + k] > 0
    requires ReplaceFrom(t, ms, i + k + ms[i + k]) == ReplaceFrom(t[i..], ms[i..], k + ms[i + k])
    ensures ReplaceFrom(t, ms, i + k) == ReplaceFrom(t[i..], ms[i..], k)
  {
    SuffixSpaceStep(t, ms, i, k);
  }

  /** The case of `ReplaceFromSuffix` where a match would run past the end. */
  lemma SuffixOvershootCase(t: string, ms: seq<nat>, i: nat, k: nat)
    requires |ms| == |t| && i + k < |t| && i + k + ms[i + k] > |t|
    ensures ReplaceFrom(t, ms, i + k) == ReplaceFrom(t[i..], ms[i..], k)
  {
    SuffixSpaceStep(t, ms, i, k);
    EndStep(t, ms, i + k + ms[i + k]);
    EndStep(t[i..], ms[i..], k + ms[i + k]);
  }

  /** One kept character, in the text and in its suffix. */
  lemma SuffixKeepStep(t: string, ms: seq<nat>, i: nat, k: nat)
    requires |ms| == |t| && i + k < |t| && ms[i + k] == 0
    ensures ReplaceFrom(t, ms, i + k) == [t[i + k]] + ReplaceFrom(t, ms, i + k + 1)
    ensures ReplaceFrom(t[i..], ms[i..], k) == [t[i + k]] + ReplaceFrom(t[i..], ms[i..], k + 1)
  {
    var u, us := t[i..], ms[i..];
    assert u[k] == t[i + k] && us[k] == ms[i + k];
    KeepStep(t, ms, i + k);
    KeepStep(u, us, k);
  }

  /** One match, in the text and in its suffix. */
  lemma SuffixSpaceStep(t: string, ms: seq<nat>, i: nat, k: nat)
    requires |ms| == |t| && i + k < |t| && ms[i + k] > 0
    ensures ReplaceFrom(t, ms, i + k) == " " + ReplaceFrom(t, ms, i + k + ms[i + k])
    ensures ReplaceFrom(t[i..], ms[i..], k) == " " + ReplaceFrom(t[i..], ms[i..], k + ms[i + k])
  {
    var u, us := t[i..], ms[i..];
    assert us[k] == ms[i + k];
    SpaceStep(t, ms, i + k);
    SpaceStep(u, us, k);
  }

  /**
   * As long as the replaced text shows no space, it is the input unchanged:
   * a replacement always leaves a space behind.
   */
  lemma {:induction false} SpaceFreePrefixKept(t: string, ms: seq<nat>, i: nat, k: nat)
    requires |ms| == |t| && i <= |t| && k <= |ReplaceFrom(t, ms, i)|
    requires forall j | 0 <= j < k :: ReplaceFrom(t, ms, i)[j] != ' '
    ensures i + k <= |t| && forall j | 0 <= j < k :: t[i + j] == ReplaceFrom(t, ms, i)[j]
    decreases k
  {
    if k > 0 {
      var r := ReplaceFrom(t, ms, i);
      EndStep(t, ms, i);
      HeadStep(t, ms, i);
      assert r[0] != ' ';
      KeepStep(t, ms, i);
      var rest := ReplaceFrom(t, ms, i + 1);
      forall j | 0 <= j < k - 1 ensures rest[j] != ' ' {
        assert rest[j] == r[j + 1];
      }
      SpaceFreePrefixKept(t, ms, i + 1, k - 1);
      forall j | 0 <= j < k ensures t[i + j] == r[j] {
        if j > 0 {
          assert t[i + 1 + (j - 1)] == rest[j - 1];
        }
      }
    }
  }

  /**
   * Where a kept character starts a stretch of replaced text without a
   * space, that stretch is the input's own text.
   */
  lemma KeptHeadText(t: string, ms: seq<nat>, i: nat, n: nat)
    requires |ms| == |t| && i < |t| && 0 < n <= 1 + |ReplaceFrom(t, ms, i + 1)|
    requires var s := [t[i]] + ReplaceFrom(t, ms, i + 1); forall j | 0 <= j < n :: s[j] != ' '
    ensures i + n <= |t| && t[i..i + n] == ([t[i]] + ReplaceFrom(t, ms, i + 1))[..n]
  {
    var rest := ReplaceFrom(t, ms, i + 1);
    var s := [t[i]] + rest;
    forall j | 0 <= j < n - 1 ensures rest[j] != ' ' {
      assert rest[j] == s[j + 1];
    }
    SpaceFreePrefixKept(t, ms, i + 1, n - 1);
    forall j | 0 <= j < n ensures t[i..i + n][j] == s[..n][j] {
      if j > 0 {
        assert t[i + 1 + (j - 1)] == rest[j - 1];
      }
    }
  }
}
