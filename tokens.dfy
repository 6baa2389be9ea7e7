/** `re.findall(r'\b[a-z]{9,}\b', text)` on ASCII text.

    A match is a run of at least nine letters `a`-`z` with a word boundary on
    each side. Since the letters are word characters themselves, the greedy
    `[a-z]{9,}` can only end at a boundary if it reaches the end of the whole
    run of word characters, and it can only start at a boundary at the
    beginning of such a run. So the matches are exactly the maximal runs of
    word characters that consist of `a`-`z` only and are nine or more long,
    reported from left to right. */
module Tokens {
  import opened Text

  /** The `{9,}` of the pattern. */
  const MinWordLength: nat := 9

  /** `s[i..j]` is a match of the pattern: long enough, only `a`-`z`, and no
      word character directly before or after it. */
  predicate IsTokenSpan(s: string, i: int, j: int) {
    && 0 <= i < j <= |s|
    && j - i >= MinWordLength
    && (forall k :: i <= k < j ==> IsLowerLetter(s[k]))
    && (i == 0 || !IsWordChar(s[i - 1]))
    && (j == |s| || !IsWordChar(s[j]))
  }

  /** `w` is one of the words the pattern finds in `s`. */
  ghost predicate IsToken(s: string, w: string) {
    exists i, j :: IsTokenSpan(s, i, j) && s[i..j] == w
  }

  /** The end of the run of word characters that starts at `p`. */
  function RunEnd(s: string, p: nat): (q: nat)
    requires p <= |s|
    ensures p <= q <= |s|
    ensures forall k :: p <= k < q ==> IsWordChar(s[k])
    ensures q == |s| || !IsWordChar(s[q])
    decreases |s| - p
  {
    if p < |s| && IsWordChar(s[p]) then RunEnd(s, p + 1) else p
  }

  predicate AllLowerBetween(s: string, i: nat, j: nat)
    requires i <= j <= |s|
  {
    forall k :: i <= k < j ==> IsLowerLetter(s[k])
  }

  /** Position `p` does not split a run of word characters in two. */
  predicate NotInsideRun(s: string, p: nat)
    requires p <= |s|
  {
    p == 0 || p == |s| || !IsWordChar(s[p - 1]) || !IsWordChar(s[p])
  }

  /** The matches at or after position `p`, as `(start, end)` pairs, left to right. */
  function Spans(s: string, p: nat): seq<(nat, nat)>
    requires p <= |s| && NotInsideRun(s, p)
    decreases |s| - p
  {
    if p == |s| then []
    else if !IsWordChar(s[p]) then Spans(s, p + 1)
    else
      var q := RunEnd(s, p);
      assert p < q;
      if q - p >= MinWordLength && AllLowerBetween(s, p, q) then
        [(p, q)] + Spans(s, q)
      else Spans(s, q)
  }

  /** Every reported span is a match at or after `p`. */
  lemma {:induction false} SpansSound(s: string, p: nat)
    requires p <= |s| && NotInsideRun(s, p)
    ensures forall n :: 0 <= n < |Spans(s, p)| ==>
      IsTokenSpan(s, Spans(s, p)[n].0, Spans(s, p)[n].1) && p <= Spans(s, p)[n].0
    decreases |s| - p
  {
    if p < |s| {
      if !IsWordChar(s[p]) {
        SpansSound(s, p + 1);
      } else {
        var q := RunEnd(s, p);
        SpansSound(s, q);
        if q - p >= MinWordLength && AllLowerBetween(s, p, q) {
          SpanStartsAtRun(s, p, q);
        }
      }
    }
  }

  /** The matches are reported left to right and never overlap. */
  lemma {:induction false} SpansInOrder(s: string, p: nat)
    requires p <= |s| && NotInsideRun(s, p)
    ensures forall m, n :: 0 <= m < n < |Spans(s, p)| ==> Spans(s, p)[m].1 < Spans(s, p)[n].0
    decreases |s| - p
  {
    if p < |s| {
      if !IsWordChar(s[p]) {
        SpansInOrder(s, p + 1);
        assert Spans(s, p) == Spans(s, p + 1);
      } else {
        var q := RunEnd(s, p);
        SpansInOrder(s, q);
        SpansSound(s, q);
        var r, rest := Spans(s, p), Spans(s, q);
        if q - p >= MinWordLength && AllLowerBetween(s, p, q) {
          assert r == [(p, q)] + rest;
          forall n | 0 <= n < |rest| ensures q < rest[n].0 {
            assert IsTokenSpan(s, rest[n].0, rest[n].1);
          }
        }
      }
    }
  }

  /** A run starting at `p` is a match once it is preceded by a non-word character. */
  lemma SpanStartsAtRun(s: string, p: nat, q: nat)
    requires p < q <= |s| && q - p >= MinWordLength
    requires AllLowerBetween(s, p, q)
    requires q == |s| || !IsWordChar(s[q])
    ensures NotInsideRun(s, p) ==> IsTokenSpan(s, p, q)
  {
  }

  /** Every match that starts at or after `p` is reported.
      (Soundness and order are in the contract of Spans.) */
  lemma {:induction false} SpansComplete(s: string, p: nat, i: int, j: int)
    requires p <= |s| && NotInsideRun(s, p)
    requires IsTokenSpan(s, i, j) && p <= i
    ensures (i, j) in Spans(s, p)
    decreases |s| - p
  {
    if p == |s| {
    } else if !IsWordChar(s[p]) {
      assert i != p;
      SpansComplete(s, p + 1, i, j);
    } else {
      var q := RunEnd(s, p);
      if i == p {
        RunOfToken(s, i, j);
        assert q == j;
        assert AllLowerBetween(s, p, q);
      } else {
        // a match cannot start inside the run [p, q): its left neighbour would be a word character
        assert q <= i;
        SpansComplete(s, q, i, j);
      }
    }
  }

  /** A match is a whole run of word characters. */
  lemma RunOfToken(s: string, i: int, j: int)
    requires IsTokenSpan(s, i, j)
    ensures RunEnd(s, i) == j
  {
    RunEndIsFirstNonWord(s, i, j);
  }

  lemma {:induction false} RunEndIsFirstNonWord(s: string, p: nat, j: nat)
    requires p <= j <= |s|
    requires forall k :: p <= k < j ==> IsWordChar(s[k])
    requires j == |s| || !IsWordChar(s[j])
    ensures RunEnd(s, p) == j
    decreases j - p
  {
    if p < j { RunEndIsFirstNonWord(s, p + 1, j); }
  }

  /** The words of the pattern in `s`, in the order `re.findall` returns them. */
  function FindAll(s: string): seq<string>
  {
    var sp := Spans(s, 0);
    SpansSound(s, 0);
    seq(|sp|, n requires 0 <= n < |sp| => s[sp[n].0 .. sp[n].1])
  }

  /** `FindAll` returns exactly the matches of the pattern: every word it returns
      is a match, and every match is returned. */
  lemma FindAllIsTokens(s: string, w: string)
    ensures w in FindAll(s) <==> IsToken(s, w)
  {
    var r := FindAll(s);
    var sp := Spans(s, 0);
    SpansSound(s, 0);
    assert |r| == |sp| && forall n :: 0 <= n < |r| ==> r[n] == s[sp[n].0 .. sp[n].1];
    if w in r {
      var n :| 0 <= n < |r| && r[n] == w;
      assert IsTokenSpan(s, sp[n].0, sp[n].1);
    }
    if IsToken(s, w) {
      var i, j :| IsTokenSpan(s, i, j) && s[i..j] == w;
      SpansComplete(s, 0, i, j);
      var n :| 0 <= n < |sp| && sp[n] == (i, j);
      assert r[n] == w;
    }
  }

  /** What a match is, spelled out: nine or more letters `a`-`z` found in `s`. */
  lemma TokenShape(s: string, w: string)
    requires IsToken(s, w)
    ensures |w| >= MinWordLength && AllLower(w)
    ensures Contains(s, w)
  {
    var i, j :| IsTokenSpan(s, i, j) && s[i..j] == w;
    assert OccursAt(s, w, i);
  }
}
