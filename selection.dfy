/** The word selection of `get_cnn_data` (main.py): scan the headlines in order,
    take every new qualifying word of each lower-cased headline, translate it,
    and stop once `limit` words have been taken.

    The headlines are an input here (the page fetch and HTML parsing are not
    modelled) and the translator is the function parameter `translate`. */
module Selection {
  import opened Text
  import opened Tokens

  /** One result of `get_cnn_data`: the capitalized word, its translation and
      the headline it was taken from. */
  datatype Entry = Entry(word: string, translation: string, context: string)

  /** A qualifying lower-case word and the headline it occurs in. */
  datatype Pick = Pick(word: string, context: string)

  function Words(ps: seq<Pick>): (r: seq<string>)
    ensures |r| == |ps| && forall i :: 0 <= i < |ps| ==> r[i] == ps[i].word
  {
    seq(|ps|, i requires 0 <= i < |ps| => ps[i].word)
  }

  predicate DistinctWords(ps: seq<Pick>) {
    forall i, j :: 0 <= i < j < |ps| ==> ps[i].word != ps[j].word
  }

  /** The matches of one headline, left to right, each with that headline as context. */
  function PicksOf(sentence: string): (r: seq<Pick>)
    ensures |r| == |FindAll(Lower(sentence))|
    ensures forall k :: 0 <= k < |r| ==> r[k] == Pick(FindAll(Lower(sentence))[k], sentence)
  {
    var ws := FindAll(Lower(sentence));
    seq(|ws|, k requires 0 <= k < |ws| => Pick(ws[k], sentence))
  }

  /** Every match of every headline: headline by headline, and left to right
      within a headline. */
  function Occurrences(headlines: seq<string>): seq<Pick>
    decreases |headlines|
  {
    if headlines == [] then []
    else Occurrences(headlines[..|headlines| - 1]) + PicksOf(headlines[|headlines| - 1])
  }

  /** The first occurrence of each word, in the order of those first occurrences. */
  function FirstOccurrences(ps: seq<Pick>): seq<Pick>
    decreases |ps|
  {
    if ps == [] then []
    else
      var d := FirstOccurrences(ps[..|ps| - 1]);
      var x := ps[|ps| - 1];
      if x.word in Words(d) then d else d + [x]
  }

  /** The first `limit` elements of `s` (all of them when there are fewer, none when `limit <= 0`). */
  function Take<T>(s: seq<T>, limit: int): (r: seq<T>)
    ensures |r| <= |s| && r == s[..|r|]
    ensures |r| == if limit <= 0 then 0 else if |s| <= limit then |s| else limit
  {
    if limit <= 0 then [] else if |s| <= limit then s else s[..limit]
  }

  /** What `get_cnn_data` selects: the first `limit` distinct qualifying words of
      the headlines, each with the headline of its first occurrence. */
  function Selected(headlines: seq<string>, limit: int): (r: seq<Pick>)
    ensures |r| <= if limit <= 0 then 0 else limit
  {
    Take(FirstOccurrences(Occurrences(headlines)), limit)
  }

  /** The result appended for a pick: `word.capitalize()`, one translation, the headline. */
  function Enrich(p: Pick, translate: string -> string): Entry {
    Entry(Capitalize(p.word), translate(p.word), p.context)
  }

  /** The results for a list of picks, in the same order. */
  function EnrichAll(ps: seq<Pick>, translate: string -> string): (r: seq<Entry>)
    ensures |r| == |ps|
  {
    seq(|ps|, i requires 0 <= i < |ps| => Enrich(ps[i], translate))
  }

  /** The loop of `get_cnn_data`. `requested` lists the words handed to the
      translator, in the order of the calls. */
  method SelectWords(headlines: seq<string>, limit: int, translate: string -> string)
    returns (results: seq<Entry>, requested: seq<string>)
    ensures results == EnrichAll(Selected(headlines, limit), translate)
    ensures requested == Words(Selected(headlines, limit))
  {
    results, requested := [], [];
    var usedWords: set<string> := {};
    ghost var picks: seq<Pick> := [];
    ghost var seen: seq<Pick> := [];
    var h := 0;
    while h < |headlines|
      invariant 0 <= h <= |headlines|
      invariant seen == Occurrences(headlines[..h])
      invariant Progress(seen, picks, limit, results, requested, usedWords, translate)
    {
      var sentence := headlines[h];
      results, requested, usedWords, seen, picks :=
        ScanHeadline(sentence, limit, translate, results, requested, usedWords, seen, picks);
      OccurrencesNext(headlines, h);
      h := h + 1;
      if |results| >= limit {
        break;
      }
    }
    ProgressDone(headlines, h, seen, picks, limit, results, requested, usedWords, translate);
  }

  /** The inner loop of `get_cnn_data`, over the words of one headline: each
      word not yet used is translated and appended while fewer than `limit`
      results exist. */
  method ScanHeadline(sentence: string, limit: int, translate: string -> string,
                      results0: seq<Entry>, requested0: seq<string>, usedWords0: set<string>,
                      ghost seen0: seq<Pick>, ghost picks0: seq<Pick>)
    returns (results: seq<Entry>, requested: seq<string>, usedWords: set<string>,
             ghost seen: seq<Pick>, ghost picks: seq<Pick>)
    requires Progress(seen0, picks0, limit, results0, requested0, usedWords0, translate)
    ensures seen == seen0 + PicksOf(sentence)
    ensures Progress(seen, picks, limit, results, requested, usedWords, translate)
  {
    results, requested, usedWords, seen, picks := results0, requested0, usedWords0, seen0, picks0;
    var wordsInSentence := FindAll(Lower(sentence));
    ghost var found := PicksOf(sentence);
    var k := 0;
    while k < |wordsInSentence|
      invariant 0 <= k <= |wordsInSentence|
      invariant seen == seen0 + found[..k]
      invariant Progress(seen, picks, limit, results, requested, usedWords, translate)
    {
      var word := wordsInSentence[k];
      assert found[k] == Pick(word, sentence);
      if word !in usedWords && |results| < limit {
        ProgressAppend(seen, picks, limit, results, requested, usedWords, translate, Pick(word, sentence));
        var translation := translate(word);
        assert Entry(Capitalize(word), translation, sentence) == Enrich(Pick(word, sentence), translate);
        requested := requested + [word];
        results := results + [Entry(Capitalize(word), translation, sentence)];
        usedWords := usedWords + {word};
        picks := picks + [Pick(word, sentence)];
      } else {
        ProgressSkip(seen, picks, limit, results, requested, usedWords, translate, Pick(word, sentence));
      }
      PrefixStep(seen0, found, k);
      seen := seen + [Pick(word, sentence)];
      k := k + 1;
    }
    assert found[..k] == found;
  }

  /** The state of the loop: `picks` are the first `limit` new words of the
      occurrences `seen` so far, and the results, the translator calls and
      `used_words` agree with them. */
  ghost predicate Progress(seen: seq<Pick>, picks: seq<Pick>, limit: int, results: seq<Entry>,
                           requested: seq<string>, usedWords: set<string>, translate: string -> string)
  {
    && picks == Take(FirstOccurrences(seen), limit)
    && |results| == |picks|
    && (forall i :: 0 <= i < |picks| ==> results[i] == Enrich(picks[i], translate))
    && requested == Words(picks)
    && (forall w :: w in usedWords <==> w in requested)
  }

  /** The loop state at the end: all headlines scanned, or the limit reached
      after `h` of them. */
  lemma ProgressDone(headlines: seq<string>, h: int, seen: seq<Pick>, picks: seq<Pick>, limit: int,
                     results: seq<Entry>, requested: seq<string>, usedWords: set<string>,
                     translate: string -> string)
    requires 0 <= h <= |headlines| && seen == Occurrences(headlines[..h])
    requires Progress(seen, picks, limit, results, requested, usedWords, translate)
    requires h == |headlines| || |results| >= limit
    ensures results == EnrichAll(Selected(headlines, limit), translate)
    ensures requested == Words(Selected(headlines, limit))
  {
    if h == |headlines| {
      assert headlines[..h] == headlines;
    } else {
      SelectedAfter(headlines, h, limit);
    }
    assert picks == Selected(headlines, limit);
  }

  /** One more occurrence of a word not used yet, below the limit: it is
      appended to the picks, the results and the translator calls. */
  lemma ProgressAppend(seen: seq<Pick>, picks: seq<Pick>, limit: int, results: seq<Entry>,
                       requested: seq<string>, usedWords: set<string>, translate: string -> string, x: Pick)
    requires Progress(seen, picks, limit, results, requested, usedWords, translate)
    requires x.word !in usedWords && |results| < limit
    ensures Progress(seen + [x], picks + [x], limit, results + [Enrich(x, translate)],
                     requested + [x.word], usedWords + {x.word}, translate)
  {
    assert x.word !in Words(picks);
    TakeFirstOccurrencesStep(seen, x, limit);
    assert Take(FirstOccurrences(seen + [x]), limit) == picks + [x];
    WordsAppend(picks, [x]);
    assert Words(picks + [x]) == requested + [x.word];
    var results' := results + [Enrich(x, translate)];
    assert forall i :: 0 <= i < |picks| + 1 ==> results'[i] == Enrich((picks + [x])[i], translate);
  }

  /** Any other occurrence changes nothing but `seen`. */
  lemma ProgressSkip(seen: seq<Pick>, picks: seq<Pick>, limit: int, results: seq<Entry>,
                     requested: seq<string>, usedWords: set<string>, translate: string -> string, x: Pick)
    requires Progress(seen, picks, limit, results, requested, usedWords, translate)
    requires x.word in usedWords || |results| >= limit
    ensures Progress(seen + [x], picks, limit, results, requested, usedWords, translate)
  {
    TakeFirstOccurrencesStep(seen, x, limit);
  }

  lemma OccurrencesNext(headlines: seq<string>, h: int)
    requires 0 <= h < |headlines|
    ensures Occurrences(headlines[..h + 1]) == Occurrences(headlines[..h]) + PicksOf(headlines[h])
  {
    assert headlines[..h + 1][..h] == headlines[..h];
  }

  /** After the break, the selection made so far is the whole selection. */
  lemma SelectedAfter(headlines: seq<string>, h: int, limit: int)
    requires 0 <= h <= |headlines|
    requires |Take(FirstOccurrences(Occurrences(headlines[..h])), limit)| >= limit
    ensures Take(FirstOccurrences(Occurrences(headlines[..h])), limit) == Selected(headlines, limit)
  {
    TakeStable(Occurrences(headlines[..h]), Occurrences(headlines[h..]), limit);
    OccurrencesAppend(headlines[..h], headlines[h..]);
    assert headlines[..h] + headlines[h..] == headlines;
  }

  // ---------------------------------------------------------------------------
  // Facts the loop needs

  /** Taking one more occurrence into account adds it exactly when it is a new
      word and the limit is not reached. */
  lemma TakeFirstOccurrencesStep(c: seq<Pick>, x: Pick, limit: int)
    ensures var t := Take(FirstOccurrences(c), limit);
      Take(FirstOccurrences(c + [x]), limit) == if |t| >= limit || x.word in Words(t) then t else t + [x]
  {
    assert (c + [x])[..|c + [x]| - 1] == c;
    var d := FirstOccurrences(c);
    var t := Take(d, limit);
    if |t| < limit {
      assert t == d;
    }
  }

  /** Occurrences added later never change the first occurrences found so far. */
  lemma {:induction false} FirstOccurrencesPrefix(c: seq<Pick>, e: seq<Pick>)
    ensures FirstOccurrences(c) <= FirstOccurrences(c + e)
    decreases |e|
  {
    if e == [] {
      assert c + e == c;
    } else {
      var e0 := e[..|e| - 1];
      FirstOccurrencesPrefix(c, e0);
      assert (c + e)[..|c + e| - 1] == c + e0;
    }
  }

  /** Once `limit` words are selected, later headlines change nothing. */
  lemma TakeStable(c: seq<Pick>, e: seq<Pick>, limit: int)
    requires |Take(FirstOccurrences(c), limit)| >= limit
    ensures Take(FirstOccurrences(c + e), limit) == Take(FirstOccurrences(c), limit)
  {
    FirstOccurrencesPrefix(c, e);
    TakeOfExtension(FirstOccurrences(c), FirstOccurrences(c + e), limit);
  }

  lemma TakeOfExtension<T>(d: seq<T>, d': seq<T>, limit: int)
    requires d <= d' && |Take(d, limit)| >= limit
    ensures Take(d', limit) == Take(d, limit)
  {
    if limit > 0 {
      assert limit <= |d|;
      assert d'[..limit] == d[..limit];
    }
  }

  lemma {:induction false} OccurrencesAppend(a: seq<string>, b: seq<string>)
    ensures Occurrences(a + b) == Occurrences(a) + Occurrences(b)
    decreases |b|
  {
    if b == [] {
      assert a + b == a;
    } else {
      var b0 := b[..|b| - 1];
      OccurrencesAppend(a, b0);
      assert (a + b)[..|a + b| - 1] == a + b0;
      assert (a + b)[|a + b| - 1] == b[|b| - 1];
      ConcatAssoc(Occurrences(a), Occurrences(b0), PicksOf(b[|b| - 1]));
    }
  }

  // ---------------------------------------------------------------------------
  // Properties of the selection

  /** The index of the first occurrence of `w` in `ps`. */
  ghost function FirstIndexOf(ps: seq<Pick>, w: string): (k: nat)
    requires w in Words(ps)
    ensures k < |ps| && ps[k].word == w
    ensures forall k' :: 0 <= k' < k ==> ps[k'].word != w
    decreases |ps|
  {
    if ps[0].word == w then 0
    else
      assert w in Words(ps[1..]) by {
        var i :| 0 <= i < |ps| && Words(ps)[i] == w;
        assert Words(ps[1..])[i - 1] == w;
      }
      1 + FirstIndexOf(ps[1..], w)
  }

  lemma FirstIndexIs(ps: seq<Pick>, w: string, k: nat)
    requires k < |ps| && ps[k].word == w
    requires forall k' :: 0 <= k' < k ==> ps[k'].word != w
    ensures w in Words(ps) && FirstIndexOf(ps, w) == k
  {
    assert Words(ps)[k] == w;
  }

  lemma WordsAppend(a: seq<Pick>, b: seq<Pick>)
    ensures Words(a + b) == Words(a) + Words(b)
  {
  }

  /** `d` holds the first occurrence of every word of `c`, and holds them in the
      order in which they first occur in `c`. */
  ghost predicate ListsFirstOccurrences(c: seq<Pick>, d: seq<Pick>) {
    && (forall i :: 0 <= i < |d| ==> d[i].word in Words(c) && d[i] == c[FirstIndexOf(c, d[i].word)])
    && (forall i, j :: 0 <= i < j < |d| ==> FirstIndexOf(c, d[i].word) < FirstIndexOf(c, d[j].word))
    && (forall k :: 0 <= k < |c| ==> c[k].word in Words(d))
  }

  /** `FirstOccurrences` computes the list of first occurrences. */
  lemma {:induction false} FirstOccurrencesSpec(c: seq<Pick>)
    ensures ListsFirstOccurrences(c, FirstOccurrences(c))
    decreases |c|
  {
    if c != [] {
      var c0 := c[..|c| - 1];
      var x := c[|c| - 1];
      assert c == c0 + [x];
      FirstOccurrencesSpec(c0);
      var d0 := FirstOccurrences(c0);
      if x.word in Words(d0) {
        ListsFirstOccurrencesOld(c0, d0, x);
      } else {
        ListsFirstOccurrencesNew(c0, d0, x);
      }
    }
  }

  lemma FirstIndexOfSnoc(c0: seq<Pick>, x: Pick, w: string)
    requires w in Words(c0)
    ensures w in Words(c0 + [x]) && FirstIndexOf(c0 + [x], w) == FirstIndexOf(c0, w)
  {
    FirstIndexIs(c0 + [x], w, FirstIndexOf(c0, w));
  }

  /** An occurrence of a word already listed leaves the list as it is. */
  lemma ListsFirstOccurrencesOld(c0: seq<Pick>, d0: seq<Pick>, x: Pick)
    requires ListsFirstOccurrences(c0, d0) && x.word in Words(d0)
    ensures ListsFirstOccurrences(c0 + [x], d0)
  {
    var c := c0 + [x];
    forall i | 0 <= i < |d0| ensures d0[i].word in Words(c) && d0[i] == c[FirstIndexOf(c, d0[i].word)] {
      FirstIndexOfSnoc(c0, x, d0[i].word);
    }
    forall i, j | 0 <= i < j < |d0| ensures FirstIndexOf(c, d0[i].word) < FirstIndexOf(c, d0[j].word) {
      FirstIndexOfSnoc(c0, x, d0[i].word);
      FirstIndexOfSnoc(c0, x, d0[j].word);
    }
    forall k | 0 <= k < |c| ensures c[k].word in Words(d0) {
      if k < |c0| { assert c[k] == c0[k]; }
    }
  }

  /** An occurrence of a new word is appended to the list. */
  lemma ListsFirstOccurrencesNew(c0: seq<Pick>, d0: seq<Pick>, x: Pick)
    requires ListsFirstOccurrences(c0, d0) && x.word !in Words(d0)
    ensures ListsFirstOccurrences(c0 + [x], d0 + [x])
  {
    assert x.word !in Words(c0);
    FirstIndexIs(c0 + [x], x.word, |c0|);
    NewWordFirst(c0, d0, x);
    NewWordOrder(c0, d0, x);
    NewWordCovers(c0, d0, x);
  }

  lemma NewWordFirst(c0: seq<Pick>, d0: seq<Pick>, x: Pick)
    requires ListsFirstOccurrences(c0, d0) && x.word !in Words(c0)
    requires x.word in Words(c0 + [x]) && FirstIndexOf(c0 + [x], x.word) == |c0|
    ensures forall i :: 0 <= i < |d0 + [x]| ==>
      (d0 + [x])[i].word in Words(c0 + [x]) && (d0 + [x])[i] == (c0 + [x])[FirstIndexOf(c0 + [x], (d0 + [x])[i].word)]
  {
    var c := c0 + [x];
    var d := d0 + [x];
    forall i | 0 <= i < |d| ensures d[i].word in Words(c) && d[i] == c[FirstIndexOf(c, d[i].word)] {
      if i < |d0| {
        assert d[i] == d0[i];
        FirstIndexOfSnoc(c0, x, d0[i].word);
      }
    }
  }

  lemma NewWordOrder(c0: seq<Pick>, d0: seq<Pick>, x: Pick)
    requires ListsFirstOccurrences(c0, d0) && x.word !in Words(c0)
    requires x.word in Words(c0 + [x]) && FirstIndexOf(c0 + [x], x.word) == |c0|
    requires forall i :: 0 <= i < |d0 + [x]| ==> (d0 + [x])[i].word in Words(c0 + [x])
    ensures forall i, j :: 0 <= i < j < |d0 + [x]| ==>
      FirstIndexOf(c0 + [x], (d0 + [x])[i].word) < FirstIndexOf(c0 + [x], (d0 + [x])[j].word)
  {
    var c := c0 + [x];
    var d := d0 + [x];
    forall i, j | 0 <= i < j < |d| ensures FirstIndexOf(c, d[i].word) < FirstIndexOf(c, d[j].word) {
      assert d[i] == d0[i];
      FirstIndexOfSnoc(c0, x, d0[i].word);
      if j < |d0| {
        assert d[j] == d0[j];
        FirstIndexOfSnoc(c0, x, d0[j].word);
      }
    }
  }

  lemma NewWordCovers(c0: seq<Pick>, d0: seq<Pick>, x: Pick)
    requires ListsFirstOccurrences(c0, d0)
    ensures forall k :: 0 <= k < |c0 + [x]| ==> (c0 + [x])[k].word in Words(d0 + [x])
  {
    var c := c0 + [x];
    var d := d0 + [x];
    WordsAppend(d0, [x]);
    forall k | 0 <= k < |c| ensures c[k].word in Words(d) {
      if k < |c0| { assert c[k] == c0[k]; }
    }
  }

  /** Words listed in strictly increasing order of first occurrence are distinct. */
  lemma FirstOccurrencesDistinct(c: seq<Pick>, d: seq<Pick>)
    requires ListsFirstOccurrences(c, d)
    ensures DistinctWords(d)
  {
  }

  /** The selection is a prefix of the first occurrences. */
  lemma SelectedIsPrefix(headlines: seq<string>, limit: int)
    ensures Selected(headlines, limit) <= FirstOccurrences(Occurrences(headlines))
  {
  }

  /** No word is selected twice, so no word is translated twice. */
  lemma SelectedDistinct(headlines: seq<string>, limit: int)
    ensures DistinctWords(Selected(headlines, limit))
  {
    var c := Occurrences(headlines);
    FirstOccurrencesSpec(c);
    FirstOccurrencesDistinct(c, FirstOccurrences(c));
  }

  /** The occurrences are exactly the matches of the headlines: a pick occurs
      iff its context is one of the headlines and its word is a match of the
      lower-cased context. */
  lemma {:induction false} OccurrencesAreMatches(headlines: seq<string>, p: Pick)
    ensures p in Occurrences(headlines) <==> p.context in headlines && IsToken(Lower(p.context), p.word)
    decreases |headlines|
  {
    FindAllIsTokens(Lower(p.context), p.word);
    if headlines != [] {
      var init := headlines[..|headlines| - 1];
      var last := headlines[|headlines| - 1];
      OccurrencesAreMatches(init, p);
      assert headlines == init + [last];
      var found := PicksOf(last);
      if p in found {
        var k :| 0 <= k < |found| && found[k] == p;
        assert p.word in FindAll(Lower(p.context));
      }
      if p.context == last && IsToken(Lower(p.context), p.word) {
        var ws := FindAll(Lower(last));
        var k :| 0 <= k < |ws| && ws[k] == p.word;
        assert found[k] == p;
      }
    }
  }

  /** Every selected word is a match of the pattern in its own headline: nine
      or more letters `a`-`z`, found in the lower-cased headline. */
  lemma SelectedAreMatches(headlines: seq<string>, limit: int, i: int)
    requires 0 <= i < |Selected(headlines, limit)|
    ensures var p := Selected(headlines, limit)[i];
      && p.context in headlines
      && IsToken(Lower(p.context), p.word)
      && |p.word| >= MinWordLength && AllLower(p.word)
      && Contains(Lower(p.context), p.word)
  {
    var c := Occurrences(headlines);
    var p := Selected(headlines, limit)[i];
    FirstOccurrencesSpec(c);
    assert p == FirstOccurrences(c)[i];
    assert p in c;
    OccurrencesAreMatches(headlines, p);
    TokenShape(Lower(p.context), p.word);
  }

  /** `s` lists first occurrences of words of `c` in the order in which they
      first occur, and skips none: each element is the first occurrence of its
      word, earlier elements occur first, and every word that occurs before an
      element is listed before it. */
  ghost predicate InFirstOccurrenceOrder(c: seq<Pick>, s: seq<Pick>) {
    && (forall i :: 0 <= i < |s| ==> s[i].word in Words(c) && s[i] == c[FirstIndexOf(c, s[i].word)])
    && (forall i, j :: 0 <= i < j < |s| ==> FirstIndexOf(c, s[i].word) < FirstIndexOf(c, s[j].word))
    && (forall i, k :: 0 <= i < |s| && 0 <= k < FirstIndexOf(c, s[i].word) ==> c[k].word in Words(s[..i]))
  }

  /** Every prefix of the list of first occurrences is in first-occurrence order. */
  lemma PrefixInFirstOccurrenceOrder(c: seq<Pick>, d: seq<Pick>, s: seq<Pick>)
    requires ListsFirstOccurrences(c, d) && s <= d
    ensures InFirstOccurrenceOrder(c, s)
  {
    forall i, k | 0 <= i < |s| && 0 <= k < FirstIndexOf(c, s[i].word) ensures c[k].word in Words(s[..i]) {
      assert c[k].word in Words(d);
      var j :| 0 <= j < |d| && Words(d)[j] == c[k].word;
      assert FirstIndexOf(c, d[j].word) <= k;
      assert d[i] == s[i];
      assert j < i;
      assert Words(s[..i])[j] == c[k].word;
    }
  }

  /** The selection follows first-occurrence order: headline order first, then
      position within the headline. */
  lemma SelectedInFirstOccurrenceOrder(headlines: seq<string>, limit: int)
    ensures InFirstOccurrenceOrder(Occurrences(headlines), Selected(headlines, limit))
  {
    var c := Occurrences(headlines);
    FirstOccurrencesSpec(c);
    PrefixInFirstOccurrenceOrder(c, FirstOccurrences(c), Selected(headlines, limit));
  }

  /** When fewer than `limit` words are selected, every qualifying word of every
      headline is selected (exactly once, by SelectedDistinct). */
  lemma SelectedComplete(headlines: seq<string>, limit: int, h: string, w: string)
    requires |Selected(headlines, limit)| < limit
    requires h in headlines && IsToken(Lower(h), w)
    ensures w in Words(Selected(headlines, limit))
  {
    var c := Occurrences(headlines);
    OccurrencesAreMatches(headlines, Pick(w, h));
    var k :| 0 <= k < |c| && c[k] == Pick(w, h);
    FirstOccurrencesSpec(c);
    assert Selected(headlines, limit) == FirstOccurrences(c);
  }

  /** Nothing is selected iff the limit is not positive or no headline holds a
      qualifying word. */
  lemma SelectedEmpty(headlines: seq<string>, limit: int)
    ensures Selected(headlines, limit) == [] <==>
      limit <= 0 || forall h, w :: h in headlines ==> !IsToken(Lower(h), w)
  {
    var c := Occurrences(headlines);
    FirstOccurrencesSpec(c);
    if c != [] {
      assert Words(FirstOccurrences(c)) != [];
      OccurrencesAreMatches(headlines, c[0]);
    }
    forall h, w | h in headlines && IsToken(Lower(h), w) ensures c != [] {
      OccurrencesAreMatches(headlines, Pick(w, h));
    }
  }

  /** The stored word is `capitalize()` of the selected lower-case word: its
      first letter upper-cased, the others unchanged, and `lower()` gives the
      selected word back. */
  lemma EnrichedWord(headlines: seq<string>, limit: int, translate: string -> string, i: int)
    requires 0 <= i < |Selected(headlines, limit)|
    ensures var p := Selected(headlines, limit)[i];
      var e := Enrich(p, translate);
      && |p.word| >= MinWordLength
      && |e.word| == |p.word|
      && IsUpperLetter(e.word[0]) && LowerChar(e.word[0]) == p.word[0]
      && e.word[1..] == p.word[1..]
      && Lower(e.word) == p.word
      && e.translation == translate(p.word)
      && e.context == p.context
  {
    var p := Selected(headlines, limit)[i];
    SelectedAreMatches(headlines, limit, i);
    CapitalizeLowerWord(p.word);
  }
}
