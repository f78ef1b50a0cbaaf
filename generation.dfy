/** Sentence generation of tweetsGenerator.c on values: the rejection
    sampling of the first word (get_first_random_word) and the weighted walk
    of generate_sentence, driven by the values rand() returns. */
module Generation {
  import opened WordModel
  import opened Sampler

  /** MAX_WORDS_IN_SENTENCE_GENERATION */
  const MaxWordsInSentence := 20

  /** How one call of generate_sentence ends, with the rand() values used.
      Tweet: the sentence is complete. NullWord: get_next_random_word
      returned NULL, which generate_sentence then dereferences.
      OutOfDraws: the given rand() values ran out before either.
      EmptyDictionary: the dictionary has no record, and
      get_first_random_word computes rand() % 0. */
  datatype Outcome =
    | Tweet(words: seq<string>, used: nat)
    | NullWord(words: seq<string>, used: nat)
    | OutOfDraws(words: seq<string>)
    | EmptyDictionary

  /** A first word accepted by the rejection loop: its index in the
      dictionary and the number of rand() values consumed up to it. */
  datatype Pick = Pick(index: nat, used: nat)

  /** Every prob_list target has a record in the dictionary. */
  ghost predicate TargetsFound(d: seq<Entry>)
  {
    forall k, j :: 0 <= k < |d| && 0 <= j < |d[k].succ| ==> Find(d, d[k].succ[j].target).Some?
  }

  /** What generation relies on in a dictionary built by fill_dictionary:
      unique words, positive counts and weights, and a record for every
      prob_list target. */
  ghost predicate WellFormed(d: seq<Entry>)
  {
    Unique(d) && Positive(d) && TargetsFound(d)
  }

  /** `b` is recorded in the prob_list of the record of `a`. */
  predicate Follows(d: seq<Entry>, a: string, b: string)
  {
    match Find(d, a)
    case Some(k) => FindTarget(d[k].succ, b).Some?
    case None => false
  }

  /** The word get_first_random_word draws with rand() value `rnd`. */
  function Candidate(d: seq<Entry>, rnd: nat): (k: nat)
    requires |d| > 0
    ensures k < |d|
  {
    GetRandomNumber(rnd, |d|)
  }

  /** get_first_random_word from the `used`-th rand() value on: draws are
      rejected while they land on a word ending in '.', and the first
      accepted one is picked. */
  function FirstPick(d: seq<Entry>, rnds: seq<nat>, used: nat): (r: Option<Pick>)
    requires |d| > 0 && used <= |rnds|
    ensures r.Some? ==> used < r.value.used <= |rnds|
    ensures r.Some? ==> r.value.index == Candidate(d, rnds[r.value.used - 1])
    ensures r.Some? ==> !EndsInDot(d[r.value.index].word)
    ensures r.Some? ==> forall u :: used <= u < r.value.used - 1 ==> EndsInDot(d[Candidate(d, rnds[u])].word)
    ensures r.None? <==> forall u :: used <= u < |rnds| ==> EndsInDot(d[Candidate(d, rnds[u])].word)
    decreases |rnds| - used
  {
    if used == |rnds| then None
    else
      var k := Candidate(d, rnds[used]);
      if EndsInDot(d[k].word) then FirstPick(d, rnds, used + 1) else Some(Pick(k, used + 1))
  }

  /** The loop of generate_sentence: `words` were emitted so far, the last
      being the word of record `cur`; each pass asks get_next_random_word
      for the next word and stops after a word ending in '.' or once 20
      words were emitted. */
  function Emit(d: seq<Entry>, words: seq<string>, cur: nat, rnds: seq<nat>, used: nat): (r: Outcome)
    requires WellFormed(d)
    requires cur < |d| && 1 <= |words| < MaxWordsInSentence && used <= |rnds|
    ensures !r.EmptyDictionary?
    ensures |words| <= |r.words| <= MaxWordsInSentence && r.words[..|words|] == words
    ensures r.Tweet? || r.NullWord? ==> used < r.used <= |rnds|
    ensures r.Tweet? ==> |words| < |r.words|
    decreases MaxWordsInSentence - |words|
  {
    if used == |rnds| then OutOfDraws(words)
    else
      match Select(d[cur].succ, Draw(rnds[used], d[cur].count))
      case None => NullWord(words, used + 1)
      case Some(j) =>
        var w := d[cur].succ[j].target;
        var ws := words + [w];
        if EndsInDot(w) || |ws| == MaxWordsInSentence then Tweet(ws, used + 1)
        else Emit(d, ws, Find(d, w).value, rnds, used + 1)
  }

  /** generate_sentence on values: the first word, then the walk. Only an
      empty dictionary gives EmptyDictionary; no word at all is produced
      exactly when every rand() value draws a word ending in '.', where
      get_first_random_word would loop for ever; otherwise the words start
      with a word of the dictionary not ending in '.'. */
  function Generate(d: seq<Entry>, rnds: seq<nat>): (r: Outcome)
    requires WellFormed(d)
    ensures r.EmptyDictionary? <==> |d| == 0
    ensures r == OutOfDraws([]) <==>
      |d| > 0 && forall u :: 0 <= u < |rnds| ==> EndsInDot(d[Candidate(d, rnds[u])].word)
    ensures !r.EmptyDictionary? && r.words != [] ==> !EndsInDot(r.words[0]) && Find(d, r.words[0]).Some?
  {
    if |d| == 0 then EmptyDictionary
    else
      match FirstPick(d, rnds, 0)
      case None => OutOfDraws([])
      case Some(p) =>
        var first := d[p.index].word;
        var r := Emit(d, [first], p.index, rnds, p.used);
        FindIndex(d, p.index);
        assert r.words[0] == r.words[..1][0] == first;
        r
  }

  /** A pass of the walk whose draw selects no prob_list entry ends it with NULL. */
  lemma EmitNull(d: seq<Entry>, words: seq<string>, cur: nat, rnds: seq<nat>, used: nat)
    requires WellFormed(d)
    requires cur < |d| && 1 <= |words| < MaxWordsInSentence && used < |rnds|
    requires Select(d[cur].succ, Draw(rnds[used], d[cur].count)).None?
    ensures Emit(d, words, cur, rnds, used) == NullWord(words, used + 1)
  {
  }

  /** A pass of the walk that selects entry `j` whose target ends in '.', or
      is the 20th word, completes the sentence. */
  lemma EmitEnds(d: seq<Entry>, words: seq<string>, cur: nat, rnds: seq<nat>, used: nat, j: nat, w: string)
    requires WellFormed(d)
    requires cur < |d| && 1 <= |words| < MaxWordsInSentence && used < |rnds|
    requires Select(d[cur].succ, Draw(rnds[used], d[cur].count)) == Some(j) && w == d[cur].succ[j].target
    requires EndsInDot(w) || |words| + 1 == MaxWordsInSentence
    ensures Emit(d, words, cur, rnds, used) == Tweet(words + [w], used + 1)
  {
  }

  /** A pass of the walk that selects entry `j` of any other target goes on
      from the record of that target. */
  lemma EmitOn(d: seq<Entry>, words: seq<string>, cur: nat, rnds: seq<nat>, used: nat, j: nat, w: string, next: nat,
               words': seq<string>, used': nat)
    requires WellFormed(d)
    requires cur < |d| && 1 <= |words| < MaxWordsInSentence && used < |rnds|
    requires Select(d[cur].succ, Draw(rnds[used], d[cur].count)) == Some(j) && w == d[cur].succ[j].target
    requires !EndsInDot(w) && |words| + 1 < MaxWordsInSentence && Find(d, w) == Some(next)
    requires words' == words + [w] && used' == used + 1
    ensures next < |d| && 1 <= |words'| < MaxWordsInSentence && used' <= |rnds|
    ensures Emit(d, words, cur, rnds, used) == Emit(d, words', next, rnds, used')
  {
  }

  /** If `r` is a completed sentence, it extends `words` by at least one
      word, to at most 20, using more rand() values than the `used` before
      it; it ends at its first word after `words` that ends in '.' or at the
      20th word; and from the last word of `words` on, each word is
      recorded as a follower of the one before it. */
  ghost predicate Extends(d: seq<Entry>, words: seq<string>, used: nat, rnds: seq<nat>, r: Outcome)
    requires |words| >= 1
  {
    r.Tweet? ==>
      |words| < |r.words| <= MaxWordsInSentence && r.words[..|words|] == words
      && used < r.used <= |rnds|
      && (EndsInDot(r.words[|r.words| - 1]) || |r.words| == MaxWordsInSentence)
      && (forall i :: |words| <= i < |r.words| - 1 ==> !EndsInDot(r.words[i]))
      && (forall i :: |words| - 1 <= i < |r.words| - 1 ==> Follows(d, r.words[i], r.words[i + 1]))
  }

  /** A sentence that extends `words + [w]` also extends `words` when `w`
      does not end in '.' and follows the last word of `words`. */
  lemma ExtendsCons(d: seq<Entry>, words: seq<string>, w: string, used: nat, rnds: seq<nat>, r: Outcome)
    requires |words| >= 1 && Extends(d, words + [w], used + 1, rnds, r)
    requires !EndsInDot(w) && Follows(d, words[|words| - 1], w)
    ensures Extends(d, words, used, rnds, r)
  {
    if r.Tweet? {
      var n := |words|;
      var ws := words + [w];
      assert r.words[..n] == r.words[..n + 1][..n] == ws[..n] == words;
      assert r.words[n - 1] == words[n - 1] && r.words[n] == w;
      forall i | n - 1 <= i < |r.words| - 1 ensures Follows(d, r.words[i], r.words[i + 1]) {
        if i >= n {
          assert |ws| - 1 <= i;
        }
      }
    }
  }

  /** A walk that completes extends the words emitted so far; see Extends. */
  lemma {:induction false} EmitTweet(d: seq<Entry>, words: seq<string>, cur: nat, rnds: seq<nat>, used: nat)
    requires WellFormed(d)
    requires cur < |d| && 1 <= |words| < MaxWordsInSentence && words[|words| - 1] == d[cur].word
    requires used <= |rnds|
    ensures Extends(d, words, used, rnds, Emit(d, words, cur, rnds, used))
    decreases MaxWordsInSentence - |words|
  {
    if used == |rnds| {
      assert Emit(d, words, cur, rnds, used).OutOfDraws?;
    } else {
      match Select(d[cur].succ, Draw(rnds[used], d[cur].count))
      case None =>
        assert Emit(d, words, cur, rnds, used).NullWord?;
      case Some(j) =>
        var w := d[cur].succ[j].target;
        var ws := words + [w];
        FollowsAt(d, cur, j);
        if EndsInDot(w) || |ws| == MaxWordsInSentence {
          assert Emit(d, words, cur, rnds, used) == Tweet(ws, used + 1);
          assert ws[..|words|] == words && ws[|ws| - 1] == w;
        } else {
          var next := Find(d, w).value;
          EmitTweet(d, ws, next, rnds, used + 1);
          assert Emit(d, ws, next, rnds, used + 1) == Emit(d, words, cur, rnds, used);
          ExtendsCons(d, words, w, used, rnds, Emit(d, words, cur, rnds, used));
        }
    }
  }

  /** A sentence generate_sentence completes has 2 to 20 words; it starts
      with a word not ending in '.', ends at its first word ending in '.' or
      at the 20th word, and each word is recorded as a follower of the one
      before it. */
  lemma TweetShape(d: seq<Entry>, rnds: seq<nat>)
    requires WellFormed(d)
    ensures var r := Generate(d, rnds);
      r.Tweet? ==>
        2 <= |r.words| <= MaxWordsInSentence && r.used <= |rnds|
        && !EndsInDot(r.words[0])
        && (EndsInDot(r.words[|r.words| - 1]) || |r.words| == MaxWordsInSentence)
        && (forall i :: 0 <= i < |r.words| - 1 ==> !EndsInDot(r.words[i]))
        && (forall i :: 0 <= i < |r.words| - 1 ==> Follows(d, r.words[i], r.words[i + 1]))
  {
    if |d| > 0 {
      match FirstPick(d, rnds, 0)
      case None =>
      case Some(p) =>
        EmitTweet(d, [d[p.index].word], p.index, rnds, p.used);
        var r := Generate(d, rnds);
        if r.Tweet? {
          assert r.words[0] == r.words[..1][0];
        }
    }
  }

  /** The target of entry `j` of a record's prob_list follows that record's word. */
  lemma FollowsAt(d: seq<Entry>, k: nat, j: nat)
    requires k < |d| && j < |d[k].succ| && WellFormed(d)
    ensures Find(d, d[k].succ[j].target).Some?
    ensures Follows(d, d[k].word, d[k].succ[j].target)
  {
    FindIndex(d, k);
  }
}
