/** Sentence generation of tweetsGenerator.c on the word store: the
    weighted choice of get_next_random_word, the rejection loop of
    get_first_random_word and the loop of generate_sentence, each proved
    against its counterpart on values in Generation. rand() is replaced by
    the values it returns. */
module Sentences {
  import opened WordModel
  import opened Store
  import opened Sampler
  import opened Generation

  /** get_next_random_word for rand() value `rnd`: the draw is
      `rnd % appears_in_txt + 1`; the prob_list is scanned in order,
      subtracting each weight from the draw until it is at most the current
      weight, whose target is returned; NULL when the scan runs off the end.
      So the target of the first entry whose running weight sum reaches the
      draw is returned, and NULL exactly when the draw exceeds the weight
      sum. */
  method GetNextRandomWord(wordStructPtr: WordStruct, rnd: nat) returns (chosenWord: WordStruct?)
    requires wordStructPtr.appearsInTxt > 0
    ensures var x := Draw(rnd, wordStructPtr.appearsInTxt);
      var s := SuccsOf(wordStructPtr.probList);
      match Select(s, x)
      case None => chosenWord == null
      case Some(j) => chosenWord == wordStructPtr.probList[j].wordStructPtr
  {
    ghost var s := SuccsOf(wordStructPtr.probList);
    ghost var x := Draw(rnd, wordStructPtr.appearsInTxt);
    var rndNum := GetRandomNumber(rnd, wordStructPtr.appearsInTxt);
    rndNum := rndNum + 1;
    var j := 0;
    while j < |wordStructPtr.probList|
      invariant 0 <= j <= |wordStructPtr.probList|
      invariant rndNum == x - Cum(s, j)
      invariant forall i :: 0 < i <= j ==> Cum(s, i) < x
    {
      if rndNum <= wordStructPtr.probList[j].appearsAfterWord {
        SelectAt(s, x, j);
        return wordStructPtr.probList[j].wordStructPtr;
      }
      rndNum := rndNum - wordStructPtr.probList[j].appearsAfterWord;
      j := j + 1;
    }
    return null;
  }

  /** The scan's stopping point is Select's choice. */
  lemma SelectAt(s: seq<Succ>, x: int, j: nat)
    requires j < |s| && x <= Cum(s, j + 1)
    requires forall i :: 0 < i <= j ==> Cum(s, i) < x
    ensures Select(s, x) == Some(j)
  {
  }

  /** get_first_random_word with the rand() values `rnds`: each pass draws
      `rnd % size`, walks that many nodes from `first` and accepts the
      record found unless its word ends in '.'. The record FirstPick
      chooses is returned with the number of values used, or null when the
      values run out first. */
  method GetFirstRandomWord(dictionary: LinkList, ghost d: seq<Entry>, ghost recs: seq<WordStruct>, rnds: seq<nat>)
      returns (chosenNode: WordStruct?, used: nat)
    requires dictionary.Valid() && dictionary.size > 0
    requires d == dictionary.Model() && recs == dictionary.Contents()
    ensures match FirstPick(d, rnds, 0)
      case None => chosenNode == null && used == |rnds|
      case Some(p) => chosenNode == recs[p.index] && used == p.used
  {
    used := 0;
    while used < |rnds|
      invariant used <= |rnds|
      invariant FirstPick(d, rnds, used) == FirstPick(d, rnds, 0)
    {
      var num := GetRandomNumber(rnds[used], dictionary.size);
      used := used + 1;
      var i := 0;
      var node := dictionary.first;
      while i < num
        invariant 0 <= i <= num
        invariant node == dictionary.nodes[i]
      {
        node := node.next;
        i := i + 1;
      }
      var chosenWord := node.data.word;
      assert chosenWord == d[num].word;
      if !EndsInDot(chosenWord) {
        return node.data, used;
      }
    }
    return null, |rnds|;
  }

  /** A record of the dictionary is found, by its word, at its own place. */
  lemma RecordIndex(dictionary: LinkList, x: WordStruct)
    requires dictionary.UniqueWords() && x in dictionary.Records()
    ensures Find(dictionary.Model(), x.word).Some?
    ensures dictionary.Contents()[Find(dictionary.Model(), x.word).value] == x
  {
    var ws := dictionary.Contents();
    var p :| 0 <= p < |ws| && ws[p] == x;
    FindSameIndex(dictionary, p);
  }

  /** The record at index `k` has a positive count, and the targets of its
      prob_list are records of the dictionary. */
  lemma RecordAt(dictionary: LinkList, k: nat)
    requires dictionary.Closed() && k < |dictionary.Contents()|
    ensures RecordOk(dictionary.Contents()[k], dictionary.Records())
  {
    assert dictionary.Contents()[k] in dictionary.Records();
  }

  /** The values of a dictionary satisfy what generation relies on. */
  lemma DictWellFormed(dictionary: LinkList)
    requires dictionary.Dict()
    ensures WellFormed(dictionary.Model())
  {
    var ws := dictionary.Contents();
    var d := dictionary.Model();
    forall k, j | 0 <= k < |d| && 0 <= j < |d[k].succ|
      ensures Find(d, d[k].succ[j].target).Some?
      ensures d[k].succ[j].weight >= 1
    {
      assert ws[k] in dictionary.Records();
      assert RecordOk(ws[k], dictionary.Records());
      RecordIndex(dictionary, ws[k].probList[j].wordStructPtr);
    }
    forall k | 0 <= k < |d| ensures d[k].count >= 1 {
      assert ws[k] in dictionary.Records();
    }
  }

  /** The static `iteration` counter of generate_sentence. */
  class Tweeter {
    var iteration: int

    constructor ()
      ensures iteration == 1
    {
      iteration := 1;
    }

    /** generate_sentence with the rand() values `rnds`: the first word from
        get_first_random_word, then the loop of EmitWords. The outcome is
        Generate's; a completed sentence returns its number of words and
        advances `iteration` by one. */
    method GenerateSentence(dictionary: LinkList, rnds: seq<nat>) returns (wordInSen: int, r: Outcome)
      requires dictionary.Dict()
      modifies this
      ensures WellFormed(old(dictionary.Model())) && r == Generate(old(dictionary.Model()), rnds)
      ensures r.Tweet? ==> wordInSen == |r.words|
      ensures iteration == if r.Tweet? then old(iteration) + 1 else old(iteration)
    {
      ghost var d := dictionary.Model();
      ghost var recs := dictionary.Contents();
      DictWellFormed(dictionary);
      DictMirrors(dictionary);
      if dictionary.size == 0 {
        return 0, EmptyDictionary;
      }
      var firstWord, used := GetFirstRandomWord(dictionary, d, recs, rnds);
      if firstWord == null {
        return 0, OutOfDraws([]);
      }
      ghost var k := FirstPick(d, rnds, 0).value.index;
      wordInSen, r := EmitWords(firstWord, d, recs, k, rnds, used);
      assert r == Generate(d, rnds);
      if r.Tweet? {
        iteration := iteration + 1;
      }
    }
  }

  /** `recs` are the records of a dictionary whose values are `d`, in
      order: each record's word is found at its own place, and every
      prob_list target is one of the records. */
  ghost predicate Mirrors(d: seq<Entry>, recs: seq<WordStruct>)
    reads recs
  {
    |d| == |recs|
    && (forall i :: 0 <= i < |recs| ==> d[i] == recs[i].Abs())
    && (forall i :: 0 <= i < |recs| ==> Find(d, recs[i].word) == Some(i))
    && (forall i, j :: 0 <= i < |recs| && 0 <= j < |recs[i].probList| ==> recs[i].probList[j].wordStructPtr in recs)
  }

  /** A dictionary's records mirror its values. */
  lemma DictMirrors(dictionary: LinkList)
    requires dictionary.UniqueWords() && dictionary.Closed()
    ensures Mirrors(dictionary.Model(), dictionary.Contents())
  {
    var recs := dictionary.Contents();
    forall i | 0 <= i < |recs| ensures Find(dictionary.Model(), recs[i].word) == Some(i) {
      FindSameIndex(dictionary, i);
    }
    forall i, j | 0 <= i < |recs| && 0 <= j < |recs[i].probList|
      ensures recs[i].probList[j].wordStructPtr in recs
    {
      RecordAt(dictionary, i);
    }
  }

  /** The record that entry `j` of record `cur`'s prob_list points at: its
      place, where its word is found, and its word is that entry's target. */
  lemma TargetIndex(d: seq<Entry>, recs: seq<WordStruct>, cur: nat, j: nat) returns (next: nat)
    requires Mirrors(d, recs) && cur < |recs| && j < |recs[cur].probList|
    ensures next < |recs| && recs[next] == recs[cur].probList[j].wordStructPtr
    ensures d[cur].succ[j].target == recs[next].word && Find(d, recs[next].word) == Some(next)
  {
    var p := recs[cur].probList[j].wordStructPtr;
    assert p in recs;
    next :| 0 <= next < |recs| && recs[next] == p;
    assert d[cur] == recs[cur].Abs();
  }

  /** One call of get_next_random_word on the record at index `cur` of
      `recs`: null exactly when Select finds no entry for the draw, and
      otherwise the record, at index `next`, whose word is the chosen
      entry's target. */
  method NextRecord(curWordPtr: WordStruct, ghost d: seq<Entry>, ghost recs: seq<WordStruct>, ghost cur: nat, rnd: nat)
      returns (nextWord: WordStruct?, ghost x: Option<nat>, ghost next: nat)
    requires Mirrors(d, recs) && Positive(d) && cur < |recs| && curWordPtr == recs[cur]
    ensures x == Select(d[cur].succ, Draw(rnd, d[cur].count))
    ensures nextWord == null <==> x.None?
    ensures x.Some? ==> next < |recs| && recs[next] == nextWord
    ensures x.Some? ==> nextWord.word == d[cur].succ[x.value].target && Find(d, nextWord.word) == Some(next)
  {
    assert d[cur] == curWordPtr.Abs();
    nextWord := GetNextRandomWord(curWordPtr, rnd);
    x := Select(d[cur].succ, Draw(rnd, d[cur].count));
    next := 0;
    if x.Some? {
      next := TargetIndex(d, recs, cur, x.value);
    }
  }

  /** The loop of generate_sentence from its first word `firstWord`, the
      record at index `k` of the records `recs` whose values are `d`, with
      `used` rand() values already consumed: each pass asks
      get_next_random_word for the next word, and the loop stops after a
      word ending in '.' or at the 20th word. The outcome is Emit's, and a
      completed sentence comes with its number of words. */
  method EmitWords(firstWord: WordStruct, ghost d: seq<Entry>, ghost recs: seq<WordStruct>, ghost k: nat,
                   rnds: seq<nat>, used: nat)
      returns (wordInSen: int, r: Outcome)
    requires Mirrors(d, recs) && WellFormed(d)
    requires k < |recs| && recs[k] == firstWord && used <= |rnds|
    ensures r == Emit(d, [firstWord.word], k, rnds, used)
    ensures r.Tweet? ==> wordInSen == |r.words|
  {
    ghost var cur: nat := k;
    var n: nat := used;
    var words := [firstWord.word];
    var curWordPtr := firstWord;
    wordInSen := 1;
    while true
      invariant 1 <= wordInSen < MaxWordsInSentence && wordInSen == |words|
      invariant n <= |rnds| && cur < |recs| && curWordPtr == recs[cur]
      invariant Emit(d, words, cur, rnds, n) == Emit(d, [firstWord.word], k, rnds, used)
      decreases MaxWordsInSentence - wordInSen
    {
      if n == |rnds| {
        assert Emit(d, words, cur, rnds, n) == OutOfDraws(words);
        return wordInSen, OutOfDraws(words);
      }
      var nextWord, x, next := NextRecord(curWordPtr, d, recs, cur, rnds[n]);
      if nextWord == null {
        EmitNull(d, words, cur, rnds, n);
        return wordInSen, NullWord(words, n + 1);
      }
      if EndsInDot(nextWord.word) || wordInSen + 1 == MaxWordsInSentence {
        EmitEnds(d, words, cur, rnds, n, x.value, nextWord.word);
        return wordInSen + 1, Tweet(words + [nextWord.word], n + 1);
      }
      var n' := n + 1;
      var words' := words + [nextWord.word];
      EmitOn(d, words, cur, rnds, n, x.value, nextWord.word, next, words', n');
      n, words := n', words';
      curWordPtr := nextWord;
      wordInSen := wordInSen + 1;
      cur := next;
    }
  }
}
