/** The top level of tweetsGenerator.c: filling the dictionary from the
    corpus, picking the first and the following words at random, and
    generating one tweet. rand() is replaced by the sequence of values it
    returns: each operation takes the values it may consume and says how
    many it used. */
module TweetsGenerator {
  import opened WordModel
  import opened Tokens
  import opened Ingest
  import opened Store
  import opened Sampler

  /** fill_dictionary over the corpus, given as the lines fgets returns.
      The dictionary ends up holding, as values, exactly what reading the
      tokens `Read` selects produces; see FillDictionaryFacts for what that
      dictionary satisfies. */
  method FillDictionary(fp: seq<string>, wordsToRead: int, dictionary: LinkList)
    requires dictionary.Dict() && dictionary.nodes == []
    modifies dictionary
    ensures dictionary.Dict()
    ensures dictionary.size == |dictionary.Model()|
    ensures dictionary.Model() == Build(Read(SplitAll(fp), wordsToRead))
  {
    ghost var lines := SplitAll(fp);
    ghost var all := Read(lines, wordsToRead);
    ghost var done: seq<seq<string>> := [];
    ReadSoFarStart(lines, wordsToRead);
    var i := 0;
    var k := 0;
    while k < |fp|
      invariant 0 <= k <= |fp|
      invariant ReadSoFar(lines, k, i, wordsToRead, done, all)
      invariant dictionary.Dict()
      invariant dictionary.Model() == Build(done)
      invariant dictionary.last == null || fresh(dictionary.last)
      invariant fresh(dictionary.Records())
    {
      var toks := Tokens.Split(fp[k]);
      assert toks == lines[k];
      ghost var t := Taken(|toks|, i, wordsToRead);
      ghost var i0 := i;
      ghost var done0 := done;
      BuildSnoc(done, toks[..t]);
      i := ReadLine(toks, i, wordsToRead, dictionary);
      done := done + [toks[..t]];
      ReadNextLine(lines, k, i0, i, wordsToRead, done0, done, all);
      if i == wordsToRead {
        break;
      }
      k := k + 1;
    }
    if k == |fp| {
      ReadSoFarDone(lines, i, wordsToRead, done, all);
    }
  }

  /** The token loop of fill_dictionary over the tokens `toks` of one line,
      `i` tokens having been read before it: it reads the tokens Taken
      allows, the first one with no previous word, and returns the new
      count. */
  method ReadLine(toks: seq<string>, i: int, wordsToRead: int, dictionary: LinkList) returns (i': int)
    requires dictionary.Dict()
    modifies dictionary, dictionary.last, dictionary.Records()
    ensures dictionary.Dict()
    ensures i' == i + Taken(|toks|, i, wordsToRead)
    ensures dictionary.Model() == BuildLine(old(dictionary.Model()), toks[..Taken(|toks|, i, wordsToRead)])
    ensures dictionary.last == old(dictionary.last) || fresh(dictionary.last)
    ensures forall x :: x in dictionary.Records() ==> x in old(dictionary.Records()) || fresh(x)
  {
    ghost var t := Taken(|toks|, i, wordsToRead);
    ghost var base := dictionary.Model();
    var prevWord: WordStruct? := null;
    i' := i;
    var j := 0;
    while j < |toks| && (wordsToRead == 0 || i' < wordsToRead)
      invariant 0 <= j <= t && i' == i + j
      invariant dictionary.Dict()
      invariant dictionary.Model() == BuildLine(base, toks[..j])
      invariant dictionary.last == old(dictionary.last) || fresh(dictionary.last)
      invariant forall x :: x in dictionary.Records() ==> x in old(dictionary.Records()) || fresh(x)
      invariant j == 0 ==> prevWord == null
      invariant j > 0 ==> prevWord != null && prevWord in dictionary.Records() && prevWord.word == toks[j - 1]
    {
      TakenGuard(|toks|, i, wordsToRead, j);
      var j' := j + 1;
      prevWord := ReadNext(toks, j, j', base, prevWord, dictionary);
      i' := i' + 1;
      j := j';
    }
    TakenGuard(|toks|, i, wordsToRead, j);
  }

  /** One pass of the token loop of ReadLine: token `j` is read, its
      predecessor on the line being `prevWord`, and `j'` tokens of the line
      have then been read. `j'` is always `j + 1`; it is passed in, rather
      than written as `j + 1` here, so that the postcondition speaks of the
      very prefix `toks[..j']` that ReadLine's loop invariant names after
      `j := j'`, and the loop body needs no reasoning about the heap to match
      the two. Kept apart from ReadLine so that the frame reasoning of one
      token and the loop's bookkeeping are proved separately. */
  method ReadNext(toks: seq<string>, j: nat, j': nat, ghost base: seq<Entry>, prevWord: WordStruct?, dictionary: LinkList)
      returns (newWordStruct: WordStruct)
    requires j < |toks| && j' == j + 1
    requires dictionary.Dict() && dictionary.Model() == BuildLine(base, toks[..j])
    requires j == 0 ==> prevWord == null
    requires j > 0 ==> prevWord != null && prevWord in dictionary.Records() && prevWord.word == toks[j - 1]
    modifies dictionary, dictionary.last, dictionary.Records()
    ensures dictionary.Dict() && dictionary.Model() == BuildLine(base, toks[..j'])
    ensures newWordStruct in dictionary.Records() && newWordStruct.word == toks[j]
    ensures dictionary.last == old(dictionary.last) || fresh(dictionary.last)
    ensures forall x :: x in dictionary.Records() ==> x in old(dictionary.Records()) || fresh(x)
  {
    BuildLineNext(base, toks, j);
    newWordStruct := ReadToken(toks[j], prevWord, dictionary);
  }

  /** One pass of fill_dictionary's token loop for token `word` with
      previous token `prevWord`: add_word_to_wordstruct, add when the word
      is new, then add_to_prob; the record of `word` is returned as the next
      `prev_word`. On values this is Step. */
  method ReadToken(word: string, prevWord: WordStruct?, dictionary: LinkList) returns (newWordStruct: WordStruct)
    requires dictionary.Dict()
    requires prevWord != null ==> prevWord in dictionary.Records()
    modifies dictionary, dictionary.last, dictionary.Records()
    ensures dictionary.Dict()
    ensures dictionary.Model() ==
      Step(old(dictionary.Model()), if prevWord == null then None else Some(prevWord.word), word)
    ensures newWordStruct in dictionary.Records() && newWordStruct.word == word
    ensures dictionary.Records() == old(dictionary.Records()) + {newWordStruct}
    ensures newWordStruct in old(dictionary.Records()) || fresh(newWordStruct)
    ensures dictionary.last == old(dictionary.last) || fresh(dictionary.last)
  {
    newWordStruct := CountWord(word, dictionary);
    RecordEdge(dictionary, prevWord, newWordStruct, word);
  }

  /** add_word_to_wordstruct followed by `if (in_dict == 0) add (dictionary,
      new_word_struct)`: the word is counted, as a new last record when it
      was not in the dictionary. */
  method CountWord(word: string, dictionary: LinkList) returns (r: WordStruct)
    requires dictionary.Dict()
    modifies dictionary, dictionary.last, dictionary.Records()
    ensures dictionary.Dict()
    ensures dictionary.Model() == AddWord(old(dictionary.Model()), word)
    ensures r in dictionary.Records() && r.word == word
    ensures dictionary.Records() == old(dictionary.Records()) + {r}
    ensures r in old(dictionary.Records()) || fresh(r)
    ensures dictionary.last == old(dictionary.last) || fresh(dictionary.last)
  {
    ghost var m0 := dictionary.Model();
    var inDict;
    r, inDict := AddWordToWordstruct(word, dictionary, 0);
    if inDict == 0 {
      AddNewRecord(dictionary, r, m0);
    } else {
      AddWordFound(m0, word, Find(m0, word).value);
      assert r == dictionary.Contents()[Find(m0, word).value];
    }
  }

  /** The `if (in_dict == 0) add (dictionary, new_word_struct)` step of
      fill_dictionary for a word not yet in the dictionary: the list gains
      the fresh record as its last one and stays a dictionary. */
  method AddNewRecord(dictionary: LinkList, r: WordStruct, ghost m0: seq<Entry>)
    requires dictionary.Dict() && dictionary.Model() == m0
    requires r.probList == [] && r.appearsInTxt == 1 && Find(m0, r.word).None?
    modifies dictionary, dictionary.last
    ensures dictionary.Dict()
    ensures dictionary.Contents() == old(dictionary.Contents()) + [r]
    ensures dictionary.Records() == old(dictionary.Records()) + {r}
    ensures dictionary.nodes == old(dictionary.nodes) + [dictionary.last] && fresh(dictionary.last)
    ensures dictionary.Model() == AddWord(m0, r.word)
  {
    ghost var ws := dictionary.Contents();
    ghost var recs := dictionary.Records();
    dictionary.Add(r);
    AddWordNew(m0, r.word);
    assert SuccsOf([]) == [];
    assert forall q :: 0 <= q < |ws| ==> ws[q].Abs() == m0[q];
    assert dictionary.Model() == m0 + [Entry(r.word, 1, [])];
    assert dictionary.Records() == recs + {r};
    assert forall q :: 0 <= q < |ws| ==> ws[q].word == m0[q].word != r.word;
    forall x | x in recs + {r} ensures RecordOk(x, recs + {r}) {
      if x != r {
        assert old(RecordOk(x, recs));
      }
    }
  }

  /** The add_to_prob step of fill_dictionary: records prev -> cur in the
      dictionary's values as Step does, given that `cur` was just counted. */
  method RecordEdge(dictionary: LinkList, prevWord: WordStruct?, cur: WordStruct, ghost c: string)
    requires dictionary.UniqueWords() && dictionary.Closed()
    requires cur in dictionary.Records() && cur.word == c
    requires prevWord != null ==> prevWord in dictionary.Records()
    modifies prevWord
    ensures dictionary.Closed()
    ensures unchanged(dictionary) && unchanged(dictionary.nodeSet)
    ensures dictionary.Model() ==
      if prevWord != null && !EndsInDot(prevWord.word) then AddEdge(old(dictionary.Model()), prevWord.word, c)
      else old(dictionary.Model())
  {
    ghost var ws := dictionary.Contents();
    ghost var m1 := dictionary.Model();
    ghost var recs := dictionary.Records();
    if prevWord != null && !EndsInDot(prevWord.word) {
      ghost var p :| 0 <= p < |ws| && ws[p] == prevWord;
      ghost var ps := prevWord.probList;
      FindSameIndex(dictionary, p);
      var _ := AddToProb(prevWord, cur);
      forall q | 0 <= q < |ws| ensures ws[q].Abs() == m1[p := ws[p].Abs()][q] {
        if q != p {
          assert ws[q] != prevWord;
        }
      }
      forall x | x in recs && x != prevWord ensures RecordOk(x, recs) {
        assert old(RecordOk(x, recs));
      }
      RecordedClosed(ps, cur, recs);
      RecordedIsBump(ps, cur);
      AddEdgeAt(m1, prevWord.word, c, p);
      assert ws[p].Abs() == m1[p].(succ := Bump(m1[p].succ, c));
      assert dictionary.Model() == m1[p := ws[p].Abs()];
    } else {
      var _ := AddToProb(prevWord, cur);
    }
  }

  /** Recording an edge to a record of the dictionary keeps its prob_list
      pointing into the dictionary, with positive weights. */
  lemma RecordedClosed(ps: seq<WordProbability>, cur: WordStruct, records: set<WordStruct>)
    requires cur in records
    requires forall j :: 0 <= j < |ps| ==> ps[j].wordStructPtr in records && ps[j].appearsAfterWord >= 1
    ensures forall j :: 0 <= j < |Recorded(ps, cur)| ==>
      Recorded(ps, cur)[j].wordStructPtr in records && Recorded(ps, cur)[j].appearsAfterWord >= 1
  {
  }

  /** In the dictionary fill_dictionary builds, get_next_random_word returns
      NULL for a word not ending in '.' exactly when the rand() value modulo
      the word's occurrences is at least the number of its occurrences
      followed by another word on the same line: a word that ever ends a
      line can end the walk with NULL. */
  lemma NullDrawIff(text: seq<string>, cap: int, k: nat, rnd: nat)
    requires k < |Build(Read(SplitAll(text), cap))|
    requires !EndsInDot(Build(Read(SplitAll(text), cap))[k].word)
    ensures var R := Read(SplitAll(text), cap); var d := Build(R);
      d[k].count == Occ(Flatten(R), d[k].word) >= 1
      && (Select(d[k].succ, Draw(rnd, d[k].count)).None?
          <==> rnd % Occ(Flatten(R), d[k].word) >= Followers(R, d[k].word))
  {
    var R := Read(SplitAll(text), cap);
    var d := Build(R);
    FillDictionaryFacts(text, cap);
    BuildInv(R);
    assert NonNegative(d[k].succ);
    GetRandomNumberIsRemainder(rnd, d[k].count);
    SelectNoneIff(d[k].succ, Draw(rnd, d[k].count));
  }
}
