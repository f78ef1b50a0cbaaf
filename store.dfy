/** The word store of tweetsGenerator.c on the heap: WordStruct records,
    their prob_list of WordProbability entries, and the LinkList of Nodes
    that holds the records in insertion order. */
module Store {
  import opened WordModel

  class WordStruct {
    /** The string is copied once when the record is made and never changes. */
    const word: string
    var probList: seq<WordProbability>
    var appearsInTxt: int

    /** allocate_word_struct followed by the field initialisation of
        add_word_to_wordstruct: count 1, empty prob_list. */
    constructor (word: string)
      ensures this.word == word && probList == [] && appearsInTxt == 1
    {
      this.word := word;
      probList := [];
      appearsInTxt := 1;
    }

    /** The record as a value. */
    ghost function Abs(): Entry
      reads this
    {
      Entry(word, appearsInTxt, SuccsOf(probList))
    }
  }

  datatype WordProbability = WordProbability(wordStructPtr: WordStruct, appearsAfterWord: int)

  /** A prob_list as values: the target's word and the weight of each entry. */
  function SuccsOf(ps: seq<WordProbability>): seq<Succ>
  {
    seq(|ps|, j requires 0 <= j < |ps| => Succ(ps[j].wordStructPtr.word, ps[j].appearsAfterWord))
  }

  /** The prob_list after add_word_to_probability_list(_, second): the first
      entry whose target's word equals second's word gains one, or else
      {second, 1} is appended. */
  function Recorded(ps: seq<WordProbability>, second: WordStruct): (r: seq<WordProbability>)
    ensures |ps| <= |r| <= |ps| + 1
    ensures |r| == |ps| + 1 ==> r[|ps|] == WordProbability(second, 1)
  {
    match FindTarget(SuccsOf(ps), second.word)
    case Some(j) => ps[j := ps[j].(appearsAfterWord := ps[j].appearsAfterWord + 1)]
    case None => ps + [WordProbability(second, 1)]
  }

  /** As values, recording an edge is bumping its target's weight. */
  lemma RecordedIsBump(ps: seq<WordProbability>, second: WordStruct)
    ensures SuccsOf(Recorded(ps, second)) == Bump(SuccsOf(ps), second.word)
  {
  }

  /** A record whose count is positive and whose prob_list entries point
      into `records` with positive weights. */
  ghost predicate RecordOk(x: WordStruct, records: set<WordStruct>)
    reads x
  {
    x.appearsInTxt >= 1
    && forall j :: 0 <= j < |x.probList| ==>
         x.probList[j].wordStructPtr in records && x.probList[j].appearsAfterWord >= 1
  }

  class Node {
    const data: WordStruct
    var next: Node?

    constructor (data: WordStruct)
      ensures this.data == data && next == null
    {
      this.data := data;
      next := null;
    }
  }

  class LinkList {
    var first: Node?
    var last: Node?
    var size: int
    /** The nodes from first to last. */
    ghost var nodes: seq<Node>
    /** The record held by each of those nodes. */
    ghost var records: seq<WordStruct>
    /** The nodes, as a set. */
    ghost var nodeSet: set<Node>

    /** first/last/size agree with the chain of next links. */
    ghost predicate Valid()
      reads this, nodeSet
    {
      (forall i :: 0 <= i < |nodes| ==> nodes[i] in nodeSet)
      && size == |nodes|
      && (nodes == [] ==> first == null && last == null)
      && (nodes != [] ==> first == nodes[0] && last == nodes[|nodes| - 1] && last.next == null)
      && (forall i :: 0 <= i < |nodes| - 1 ==> nodes[i].next == nodes[i + 1])
      && (forall i, j :: 0 <= i < j < |nodes| ==> nodes[i] != nodes[j])
      && |records| == |nodes|
      && (forall i :: 0 <= i < |nodes| ==> nodes[i].data == records[i])
    }

    /** The records in list order. */
    ghost function Contents(): seq<WordStruct>
      reads this
    {
      records
    }

    /** The records in list order, as values. */
    ghost function Model(): seq<Entry>
      reads this, Contents()
    {
      var ws := Contents();
      seq(|ws|, i requires 0 <= i < |ws| reads ws => ws[i].Abs())
    }

    /** No two records share a word. */
    ghost predicate UniqueWords()
      reads this
    {
      var ws := Contents();
      forall i, j :: 0 <= i < j < |ws| ==> ws[i].word != ws[j].word
    }

    /** The records of the list, as a set. */
    ghost function Records(): set<WordStruct>
      reads this
    {
      set w | w in Contents()
    }

    /** Every record's count is positive, and every prob_list entry points
        at a record of this list with a positive weight. */
    ghost predicate Closed()
      reads this, Contents()
    {
      forall x :: x in Records() ==> RecordOk(x, Records())
    }

    /** The invariant of the dictionary between operations. */
    ghost predicate Dict()
      reads this, nodeSet, Contents()
    {
      Valid() && UniqueWords() && Closed()
    }

    /** The empty list `(LinkList) {NULL, NULL, 0}`. */
    constructor ()
      ensures Dict() && nodes == [] && records == [] && size == 0 && first == null && last == null
    {
      first, last, size := null, null, 0;
      nodes, records, nodeSet := [], [], {};
    }

    /** add: appends a node holding `data`; `first` changes only when the
        list was empty, `last` becomes the new node, `size` grows by one. */
    method Add(data: WordStruct)
      requires Valid()
      modifies this, last
      ensures Valid()
      ensures last != null && fresh(last) && last.data == data
      ensures nodes == old(nodes) + [last]
      ensures Contents() == old(Contents()) + [data]
      ensures size == old(size) + 1
      ensures old(first) != null ==> first == old(first)
      ensures old(first) == null ==> first == last
    {
      var newNode := new Node(data);
      if first == null {
        first := newNode;
        last := newNode;
      } else {
        last.next := newNode;
        last := newNode;
      }
      size := size + 1;
      nodes := nodes + [newNode];
      records := records + [data];
      nodeSet := nodeSet + {newNode};
    }
  }

  /** check_if_in_dict: the first record in list order holding `wordPtr`,
      or null when there is none. */
  method CheckIfInDict(wordPtr: string, dictionary: LinkList) returns (r: WordStruct?)
    requires dictionary.Valid()
    ensures r == null <==> Find(dictionary.Model(), wordPtr).None?
    ensures r != null ==> r == dictionary.Contents()[Find(dictionary.Model(), wordPtr).value]
  {
    var cur := dictionary.first;
    ghost var k := 0;
    ghost var ws := dictionary.Contents();
    ghost var m := dictionary.Model();
    assert forall j :: 0 <= j < |ws| ==> m[j].word == ws[j].word;
    while cur != null
      invariant 0 <= k <= |dictionary.nodes|
      invariant cur == if k < |dictionary.nodes| then dictionary.nodes[k] else null
      invariant forall j :: 0 <= j < k ==> ws[j].word != wordPtr
      decreases |dictionary.nodes| - k
    {
      if wordPtr == cur.data.word {
        FindAt(m, wordPtr, k);
        return cur.data;
      }
      cur := cur.next;
      k := k + 1;
    }
    return null;
  }

  /** add_word_to_wordstruct: a word already present has its record's count
      raised by one, `*flag` set to 1 and that record returned; otherwise a
      fresh record (count 1, empty prob_list) is returned and neither the
      dictionary nor `*flag` changes. */
  method AddWordToWordstruct(wordPtr: string, dictionary: LinkList, flag: int)
      returns (r: WordStruct, flagOut: int)
    requires dictionary.Dict()
    modifies dictionary.Contents()
    ensures dictionary.Dict()
    ensures match Find(old(dictionary.Model()), wordPtr)
      case Some(k) =>
        r == dictionary.Contents()[k] && flagOut == 1
        && dictionary.Model() == old(dictionary.Model())[k := old(dictionary.Model())[k].(count := old(dictionary.Model())[k].count + 1)]
      case None =>
        fresh(r) && r.word == wordPtr && r.appearsInTxt == 1 && r.probList == []
        && flagOut == flag && dictionary.Model() == old(dictionary.Model())
  {
    var curWord := CheckIfInDict(wordPtr, dictionary);
    if curWord != null {
      ghost var k := Find(dictionary.Model(), wordPtr).value;
      IncrementCount(dictionary, curWord, k);
      flagOut := 1;
      r := curWord;
    } else {
      r := new WordStruct(wordPtr);
      flagOut := flag;
    }
  }

  /** `cur_word->appears_in_txt += 1` on the `k`-th record of the
      dictionary: it stays a dictionary and only that count changes. */
  method IncrementCount(dictionary: LinkList, x: WordStruct, ghost k: nat)
    requires dictionary.Dict() && k < |dictionary.Contents()| && dictionary.Contents()[k] == x
    modifies x
    ensures dictionary.Dict()
    ensures dictionary.Model() == old(dictionary.Model())[k := old(dictionary.Model())[k].(count := old(dictionary.Model())[k].count + 1)]
  {
    ghost var ws := dictionary.Contents();
    ghost var recs := dictionary.Records();
    x.appearsInTxt := x.appearsInTxt + 1;
    forall i | 0 <= i < |ws| && i != k ensures ws[i].Abs() == old(ws[i].Abs()) {
      assert ws[i] != x;
    }
    forall y | y in recs ensures RecordOk(y, recs) {
      assert old(RecordOk(y, recs));
    }
  }

  /** add_word_to_probability_list: when an entry's target has the word of
      `secondWord`, the first such entry gains one and 0 is returned;
      otherwise {secondWord, 1} is appended and 1 is returned. Every other
      entry stays as it was. */
  method AddWordToProbabilityList(firstWord: WordStruct, secondWord: WordStruct) returns (r: int)
    modifies firstWord
    ensures firstWord.appearsInTxt == old(firstWord.appearsInTxt)
    ensures match FindTarget(SuccsOf(old(firstWord.probList)), secondWord.word)
      case Some(j) =>
        r == 0
        && firstWord.probList == old(firstWord.probList)[j := old(firstWord.probList)[j].(appearsAfterWord := old(firstWord.probList)[j].appearsAfterWord + 1)]
      case None =>
        r == 1 && firstWord.probList == old(firstWord.probList) + [WordProbability(secondWord, 1)]
  {
    ghost var s := SuccsOf(firstWord.probList);
    var i := 0;
    while i < |firstWord.probList|
      invariant 0 <= i <= |firstWord.probList|
      invariant firstWord.probList == old(firstWord.probList)
      invariant forall j :: 0 <= j < i ==> s[j].target != secondWord.word
    {
      if firstWord.probList[i].wordStructPtr.word == secondWord.word {
        FindTargetAt(s, secondWord.word, i);
        firstWord.probList := firstWord.probList[i := firstWord.probList[i].(appearsAfterWord := firstWord.probList[i].appearsAfterWord + 1)];
        return 0;
      }
      i := i + 1;
    }
    firstWord.probList := firstWord.probList + [WordProbability(secondWord, 1)];
    return 1;
  }

  /** add_to_prob: with no previous word, or one ending in '.', nothing
      changes and 1 is returned; otherwise the edge prev -> cur is recorded
      and 0 is returned. */
  method AddToProb(prevWord: WordStruct?, curWord: WordStruct) returns (r: int)
    modifies prevWord
    ensures r == (if prevWord == null || EndsInDot(prevWord.word) then 1 else 0)
    ensures prevWord != null ==> prevWord.appearsInTxt == old(prevWord.appearsInTxt)
    ensures prevWord != null ==>
      prevWord.probList == (if r == 1 then old(prevWord.probList) else Recorded(old(prevWord.probList), curWord))
  {
    if prevWord == null {
      return 1;
    }
    if EndsInDot(prevWord.word) {
      return 1;
    }
    var _ := AddWordToProbabilityList(prevWord, curWord);
    return 0;
  }

  /** In a dictionary, a record's word is found at that record's place. */
  lemma FindSameIndex(dictionary: LinkList, p: nat)
    requires dictionary.UniqueWords() && p < |dictionary.Contents()|
    ensures Find(dictionary.Model(), dictionary.Contents()[p].word) == Some(p)
  {
    var ws := dictionary.Contents();
    var m := dictionary.Model();
    FindAt(m, ws[p].word, p);
  }
}
