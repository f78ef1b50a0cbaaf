/** Value-level model of the word dictionary that tweetsGenerator.c builds:
    every word record (word, appears_in_txt, prob_list) and the effect of
    reading one token, one line and a whole sequence of lines. */
module WordModel {

  import opened Tokens

  datatype Option<T> = None | Some(value: T)

  /** One entry of a prob_list: the successor word and appears_after_word. */
  datatype Succ = Succ(target: string, weight: int)

  /** One WordStruct: the word, appears_in_txt and its prob_list. */
  datatype Entry = Entry(word: string, count: int, succ: seq<Succ>)

  /** A word is terminal when its last character is the full stop. */
  predicate EndsInDot(w: string)
  {
    |w| > 0 && w[|w| - 1] == '.'
  }

  /** The first record in list order whose word is `w`, if any. */
  function Find(d: seq<Entry>, w: string): (r: Option<nat>)
    ensures r.Some? ==> r.value < |d| && d[r.value].word == w
    ensures r.Some? ==> forall k :: 0 <= k < r.value ==> d[k].word != w
    ensures r.None? <==> forall k :: 0 <= k < |d| ==> d[k].word != w
  {
    if d == [] then None
    else if d[0].word == w then Some(0)
    else match Find(d[1..], w)
      case None => None
      case Some(k) => Some(k + 1)
  }

  /** The first entry of a prob_list whose target is `t`, if any. */
  function FindTarget(s: seq<Succ>, t: string): (r: Option<nat>)
    ensures r.Some? ==> r.value < |s| && s[r.value].target == t
    ensures r.Some? ==> forall k :: 0 <= k < r.value ==> s[k].target != t
    ensures r.None? <==> forall k :: 0 <= k < |s| ==> s[k].target != t
  {
    if s == [] then None
    else if s[0].target == t then Some(0)
    else match FindTarget(s[1..], t)
      case None => None
      case Some(k) => Some(k + 1)
  }

  /** Sum of the weights of the first `n` entries of a prob_list. */
  function Cum(s: seq<Succ>, n: nat): int
    requires n <= |s|
  {
    if n == 0 then 0 else Cum(s, n - 1) + s[n - 1].weight
  }

  /** Sum of all weights of a prob_list. */
  function Total(s: seq<Succ>): int
  {
    Cum(s, |s|)
  }

  /** The prob_list after recording one more occurrence of `t` as a follower. */
  function Bump(s: seq<Succ>, t: string): (r: seq<Succ>)
    ensures |r| == |s| + (if FindTarget(s, t).None? then 1 else 0)
    ensures FindTarget(s, t).None? ==> r[|s|] == Succ(t, 1)
  {
    match FindTarget(s, t)
    case Some(j) => s[j := s[j].(weight := s[j].weight + 1)]
    case None => s + [Succ(t, 1)]
  }

  /** The dictionary after counting one occurrence of `w`. */
  function AddWord(d: seq<Entry>, w: string): (r: seq<Entry>)
    ensures |r| == |d| + (if Find(d, w).None? then 1 else 0)
    ensures Find(d, w).None? ==> r[|d|] == Entry(w, 1, [])
  {
    match Find(d, w)
    case Some(k) => d[k := d[k].(count := d[k].count + 1)]
    case None => d + [Entry(w, 1, [])]
  }

  /** The dictionary after recording the edge p -> c in p's prob_list. */
  function AddEdge(d: seq<Entry>, p: string, c: string): (r: seq<Entry>)
    ensures |r| == |d|
  {
    match Find(d, p)
    case Some(k) => d[k := d[k].(succ := Bump(d[k].succ, c))]
    case None => d
  }

  /** Reading token `c` whose predecessor on the same line is `prev`. */
  function Step(d: seq<Entry>, prev: Option<string>, c: string): (r: seq<Entry>)
    ensures |r| == |d| + (if Find(d, c).None? then 1 else 0)
  {
    var d1 := AddWord(d, c);
    if prev.Some? && !EndsInDot(prev.value) then AddEdge(d1, prev.value, c) else d1
  }

  function Last(line: seq<string>): Option<string>
  {
    if line == [] then None else Some(line[|line| - 1])
  }

  /** Reading the tokens of one line, the previous word starting out absent. */
  function BuildLine(d: seq<Entry>, line: seq<string>): (r: seq<Entry>)
    ensures |d| <= |r| <= |d| + |line|
  {
    if line == [] then d
    else
      var before := line[..|line| - 1];
      Step(BuildLine(d, before), Last(before), line[|line| - 1])
  }

  /** Reading one more token of a line is one more Step, its predecessor
      being the token before it on that line. */
  lemma BuildLineNext(d: seq<Entry>, line: seq<string>, j: nat)
    requires j < |line|
    ensures BuildLine(d, line[..j + 1]) ==
      Step(BuildLine(d, line[..j]), if j == 0 then None else Some(line[j - 1]), line[j])
  {
    assert line[..j + 1][..j] == line[..j];
  }

  /** Reading the given lines into an empty dictionary. */
  function Build(lines: seq<seq<string>>): (r: seq<Entry>)
    ensures |r| <= |Flatten(lines)|
  {
    if lines == [] then [] else BuildLine(Build(lines[..|lines| - 1]), lines[|lines| - 1])
  }

  /** Reading one more line into the dictionary. */
  lemma BuildSnoc(lines: seq<seq<string>>, line: seq<string>)
    ensures Build(lines + [line]) == BuildLine(Build(lines), line)
  {
    assert (lines + [line])[..|lines|] == lines;
  }

  /** Number of occurrences of `w` in `ws`. */
  function Occ(ws: seq<string>, w: string): nat
  {
    if ws == [] then 0 else Occ(ws[..|ws| - 1], w) + (if ws[|ws| - 1] == w then 1 else 0)
  }

  /** Occurrences of `w` in a line that are followed by another token of that line. */
  function InLine(line: seq<string>, w: string): nat
  {
    if |line| <= 1 then 0
    else InLine(line[..|line| - 1], w) + (if line[|line| - 2] == w then 1 else 0)
  }

  /** Occurrences of `w` that have a follower on the same line, over all lines. */
  function Followers(lines: seq<seq<string>>, w: string): nat
  {
    if lines == [] then 0 else Followers(lines[..|lines| - 1], w) + InLine(lines[|lines| - 1], w)
  }

  /** Words are pairwise distinct. */
  ghost predicate Unique(d: seq<Entry>)
  {
    forall i, j :: 0 <= i < j < |d| ==> d[i].word != d[j].word
  }

  /** appears_in_txt of the record for `w`, or 0 when there is none. */
  function CountOf(d: seq<Entry>, w: string): int
  {
    match Find(d, w)
    case Some(k) => d[k].count
    case None => 0
  }

  /** Weight sum of the prob_list of the record for `w`, or 0 when there is none. */
  function TotalOf(d: seq<Entry>, w: string): int
  {
    match Find(d, w)
    case Some(k) => Total(d[k].succ)
    case None => 0
  }

  /** All counts and all weights are at least 1. */
  ghost predicate Positive(d: seq<Entry>)
  {
    (forall k :: 0 <= k < |d| ==> d[k].count >= 1)
    && (forall k, j :: 0 <= k < |d| && 0 <= j < |d[k].succ| ==> d[k].succ[j].weight >= 1)
  }

  /** What the dictionary promises after reading `lines`: unique words, the
      record of every word counts its occurrences (so a word has a record
      exactly when it was read), and the successor weights of a non-terminal
      word sum to its number of same-line followers, while a terminal word
      has none. */
  ghost predicate Inv(d: seq<Entry>, lines: seq<seq<string>>)
  {
    Unique(d) && Positive(d)
    && (forall w :: CountOf(d, w) == Occ(Flatten(lines), w))
    && (forall w :: TotalOf(d, w) == if EndsInDot(w) then 0 else Followers(lines, w))
  }

  // ---- prob_list sums ----

  lemma {:induction false} CumPrefix(a: seq<Succ>, b: seq<Succ>, n: nat)
    requires n <= |a| && n <= |b| && a[..n] == b[..n]
    ensures Cum(a, n) == Cum(b, n)
  {
    if n > 0 {
      assert a[n - 1] == a[..n][n - 1] == b[..n][n - 1] == b[n - 1];
      assert a[..n - 1] == a[..n][..n - 1] == b[..n][..n - 1] == b[..n - 1];
      CumPrefix(a, b, n - 1);
    }
  }

  lemma TotalSnoc(s: seq<Succ>, x: Succ)
    ensures Total(s + [x]) == Total(s) + x.weight
  {
    assert (s + [x])[..|s|] == s[..|s|];
    CumPrefix(s + [x], s, |s|);
  }

  lemma {:induction false} CumUpdate(s: seq<Succ>, j: nat, e: Succ, n: nat)
    requires j < |s| && n <= |s|
    ensures Cum(s[j := e], n) == Cum(s, n) + (if j < n then e.weight - s[j].weight else 0)
  {
    if n > 0 {
      CumUpdate(s, j, e, n - 1);
    }
  }

  /** Recording a follower adds exactly one to the weight sum. */
  lemma BumpTotal(s: seq<Succ>, t: string)
    ensures Total(Bump(s, t)) == Total(s) + 1
  {
    match FindTarget(s, t)
    case Some(j) => CumUpdate(s, j, s[j].(weight := s[j].weight + 1), |s|);
    case None => TotalSnoc(s, Succ(t, 1));
  }

  // ---- lookups ----

  lemma FindIndex(d: seq<Entry>, k: nat)
    requires Unique(d) && k < |d|
    ensures Find(d, d[k].word) == Some(k)
  {
  }

  lemma FindSameWords(d: seq<Entry>, e: seq<Entry>, w: string)
    requires |d| == |e| && forall i :: 0 <= i < |d| ==> d[i].word == e[i].word
    ensures Find(d, w) == Find(e, w)
  {
    match Find(d, w)
    case None =>
    case Some(k) =>
      assert e[k].word == w;
  }

  /** Find is determined by its contract: the first index holding `w`. */
  lemma FindAt(d: seq<Entry>, w: string, k: nat)
    requires k < |d| && d[k].word == w && forall j :: 0 <= j < k ==> d[j].word != w
    ensures Find(d, w) == Some(k)
  {
  }

  /** FindTarget is determined by its contract: the first index holding `t`. */
  lemma FindTargetAt(s: seq<Succ>, t: string, k: nat)
    requires k < |s| && s[k].target == t && forall j :: 0 <= j < k ==> s[j].target != t
    ensures FindTarget(s, t) == Some(k)
  {
  }

  lemma FindSnoc(d: seq<Entry>, x: Entry, w: string)
    ensures Find(d + [x], w)
      == if Find(d, w).Some? then Find(d, w) else if x.word == w then Some(|d|) else None
  {
    var e := d + [x];
    assert forall j :: 0 <= j < |d| ==> e[j] == d[j];
    match Find(d, w)
    case Some(k) =>
      FindAt(e, w, k);
    case None =>
      if x.word == w {
        FindAt(e, w, |d|);
      }
  }

  // ---- counting ----

  lemma OccSnoc(ws: seq<string>, c: string, w: string)
    ensures Occ(ws + [c], w) == Occ(ws, w) + (if c == w then 1 else 0)
  {
    assert (ws + [c])[..|ws|] == ws;
  }

  lemma {:induction false} OccAppend(a: seq<string>, b: seq<string>, w: string)
    ensures Occ(a + b, w) == Occ(a, w) + Occ(b, w)
  {
    if b != [] {
      var b' := b[..|b| - 1];
      assert a + b == (a + b') + [b[|b| - 1]];
      OccAppend(a, b', w);
      OccSnoc(a + b', b[|b| - 1], w);
    } else {
      assert a + b == a;
    }
  }

  lemma InLineSnoc(line: seq<string>, c: string, w: string)
    ensures InLine(line + [c], w) == InLine(line, w) + (if Last(line) == Some(w) then 1 else 0)
  {
    assert (line + [c])[..|line|] == line;
  }

  lemma FollowersSnoc(lines: seq<seq<string>>, x: seq<string>, w: string)
    ensures Followers(lines + [x], w) == Followers(lines, w) + InLine(x, w)
  {
    assert (lines + [x])[..|lines|] == lines;
  }

  /** Every occurrence in a line either has a follower there or ends the line. */
  lemma {:induction false} InLineOcc(line: seq<string>, w: string)
    ensures InLine(line, w) + (if Last(line) == Some(w) then 1 else 0) == Occ(line, w)
  {
    if line != [] {
      var before := line[..|line| - 1];
      assert line == before + [line[|line| - 1]];
      InLineOcc(before, w);
      InLineSnoc(before, line[|line| - 1], w);
      OccSnoc(before, line[|line| - 1], w);
    }
  }

  /** A word has at most as many same-line followers as occurrences. */
  lemma {:induction false} FollowersAtMostOcc(lines: seq<seq<string>>, w: string)
    ensures Followers(lines, w) <= Occ(Flatten(lines), w)
  {
    if lines != [] {
      var init := lines[..|lines| - 1];
      var x := lines[|lines| - 1];
      FollowersAtMostOcc(init, w);
      InLineOcc(x, w);
      OccAppend(Flatten(init), x, w);
    }
  }

  // ---- one token ----

  /** add_word_to_wordstruct and add: one more occurrence of `c`, nothing else. */
  lemma AddWordCount(d: seq<Entry>, c: string, w: string)
    ensures CountOf(AddWord(d, c), w) == CountOf(d, w) + (if w == c then 1 else 0)
    ensures TotalOf(AddWord(d, c), w) == TotalOf(d, w)
  {
    var d1 := AddWord(d, c);
    match Find(d, c)
    case Some(k) =>
      AddWordFound(d, c, k);
      FindSameWords(d1, d, w);
    case None =>
      AddWordNew(d, c);
      FindSnoc(d, Entry(c, 1, []), w);
      assert forall i :: 0 <= i < |d| ==> d1[i] == d[i];
  }

  /** add_to_prob on a present word: one more follower of `p`, nothing else. */
  lemma AddEdgeCount(d: seq<Entry>, p: string, c: string, w: string)
    ensures CountOf(AddEdge(d, p, c), w) == CountOf(d, w)
    ensures TotalOf(AddEdge(d, p, c), w) == TotalOf(d, w) + (if w == p && Find(d, p).Some? then 1 else 0)
  {
    match Find(d, p)
    case Some(k) =>
      AddEdgeAt(d, p, c, k);
      FindSameWords(AddEdge(d, p, c), d, w);
      BumpTotal(d[k].succ, c);
    case None =>
  }

  lemma UniqueStep(d: seq<Entry>, prev: Option<string>, c: string)
    requires Unique(d)
    ensures Unique(AddWord(d, c)) && Unique(Step(d, prev, c))
  {
    var d1 := AddWord(d, c);
    match Find(d, c)
    case Some(k) => AddWordFound(d, c, k);
    case None => AddWordNew(d, c);
    if prev.Some? && !EndsInDot(prev.value) {
      match Find(d1, prev.value)
      case Some(k) => AddEdgeAt(d1, prev.value, c, k);
      case None =>
    }
  }

  lemma PositiveStep(d: seq<Entry>, prev: Option<string>, c: string)
    requires Positive(d)
    ensures Positive(AddWord(d, c)) && Positive(Step(d, prev, c))
  {
    PositiveAddWord(d, c);
    if prev.Some? && !EndsInDot(prev.value) {
      PositiveAddEdge(AddWord(d, c), prev.value, c);
    }
  }

  lemma PositiveAddWord(d: seq<Entry>, c: string)
    requires Positive(d)
    ensures Positive(AddWord(d, c))
  {
    match Find(d, c)
    case Some(k) => AddWordFound(d, c, k);
    case None => AddWordNew(d, c);
  }

  lemma PositiveAddEdge(d: seq<Entry>, p: string, c: string)
    requires Positive(d)
    ensures Positive(AddEdge(d, p, c))
  {
    match Find(d, p)
    case Some(k) =>
      AddEdgeAt(d, p, c, k);
      var d2 := AddEdge(d, p, c);
      forall i, j | 0 <= i < |d2| && 0 <= j < |d2[i].succ| ensures d2[i].succ[j].weight >= 1 {
        if i == k {
          BumpPositive(d[k].succ, c, j);
        } else {
          assert d2[i] == d[i];
        }
      }
      assert forall i :: 0 <= i < |d2| ==> d2[i].count == d[i].count;
    case None =>
  }

  lemma BumpPositive(s: seq<Succ>, t: string, j: nat)
    requires forall i :: 0 <= i < |s| ==> s[i].weight >= 1
    requires j < |Bump(s, t)|
    ensures Bump(s, t)[j].weight >= 1
  {
  }

  lemma AddWordFound(d: seq<Entry>, c: string, k: nat)
    requires Find(d, c) == Some(k)
    ensures AddWord(d, c) == d[k := d[k].(count := d[k].count + 1)]
  {
  }

  lemma AddWordNew(d: seq<Entry>, c: string)
    requires Find(d, c).None?
    ensures AddWord(d, c) == d + [Entry(c, 1, [])]
  {
  }

  lemma AddEdgeAt(d: seq<Entry>, p: string, c: string, k: nat)
    requires Find(d, p) == Some(k)
    ensures AddEdge(d, p, c) == d[k := d[k].(succ := Bump(d[k].succ, c))]
  {
  }

  /** Reading one more token of the current line keeps the invariant. */
  lemma StepInv(d: seq<Entry>, lines: seq<seq<string>>, line: seq<string>, c: string)
    requires Inv(d, lines + [line])
    ensures Inv(Step(d, Last(line), c), lines + [line + [c]])
  {
    var prev := Last(line);
    var d2 := Step(d, prev, c);
    UniqueStep(d, prev, c);
    PositiveStep(d, prev, c);
    PrevCounted(d, lines, line, c);
    forall w ensures CountOf(d2, w) == Occ(Flatten(lines + [line + [c]]), w)
      && TotalOf(d2, w) == if EndsInDot(w) then 0 else Followers(lines + [line + [c]], w)
    {
      StepCountsAt(d, lines, line, c, w);
    }
  }

  /** The previous token of a line is already in the dictionary once the
      current one has been added. */
  lemma PrevCounted(d: seq<Entry>, lines: seq<seq<string>>, line: seq<string>, c: string)
    requires Inv(d, lines + [line])
    ensures Last(line).Some? ==> Find(AddWord(d, Last(line).value), Last(line).value).Some?
    ensures Last(line).Some? ==> Find(AddWord(d, c), Last(line).value).Some?
  {
    if line != [] {
      var p := line[|line| - 1];
      FlattenSnoc(lines, line);
      assert line == line[..|line| - 1] + [p];
      assert Flatten(lines + [line]) == (Flatten(lines) + line[..|line| - 1]) + [p];
      OccSnoc(Flatten(lines) + line[..|line| - 1], p, p);
      assert CountOf(d, p) > 0;
      AddWordCount(d, c, p);
      AddWordCount(d, p, p);
    }
  }

  /** The counts and weight sums of one word after one more token. */
  lemma StepCountsAt(d: seq<Entry>, lines: seq<seq<string>>, line: seq<string>, c: string, w: string)
    requires Inv(d, lines + [line])
    requires Last(line).Some? ==> Find(AddWord(d, c), Last(line).value).Some?
    ensures CountOf(Step(d, Last(line), c), w) == Occ(Flatten(lines + [line + [c]]), w)
    ensures TotalOf(Step(d, Last(line), c), w) == if EndsInDot(w) then 0 else Followers(lines + [line + [c]], w)
  {
    var prev := Last(line);
    var d1 := AddWord(d, c);
    AddWordCount(d, c, w);
    if prev.Some? && !EndsInDot(prev.value) {
      AddEdgeCount(d1, prev.value, c, w);
    }
    StepOcc(lines, line, c, w);
    StepFollowers(lines, line, c, w);
  }

  lemma StepOcc(lines: seq<seq<string>>, line: seq<string>, c: string, w: string)
    ensures Occ(Flatten(lines + [line + [c]]), w) == Occ(Flatten(lines + [line]), w) + (if c == w then 1 else 0)
  {
    FlattenSnoc(lines, line);
    FlattenSnoc(lines, line + [c]);
    assert Flatten(lines + [line + [c]]) == Flatten(lines + [line]) + [c];
    OccSnoc(Flatten(lines + [line]), c, w);
  }

  lemma StepFollowers(lines: seq<seq<string>>, line: seq<string>, c: string, w: string)
    ensures Followers(lines + [line + [c]], w) == Followers(lines + [line], w) + (if Last(line) == Some(w) then 1 else 0)
  {
    FollowersSnoc(lines, line, w);
    FollowersSnoc(lines, line + [c], w);
    InLineSnoc(line, c, w);
  }

  lemma {:induction false} BuildLineInv(d: seq<Entry>, lines: seq<seq<string>>, line: seq<string>)
    requires Inv(d, lines)
    ensures Inv(BuildLine(d, line), lines + [line])
  {
    if line == [] {
      FlattenSnoc(lines, []);
      assert Flatten(lines) + [] == Flatten(lines);
      forall w ensures Followers(lines + [[]], w) == Followers(lines, w) {
        FollowersSnoc(lines, [], w);
      }
    } else {
      var before := line[..|line| - 1];
      BuildLineInv(d, lines, before);
      StepInv(BuildLine(d, before), lines, before, line[|line| - 1]);
      SnocLast(line);
    }
  }

  /** A non-empty sequence is its prefix followed by its last element. */
  lemma SnocLast<T>(s: seq<T>)
    requires s != []
    ensures s[..|s| - 1] + [s[|s| - 1]] == s
  {
  }

  /** The dictionary built from any lines satisfies Inv for those lines. */
  lemma {:induction false} BuildInv(lines: seq<seq<string>>)
    ensures Inv(Build(lines), lines)
  {
    if lines != [] {
      var init := lines[..|lines| - 1];
      BuildInv(init);
      BuildLineInv(Build(init), init, lines[|lines| - 1]);
      assert init + [lines[|lines| - 1]] == lines;
    }
  }

  // ---- per-edge weights ----

  /** The weight of `t`'s entry in a prob_list, or 0 when it has none. */
  function WeightIn(s: seq<Succ>, t: string): int
  {
    match FindTarget(s, t)
    case Some(j) => s[j].weight
    case None => 0
  }

  /** appears_after_word of `b` in the prob_list of the record for `a`, or 0
      when either is missing. */
  function WeightOf(d: seq<Entry>, a: string, b: string): int
  {
    match Find(d, a)
    case Some(k) => WeightIn(d[k].succ, b)
    case None => 0
  }

  /** Number of places in a line where `a` is immediately followed by `b`. */
  function PairsIn(line: seq<string>, a: string, b: string): nat
  {
    if |line| <= 1 then 0
    else PairsIn(line[..|line| - 1], a, b) + (if line[|line| - 2] == a && line[|line| - 1] == b then 1 else 0)
  }

  /** Number of places, over all lines, where `a` is immediately followed by `b`. */
  function Pairs(lines: seq<seq<string>>, a: string, b: string): nat
  {
    if lines == [] then 0 else Pairs(lines[..|lines| - 1], a, b) + PairsIn(lines[|lines| - 1], a, b)
  }

  /** No word occurs twice among the targets of a prob_list. */
  ghost predicate DistinctTargets(s: seq<Succ>)
  {
    forall i, j :: 0 <= i < j < |s| ==> s[i].target != s[j].target
  }

  /** What the prob_lists promise after reading `lines`: each holds a word at
      most once, and the weight recorded for a -> b is the number of times
      `b` directly follows a non-terminal `a` on a line (so a pair that never
      occurs has no entry), while a terminal word records nothing. */
  ghost predicate EdgeInv(d: seq<Entry>, lines: seq<seq<string>>)
  {
    (forall k :: 0 <= k < |d| ==> DistinctTargets(d[k].succ))
    && (forall a, b :: WeightOf(d, a, b) == if EndsInDot(a) then 0 else Pairs(lines, a, b))
  }

  lemma FindTargetSameTargets(s: seq<Succ>, e: seq<Succ>, t: string)
    requires |s| == |e| && forall i :: 0 <= i < |s| ==> s[i].target == e[i].target
    ensures FindTarget(s, t) == FindTarget(e, t)
  {
    match FindTarget(s, t)
    case None =>
    case Some(k) =>
      assert e[k].target == t;
  }

  lemma FindTargetSnoc(s: seq<Succ>, x: Succ, t: string)
    ensures FindTarget(s + [x], t)
      == if FindTarget(s, t).Some? then FindTarget(s, t) else if x.target == t then Some(|s|) else None
  {
    var e := s + [x];
    assert forall j :: 0 <= j < |s| ==> e[j] == s[j];
    match FindTarget(s, t)
    case Some(k) =>
      FindTargetAt(e, t, k);
    case None =>
      if x.target == t {
        FindTargetAt(e, t, |s|);
      }
  }

  /** Recording a follower `t` adds one to its weight and leaves every other
      weight alone. */
  lemma BumpWeight(s: seq<Succ>, t: string, b: string)
    ensures WeightIn(Bump(s, t), b) == WeightIn(s, b) + (if b == t then 1 else 0)
  {
    if FindTarget(s, t).Some? {
      BumpWeightAt(s, t, FindTarget(s, t).value, b);
    } else {
      BumpWeightNew(s, t, b);
    }
  }

  lemma BumpWeightAt(s: seq<Succ>, t: string, j: nat, b: string)
    requires FindTarget(s, t) == Some(j)
    ensures WeightIn(Bump(s, t), b) == WeightIn(s, b) + (if b == t then 1 else 0)
  {
    var r := s[j := s[j].(weight := s[j].weight + 1)];
    assert Bump(s, t) == r;
    FindTargetSameTargets(s, r, b);
  }

  lemma BumpWeightNew(s: seq<Succ>, t: string, b: string)
    requires FindTarget(s, t).None?
    ensures WeightIn(Bump(s, t), b) == WeightIn(s, b) + (if b == t then 1 else 0)
  {
    assert Bump(s, t) == s + [Succ(t, 1)];
    FindTargetSnoc(s, Succ(t, 1), b);
  }

  /** Recording a follower never repeats a target. */
  lemma BumpDistinct(s: seq<Succ>, t: string)
    requires DistinctTargets(s)
    ensures DistinctTargets(Bump(s, t))
  {
    var r := Bump(s, t);
    match FindTarget(s, t)
    case Some(j) =>
      assert forall i :: 0 <= i < |s| ==> r[i].target == s[i].target;
    case None =>
      assert forall i :: 0 <= i < |s| ==> r[i] == s[i];
  }

  /** Counting a word changes no weight and no prob_list. */
  lemma AddWordWeight(d: seq<Entry>, c: string, a: string, b: string)
    ensures WeightOf(AddWord(d, c), a, b) == WeightOf(d, a, b)
  {
    var d1 := AddWord(d, c);
    match Find(d, c)
    case Some(k) =>
      AddWordFound(d, c, k);
      FindSameWords(d1, d, a);
    case None =>
      AddWordNew(d, c);
      FindSnoc(d, Entry(c, 1, []), a);
      assert forall i :: 0 <= i < |d| ==> d1[i] == d[i];
  }

  /** add_to_prob on a present word `p`: the weight of p -> c goes up by one,
      every other weight stays. */
  lemma AddEdgeWeight(d: seq<Entry>, p: string, c: string, a: string, b: string)
    requires Find(d, p).Some?
    ensures WeightOf(AddEdge(d, p, c), a, b) == WeightOf(d, a, b) + (if a == p && b == c then 1 else 0)
  {
    var k := Find(d, p).value;
    AddEdgeAt(d, p, c, k);
    FindSameWords(AddEdge(d, p, c), d, a);
    BumpWeight(d[k].succ, c, b);
  }

  lemma DistinctStep(d: seq<Entry>, prev: Option<string>, c: string)
    requires forall k :: 0 <= k < |d| ==> DistinctTargets(d[k].succ)
    ensures forall k :: 0 <= k < |Step(d, prev, c)| ==> DistinctTargets(Step(d, prev, c)[k].succ)
  {
    DistinctAddWord(d, c);
    if prev.Some? && !EndsInDot(prev.value) {
      DistinctAddEdge(AddWord(d, c), prev.value, c);
    }
  }

  lemma DistinctAddWord(d: seq<Entry>, c: string)
    requires forall k :: 0 <= k < |d| ==> DistinctTargets(d[k].succ)
    ensures forall k :: 0 <= k < |AddWord(d, c)| ==> DistinctTargets(AddWord(d, c)[k].succ)
  {
    match Find(d, c)
    case Some(k) => AddWordFound(d, c, k);
    case None => AddWordNew(d, c);
  }

  lemma DistinctAddEdge(d: seq<Entry>, p: string, c: string)
    requires forall k :: 0 <= k < |d| ==> DistinctTargets(d[k].succ)
    ensures forall k :: 0 <= k < |AddEdge(d, p, c)| ==> DistinctTargets(AddEdge(d, p, c)[k].succ)
  {
    match Find(d, p)
    case Some(k) =>
      AddEdgeAt(d, p, c, k);
      BumpDistinct(d[k].succ, c);
    case None =>
  }

  lemma PairsInSnoc(line: seq<string>, c: string, a: string, b: string)
    ensures PairsIn(line + [c], a, b) == PairsIn(line, a, b) + (if Last(line) == Some(a) && c == b then 1 else 0)
  {
    assert (line + [c])[..|line|] == line;
  }

  lemma PairsSnoc(lines: seq<seq<string>>, x: seq<string>, a: string, b: string)
    ensures Pairs(lines + [x], a, b) == Pairs(lines, a, b) + PairsIn(x, a, b)
  {
    assert (lines + [x])[..|lines|] == lines;
  }

  lemma StepPairs(lines: seq<seq<string>>, line: seq<string>, c: string, a: string, b: string)
    ensures Pairs(lines + [line + [c]], a, b) == Pairs(lines + [line], a, b) + (if Last(line) == Some(a) && c == b then 1 else 0)
  {
    PairsSnoc(lines, line, a, b);
    PairsSnoc(lines, line + [c], a, b);
    PairsInSnoc(line, c, a, b);
  }

  /** Reading one more token of the current line keeps the per-edge invariant. */
  lemma StepEdgeInv(d: seq<Entry>, lines: seq<seq<string>>, line: seq<string>, c: string)
    requires Inv(d, lines + [line]) && EdgeInv(d, lines + [line])
    ensures EdgeInv(Step(d, Last(line), c), lines + [line + [c]])
  {
    var prev := Last(line);
    var d1 := AddWord(d, c);
    var d2 := Step(d, prev, c);
    PrevCounted(d, lines, line, c);
    DistinctStep(d, prev, c);
    forall a, b ensures WeightOf(d2, a, b) == if EndsInDot(a) then 0 else Pairs(lines + [line + [c]], a, b) {
      AddWordWeight(d, c, a, b);
      if prev.Some? && !EndsInDot(prev.value) {
        AddEdgeWeight(d1, prev.value, c, a, b);
      }
      StepPairs(lines, line, c, a, b);
    }
  }

  lemma {:induction false} BuildLineEdgeInv(d: seq<Entry>, lines: seq<seq<string>>, line: seq<string>)
    requires Inv(d, lines) && EdgeInv(d, lines)
    ensures EdgeInv(BuildLine(d, line), lines + [line])
  {
    if line == [] {
      forall a, b ensures Pairs(lines + [[]], a, b) == Pairs(lines, a, b) {
        PairsSnoc(lines, [], a, b);
      }
    } else {
      var before := line[..|line| - 1];
      BuildLineEdgeInv(d, lines, before);
      BuildLineInv(d, lines, before);
      StepEdgeInv(BuildLine(d, before), lines, before, line[|line| - 1]);
      SnocLast(line);
    }
  }

  /** The dictionary built from any lines satisfies EdgeInv for those lines. */
  lemma {:induction false} BuildEdgeInv(lines: seq<seq<string>>)
    ensures EdgeInv(Build(lines), lines)
  {
    if lines != [] {
      var init := lines[..|lines| - 1];
      BuildEdgeInv(init);
      BuildInv(init);
      BuildLineEdgeInv(Build(init), init, lines[|lines| - 1]);
      SnocLast(lines);
    }
  }

  /** In the dictionary built from `lines`, every prob_list entry of a word
      `a` with target `b` has weight Pairs(lines, a, b). */
  lemma BuildEdgeWeights(lines: seq<seq<string>>)
    ensures var d := Build(lines);
      EdgeInv(d, lines)
      && (forall k, j :: 0 <= k < |d| && 0 <= j < |d[k].succ| ==>
            d[k].succ[j].weight == Pairs(lines, d[k].word, d[k].succ[j].target))
  {
    var d := Build(lines);
    BuildInv(lines);
    BuildEdgeInv(lines);
    forall k, j | 0 <= k < |d| && 0 <= j < |d[k].succ|
      ensures d[k].succ[j].weight == Pairs(lines, d[k].word, d[k].succ[j].target)
    {
      FindIndex(d, k);
      FindTargetAt(d[k].succ, d[k].succ[j].target, j);
      assert WeightOf(d, d[k].word, d[k].succ[j].target) == d[k].succ[j].weight;
    }
  }
}
