/** Which tokens fill_dictionary reads: the per-line token loop, the
    optional cap on the number of tokens, and the end-of-line break. */
module Ingest {
  import opened WordModel
  import opened Tokens

  /** get_num_words_to_read: an absent argument and the value -1 both mean
      "no cap", which fill_dictionary receives as 0. */
  function NumWordsToRead(arg: Option<int>): (n: int)
    ensures n != -1
    ensures n == 0 <==> arg == None || arg == Some(-1) || arg == Some(0)
    ensures arg.Some? && arg.value != -1 ==> n == arg.value
  {
    match arg
    case None => 0
    case Some(v) => if v == -1 then 0 else v
  }

  /** The inner loop's guard, after `j` of the line's `n` tokens were read,
      holds exactly while fewer than Taken tokens were read. */
  lemma TakenGuard(n: nat, i: int, cap: int, j: nat)
    requires j <= Taken(n, i, cap)
    ensures (j < n && (cap == 0 || i + j < cap)) <==> j < Taken(n, i, cap)
  {
  }

  /** How many of a line's `n` tokens the inner loop reads when `i` tokens
      were read before it: it runs while tokens remain and
      `words_to_read == 0 || i < words_to_read`. */
  function Taken(n: nat, i: int, cap: int): (t: nat)
    ensures t <= n
    ensures cap != 0 && i < cap ==> t == if n < cap - i then n else cap - i
    ensures cap != 0 && i >= cap ==> t == 0
    ensures cap == 0 ==> t == n
  {
    if cap == 0 then n else if i >= cap then 0 else if n < cap - i then n else cap - i
  }

  /** The tokens read from each line, the lines given already split, with
      `i` tokens read before the first of them. After each line the reader
      stops when `i == words_to_read`, and otherwise goes on to the next line
      while there is one. */
  function ReadFrom(lines: seq<seq<string>>, i: int, cap: int): (r: seq<seq<string>>)
    ensures |r| <= |lines|
    ensures |r| < |lines| ==> i + |Flatten(r)| == cap
    decreases |lines|
  {
    if lines == [] then []
    else
      var t := Taken(|lines[0]|, i, cap);
      if i + t == cap then
        assert Flatten([lines[0][..t]]) == lines[0][..t];
        [lines[0][..t]]
      else
        var rest := ReadFrom(lines[1..], i + t, cap);
        FlattenCons(lines[0][..t], rest);
        [lines[0][..t]] + rest
  }

  /** `done` holds the tokens read from the lines before `k`, and reading
      on from line `k` with `i` tokens behind yields the rest of `all`. */
  ghost predicate ReadSoFar(lines: seq<seq<string>>, k: nat, i: int, cap: int, done: seq<seq<string>>, all: seq<seq<string>>)
    requires k <= |lines|
  {
    done + ReadFrom(lines[k..], i, cap) == all
  }

  /** Reading line `k`, with `i` tokens behind, moves its first Taken
      tokens from the part still to be read to the part already read,
      leaving `i'` tokens behind; when that reaches the cap, nothing is
      left to read. */
  lemma ReadNextLine(lines: seq<seq<string>>, k: nat, i: int, i': int, cap: int,
                     done: seq<seq<string>>, done': seq<seq<string>>, all: seq<seq<string>>)
    requires k < |lines| && ReadSoFar(lines, k, i, cap, done, all)
    requires i' == i + Taken(|lines[k]|, i, cap)
    requires done' == done + [lines[k][..Taken(|lines[k]|, i, cap)]]
    ensures i' == cap ==> done' == all
    ensures i' != cap ==> ReadSoFar(lines, k + 1, i', cap, done', all)
  {
    assert lines[k..][1..] == lines[k + 1..];
  }

  /** Before the first line nothing is read yet. */
  lemma ReadSoFarStart(lines: seq<seq<string>>, cap: int)
    ensures ReadSoFar(lines, 0, 0, cap, [], ReadFrom(lines, 0, cap))
  {
    assert lines[0..] == lines;
  }

  /** With no line left, everything is read. */
  lemma ReadSoFarDone(lines: seq<seq<string>>, i: int, cap: int, done: seq<seq<string>>, all: seq<seq<string>>)
    requires ReadSoFar(lines, |lines|, i, cap, done, all)
    ensures done == all
  {
    assert lines[|lines|..] == [];
  }

  /** The tokens fill_dictionary reads from the whole input. */
  function Read(lines: seq<seq<string>>, cap: int): (r: seq<seq<string>>)
    ensures |r| <= |lines|
    ensures |r| < |lines| ==> |Flatten(r)| == cap
  {
    ReadFrom(lines, 0, cap)
  }

  /** The corpus lines, each split into tokens. */
  function SplitAll(text: seq<string>): (r: seq<seq<string>>)
    ensures |r| == |text|
    ensures forall k :: 0 <= k < |text| ==> r[k] == Tokens.Split(text[k])
  {
    if text == [] then [] else [Tokens.Split(text[0])] + SplitAll(text[1..])
  }

  function Min(a: int, b: int): int
  {
    if a <= b then a else b
  }

  /** Each line read is a prefix of the corresponding input line, and no
      line is read past the input. */
  lemma {:induction false} ReadFromPrefixes(lines: seq<seq<string>>, i: int, cap: int)
    ensures |ReadFrom(lines, i, cap)| <= |lines|
    ensures forall k :: 0 <= k < |ReadFrom(lines, i, cap)| ==> ReadFrom(lines, i, cap)[k] <= lines[k]
    decreases |lines|
  {
    if lines != [] {
      var t := Taken(|lines[0]|, i, cap);
      if i + t != cap {
        ReadFromPrefixes(lines[1..], i + t, cap);
        var r := ReadFrom(lines, i, cap);
        assert forall k :: 1 <= k < |r| ==> r[k] == ReadFrom(lines[1..], i + t, cap)[k - 1];
      }
    }
  }

  /** With a positive cap, exactly the first `cap` tokens of the input are
      read (all of them when there are fewer). */
  lemma {:induction false} ReadFromCapped(lines: seq<seq<string>>, i: int, cap: int)
    requires 0 <= i <= cap && cap > 0
    ensures Flatten(ReadFrom(lines, i, cap)) == Flatten(lines)[..Min(cap - i, |Flatten(lines)|)]
    decreases |lines|
  {
    if lines != [] {
      var l0 := lines[0];
      var t := Taken(|l0|, i, cap);
      assert lines == [l0] + lines[1..];
      FlattenCons(l0, lines[1..]);
      var F := Flatten(lines);
      if i + t == cap {
        FlattenCons(l0[..t], []);
        assert Flatten(ReadFrom(lines, i, cap)) == l0[..t] + [];
        assert F[..t] == l0[..t];
      } else {
        assert t == |l0| && l0[..t] == l0;
        ReadFromCapped(lines[1..], i + t, cap);
        var later := ReadFrom(lines[1..], i + t, cap);
        assert ReadFrom(lines, i, cap) == [l0] + later;
        FlattenCons(l0, later);
        var rest := Flatten(lines[1..]);
        var m := Min(cap - (i + t), |rest|);
        assert F == l0 + rest;
        assert Min(cap - i, |F|) == |l0| + m;
        assert F[..|l0| + m] == l0 + rest[..m];
      }
    }
  }

  /** Without a cap, every line is read once a token has been read. */
  lemma {:induction false} ReadFromAll(lines: seq<seq<string>>, i: int)
    requires i > 0
    ensures ReadFrom(lines, i, 0) == lines
    decreases |lines|
  {
    if lines != [] {
      ReadFromAll(lines[1..], i + |lines[0]|);
      assert lines[0][..|lines[0]|] == lines[0];
      assert lines == [lines[0]] + lines[1..];
    }
  }

  /** Without a cap the whole input is read, provided its first line holds a token. */
  lemma ReadAllWithoutCap(lines: seq<seq<string>>)
    requires lines == [] || lines[0] != []
    ensures Read(lines, 0) == lines
  {
    if lines != [] {
      ReadFromAll(lines[1..], |lines[0]|);
      assert lines[0][..|lines[0]|] == lines[0];
      assert lines == [lines[0]] + lines[1..];
    }
  }

  /** Without a cap, a first line with no token ends the reading right there:
      after it `i == words_to_read` holds with both 0. */
  lemma EmptyFirstLineStops(lines: seq<seq<string>>)
    requires lines != [] && lines[0] == []
    ensures Read(lines, 0) == [[]]
    ensures Build(Read(lines, 0)) == []
  {
    assert Build([[]]) == BuildLine(Build([]), []);
  }

  /** A negative cap other than -1 stops the token loop before any token. */
  lemma {:induction false} NegativeCapReadsNothing(lines: seq<seq<string>>, i: int, cap: int)
    requires cap < 0 && i >= 0
    ensures Flatten(ReadFrom(lines, i, cap)) == []
    decreases |lines|
  {
    if lines != [] {
      NegativeCapReadsNothing(lines[1..], i, cap);
      assert lines[0][..0] == [];
      FlattenCons([], ReadFrom(lines[1..], i, cap));
    }
  }

  /** Passing -1 reads exactly what leaving the argument out reads. */
  lemma MinusOneMeansNoCap(lines: seq<seq<string>>)
    ensures Read(lines, NumWordsToRead(Some(-1))) == Read(lines, NumWordsToRead(None))
  {
  }

  /** What the dictionary built by fill_dictionary promises: unique words,
      each count equal to the word's occurrences among the tokens read, the
      weight sum of a non-terminal word equal to its same-line followers and
      at most its count, no successors for a terminal word, no more tokens
      read than a positive cap allows, and in every prob_list each follower
      appears once with appears_after_word equal to the number of times it
      directly follows the word on a line (a pair never read has no entry). */
  lemma FillDictionaryFacts(text: seq<string>, cap: int)
    ensures var R := Read(SplitAll(text), cap); var d := Build(R);
      Unique(d)
      && (forall k :: 0 <= k < |d| ==> 1 <= d[k].count == Occ(Flatten(R), d[k].word))
      && (forall k :: 0 <= k < |d| ==> !EndsInDot(d[k].word) ==> Total(d[k].succ) == Followers(R, d[k].word))
      && (forall k :: 0 <= k < |d| ==> EndsInDot(d[k].word) ==> d[k].succ == [])
      && (forall k :: 0 <= k < |d| ==> Total(d[k].succ) <= d[k].count)
      && (forall w :: Occ(Flatten(R), w) > 0 ==> Find(d, w).Some?)
      && (cap > 0 ==> |Flatten(R)| <= cap)
      && (forall k :: 0 <= k < |d| ==> DistinctTargets(d[k].succ))
      && (forall a, b :: WeightOf(d, a, b) == if EndsInDot(a) then 0 else Pairs(R, a, b))
      && (forall k, j :: 0 <= k < |d| && 0 <= j < |d[k].succ| ==>
            d[k].succ[j].weight == Pairs(R, d[k].word, d[k].succ[j].target))
  {
    var R := Read(SplitAll(text), cap);
    var d := Build(R);
    BuildInv(R);
    BuildEdgeWeights(R);
    forall k | 0 <= k < |d|
      ensures 1 <= d[k].count == Occ(Flatten(R), d[k].word)
      ensures Total(d[k].succ) == if EndsInDot(d[k].word) then 0 else Followers(R, d[k].word)
      ensures Total(d[k].succ) <= d[k].count
      ensures EndsInDot(d[k].word) ==> d[k].succ == []
    {
      FindIndex(d, k);
      assert CountOf(d, d[k].word) == d[k].count;
      assert TotalOf(d, d[k].word) == Total(d[k].succ);
      FollowersAtMostOcc(R, d[k].word);
      if EndsInDot(d[k].word) {
        PositiveSumEmpty(d[k].succ);
      }
    }
    forall w | Occ(Flatten(R), w) > 0 ensures Find(d, w).Some? {
      assert CountOf(d, w) > 0;
    }
    if cap > 0 {
      ReadFromCapped(SplitAll(text), 0, cap);
    }
  }

  /** A prob_list of positive weights sums to 0 only when it is empty. */
  lemma PositiveSumEmpty(s: seq<Succ>)
    requires forall j :: 0 <= j < |s| ==> s[j].weight >= 1
    requires Total(s) == 0
    ensures s == []
  {
    if s != [] {
      CumPositive(s, |s|);
    }
  }

  lemma {:induction false} CumPositive(s: seq<Succ>, n: nat)
    requires n <= |s| && forall j :: 0 <= j < |s| ==> s[j].weight >= 1
    ensures Cum(s, n) >= n
  {
    if n > 0 {
      CumPositive(s, n - 1);
    }
  }
}
