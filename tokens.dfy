/** The tokenizer of fill_dictionary: `strtok(line, " \n")` yields the
    maximal runs of characters other than space and newline. */
module Tokens {

  predicate IsDelimiter(ch: char)
  {
    ch == ' ' || ch == '\n'
  }

  /** What strtok can hand out: a non-empty run without delimiters. */
  predicate IsToken(t: string)
  {
    |t| > 0 && forall i :: 0 <= i < |t| ==> !IsDelimiter(t[i])
  }

  /** Length of the run of non-delimiters that starts `s`. */
  function TokenRun(s: string): (n: nat)
    ensures n <= |s|
    ensures forall i :: 0 <= i < n ==> !IsDelimiter(s[i])
    ensures n < |s| ==> IsDelimiter(s[n])
  {
    if s == [] || IsDelimiter(s[0]) then 0 else 1 + TokenRun(s[1..])
  }

  /** The tokens strtok returns for `s`, in order: delimiters are skipped,
      and each maximal run of other characters is one token. */
  function Split(s: string): (r: seq<string>)
    ensures forall i :: 0 <= i < |r| ==> IsToken(r[i])
    decreases |s|
  {
    if s == [] then []
    else if IsDelimiter(s[0]) then Split(s[1..])
    else
      var n := TokenRun(s);
      assert IsToken(s[..n]);
      [s[..n]] + Split(s[n..])
  }

  /** `s` with every delimiter removed. */
  function Strip(s: string): string
  {
    if s == [] then [] else (if IsDelimiter(s[0]) then [] else [s[0]]) + Strip(s[1..])
  }

  /** The elements of a sequence of sequences, in order: the text of a run of
      tokens, or all tokens of a run of lines. */
  function Flatten<T>(ss: seq<seq<T>>): seq<T>
  {
    if ss == [] then [] else Flatten(ss[..|ss| - 1]) + ss[|ss| - 1]
  }

  lemma FlattenSnoc<T>(ss: seq<seq<T>>, x: seq<T>)
    ensures Flatten(ss + [x]) == Flatten(ss) + x
  {
    assert (ss + [x])[..|ss|] == ss;
  }

  lemma {:induction false} FlattenCons<T>(x: seq<T>, ss: seq<seq<T>>)
    ensures Flatten([x] + ss) == x + Flatten(ss)
    decreases |ss|
  {
    if ss == [] {
      assert [x] + ss == [] + [x];
      FlattenSnoc([], x);
    } else {
      var init := ss[..|ss| - 1];
      var y := ss[|ss| - 1];
      assert ss == init + [y];
      assert [x] + ss == ([x] + init) + [y];
      FlattenSnoc([x] + init, y);
      FlattenCons(x, init);
      FlattenSnoc(init, y);
    }
  }

  /** Tokens joined by single spaces, as generate_sentence prints them. */
  function Join(ts: seq<string>): string
  {
    if ts == [] then []
    else if |ts| == 1 then ts[0]
    else ts[0] + " " + Join(ts[1..])
  }

  lemma {:induction false} StripAppend(a: string, b: string)
    ensures Strip(a + b) == Strip(a) + Strip(b)
  {
    if a != [] {
      assert (a + b)[1..] == a[1..] + b;
      StripAppend(a[1..], b);
    } else {
      assert a + b == b;
    }
  }

  lemma {:induction false} StripDelimiters(s: string)
    requires forall i :: 0 <= i < |s| ==> IsDelimiter(s[i])
    ensures Strip(s) == []
  {
    if s != [] {
      StripDelimiters(s[1..]);
    }
  }

  lemma {:induction false} StripToken(s: string)
    requires forall i :: 0 <= i < |s| ==> !IsDelimiter(s[i])
    ensures Strip(s) == s
  {
    if s != [] {
      StripToken(s[1..]);
      assert s == [s[0]] + s[1..];
    }
  }

  /** Splitting loses nothing but the delimiters. */
  lemma {:induction false} SplitKeepsText(s: string)
    ensures Flatten(Split(s)) == Strip(s)
    decreases |s|
  {
    if s != [] {
      if IsDelimiter(s[0]) {
        SplitKeepsText(s[1..]);
      } else {
        var n := TokenRun(s);
        assert s == s[..n] + s[n..];
        StripAppend(s[..n], s[n..]);
        StripToken(s[..n]);
        SplitKeepsText(s[n..]);
        FlattenCons(s[..n], Split(s[n..]));
      }
    }
  }

  lemma {:induction false} TokenRunOfToken(t: string, x: string)
    requires forall i :: 0 <= i < |t| ==> !IsDelimiter(t[i])
    requires x == [] || IsDelimiter(x[0])
    ensures TokenRun(t + x) == |t|
  {
    if t != [] {
      assert (t + x)[1..] == t[1..] + x;
      TokenRunOfToken(t[1..], x);
    } else {
      assert t + x == x;
    }
  }

  /** A token that starts the text comes out first. */
  lemma SplitToken(t: string, x: string)
    requires IsToken(t)
    requires x == [] || IsDelimiter(x[0])
    ensures Split(t + x) == [t] + Split(x)
  {
    TokenRunOfToken(t, x);
    var s := t + x;
    assert s[..|t|] == t && s[|t|..] == x;
  }

  /** A leading delimiter, space or newline, is skipped. */
  lemma SplitDelimiter(ch: char, x: string)
    requires IsDelimiter(ch)
    ensures Split([ch] + x) == Split(x)
  {
    assert ([ch] + x)[1..] == x;
  }

  /** Splitting undoes joining with single spaces. */
  lemma {:induction false} SplitJoin(ts: seq<string>)
    requires forall i :: 0 <= i < |ts| ==> IsToken(ts[i])
    ensures Split(Join(ts)) == ts
  {
    if ts == [] {
    } else if |ts| == 1 {
      SplitToken(ts[0], []);
      assert ts[0] + [] == ts[0];
    } else {
      var rest := " " + Join(ts[1..]);
      assert Join(ts) == ts[0] + rest;
      SplitToken(ts[0], rest);
      SplitDelimiter(' ', Join(ts[1..]));
      SplitJoin(ts[1..]);
    }
  }
}
