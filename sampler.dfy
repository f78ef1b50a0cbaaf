/** The weighted choice of get_next_random_word, on values: a draw `x`
    walks the prob_list, subtracting weights, until it is at most the
    current weight. */
module Sampler {
  import opened WordModel

  /** get_random_number: `rand() % max_number`, with rand()'s value given.
      The remainder is taken by repeated subtraction, which keeps the
      arithmetic linear; GetRandomNumberIsRemainder shows it is `%`. */
  function GetRandomNumber(rnd: nat, maxNumber: int): (r: nat)
    requires maxNumber > 0
    ensures r < maxNumber
    ensures rnd < maxNumber ==> r == rnd
    decreases rnd
  {
    if rnd < maxNumber then rnd else GetRandomNumber(rnd - maxNumber, maxNumber)
  }

  /** The number drawn is the remainder of rand()'s value by max_number. */
  lemma {:induction false} GetRandomNumberIsRemainder(rnd: nat, maxNumber: int)
    requires maxNumber > 0
    ensures GetRandomNumber(rnd, maxNumber) == rnd % maxNumber
    decreases rnd
  {
    if rnd >= maxNumber {
      var a := rnd - maxNumber;
      GetRandomNumberIsRemainder(a, maxNumber);
      RemainderUnique(rnd, maxNumber, a / maxNumber + 1, a % maxNumber);
    }
  }

  /** `a % m` is the only remainder in [0, m) of a division of `a` by `m`. */
  lemma RemainderUnique(a: int, m: int, q: int, r: int)
    requires m > 0 && a == q * m + r && 0 <= r < m
    ensures a % m == r
  {
    var t := a / m - q;
    assert t * m == r - a % m;
    ProductBound(t, m);
  }

  /** A non-zero multiple of a positive `m` is at least `m` away from 0. */
  lemma ProductBound(t: int, m: int)
    requires m > 0
    ensures t >= 1 ==> t * m >= m
    ensures t <= -1 ==> t * m <= -m
  {
    if t >= 1 {
      assert t * m == (t - 1) * m + m;
    } else if t <= -1 {
      assert t * m == (t + 1) * m - m;
    }
  }

  /** The draw get_next_random_word compares against the weights: one more
      than a number below the word's count. */
  function Draw(rnd: nat, appearsInTxt: int): (x: int)
    requires appearsInTxt > 0
    ensures 1 <= x <= appearsInTxt
  {
    GetRandomNumber(rnd, appearsInTxt) + 1
  }

  /** The scan from entry `j` with `y` left of the draw. */
  function SelectFrom(s: seq<Succ>, j: nat, y: int): (r: Option<nat>)
    requires j <= |s|
    ensures r.Some? ==> j <= r.value < |s| && y + Cum(s, j) <= Cum(s, r.value + 1)
    ensures r.Some? ==> forall i :: j < i <= r.value ==> Cum(s, i) < y + Cum(s, j)
    ensures r.None? ==> forall i :: j < i <= |s| ==> Cum(s, i) < y + Cum(s, j)
    decreases |s| - j
  {
    if j == |s| then None
    else if y <= s[j].weight then Some(j)
    else SelectFrom(s, j + 1, y - s[j].weight)
  }

  /** The entry chosen by draw `x`: the first whose running weight sum
      reaches `x`, or none when the draw exceeds every running sum. */
  function Select(s: seq<Succ>, x: int): (r: Option<nat>)
    ensures r.Some? ==> r.value < |s| && x <= Cum(s, r.value + 1)
    ensures r.Some? ==> forall i :: 0 < i <= r.value ==> Cum(s, i) < x
    ensures r.None? <==> forall i :: 0 < i <= |s| ==> Cum(s, i) < x
  {
    SelectFrom(s, 0, x)
  }

  ghost predicate NonNegative(s: seq<Succ>)
  {
    forall j :: 0 <= j < |s| ==> s[j].weight >= 0
  }

  lemma {:induction false} CumMonotone(s: seq<Succ>, a: nat, b: nat)
    requires NonNegative(s) && a <= b <= |s|
    ensures Cum(s, a) <= Cum(s, b)
    decreases b - a
  {
    if a < b {
      CumMonotone(s, a, b - 1);
    }
  }

  /** With non-negative weights, a positive draw picks nothing exactly when it is
      above the weight sum. */
  lemma SelectNoneIff(s: seq<Succ>, x: int)
    requires NonNegative(s) && x >= 1
    ensures Select(s, x).None? <==> x > Total(s)
  {
    if Select(s, x).None? && s != [] {
      assert Cum(s, |s|) < x;
    }
    if x > Total(s) {
      forall i | 0 < i <= |s| ensures Cum(s, i) < x {
        CumMonotone(s, i, |s|);
      }
    }
  }

  /** With non-negative weights and a draw of at least 1, entry `j` is
      chosen exactly for draws in (Cum(j), Cum(j + 1)]: `weight` of the
      draws 1 .. Total choose it. */
  lemma SelectInterval(s: seq<Succ>, x: int, j: nat)
    requires NonNegative(s) && j < |s| && x >= 1
    ensures Select(s, x) == Some(j) <==> Cum(s, j) < x <= Cum(s, j + 1)
  {
    if Select(s, x) == Some(j) && j > 0 {
      assert Cum(s, j) < x;
    }
    if Cum(s, j) < x <= Cum(s, j + 1) {
      forall i | 0 < i <= j ensures Cum(s, i) < x {
        CumMonotone(s, i, j);
      }
    }
  }

  /** A draw bounded by the weight sum always picks an entry. */
  lemma SelectWithinTotal(s: seq<Succ>, x: int)
    requires NonNegative(s) && 1 <= x <= Total(s)
    ensures Select(s, x).Some?
  {
    SelectNoneIff(s, x);
  }
}
