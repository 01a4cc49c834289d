/** shuffleArray (App.tsx:7-14): a Fisher–Yates shuffle of a copy of its
    argument, with the random draws supplied as an explicit sequence. */
module Shuffle {

  /** The random draws of one shuffle. When the loop is at index i (from n-1
      down to 1) it swaps position i with position js[i]; the source draws
      Math.floor(Math.random() * (i + 1)), which always lies in [0, i]. */
  predicate OracleFits(js: seq<nat>, n: nat) {
    |js| == n && forall i :: 0 < i < n ==> js[i] <= i
  }

  /** `s` with the elements at i and j exchanged. */
  function Swap<T>(s: seq<T>, i: nat, j: nat): (r: seq<T>)
    requires i < |s| && j < |s|
    ensures |r| == |s| && r[i] == s[j] && r[j] == s[i]
    ensures forall k :: 0 <= k < |s| && k != i && k != j ==> r[k] == s[k]
  {
    s[i := s[j]][j := s[i]]
  }

  lemma SwapPermutes<T>(s: seq<T>, i: nat, j: nat)
    requires i < |s| && j < |s|
    ensures multiset(Swap(s, i, j)) == multiset(s)
  {
    if i != j {
      var t := s[i := s[j]];
      assert multiset(t) == multiset(s) - multiset{s[i]} + multiset{s[j]};
    }
  }

  /** What the remaining iterations i, i-1, ..., 1 of the shuffle loop make of `s`. */
  function ShuffledFrom<T>(s: seq<T>, js: seq<nat>, i: int): seq<T>
    requires OracleFits(js, |s|) && i < |s|
    decreases i
  {
    if i <= 0 then s else ShuffledFrom(Swap(s, i, js[i]), js, i - 1)
  }

  /** The array shuffleArray returns for input `s` and random draws `js`. */
  function FisherYates<T>(s: seq<T>, js: seq<nat>): seq<T>
    requires OracleFits(js, |s|)
  {
    ShuffledFrom(s, js, |s| - 1)
  }

  /** Every tail of the loop only exchanges elements: the result has the
      same length and the same elements, with the same multiplicities. */
  lemma {:induction false} ShuffledFromPermutes<T>(s: seq<T>, js: seq<nat>, i: int)
    requires OracleFits(js, |s|) && i < |s|
    ensures |ShuffledFrom(s, js, i)| == |s|
    ensures multiset(ShuffledFrom(s, js, i)) == multiset(s)
    decreases i
  {
    if i > 0 {
      SwapPermutes(s, i, js[i]);
      ShuffledFromPermutes(Swap(s, i, js[i]), js, i - 1);
    }
  }

  /** Whatever the random draws, the shuffle returns a permutation of its input. */
  lemma FisherYatesPermutes<T>(s: seq<T>, js: seq<nat>)
    requires OracleFits(js, |s|)
    ensures |FisherYates(s, js)| == |s|
    ensures multiset(FisherYates(s, js)) == multiset(s)
  {
    ShuffledFromPermutes(s, js, |s| - 1);
  }

  /** The shuffle loop below index i+1 never reads a draw above i. */
  lemma {:induction false} ShuffledFromIgnoresLaterDraws<T>(s: seq<T>, js: seq<nat>, js': seq<nat>, i: int)
    requires OracleFits(js, |s|) && OracleFits(js', |s|) && i < |s|
    requires forall k :: 0 < k <= i ==> js[k] == js'[k]
    ensures ShuffledFrom(s, js, i) == ShuffledFrom(s, js', i)
    decreases i
  {
    if i > 0 {
      ShuffledFromIgnoresLaterDraws(Swap(s, i, js[i]), js, js', i - 1);
    }
  }

  /** A swap inside the prefix s[..i+1] permutes that prefix and keeps the rest. */
  lemma SwapWithinPrefix<T>(s: seq<T>, i: nat, j: nat)
    requires j <= i < |s|
    ensures multiset(Swap(s, i, j)[..i + 1]) == multiset(s[..i + 1])
    ensures Swap(s, i, j)[i + 1..] == s[i + 1..]
  {
    assert Swap(s, i, j)[..i + 1] == Swap(s[..i + 1], i, j);
    SwapPermutes(s[..i + 1], i, j);
  }

  /** Two arrangements with the same last element stay arrangements of each
      other without it. */
  lemma DropCommonLast<T>(a: seq<T>, b: seq<T>)
    requires |a| == |b| > 0 && a[|a| - 1] == b[|b| - 1]
    requires multiset(a) == multiset(b)
    ensures multiset(a[..|a| - 1]) == multiset(b[..|b| - 1])
  {
    var x := a[|a| - 1];
    assert a == a[..|a| - 1] + [x];
    assert b == b[..|b| - 1] + [x];
    assert multiset(a[..|a| - 1]) == multiset(a) - multiset{x};
    assert multiset(b[..|b| - 1]) == multiset(b) - multiset{x};
  }

  /** Every arrangement t of s that agrees with s above index i is what the
      loop iterations i, ..., 1 produce for some choice of draws. */
  lemma {:induction false} ShuffledFromReaches<T>(s: seq<T>, t: seq<T>, i: int) returns (js: seq<nat>)
    requires |s| == |t| && -1 <= i < |s|
    requires s[i + 1..] == t[i + 1..]
    requires multiset(s[..i + 1]) == multiset(t[..i + 1])
    ensures OracleFits(js, |s|) && ShuffledFrom(s, js, i) == t
    decreases i + 1
  {
    if i <= 0 {
      js := seq(|s|, k => 0);
      ShortPrefixAgrees(s, t, i);
    } else {
      var j := PlaceLast(s, t, i);
      var s' := Swap(s, i, j);
      var js' := ShuffledFromReaches(s', t, i - 1);
      js := js'[i := j];
      ShuffledFromIgnoresLaterDraws(s', js, js', i - 1);
    }
  }

  /** With at most one element left to arrange there is nothing to arrange. */
  lemma ShortPrefixAgrees<T>(s: seq<T>, t: seq<T>, i: int)
    requires |s| == |t| && -1 <= i <= 0 && i < |s|
    requires s[i + 1..] == t[i + 1..]
    requires multiset(s[..i + 1]) == multiset(t[..i + 1])
    ensures s == t
  {
    if i == 0 {
      FirstAgrees(s, t);
    } else {
      assert s == s[i + 1..] && t == t[i + 1..];
    }
  }

  lemma FirstAgrees<T>(s: seq<T>, t: seq<T>)
    requires |s| == |t| > 0
    requires s[1..] == t[1..]
    requires multiset(s[..1]) == multiset(t[..1])
    ensures s == t
  {
    assert s[0] == t[0] by {
      assert s[..1] == [s[0]] && t[..1] == [t[0]];
      assert s[0] in multiset{t[0]};
    }
    assert s == [s[0]] + s[1..] && t == [t[0]] + t[1..];
  }

  /** One loop iteration can bring t[i] to position i: some j <= i holds it,
      and after swapping i and j the prefixes below i are arrangements of
      each other and everything from i on agrees. */
  lemma PlaceLast<T>(s: seq<T>, t: seq<T>, i: nat) returns (j: nat)
    requires |s| == |t| && 0 < i < |s|
    requires s[i + 1..] == t[i + 1..]
    requires multiset(s[..i + 1]) == multiset(t[..i + 1])
    ensures j <= i
    ensures Swap(s, i, j)[i..] == t[i..]
    ensures multiset(Swap(s, i, j)[..i]) == multiset(t[..i])
  {
    assert t[i] in multiset(t[..i + 1]) by {
      assert t[..i + 1][i] == t[i];
    }
    j := FindInPrefix(s, t[i], i);
    SwappedPrefix(s, t, i, j);
    SwappedSuffix(s, t, i, j);
  }

  lemma SwappedPrefix<T>(s: seq<T>, t: seq<T>, i: nat, j: nat)
    requires |s| == |t| && j <= i < |s| && s[j] == t[i]
    requires multiset(s[..i + 1]) == multiset(t[..i + 1])
    ensures multiset(Swap(s, i, j)[..i]) == multiset(t[..i])
  {
    var s' := Swap(s, i, j);
    SwapWithinPrefix(s, i, j);
    DropCommonLast(s'[..i + 1], t[..i + 1]);
    assert s'[..i + 1][..i] == s'[..i] && t[..i + 1][..i] == t[..i];
  }

  lemma SwappedSuffix<T>(s: seq<T>, t: seq<T>, i: nat, j: nat)
    requires |s| == |t| && j <= i < |s| && s[j] == t[i]
    requires s[i + 1..] == t[i + 1..]
    ensures Swap(s, i, j)[i..] == t[i..]
  {
    var s' := Swap(s, i, j);
    assert s'[i + 1..] == s[i + 1..];
    assert s'[i..] == [s'[i]] + s'[i + 1..] && t[i..] == [t[i]] + t[i + 1..];
  }

  /** An element of the prefix s[..i+1], as a multiset, stands at some j <= i. */
  lemma FindInPrefix<T>(s: seq<T>, x: T, i: nat) returns (j: nat)
    requires i < |s| && x in multiset(s[..i + 1])
    ensures j <= i && s[j] == x
  {
    var p := s[..i + 1];
    assert x in p;
    var k :| 0 <= k < |p| && p[k] == x;
    j := k;
  }

  /** Every arrangement of the input is produced by some sequence of draws:
      the shuffle can deal any permutation. */
  lemma EveryArrangementReachable<T>(s: seq<T>, t: seq<T>) returns (js: seq<nat>)
    requires multiset(s) == multiset(t)
    ensures OracleFits(js, |s|) && FisherYates(s, js) == t
  {
    assert |s| == |multiset(s)| == |multiset(t)| == |t|;
    assert s[..|s|] == s && t[..|t|] == t;
    js := ShuffledFromReaches(s, t, |s| - 1);
  }

  /** shuffleArray: copies its argument and runs the descending swap loop on
      the copy. The argument is left as it was: the method may not modify it. */
  method ShuffleArray<T>(input: array<T>, js: seq<nat>) returns (output: array<T>)
    requires OracleFits(js, input.Length)
    ensures fresh(output) && output.Length == input.Length
    ensures output[..] == FisherYates(input[..], js)
    ensures multiset(output[..]) == multiset(input[..])
  {
    output := new T[input.Length](k reads input requires 0 <= k < input.Length => input[k]);
    assert output[..] == input[..];
    var i := output.Length - 1;
    while i > 0
      invariant -1 <= i < output.Length == input.Length
      invariant ShuffledFrom(output[..], js, i) == FisherYates(input[..], js)
    {
      var j := js[i];
      ghost var before := output[..];
      output[i], output[j] := output[j], output[i];
      assert output[..] == Swap(before, i, j);
      i := i - 1;
    }
    FisherYatesPermutes(input[..], js);
  }
}
