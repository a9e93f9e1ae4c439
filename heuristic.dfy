/** The A* heuristic: the number of letter positions in which two words differ,
    and the word-ladder notions it bounds. */
module Heuristic {

  /** Number of positions i < n where s and e differ. */
  function Mismatches(s: string, e: string, n: nat): (r: nat)
    requires n <= |s| && n <= |e|
    ensures r <= n
    ensures r == 0 <==> forall i :: 0 <= i < n ==> s[i] == e[i]
  {
    if n == 0 then 0
    else Mismatches(s, e, n - 1) + (if s[n - 1] != e[n - 1] then 1 else 0)
  }

  /** The heuristic cost from s to e: mismatches over the first |s| letters. */
  function Distance(s: string, e: string): nat
    requires |s| <= |e|
  {
    Mismatches(s, e, |s|)
  }

  /** Two words of equal length that differ in exactly one letter: one step of a ladder. */
  predicate OneLetterApart(a: string, b: string)
  {
    |a| == |b| && Distance(a, b) == 1
  }

  /** Every pair of neighbouring words in l is one letter apart. */
  predicate IsLadder(l: seq<string>)
  {
    forall i :: 0 <= i < |l| - 1 ==> OneLetterApart(l[i], l[i + 1])
  }

  /** The cost as written: start from |s| and take one off for every position where the letters agree. */
  method CalculateNodeCost(s: string, e: string) returns (result: int)
    requires |s| <= |e|
    ensures result == Distance(s, e)
  {
    result := |s|;
    var wordLength := result - 1;
    var i := 0;
    while i <= wordLength
      invariant 0 <= i <= |s|
      invariant result == |s| - i + Mismatches(s, e, i)
    {
      if s[i] == e[i] {
        result := result - 1;
      }
      i := i + 1;
    }
  }

  /** The recursive count agrees with the set of differing positions. */
  lemma {:induction false} MismatchesCountsPositions(s: string, e: string, n: nat)
    requires n <= |s| && n <= |e|
    ensures Mismatches(s, e, n) == |set i | 0 <= i < n && s[i] != e[i]|
  {
    var B := set i | 0 <= i < n && s[i] != e[i];
    if n == 0 {
      assert B == {};
    } else {
      MismatchesCountsPositions(s, e, n - 1);
      var A := set i | 0 <= i < n - 1 && s[i] != e[i];
      if s[n - 1] != e[n - 1] {
        assert B == A + {n - 1};
      } else {
        assert B == A;
      }
    }
  }

  lemma {:induction false} MismatchesSymmetric(a: string, b: string, n: nat)
    requires n <= |a| && n <= |b|
    ensures Mismatches(a, b, n) == Mismatches(b, a, n)
  {
    if n > 0 {
      MismatchesSymmetric(a, b, n - 1);
    }
  }

  lemma {:induction false} MismatchesTriangle(a: string, b: string, c: string, n: nat)
    requires n <= |a| && n <= |b| && n <= |c|
    ensures Mismatches(a, c, n) <= Mismatches(a, b, n) + Mismatches(b, c, n)
  {
    if n > 0 {
      MismatchesTriangle(a, b, c, n - 1);
    }
  }

  /** For words of equal length the heuristic is symmetric, and so is being one letter apart. */
  lemma DistanceSymmetric(a: string, b: string)
    requires |a| == |b|
    ensures Distance(a, b) == Distance(b, a)
    ensures OneLetterApart(a, b) <==> OneLetterApart(b, a)
  {
    MismatchesSymmetric(a, b, |a|);
  }

  /** The heuristic never overestimates: a ladder from l[0] to its last word takes at least
      Distance(l[0], last) steps. */
  lemma {:induction false} LadderLowerBound(l: seq<string>)
    requires |l| >= 1 && IsLadder(l)
    ensures |l[0]| == |l[|l| - 1]|
    ensures Distance(l[0], l[|l| - 1]) <= |l| - 1
  {
    if |l| > 1 {
      var t := l[1..];
      assert IsLadder(t) by {
        forall i | 0 <= i < |t| - 1
          ensures OneLetterApart(t[i], t[i + 1])
        {
          assert OneLetterApart(l[i + 1], l[i + 2]);
        }
      }
      LadderLowerBound(t);
      assert OneLetterApart(l[0], l[1]);
      MismatchesTriangle(l[0], l[1], l[|l| - 1], |l[0]|);
    }
  }

  /** Unfolds the count over the four letters of a four-letter word. */
  lemma FourLetterMismatches(s: string, e: string)
    requires |s| == 4 && |e| == 4
    ensures Distance(s, e) ==
      (if s[0] != e[0] then 1 else 0) + (if s[1] != e[1] then 1 else 0) +
      (if s[2] != e[2] then 1 else 0) + (if s[3] != e[3] then 1 else 0)
  {
    assert Mismatches(s, e, 1) == if s[0] != e[0] then 1 else 0;
    assert Mismatches(s, e, 2) == Mismatches(s, e, 1) + if s[1] != e[1] then 1 else 0;
    assert Mismatches(s, e, 3) == Mismatches(s, e, 2) + if s[2] != e[2] then 1 else 0;
    assert Mismatches(s, e, 4) == Mismatches(s, e, 3) + if s[3] != e[3] then 1 else 0;
  }

  /** The cost values the unit tests expect. */
  lemma DistanceExamples()
    ensures Distance("test", "test") == 0
    ensures Distance("test", "best") == 1
    ensures Distance("test", "beat") == 2
    ensures Distance("test", "brat") == 3
    ensures Distance("test", "brag") == 4
  {
    FourLetterMismatches("test", "best");
    FourLetterMismatches("test", "beat");
    FourLetterMismatches("test", "brat");
    FourLetterMismatches("test", "brag");
  }
}
