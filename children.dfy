/** Splitting the candidate pool into the one-letter neighbours of a node and everything else. */
module Children {
  import opened WordNode
  import opened Heuristic

  /** The neighbour test of the source: v agrees with w in exactly |w| - 1 of w's positions,
      that is, they differ in exactly one of them. A word equal to w is not a neighbour.
      (The source reads v at every position of w, so v is never shorter than w.) */
  predicate IsChild(w: string, v: string)
  {
    |w| <= |v| && Distance(w, v) == 1
  }

  /** `node` and every index in `dict` point into the arena, and no dictionary word is shorter
      than the node's word (the source indexes the dictionary word by the node word's positions). */
  predicate WordsFit(arena: seq<Node>, node: nat, dict: seq<nat>)
  {
    node < |arena| &&
    forall i :: 0 <= i < |dict| ==> dict[i] < |arena| && |arena[node].word| <= |arena[dict[i]].word|
  }

  predicate Distinct(s: seq<nat>)
  {
    forall i, j :: 0 <= i < j < |s| ==> s[i] != s[j]
  }

  /** c lists some of d's elements in the order they have in d. */
  predicate IsSubsequence(c: seq<nat>, d: seq<nat>)
    decreases |d|
  {
    if c == [] then true
    else if d == [] then false
    else
      (c[|c| - 1] == d[|d| - 1] && IsSubsequence(c[..|c| - 1], d[..|d| - 1])) ||
      IsSubsequence(c, d[..|d| - 1])
  }

  /** The entries of dict that are children of the node (keep) or are not (!keep), in dict's order. */
  function Select(arena: seq<Node>, node: nat, dict: seq<nat>, keep: bool): (r: seq<nat>)
    requires WordsFit(arena, node, dict)
    ensures |r| <= |dict|
  {
    if dict == [] then []
    else
      var last := dict[|dict| - 1];
      Select(arena, node, dict[..|dict| - 1], keep) +
        (if IsChild(arena[node].word, arena[last].word) == keep then [last] else [])
  }

  /** One forward pass over the dictionary; the matching-letter counter is reset after every entry. */
  method GenerateNodeChildren(arena: seq<Node>, node: nat, dict: seq<nat>)
    returns (childrenNodes: seq<nat>, newDict: seq<nat>)
    requires WordsFit(arena, node, dict)
    ensures childrenNodes == Select(arena, node, dict, true)
    ensures newDict == Select(arena, node, dict, false)
  {
    childrenNodes := [];
    newDict := [];
    var w := arena[node].word;
    var wordLength := |w| - 1;
    var matchingLetters := 0;
    var k := 0;
    while k < |dict|
      invariant 0 <= k <= |dict|
      invariant matchingLetters == 0
      invariant childrenNodes == Select(arena, node, dict[..k], true)
      invariant newDict == Select(arena, node, dict[..k], false)
    {
      var dictNode := dict[k];
      var v := arena[dictNode].word;
      var i := 0;
      while i <= wordLength
        invariant 0 <= i <= |w|
        invariant matchingLetters == i - Mismatches(w, v, i)
      {
        if w[i] == v[i] {
          matchingLetters := matchingLetters + 1;
        }
        i := i + 1;
      }
      assert dict[..k + 1][..k] == dict[..k];
      if matchingLetters == wordLength {
        childrenNodes := childrenNodes + [dictNode];
      } else {
        newDict := newDict + [dictNode];
      }
      matchingLetters := 0;
      k := k + 1;
    }
    assert dict[..|dict|] == dict;
  }

  /** An entry is a child exactly when it differs from the node's word in one position;
      every other entry, and nothing else, stays in the dictionary. */
  lemma {:induction false} SelectMembers(arena: seq<Node>, node: nat, dict: seq<nat>, keep: bool)
    requires WordsFit(arena, node, dict)
    ensures forall x :: x in Select(arena, node, dict, keep) <==>
      x in dict && IsChild(arena[node].word, arena[x].word) == keep
  {
    if dict != [] {
      var front := dict[..|dict| - 1];
      SelectMembers(arena, node, front, keep);
      assert dict == front + [dict[|dict| - 1]];
    }
  }

  /** The two lists split the dictionary's entries between them, with none in both. */
  lemma SelectSplits(arena: seq<Node>, node: nat, dict: seq<nat>)
    requires WordsFit(arena, node, dict)
    ensures forall x :: x in dict <==> x in Select(arena, node, dict, true) || x in Select(arena, node, dict, false)
    ensures forall x :: x in Select(arena, node, dict, true) ==> x !in Select(arena, node, dict, false)
    ensures forall i :: 0 <= i < |Select(arena, node, dict, true)| ==> Select(arena, node, dict, true)[i] in dict
    ensures forall i :: 0 <= i < |Select(arena, node, dict, false)| ==> Select(arena, node, dict, false)[i] in dict
  {
    SelectMembers(arena, node, dict, true);
    SelectMembers(arena, node, dict, false);
  }

  /** Every dictionary entry lands in exactly one of the two lists: together they hold the
      dictionary's entries, no more and no fewer. */
  lemma {:induction false} SelectPartitions(arena: seq<Node>, node: nat, dict: seq<nat>)
    requires WordsFit(arena, node, dict)
    ensures multiset(Select(arena, node, dict, true)) + multiset(Select(arena, node, dict, false)) == multiset(dict)
    ensures |Select(arena, node, dict, true)| + |Select(arena, node, dict, false)| == |dict|
  {
    if dict != [] {
      var front := dict[..|dict| - 1];
      var last := dict[|dict| - 1];
      SelectPartitions(arena, node, front);
      PartitionStep(Select(arena, node, front, true), Select(arena, node, front, false), front, last,
                    IsChild(arena[node].word, arena[last].word));
      assert dict == front + [last];
    }
  }

  /** Adding one entry to exactly one of two lists that partition front makes them partition front + [x]. */
  lemma PartitionStep(t: seq<nat>, f: seq<nat>, front: seq<nat>, x: nat, toT: bool)
    requires multiset(t) + multiset(f) == multiset(front)
    ensures var t', f' := t + (if toT then [x] else []), f + (if toT then [] else [x]);
      multiset(t') + multiset(f') == multiset(front + [x]) && |t'| + |f'| == |t| + |f| + 1
  {
  }

  /** Both lists keep the dictionary's order. */
  lemma {:induction false} SelectKeepsOrder(arena: seq<Node>, node: nat, dict: seq<nat>, keep: bool)
    requires WordsFit(arena, node, dict)
    ensures IsSubsequence(Select(arena, node, dict, keep), dict)
  {
    if dict != [] {
      var front := dict[..|dict| - 1];
      var r := Select(arena, node, dict, keep);
      var r' := Select(arena, node, front, keep);
      SelectKeepsOrder(arena, node, front, keep);
      if r != r' {
        assert r[..|r| - 1] == r';
      }
    }
  }

  /** A dictionary without repeated entries gives lists without repeated entries. */
  lemma {:induction false} SelectDistinct(arena: seq<Node>, node: nat, dict: seq<nat>, keep: bool)
    requires WordsFit(arena, node, dict) && Distinct(dict)
    ensures Distinct(Select(arena, node, dict, keep))
  {
    if dict != [] {
      var front := dict[..|dict| - 1];
      assert Distinct(front);
      SelectDistinct(arena, node, front, keep);
      SelectMembers(arena, node, front, keep);
      assert dict[|dict| - 1] !in front;
    }
  }

  /** An entry whose word equals the node's word is not a child: it stays in the new dictionary. */
  lemma IdenticalWordStays(arena: seq<Node>, node: nat, dict: seq<nat>, x: nat)
    requires WordsFit(arena, node, dict) && x in dict
    requires arena[x].word == arena[node].word
    ensures x !in Select(arena, node, dict, true) && x in Select(arena, node, dict, false)
  {
    SelectMembers(arena, node, dict, true);
    SelectMembers(arena, node, dict, false);
  }

  /** The nodes of the fixtures of the unit tests: test, pest, best, beat, brat, brag. */
  predicate FixtureWords(arena: seq<Node>)
  {
    |arena| == 6 && arena[0].word == "test" && arena[1].word == "pest" && arena[2].word == "best" &&
    arena[3].word == "beat" && arena[4].word == "brat" && arena[5].word == "brag"
  }

  /** The first fixture of the unit tests: from "test", the children of
      [pest, best, beat, brat, brag] are [pest, best] and the rest stay. */
  lemma SelectExampleFromTest(arena: seq<Node>)
    requires FixtureWords(arena)
    ensures Select(arena, 0, [1, 2, 3, 4, 5], true) == [1, 2]
    ensures Select(arena, 0, [1, 2, 3, 4, 5], false) == [3, 4, 5]
  {
    ChildrenFromTest(arena);
    RestFromTest(arena);
  }

  /** The second fixture: from "best", the children of [test, pest, beat, brat, brag] are
      [test, pest, beat] and [brat, brag] stay. */
  lemma SelectExampleFromBest(arena: seq<Node>)
    requires FixtureWords(arena)
    ensures Select(arena, 2, [0, 1, 3, 4, 5], true) == [0, 1, 3]
    ensures Select(arena, 2, [0, 1, 3, 4, 5], false) == [4, 5]
  {
    ChildrenFromBest(arena);
    RestFromBest(arena);
  }

  /** The third fixture: from "brag", the only child of [test, best, pest, beat, brat] is brat,
      and the rest stay in their order. */
  lemma SelectExampleFromBrag(arena: seq<Node>)
    requires FixtureWords(arena)
    ensures Select(arena, 5, [0, 2, 1, 3, 4], true) == [4]
    ensures Select(arena, 5, [0, 2, 1, 3, 4], false) == [0, 2, 1, 3]
  {
    ChildrenFromBrag(arena);
    RestFromBrag(arena);
  }

  /** The two halves of each fixture, proved one dictionary prefix at a time. */
  lemma ChildrenFromTest(arena: seq<Node>)
    requires FixtureWords(arena)
    ensures Select(arena, 0, [1, 2, 3, 4, 5], true) == [1, 2]
  {
    NeighboursOfTest(arena);
    assert [1][..0] == [];
    assert [1, 2][..1] == [1];
    assert [1, 2, 3][..2] == [1, 2];
    assert [1, 2, 3, 4][..3] == [1, 2, 3];
    assert [1, 2, 3, 4, 5][..4] == [1, 2, 3, 4];
    assert Select(arena, 0, [1], true) == [1];
    assert Select(arena, 0, [1, 2], true) == [1, 2];
    assert Select(arena, 0, [1, 2, 3], true) == [1, 2];
    assert Select(arena, 0, [1, 2, 3, 4], true) == [1, 2];
  }

  lemma RestFromTest(arena: seq<Node>)
    requires FixtureWords(arena)
    ensures Select(arena, 0, [1, 2, 3, 4, 5], false) == [3, 4, 5]
  {
    NeighboursOfTest(arena);
    assert [1][..0] == [];
    assert [1, 2][..1] == [1];
    assert [1, 2, 3][..2] == [1, 2];
    assert [1, 2, 3, 4][..3] == [1, 2, 3];
    assert [1, 2, 3, 4, 5][..4] == [1, 2, 3, 4];
    assert Select(arena, 0, [1], false) == [];
    assert Select(arena, 0, [1, 2], false) == [];
    assert Select(arena, 0, [1, 2, 3], false) == [3];
    assert Select(arena, 0, [1, 2, 3, 4], false) == [3, 4];
  }

  lemma ChildrenFromBest(arena: seq<Node>)
    requires FixtureWords(arena)
    ensures Select(arena, 2, [0, 1, 3, 4, 5], true) == [0, 1, 3]
  {
    NeighboursOfBest(arena);
    assert [0][..0] == [];
    assert [0, 1][..1] == [0];
    assert [0, 1, 3][..2] == [0, 1];
    assert [0, 1, 3, 4][..3] == [0, 1, 3];
    assert [0, 1, 3, 4, 5][..4] == [0, 1, 3, 4];
    assert Select(arena, 2, [0], true) == [0];
    assert Select(arena, 2, [0, 1], true) == [0, 1];
    assert Select(arena, 2, [0, 1, 3], true) == [0, 1, 3];
    assert Select(arena, 2, [0, 1, 3, 4], true) == [0, 1, 3];
  }

  lemma RestFromBest(arena: seq<Node>)
    requires FixtureWords(arena)
    ensures Select(arena, 2, [0, 1, 3, 4, 5], false) == [4, 5]
  {
    NeighboursOfBest(arena);
    assert [0][..0] == [];
    assert [0, 1][..1] == [0];
    assert [0, 1, 3][..2] == [0, 1];
    assert [0, 1, 3, 4][..3] == [0, 1, 3];
    assert [0, 1, 3, 4, 5][..4] == [0, 1, 3, 4];
    assert Select(arena, 2, [0], false) == [];
    assert Select(arena, 2, [0, 1], false) == [];
    assert Select(arena, 2, [0, 1, 3], false) == [];
    assert Select(arena, 2, [0, 1, 3, 4], false) == [4];
  }

  lemma ChildrenFromBrag(arena: seq<Node>)
    requires FixtureWords(arena)
    ensures Select(arena, 5, [0, 2, 1, 3, 4], true) == [4]
  {
    NeighboursOfBrag(arena);
    assert [0][..0] == [];
    assert [0, 2][..1] == [0];
    assert [0, 2, 1][..2] == [0, 2];
    assert [0, 2, 1, 3][..3] == [0, 2, 1];
    assert [0, 2, 1, 3, 4][..4] == [0, 2, 1, 3];
    assert Select(arena, 5, [0], true) == [];
    assert Select(arena, 5, [0, 2], true) == [];
    assert Select(arena, 5, [0, 2, 1], true) == [];
    assert Select(arena, 5, [0, 2, 1, 3], true) == [];
  }

  lemma RestFromBrag(arena: seq<Node>)
    requires FixtureWords(arena)
    ensures Select(arena, 5, [0, 2, 1, 3, 4], false) == [0, 2, 1, 3]
  {
    NeighboursOfBrag(arena);
    assert [0][..0] == [];
    assert [0, 2][..1] == [0];
    assert [0, 2, 1][..2] == [0, 2];
    assert [0, 2, 1, 3][..3] == [0, 2, 1];
    assert [0, 2, 1, 3, 4][..4] == [0, 2, 1, 3];
    assert Select(arena, 5, [0], false) == [0];
    assert Select(arena, 5, [0, 2], false) == [0, 2];
    assert Select(arena, 5, [0, 2, 1], false) == [0, 2, 1];
    assert Select(arena, 5, [0, 2, 1, 3], false) == [0, 2, 1, 3];
  }

  /** Which fixture words are one letter away from the expanded node's word. */
  lemma NeighboursOfTest(a: seq<Node>)
    requires FixtureWords(a)
    ensures IsChild(a[0].word, a[1].word) && IsChild(a[0].word, a[2].word) &&
      !IsChild(a[0].word, a[3].word) && !IsChild(a[0].word, a[4].word) && !IsChild(a[0].word, a[5].word)
  {
    FourLetterMismatches("test", "pest");
    FourLetterMismatches("test", "best");
    FourLetterMismatches("test", "beat");
    FourLetterMismatches("test", "brat");
    FourLetterMismatches("test", "brag");
  }

  lemma NeighboursOfBest(a: seq<Node>)
    requires FixtureWords(a)
    ensures IsChild(a[2].word, a[0].word) && IsChild(a[2].word, a[1].word) && IsChild(a[2].word, a[3].word) &&
      !IsChild(a[2].word, a[4].word) && !IsChild(a[2].word, a[5].word)
  {
    FourLetterMismatches("best", "test");
    FourLetterMismatches("best", "pest");
    FourLetterMismatches("best", "beat");
    FourLetterMismatches("best", "brat");
    FourLetterMismatches("best", "brag");
  }

  lemma NeighboursOfBrag(a: seq<Node>)
    requires FixtureWords(a)
    ensures IsChild(a[5].word, a[4].word) &&
      !IsChild(a[5].word, a[0].word) && !IsChild(a[5].word, a[2].word) && !IsChild(a[5].word, a[1].word) &&
      !IsChild(a[5].word, a[3].word)
  {
    FourLetterMismatches("brag", "test");
    FourLetterMismatches("brag", "best");
    FourLetterMismatches("brag", "pest");
    FourLetterMismatches("brag", "beat");
    FourLetterMismatches("brag", "brat");
  }
}
