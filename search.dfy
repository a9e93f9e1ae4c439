/** The best-first (A*) search of AStarAnalyseFile, over an arena of nodes:
    index 0 is the start node, indices 1..|pool| the pool's nodes in order, and the last index the
    end node, which the source appends to the dictionary. Parent links are arena indices. */
module Search {
  import opened WordNode
  import opened Heuristic
  import opened Children
  import opened ResultPath

  /** What the search relies on: the two words have the same length, every pool word has that
      length too, and the pool never holds the start or the end word (the file reader drops them). */
  predicate ValidInput(sW: string, eW: string, pool: seq<string>)
  {
    |sW| == |eW| && sW !in pool && eW !in pool && forall w :: w in pool ==> |w| == |sW|
  }

  /** l is a word ladder from a to b whose intermediate words all come from the pool. */
  predicate LadderThrough(l: seq<string>, a: string, b: string, pool: seq<string>)
  {
    |l| >= 1 && l[0] == a && l[|l| - 1] == b && IsLadder(l) &&
    forall i :: 0 < i < |l| - 1 ==> l[i] in pool
  }

  /** No word occurs twice in l. */
  predicate NoRepeatedWord(l: seq<string>)
  {
    forall i, j :: 0 <= i < j < |l| ==> l[i] != l[j]
  }

  // ---------------------------------------------------------------------------------------------
  // Selecting the node to expand

  predicate ScoresNonNegative(arena: seq<Node>, openList: seq<nat>)
    requires forall i :: 0 <= i < |openList| ==> openList[i] < |arena|
  {
    forall i :: 0 <= i < |openList| ==> 0 <= arena[openList[i]].fScore && 0 <= arena[openList[i]].gScore
  }

  /** The scan as written: a node replaces the current best when its F score and its G score are both
      no greater (the -1 sentinels make the first node the first best). The chosen node is no worse
      than the head of the list, and no later node is at least as good in both scores, so ties go to
      the later node. This is not a minimum-F choice. */
  method SelectBest(arena: seq<Node>, openList: seq<nat>) returns (index: nat)
    requires |openList| > 0
    requires forall i :: 0 <= i < |openList| ==> openList[i] < |arena|
    ensures index < |openList|
    ensures ScoresNonNegative(arena, openList) ==>
      arena[openList[index]].fScore <= arena[openList[0]].fScore &&
      arena[openList[index]].gScore <= arena[openList[0]].gScore
    ensures ScoresNonNegative(arena, openList) ==>
      forall j :: index < j < |openList| ==>
        !(arena[openList[j]].fScore <= arena[openList[index]].fScore &&
          arena[openList[j]].gScore <= arena[openList[index]].gScore)
  {
    var bestFScore := -1;
    var bestGScore := -1;
    index := 0;
    var i := 0;
    while i < |openList|
      invariant 0 <= i <= |openList|
      invariant i == 0 ==> index == 0 && bestFScore == -1 && bestGScore == -1
      invariant i > 0 ==>
        (index < i && bestFScore == arena[openList[index]].fScore &&
         bestGScore == arena[openList[index]].gScore)
      invariant ScoresNonNegative(arena, openList) && i > 0 ==>
        bestFScore <= arena[openList[0]].fScore && bestGScore <= arena[openList[0]].gScore
      invariant ScoresNonNegative(arena, openList) ==>
        forall j :: index < j < i ==>
          !(arena[openList[j]].fScore <= bestFScore && arena[openList[j]].gScore <= bestGScore)
    {
      var node := arena[openList[i]];
      if bestFScore >= node.fScore || bestFScore == -1 {
        if bestGScore >= node.gScore || bestGScore == -1 {
          bestFScore := node.fScore;
          bestGScore := node.gScore;
          index := i;
        }
      }
      i := i + 1;
    }
  }

  /** The open list without its i-th entry, the others in their order. */
  function RemoveAt(s: seq<nat>, i: nat): (r: seq<nat>)
    requires i < |s|
    ensures |r| == |s| - 1
    ensures forall j :: 0 <= j < i ==> r[j] == s[j]
    ensures forall j :: i <= j < |r| ==> r[j] == s[j + 1]
  {
    s[..i] + s[i + 1..]
  }

  // ---------------------------------------------------------------------------------------------
  // Scoring the children

  /** The test guarding a child's rescoring: the new G score is lower, or the child was never scored. */
  predicate Improves(tempG: int, child: Node)
  {
    tempG < child.gScore || child.gScore == 0
  }

  /** A child reached from `parent` with G score tempG: H is its heuristic cost to the end word and
      F = G + H. */
  function Rescored(child: Node, tempG: int, parent: nat, eW: string): (n: Node)
    requires |child.word| <= |eW|
    ensures n.word == child.word && n.parent == Some(parent)
    ensures n.gScore == tempG && n.hScore == Distance(child.word, eW) && n.fScore == n.gScore + n.hScore
  {
    child.(gScore := tempG, hScore := Distance(child.word, eW), fScore := tempG + Distance(child.word, eW),
           parent := Some(parent))
  }

  /** The children that pass the rescoring test, in order. */
  function Attached(arena: seq<Node>, children: seq<nat>, tempG: int): (r: seq<nat>)
    requires forall i :: 0 <= i < |children| ==> children[i] < |arena|
    ensures |r| <= |children|
  {
    if children == [] then []
    else
      var last := children[|children| - 1];
      Attached(arena, children[..|children| - 1], tempG) + (if Improves(tempG, arena[last]) then [last] else [])
  }

  /** Children that were never scored all pass the test, whatever the new G score. */
  lemma {:induction false} AttachedUnscored(arena: seq<Node>, children: seq<nat>, tempG: int)
    requires forall i :: 0 <= i < |children| ==> children[i] < |arena| && arena[children[i]].gScore == 0
    ensures Attached(arena, children, tempG) == children
  {
    if children != [] {
      AttachedUnscored(arena, children[..|children| - 1], tempG);
      assert children == children[..|children| - 1] + [children[|children| - 1]];
    }
  }

  /** Scores every child that passes the test with G = current G + 1, H = its cost to the end word,
      F = G + H and the current node as parent, and appends it to the open list. */
  method AttachChildren(arena: seq<Node>, openList: seq<nat>, currentNode: nat, childrenNodes: seq<nat>, eW: string)
    returns (arena': seq<Node>, openList': seq<nat>)
    requires currentNode < |arena|
    requires forall i :: 0 <= i < |childrenNodes| ==>
      childrenNodes[i] < |arena| && |arena[childrenNodes[i]].word| <= |eW|
    requires Distinct(childrenNodes)
    ensures |arena'| == |arena|
    ensures openList' == openList + Attached(arena, childrenNodes, arena[currentNode].gScore + 1)
    ensures forall k {:trigger arena'[k]} :: 0 <= k < |arena| ==>
      arena'[k] == (if k in childrenNodes && Improves(arena[currentNode].gScore + 1, arena[k])
                    then Rescored(arena[k], arena[currentNode].gScore + 1, currentNode, eW)
                    else arena[k])
  {
    var tempGScore := arena[currentNode].gScore + 1;
    arena', openList' := arena, openList;
    var j := 0;
    while j < |childrenNodes|
      invariant 0 <= j <= |childrenNodes|
      invariant openList' == openList + Attached(arena, childrenNodes[..j], tempGScore)
      invariant RescoredUpTo(arena, arena', childrenNodes, j, tempGScore, currentNode, eW)
    {
      var cN := childrenNodes[j];
      RescoredUpToStep(arena, arena', childrenNodes, j, tempGScore, currentNode, eW);
      assert childrenNodes[..j + 1][..j] == childrenNodes[..j];
      if tempGScore < arena'[cN].gScore || arena'[cN].gScore == 0 {
        var h := CalculateNodeCost(arena'[cN].word, eW);
        var child := arena'[cN];
        child := child.(gScore := tempGScore);
        child := child.(hScore := h);
        child := child.(fScore := child.gScore + child.hScore);
        child := child.(parent := Some(currentNode));
        assert child == Rescored(arena[cN], tempGScore, currentNode, eW);
        arena' := arena'[cN := child];
        openList' := openList' + [cN];
      }
      j := j + 1;
    }
    RescoredUpToAll(arena, arena', childrenNodes, tempGScore, currentNode, eW);
    assert childrenNodes[..|childrenNodes|] == childrenNodes;
  }

  /** After the first j children: exactly those among them that pass the test are rescored. */
  ghost predicate RescoredUpTo(arena: seq<Node>, arena': seq<Node>, children: seq<nat>, j: nat, tempG: int,
                               parent: nat, eW: string)
    requires j <= |children|
    requires forall i :: 0 <= i < |children| ==> children[i] < |arena| && |arena[children[i]].word| <= |eW|
  {
    |arena'| == |arena| &&
    forall k {:trigger arena'[k]} :: 0 <= k < |arena| ==>
      arena'[k] == (if k in children[..j] && Improves(tempG, arena[k])
                    then Rescored(arena[k], tempG, parent, eW)
                    else arena[k])
  }

  /** One child further: it is still untouched, and rescoring it when it passes the test extends
      the prefix by one. */
  lemma RescoredUpToStep(arena: seq<Node>, arena': seq<Node>, children: seq<nat>, j: nat, tempG: int,
                         parent: nat, eW: string)
    requires j < |children| && Distinct(children)
    requires forall i :: 0 <= i < |children| ==> children[i] < |arena| && |arena[children[i]].word| <= |eW|
    requires RescoredUpTo(arena, arena', children, j, tempG, parent, eW)
    ensures arena'[children[j]] == arena[children[j]]
    ensures Improves(tempG, arena[children[j]]) ==>
      RescoredUpTo(arena, arena'[children[j] := Rescored(arena[children[j]], tempG, parent, eW)],
                   children, j + 1, tempG, parent, eW)
    ensures !Improves(tempG, arena[children[j]]) ==> RescoredUpTo(arena, arena', children, j + 1, tempG, parent, eW)
  {
    var c := children[j];
    assert c !in children[..j];
    assert children[..j + 1] == children[..j] + [c];
  }

  /** After the last child: the rescoring test decides every entry of the arena. */
  lemma RescoredUpToAll(arena: seq<Node>, arena': seq<Node>, children: seq<nat>, tempG: int, parent: nat, eW: string)
    requires forall i :: 0 <= i < |children| ==> children[i] < |arena| && |arena[children[i]].word| <= |eW|
    requires RescoredUpTo(arena, arena', children, |children|, tempG, parent, eW)
    ensures |arena'| == |arena|
    ensures forall k {:trigger arena'[k]} :: 0 <= k < |arena| ==>
      arena'[k] == (if k in children && Improves(tempG, arena[k]) then Rescored(arena[k], tempG, parent, eW) else arena[k])
  {
    assert children[..|children|] == children;
  }

  // ---------------------------------------------------------------------------------------------
  // The search loop

  /** The state the search loop keeps, with the ghost list of expanded (closed) nodes:
      - the arena holds the start word, the pool's words and the end word, all of one length;
      - every node is still in the dictionary, in the open list or closed; dictionary nodes are
        unscored and parentless;
      - the start node has G = 0, H = F = its cost to the end word and no parent; every other node
        in the open list or closed has a parent, which is closed, is one letter away, and has a G
        score one lower; H is the node's cost to the end word and F = G + H on every node;
      - no closed node holds the end word, and no dictionary node is a child of a closed node;
      - reached nodes other than the start node that hold the same word have the same G score. */
  ghost predicate SearchInv(arena: seq<Node>, openList: seq<nat>, dict: seq<nat>, closed: seq<nat>,
                            sW: string, eW: string, pool: seq<string>)
  {
    Layout(arena, sW, eW, pool) &&
    Lists(arena, openList, dict, closed) &&
    Scores(arena, openList, closed, sW, eW) &&
    Expanded(arena, dict, closed, eW) &&
    SameWordSameG(arena, openList, closed)
  }

  /** Start word, pool words, end word, all of one length. */
  ghost predicate Layout(arena: seq<Node>, sW: string, eW: string, pool: seq<string>)
  {
    |sW| == |eW| &&
    |arena| == |pool| + 2 &&
    arena[0].word == sW && arena[|arena| - 1].word == eW &&
    (forall k :: 1 <= k <= |pool| ==> arena[k].word == pool[k - 1]) &&
    WordsOfLength(arena, |eW|)
  }

  /** Every word in the arena has n letters. */
  ghost predicate WordsOfLength(arena: seq<Node>, n: nat)
  {
    forall k :: 0 <= k < |arena| ==> |arena[k].word| == n
  }

  /** Every node is in the dictionary, in the open list or closed; dictionary nodes are unscored,
      parentless, and in neither of the other two lists. */
  ghost predicate Lists(arena: seq<Node>, openList: seq<nat>, dict: seq<nat>, closed: seq<nat>)
  {
    (forall i :: 0 <= i < |openList| ==> openList[i] < |arena|) &&
    (forall k :: k in closed ==> k < |arena|) &&
    (forall i :: 0 <= i < |dict| ==> 1 <= dict[i] < |arena|) &&
    Distinct(dict) &&
    (forall k {:trigger k in dict} ::
      k in dict ==> k !in openList && k !in closed && arena[k] == NewNode(arena[k].word)) &&
    (forall k {:trigger Placed(dict, openList, closed, k)} ::
      0 <= k < |arena| ==> Placed(dict, openList, closed, k))
  }

  /** k is in one of the three lists. */
  ghost predicate Placed(dict: seq<nat>, openList: seq<nat>, closed: seq<nat>, k: nat)
  {
    k in dict || k in openList || k in closed
  }

  /** k has been reached by the search: it is open or closed. */
  ghost predicate Reached(openList: seq<nat>, closed: seq<nat>, k: nat)
  {
    k in openList || k in closed
  }

  /** The start node's scores, F = G + H everywhere, and the parent links of attached nodes. */
  ghost predicate Scores(arena: seq<Node>, openList: seq<nat>, closed: seq<nat>, sW: string, eW: string)
    requires |sW| == |eW| && WordsOfLength(arena, |eW|)
  {
    |arena| > 0 &&
    arena[0].parent == None && arena[0].gScore == 0 && arena[0].hScore == Distance(sW, eW) &&
    (forall k :: 0 <= k < |arena| ==>
      0 <= arena[k].gScore && arena[k].fScore == arena[k].gScore + arena[k].hScore) &&
    (forall k {:trigger ParentLink(arena, k, closed, eW)} ::
      0 <= k < |arena| && arena[k].parent.Some? ==> ParentLink(arena, k, closed, eW)) &&
    (forall k {:trigger Reached(openList, closed, k)} ::
      0 < k < |arena| && Reached(openList, closed, k) ==> arena[k].parent.Some?)
  }

  /** k's parent is closed, one letter away and one G step closer to the start; k's H is its cost. */
  ghost predicate ParentLink(arena: seq<Node>, k: nat, closed: seq<nat>, eW: string)
    requires k < |arena| && arena[k].parent.Some?
    requires WordsOfLength(arena, |eW|)
  {
    var p := arena[k].parent.value;
    p < |arena| && p in closed && arena[k].gScore == arena[p].gScore + 1 &&
    arena[k].hScore == Distance(arena[k].word, eW) && IsChild(arena[p].word, arena[k].word)
  }

  /** No closed node holds the end word, and no dictionary node is a child of a closed node. */
  ghost predicate Expanded(arena: seq<Node>, dict: seq<nat>, closed: seq<nat>, eW: string)
    requires WordsOfLength(arena, |eW|)
    requires forall k :: k in closed ==> k < |arena|
    requires forall i :: 0 <= i < |dict| ==> dict[i] < |arena|
  {
    (forall c :: c in closed ==> arena[c].word != eW) &&
    (forall c, d {:trigger IsChild(arena[c].word, arena[d].word)} ::
      c in closed && d in dict && d < |arena| ==> !IsChild(arena[c].word, arena[d].word))
  }

  /** Reached nodes other than the start node that hold the same word have the same G score: every
      copy of a word leaves the dictionary in the same pass, as a child of the same node. */
  ghost predicate SameWordSameG(arena: seq<Node>, openList: seq<nat>, closed: seq<nat>)
  {
    forall k1, k2 {:trigger Reached(openList, closed, k1), Reached(openList, closed, k2)} ::
      0 < k1 < |arena| && 0 < k2 < |arena| && Reached(openList, closed, k1) && Reached(openList, closed, k2) &&
      arena[k1].word == arena[k2].word
      ==> arena[k1].gScore == arena[k2].gScore
  }

  /** The G scores as a rank for the parent links. */
  ghost function GRank(arena: seq<Node>): seq<nat>
  {
    seq(|arena|, k requires 0 <= k < |arena| => if arena[k].gScore < 0 then 0 else arena[k].gScore)
  }

  /** The state right after the start node has been scored and put on the open list. */
  lemma InitialInv(arena: seq<Node>, dict: seq<nat>, sW: string, eW: string, pool: seq<string>)
    requires ValidInput(sW, eW, pool)
    requires |arena| == |pool| + 2
    requires arena[0] == NewNode(sW).(hScore := Distance(sW, eW), fScore := Distance(sW, eW))
    requires forall k :: 1 <= k <= |pool| ==> arena[k] == NewNode(pool[k - 1])
    requires arena[|pool| + 1] == NewNode(eW)
    requires dict == seq(|pool| + 1, i requires 0 <= i => i + 1)
    ensures SearchInv(arena, [0], dict, [], sW, eW, pool)
  {
    forall k | 0 <= k < |arena|
      ensures k in dict || k == 0
    {
      if k != 0 {
        assert dict[k - 1] == k;
      }
    }
    forall k | 1 <= k <= |pool|
      ensures |arena[k].word| == |sW|
    {
      assert pool[k - 1] in pool;
    }
  }

  /** The expansion of `current` in one pass of the loop body: the dictionary is split into the
      node's children and the rest, and the children that pass the rescoring test are scored and
      appended to `open1`, the open list without `current`. */
  ghost predicate Step(arena: seq<Node>, open1: seq<nat>, current: nat, dict: seq<nat>, eW: string,
                       children: seq<nat>, newDict: seq<nat>, arena': seq<Node>, openList': seq<nat>)
  {
    WordsFit(arena, current, dict) &&
    children == Select(arena, current, dict, true) &&
    newDict == Select(arena, current, dict, false) &&
    (forall i :: 0 <= i < |children| ==> children[i] < |arena|) &&
    (forall k :: 0 <= k < |arena| ==> |arena[k].word| <= |eW|) &&
    |arena'| == |arena| &&
    openList' == open1 + Attached(arena, children, arena[current].gScore + 1) &&
    (forall k {:trigger arena'[k]} :: 0 <= k < |arena| ==>
      arena'[k] == (if k in children && Improves(arena[current].gScore + 1, arena[k])
                    then Rescored(arena[k], arena[current].gScore + 1, current, eW)
                    else arena[k]))
  }

  /** Lines 75-88 of the loop body: the children of the current node are split off the dictionary,
      and every child that passes the rescoring test is scored and appended to the open list. */
  method ExpandNode(arena: seq<Node>, openList: seq<nat>, currentNode: nat, wordDictionary: seq<nat>, eW: string)
    returns (childrenNodes: seq<nat>, newDict: seq<nat>, arena': seq<Node>, openList': seq<nat>)
    requires WordsFit(arena, currentNode, wordDictionary) && Distinct(wordDictionary)
    requires forall k :: 0 <= k < |arena| ==> |arena[k].word| <= |eW|
    ensures Step(arena, openList, currentNode, wordDictionary, eW, childrenNodes, newDict, arena', openList')
  {
    childrenNodes, newDict := GenerateNodeChildren(arena, currentNode, wordDictionary);
    SelectDistinct(arena, currentNode, wordDictionary, true);
    SelectMembers(arena, currentNode, wordDictionary, true);
    forall i | 0 <= i < |childrenNodes|
      ensures childrenNodes[i] < |arena|
    {
      assert childrenNodes[i] in childrenNodes;
    }
    arena', openList' := AttachChildren(arena, openList, currentNode, childrenNodes, eW);
  }

  /** The children all come from the dictionary, so they are unscored: every one of them passes the
      rescoring test. */
  lemma StepSimplify(arena: seq<Node>, openList: seq<nat>, dict: seq<nat>, closed: seq<nat>, eW: string,
                     index: nat, children: seq<nat>, newDict: seq<nat>, arena': seq<Node>, openList': seq<nat>)
    requires Lists(arena, openList, dict, closed)
    requires index < |openList|
    requires Step(arena, RemoveAt(openList, index), openList[index], dict, eW, children, newDict, arena', openList')
    ensures openList' == RemoveAt(openList, index) + children
    ensures forall k {:trigger arena'[k]} :: 0 <= k < |arena| ==>
      arena'[k] == if k in children then Rescored(arena[k], arena[openList[index]].gScore + 1, openList[index], eW)
                   else arena[k]
  {
    var current := openList[index];
    var tempG := arena[current].gScore + 1;
    SelectMembers(arena, current, dict, true);
    forall i | 0 <= i < |children|
      ensures children[i] < |arena| && arena[children[i]].gScore == 0
    {
      assert children[i] in dict;
    }
    AttachedUnscored(arena, children, tempG);
    forall k | 0 <= k < |arena|
      ensures arena'[k] == if k in children then Rescored(arena[k], tempG, current, eW) else arena[k]
    {
      if k in children {
        assert k in dict && Improves(tempG, arena[k]);
      }
    }
  }

  /** The node at `index` can be expanded: the dictionary fits it and has no repeated entries,
      and the end node is the last one. */
  lemma ExpandReady(arena: seq<Node>, openList: seq<nat>, dict: seq<nat>, closed: seq<nat>,
                    sW: string, eW: string, pool: seq<string>, index: nat)
    requires SearchInv(arena, openList, dict, closed, sW, eW, pool) && index < |openList|
    ensures |arena| == |pool| + 2 && arena[|pool| + 1].word == eW
    ensures forall k :: 0 <= k < |arena| ==> |arena[k].word| <= |eW|
    ensures openList[index] < |arena| && WordsFit(arena, openList[index], dict) && Distinct(dict)
  {
  }

  /** One pass keeps the state, and the dictionary and the open list together shrink. */
  lemma StepKeepsInv(arena: seq<Node>, openList: seq<nat>, dict: seq<nat>, closed: seq<nat>,
                     sW: string, eW: string, pool: seq<string>, index: nat,
                     children: seq<nat>, newDict: seq<nat>, arena': seq<Node>, openList': seq<nat>)
    requires SearchInv(arena, openList, dict, closed, sW, eW, pool)
    requires index < |openList| && arena[openList[index]].word != eW
    requires Step(arena, RemoveAt(openList, index), openList[index], dict, eW, children, newDict, arena', openList')
    ensures SearchInv(arena', openList', newDict, closed + [openList[index]], sW, eW, pool)
    ensures |newDict| + |openList'| < |dict| + |openList|
  {
    StepShrinks(arena, openList, dict, closed, eW, index, children, newDict, arena', openList');
    StepKeepsLayout(arena, openList, dict, closed, sW, eW, pool, index, children, newDict, arena', openList');
    StepKeepsLists(arena, openList, dict, closed, sW, eW, pool, index, children, newDict, arena', openList');
    StepKeepsScores(arena, openList, dict, closed, sW, eW, pool, index, children, newDict, arena', openList');
    StepKeepsExpanded(arena, openList, dict, closed, sW, eW, pool, index, children, newDict, arena', openList');
    StepKeepsSameWordSameG(arena, openList, dict, closed, sW, eW, pool, index, children, newDict, arena', openList');
  }

  lemma StepKeepsLayout(arena: seq<Node>, openList: seq<nat>, dict: seq<nat>, closed: seq<nat>,
                        sW: string, eW: string, pool: seq<string>, index: nat,
                        children: seq<nat>, newDict: seq<nat>, arena': seq<Node>, openList': seq<nat>)
    requires SearchInv(arena, openList, dict, closed, sW, eW, pool)
    requires index < |openList|
    requires Step(arena, RemoveAt(openList, index), openList[index], dict, eW, children, newDict, arena', openList')
    ensures Layout(arena', sW, eW, pool)
  {
    StepSimplify(arena, openList, dict, closed, eW, index, children, newDict, arena', openList');
    StepLayout(arena, arena', sW, eW, pool);
  }

  lemma StepKeepsLists(arena: seq<Node>, openList: seq<nat>, dict: seq<nat>, closed: seq<nat>,
                       sW: string, eW: string, pool: seq<string>, index: nat,
                       children: seq<nat>, newDict: seq<nat>, arena': seq<Node>, openList': seq<nat>)
    requires SearchInv(arena, openList, dict, closed, sW, eW, pool)
    requires index < |openList|
    requires Step(arena, RemoveAt(openList, index), openList[index], dict, eW, children, newDict, arena', openList')
    ensures Lists(arena', openList', newDict, closed + [openList[index]])
  {
    StepSimplify(arena, openList, dict, closed, eW, index, children, newDict, arena', openList');
    SelectDistinct(arena, openList[index], dict, false);
    SelectSplits(arena, openList[index], dict);
    StepLists(arena, arena', openList, dict, closed, index, children, newDict, openList');
  }

  lemma StepKeepsScores(arena: seq<Node>, openList: seq<nat>, dict: seq<nat>, closed: seq<nat>,
                        sW: string, eW: string, pool: seq<string>, index: nat,
                        children: seq<nat>, newDict: seq<nat>, arena': seq<Node>, openList': seq<nat>)
    requires SearchInv(arena, openList, dict, closed, sW, eW, pool)
    requires index < |openList|
    requires Step(arena, RemoveAt(openList, index), openList[index], dict, eW, children, newDict, arena', openList')
    requires Layout(arena', sW, eW, pool)
    ensures Scores(arena', openList', closed + [openList[index]], sW, eW)
  {
    StepSimplify(arena, openList, dict, closed, eW, index, children, newDict, arena', openList');
    SelectMembers(arena, openList[index], dict, true);
    StepScores(arena, arena', openList, dict, closed, sW, eW, index, children, openList');
  }

  lemma StepKeepsExpanded(arena: seq<Node>, openList: seq<nat>, dict: seq<nat>, closed: seq<nat>,
                          sW: string, eW: string, pool: seq<string>, index: nat,
                          children: seq<nat>, newDict: seq<nat>, arena': seq<Node>, openList': seq<nat>)
    requires SearchInv(arena, openList, dict, closed, sW, eW, pool)
    requires index < |openList|
    requires Step(arena, RemoveAt(openList, index), openList[index], dict, eW, children, newDict, arena', openList')
    requires arena[openList[index]].word != eW
    requires Layout(arena', sW, eW, pool) && Lists(arena', openList', newDict, closed + [openList[index]])
    ensures Expanded(arena', newDict, closed + [openList[index]], eW)
  {
    StepSimplify(arena, openList, dict, closed, eW, index, children, newDict, arena', openList');
    SelectMembers(arena, openList[index], dict, false);
    StepExpanded(arena, arena', dict, closed, eW, openList[index], newDict);
  }

  lemma StepKeepsSameWordSameG(arena: seq<Node>, openList: seq<nat>, dict: seq<nat>, closed: seq<nat>,
                               sW: string, eW: string, pool: seq<string>, index: nat,
                               children: seq<nat>, newDict: seq<nat>, arena': seq<Node>, openList': seq<nat>)
    requires SearchInv(arena, openList, dict, closed, sW, eW, pool)
    requires index < |openList|
    requires Step(arena, RemoveAt(openList, index), openList[index], dict, eW, children, newDict, arena', openList')
    ensures SameWordSameG(arena', openList', closed + [openList[index]])
  {
    StepSimplify(arena, openList, dict, closed, eW, index, children, newDict, arena', openList');
    SelectMembers(arena, openList[index], dict, true);
    forall k, d | 0 < k < |arena| && Reached(openList, closed, k) && d in dict
      ensures arena[d].word != arena[k].word
    {
      ReachedWordLeftDict(arena, openList, dict, closed, sW, eW, pool, k, d);
    }
    StepSameWordSameG(arena, arena', openList, dict, closed, eW, index, children, openList');
  }

  /** A word that has been reached from a closed node has no copy left in the dictionary: the copy
      would be a child of that closed node. */
  lemma ReachedWordLeftDict(arena: seq<Node>, openList: seq<nat>, dict: seq<nat>, closed: seq<nat>,
                            sW: string, eW: string, pool: seq<string>, k: nat, d: nat)
    requires SearchInv(arena, openList, dict, closed, sW, eW, pool)
    requires 0 < k < |arena| && Reached(openList, closed, k) && d in dict
    ensures arena[d].word != arena[k].word
  {
    assert ParentLink(arena, k, closed, eW);
    var p := arena[k].parent.value;
    assert !IsChild(arena[p].word, arena[d].word);
  }

  /** Each pass moves the dictionary's children to the open list and takes one node off it, so the
      dictionary and the open list together shrink by one. */
  lemma StepShrinks(arena: seq<Node>, openList: seq<nat>, dict: seq<nat>, closed: seq<nat>, eW: string,
                    index: nat, children: seq<nat>, newDict: seq<nat>, arena': seq<Node>, openList': seq<nat>)
    requires Lists(arena, openList, dict, closed)
    requires index < |openList|
    requires Step(arena, RemoveAt(openList, index), openList[index], dict, eW, children, newDict, arena', openList')
    ensures |newDict| + |openList'| < |dict| + |openList|
  {
    StepSimplify(arena, openList, dict, closed, eW, index, children, newDict, arena', openList');
    SelectPartitions(arena, openList[index], dict);
  }

  lemma StepLayout(arena: seq<Node>, arena': seq<Node>, sW: string, eW: string, pool: seq<string>)
    requires Layout(arena, sW, eW, pool)
    requires |arena'| == |arena| && forall k {:trigger arena'[k]} :: 0 <= k < |arena| ==> arena'[k].word == arena[k].word
    ensures Layout(arena', sW, eW, pool)
  {
  }

  lemma StepLists(arena: seq<Node>, arena': seq<Node>, openList: seq<nat>, dict: seq<nat>, closed: seq<nat>,
                  index: nat, children: seq<nat>, newDict: seq<nat>, openList': seq<nat>)
    requires Lists(arena, openList, dict, closed) && index < |openList|
    requires forall x :: x in dict <==> x in children || x in newDict
    requires forall x :: x in children ==> x !in newDict
    requires Distinct(newDict)
    requires openList' == RemoveAt(openList, index) + children
    requires |arena'| == |arena|
    requires forall k :: 0 <= k < |arena| && k !in children ==> arena'[k] == arena[k]
    ensures Lists(arena', openList', newDict, closed + [openList[index]])
  {
    var current := openList[index];
    var open1 := RemoveAt(openList, index);
    assert forall k :: k in openList ==> k == current || k in open1 by {
      forall k | k in openList
        ensures k == current || k in open1
      {
        var i :| 0 <= i < |openList| && openList[i] == k;
        if i < index {
          assert open1[i] == k;
        } else if i > index {
          assert open1[i - 1] == k;
        }
      }
    }
    assert forall k :: k in open1 ==> k in openList;
    forall i | 0 <= i < |newDict|
      ensures 1 <= newDict[i] < |arena|
    {
      assert newDict[i] in dict;
    }
    forall i | 0 <= i < |openList'|
      ensures openList'[i] < |arena|
    {
      if i >= |open1| {
        assert openList'[i] == children[i - |open1|];
        assert openList'[i] in dict;
      } else {
        assert openList'[i] in openList;
      }
    }
    forall k | 0 <= k < |arena'|
      ensures Placed(newDict, openList', closed + [current], k)
    {
      assert Placed(dict, openList, closed, k);
    }
  }

  lemma StepScores(arena: seq<Node>, arena': seq<Node>, openList: seq<nat>, dict: seq<nat>, closed: seq<nat>,
                   sW: string, eW: string, index: nat, children: seq<nat>, openList': seq<nat>)
    requires |sW| == |eW| && WordsOfLength(arena, |eW|)
    requires Scores(arena, openList, closed, sW, eW) && index < |openList|
    requires forall i :: 0 <= i < |openList| ==> openList[i] < |arena|
    requires forall x :: x in children ==> x in dict
    requires forall k :: k in dict ==> k !in openList && k !in closed && k != 0 && k < |arena|
    requires forall x :: x in children ==> IsChild(arena[openList[index]].word, arena[x].word)
    requires openList' == RemoveAt(openList, index) + children
    requires |arena'| == |arena|
    requires forall k {:trigger arena'[k]} :: 0 <= k < |arena| ==>
      arena'[k] == if k in children
                   then Rescored(arena[k], arena[openList[index]].gScore + 1, openList[index], eW)
                   else arena[k]
    ensures WordsOfLength(arena', |eW|)
    ensures Scores(arena', openList', closed + [openList[index]], sW, eW)
  {
    var current := openList[index];
    var closed' := closed + [current];
    var open1 := RemoveAt(openList, index);
    assert forall k :: k in open1 ==> k in openList;
    assert forall k :: k in openList' ==> k in open1 || k in children;
    forall k | 0 <= k < |arena'| && arena'[k].parent.Some?
      ensures ParentLink(arena', k, closed', eW)
    {
      if k !in children {
        assert ParentLink(arena, k, closed, eW);
      }
    }
    forall k | 0 < k < |arena'| && Reached(openList', closed', k)
      ensures arena'[k].parent.Some?
    {
      if k !in children {
        assert Reached(openList, closed, k);
      }
    }
  }

  lemma StepExpanded(arena: seq<Node>, arena': seq<Node>, dict: seq<nat>, closed: seq<nat>, eW: string,
                     current: nat, newDict: seq<nat>)
    requires WordsOfLength(arena, |eW|)
    requires forall k :: k in closed ==> k < |arena|
    requires forall i :: 0 <= i < |dict| ==> dict[i] < |arena|
    requires Expanded(arena, dict, closed, eW)
    requires current < |arena| && arena[current].word != eW
    requires forall x :: x in newDict ==> x in dict && x < |arena| && !IsChild(arena[current].word, arena[x].word)
    requires forall i :: 0 <= i < |newDict| ==> newDict[i] < |arena|
    requires |arena'| == |arena| && forall k {:trigger arena'[k]} :: 0 <= k < |arena| ==> arena'[k].word == arena[k].word
    ensures Expanded(arena', newDict, closed + [current], eW)
  {
  }

  lemma StepSameWordSameG(arena: seq<Node>, arena': seq<Node>, openList: seq<nat>, dict: seq<nat>,
                          closed: seq<nat>, eW: string, index: nat, children: seq<nat>, openList': seq<nat>)
    requires SameWordSameG(arena, openList, closed) && index < |openList|
    requires forall i :: 0 <= i < |openList| ==> openList[i] < |arena|
    requires forall d :: d in dict ==> d < |arena|
    requires forall k, d :: 0 < k < |arena| && Reached(openList, closed, k) && d in dict ==>
      arena[d].word != arena[k].word
    requires forall x :: x in children ==> x in dict && x < |arena| && |arena[x].word| <= |eW|
    requires openList' == RemoveAt(openList, index) + children
    requires |arena'| == |arena|
    requires forall k {:trigger arena'[k]} :: 0 <= k < |arena| ==>
      arena'[k] == if k in children
                   then Rescored(arena[k], arena[openList[index]].gScore + 1, openList[index], eW)
                   else arena[k]
    ensures SameWordSameG(arena', openList', closed + [openList[index]])
  {
    var current := openList[index];
    var closed' := closed + [current];
    var open1 := RemoveAt(openList, index);
    assert forall k :: k in open1 ==> k in openList;
    forall k1, k2 | 0 < k1 < |arena'| && 0 < k2 < |arena'| &&
      Reached(openList', closed', k1) && Reached(openList', closed', k2) && arena'[k1].word == arena'[k2].word
      ensures arena'[k1].gScore == arena'[k2].gScore
    {
      assert arena'[k1].word == arena[k1].word && arena'[k2].word == arena[k2].word;
      if k1 !in children {
        assert Reached(openList, closed, k1);
      }
      if k2 !in children {
        assert Reached(openList, closed, k2);
      }
    }
  }

  /** Parent links lower the G score, so the G scores witness that parent chains are finite. */
  lemma GRanked(arena: seq<Node>, openList: seq<nat>, dict: seq<nat>, closed: seq<nat>,
                sW: string, eW: string, pool: seq<string>)
    requires SearchInv(arena, openList, dict, closed, sW, eW, pool)
    ensures Ranked(arena, GRank(arena))
  {
    var rank := GRank(arena);
    forall k | 0 <= k < |arena| && arena[k].parent.Some?
      ensures arena[k].parent.value < |arena| && rank[arena[k].parent.value] < rank[k]
    {
      assert ParentLink(arena, k, closed, eW);
    }
  }

  /** Beyond its first node, a parent chain runs through closed nodes that do not hold the end word,
      and it ends at the start node; each node on it is a child of the next. */
  lemma ChainClosed(arena: seq<Node>, openList: seq<nat>, dict: seq<nat>, closed: seq<nat>,
                    sW: string, eW: string, pool: seq<string>, k: nat)
    requires SearchInv(arena, openList, dict, closed, sW, eW, pool)
    requires Ranked(arena, GRank(arena)) && k < |arena|
    ensures var c := Chain(arena, GRank(arena), k);
      (forall i :: 1 <= i < |c| ==> c[i] in closed && arena[c[i]].word != eW) &&
      (|c| > 1 ==> c[|c| - 1] == 0) &&
      (forall i :: 0 <= i < |c| - 1 ==> IsChild(arena[c[i + 1]].word, arena[c[i]].word))
  {
    var c := Chain(arena, GRank(arena), k);
    forall i | 1 <= i < |c|
      ensures c[i] in closed && arena[c[i]].word != eW
    {
      assert arena[c[i - 1]].parent == Some(c[i]);
      assert ParentLink(arena, c[i - 1], closed, eW);
    }
    if |c| > 1 {
      assert Reached(openList, closed, c[|c| - 1]);
    }
    forall i | 0 <= i < |c| - 1
      ensures IsChild(arena[c[i + 1]].word, arena[c[i]].word)
    {
      assert ParentLink(arena, c[i], closed, eW);
    }
  }

  /** The words along a parent chain form a ladder. */
  lemma ChainIsLadder(arena: seq<Node>, openList: seq<nat>, dict: seq<nat>, closed: seq<nat>,
                      sW: string, eW: string, pool: seq<string>, k: nat)
    requires SearchInv(arena, openList, dict, closed, sW, eW, pool)
    requires Ranked(arena, GRank(arena)) && k < |arena|
    ensures IsLadder(ChainPath(arena, GRank(arena), k))
  {
    var c := Chain(arena, GRank(arena), k);
    var path := ChainPath(arena, GRank(arena), k);
    ChainClosed(arena, openList, dict, closed, sW, eW, pool, k);
    forall i | 0 <= i < |path| - 1
      ensures OneLetterApart(path[i], path[i + 1])
    {
      assert path[i] == arena[c[i]].word && path[i + 1] == arena[c[i + 1]].word;
      assert IsChild(arena[c[i + 1]].word, arena[c[i]].word);
      DistanceSymmetric(arena[c[i + 1]].word, arena[c[i]].word);
    }
  }

  /** The words strictly inside the path from a node are pool words. */
  lemma ChainThroughPool(arena: seq<Node>, openList: seq<nat>, dict: seq<nat>, closed: seq<nat>,
                         sW: string, eW: string, pool: seq<string>, k: nat)
    requires SearchInv(arena, openList, dict, closed, sW, eW, pool)
    requires Ranked(arena, GRank(arena)) && k < |arena|
    ensures var path := ChainPath(arena, GRank(arena), k);
      forall i :: 0 < i < |path| - 1 ==> path[i] in pool
  {
    var c := Chain(arena, GRank(arena), k);
    var path := ChainPath(arena, GRank(arena), k);
    ChainClosed(arena, openList, dict, closed, sW, eW, pool, k);
    forall i | 0 < i < |c| - 1
      ensures path[i] in pool
    {
      assert arena[c[i]].parent == Some(c[i + 1]);
      assert path[i] == arena[c[i]].word == pool[c[i] - 1];
    }
  }

  /** When the node taken from the open list holds the end word, the path from the end node is a
      ladder from the end word back to the start word through the pool. */
  lemma FoundPathIsLadder(arena: seq<Node>, openList: seq<nat>, dict: seq<nat>, closed: seq<nat>,
                          sW: string, eW: string, pool: seq<string>, current: nat)
    requires ValidInput(sW, eW, pool)
    requires SearchInv(arena, openList, dict, closed, sW, eW, pool)
    requires current in openList && arena[current].word == eW
    ensures Ranked(arena, GRank(arena))
    ensures LadderThrough(ChainPath(arena, GRank(arena), |arena| - 1), eW, sW, pool)
  {
    GRanked(arena, openList, dict, closed, sW, eW, pool);
    var e := |arena| - 1;
    var c := Chain(arena, GRank(arena), e);
    var path := ChainPath(arena, GRank(arena), e);
    ChainClosed(arena, openList, dict, closed, sW, eW, pool, e);
    ChainIsLadder(arena, openList, dict, closed, sW, eW, pool, e);
    ChainThroughPool(arena, openList, dict, closed, sW, eW, pool, e);
    assert path[0] == arena[c[0]].word && path[|path| - 1] == arena[c[|c| - 1]].word;
    if |c| == 1 {
      assert Reached(openList, closed, current);
    }
  }

  /** The path from the end node repeats no word. Along the parent chain the G score falls by one
      per step, while reached nodes holding the same word share their G score; the start word occurs
      nowhere else in the arena once a chain has left the end node. */
  lemma FoundPathNoRepeats(arena: seq<Node>, openList: seq<nat>, dict: seq<nat>, closed: seq<nat>,
                           sW: string, eW: string, pool: seq<string>)
    requires ValidInput(sW, eW, pool)
    requires SearchInv(arena, openList, dict, closed, sW, eW, pool)
    ensures Ranked(arena, GRank(arena))
    ensures NoRepeatedWord(ChainPath(arena, GRank(arena), |arena| - 1))
  {
    GRanked(arena, openList, dict, closed, sW, eW, pool);
    var e := |arena| - 1;
    var c := Chain(arena, GRank(arena), e);
    var path := ChainPath(arena, GRank(arena), e);
    ChainClosed(arena, openList, dict, closed, sW, eW, pool, e);
    ChainReached(arena, openList, dict, closed, sW, eW, pool, e);
    forall i, j | 0 <= i < j < |path|
      ensures path[i] != path[j]
    {
      ChainWordsDiffer(arena, openList, closed, sW, eW, pool, i, j);
    }
  }

  /** Two nodes of the chain from the end node hold different words: nodes other than the start
      node share a word only with nodes of the same G score, and only the start node holds the
      start word. */
  lemma ChainWordsDiffer(arena: seq<Node>, openList: seq<nat>, closed: seq<nat>,
                         sW: string, eW: string, pool: seq<string>, i: nat, j: nat)
    requires ValidInput(sW, eW, pool) && Layout(arena, sW, eW, pool)
    requires SameWordSameG(arena, openList, closed)
    requires forall k :: 0 <= k < |arena| ==> 0 <= arena[k].gScore
    requires Ranked(arena, GRank(arena))
    requires var c := Chain(arena, GRank(arena), |arena| - 1);
      i < j < |c| &&
      (forall n :: 1 <= n < |c| ==> arena[c[n]].word != eW) && c[|c| - 1] == 0 &&
      (forall n :: 0 <= n < |c| ==> Reached(openList, closed, c[n]) && (n < |c| - 1 ==> c[n] != 0))
    ensures var c := Chain(arena, GRank(arena), |arena| - 1); arena[c[i]].word != arena[c[j]].word
  {
    var e := |arena| - 1;
    var c := Chain(arena, GRank(arena), e);
    ChainRankFalls(arena, GRank(arena), e, i, j);
    if c[j] == 0 {
      assert arena[c[j]].word == sW != eW;
      if c[i] < e {
        PoolWordsDifferFromStart(arena, sW, eW, pool, c[i]);
      }
    } else {
      assert Reached(openList, closed, c[i]) && Reached(openList, closed, c[j]);
    }
  }

  /** The pool's nodes never hold the start word. */
  lemma PoolWordsDifferFromStart(arena: seq<Node>, sW: string, eW: string, pool: seq<string>, k: nat)
    requires ValidInput(sW, eW, pool) && Layout(arena, sW, eW, pool) && 0 < k < |arena| - 1
    ensures arena[k].word != sW
  {
    assert arena[k].word == pool[k - 1];
  }

  /** Every node of a chain of two or more nodes has been reached, and only its last node is the
      start node. */
  lemma ChainReached(arena: seq<Node>, openList: seq<nat>, dict: seq<nat>, closed: seq<nat>,
                     sW: string, eW: string, pool: seq<string>, k: nat)
    requires SearchInv(arena, openList, dict, closed, sW, eW, pool)
    requires Ranked(arena, GRank(arena)) && k < |arena|
    ensures var c := Chain(arena, GRank(arena), k);
      |c| > 1 ==> forall i :: 0 <= i < |c| ==> Reached(openList, closed, c[i]) && (i < |c| - 1 ==> c[i] != 0)
  {
    var c := Chain(arena, GRank(arena), k);
    ChainClosed(arena, openList, dict, closed, sW, eW, pool, k);
    if |c| > 1 {
      forall i | 0 <= i < |c|
        ensures Reached(openList, closed, c[i]) && (i < |c| - 1 ==> c[i] != 0)
      {
        if i < |c| - 1 {
          assert arena[c[i]].parent == Some(c[i + 1]);
        }
        ChainNodeReached(arena, openList, dict, closed, sW, eW, pool, c[i]);
      }
    }
  }

  /** A node with a parent has been reached; the start node is always reached. */
  lemma ChainNodeReached(arena: seq<Node>, openList: seq<nat>, dict: seq<nat>, closed: seq<nat>,
                         sW: string, eW: string, pool: seq<string>, k: nat)
    requires SearchInv(arena, openList, dict, closed, sW, eW, pool)
    requires k < |arena| && (k == 0 || arena[k].parent.Some?)
    ensures Reached(openList, closed, k)
  {
    assert k !in dict && Placed(dict, openList, closed, k);
  }

  /** With equal start and end words, the end node never gets a parent: its path is the end word
      alone. A parent chain from it would end at the start node, closed and holding the end word. */
  lemma EqualWordsPath(arena: seq<Node>, openList: seq<nat>, dict: seq<nat>, closed: seq<nat>,
                       sW: string, eW: string, pool: seq<string>)
    requires SearchInv(arena, openList, dict, closed, sW, eW, pool) && sW == eW
    ensures Ranked(arena, GRank(arena))
    ensures ChainPath(arena, GRank(arena), |arena| - 1) == [eW]
  {
    GRanked(arena, openList, dict, closed, sW, eW, pool);
    var e := |arena| - 1;
    ChainClosed(arena, openList, dict, closed, sW, eW, pool, e);
    ChainPathShape(arena, GRank(arena), e);
  }

  /** With the open list empty, walking a ladder backwards from the start word meets only closed
      nodes. */
  lemma {:induction false} ClosedAlongLadder(arena: seq<Node>, dict: seq<nat>, closed: seq<nat>,
                                             sW: string, eW: string, pool: seq<string>,
                                             l: seq<string>, i: nat)
    requires ValidInput(sW, eW, pool)
    requires SearchInv(arena, [], dict, closed, sW, eW, pool)
    requires LadderThrough(l, eW, sW, pool) && i < |l|
    ensures exists c :: c in closed && arena[c].word == l[i]
    decreases |l| - i
  {
    if i == |l| - 1 {
      assert 0 !in dict && Placed(dict, [], closed, 0);
    } else {
      ClosedAlongLadder(arena, dict, closed, sW, eW, pool, l, i + 1);
      var c :| c in closed && arena[c].word == l[i + 1];
      var d: nat;
      if i == 0 {
        d := |arena| - 1;
      } else {
        assert l[i] in pool;
        var j :| 0 <= j < |pool| && pool[j] == l[i];
        d := j + 1;
      }
      assert arena[d].word == l[i];
      assert OneLetterApart(l[i], l[i + 1]);
      DistanceSymmetric(l[i], l[i + 1]);
      assert IsChild(arena[c].word, arena[d].word);
      assert Placed(dict, [], closed, d);
    }
  }

  /** With the open list empty and the end word never reached, no ladder joins the two words. */
  lemma NotFoundNoLadder(arena: seq<Node>, dict: seq<nat>, closed: seq<nat>,
                         sW: string, eW: string, pool: seq<string>)
    requires ValidInput(sW, eW, pool)
    requires SearchInv(arena, [], dict, closed, sW, eW, pool)
    ensures forall l :: !LadderThrough(l, eW, sW, pool)
  {
    forall l | LadderThrough(l, eW, sW, pool)
      ensures false
    {
      ClosedAlongLadder(arena, dict, closed, sW, eW, pool, l, 0);
    }
  }

  /** The set-up before the search loop: a node for the start word, one for each pool word and one
      for the end word; the start node scored with its cost to the end word and put on the open
      list; the pool's nodes and the end node in the dictionary. */
  method StartSearch(sW: string, eW: string, pool: seq<string>)
    returns (arena: seq<Node>, wordDictionary: seq<nat>, openList: seq<nat>)
    requires ValidInput(sW, eW, pool)
    ensures SearchInv(arena, openList, wordDictionary, [], sW, eW, pool)
    ensures openList == [0] && wordDictionary == seq(|pool| + 1, i requires 0 <= i => i + 1)
    ensures |arena| == |pool| + 2 && arena[|pool| + 1] == NewNode(eW)
  {
    var words := [sW] + pool + [eW];
    arena := seq(|words|, i requires 0 <= i < |words| => NewNode(words[i]));
    // the pool's nodes, then the end node
    wordDictionary := seq(|pool| + 1, i requires 0 <= i => i + 1);
    openList := [];
    var startNode, endNode := 0, |pool| + 1;
    var h := CalculateNodeCost(arena[startNode].word, arena[endNode].word);
    arena := arena[startNode := arena[startNode].(hScore := h)];
    arena := arena[startNode := arena[startNode].(fScore := arena[startNode].hScore)];
    openList := openList + [startNode];
    assert openList == [0];
    assert forall k :: 1 <= k <= |pool| ==> words[k] == pool[k - 1];
    InitialInv(arena, wordDictionary, sW, eW, pool);
  }

  /** AStarAnalyseFile with the dictionary passed in: the search loop and the result. A found path
      runs from the end word back to the start word, one letter at a time, through pool words,
      repeats no word, and is at least as long as the heuristic promises; when nothing is found the
      path is empty and no such ladder exists. Equal start and end words are found at once, with the
      one-word path. */
  method AStarAnalyse(sW: string, eW: string, pool: seq<string>) returns (foundResult: bool, resultPath: seq<string>)
    requires ValidInput(sW, eW, pool)
    ensures foundResult ==> LadderThrough(resultPath, eW, sW, pool) && NoRepeatedWord(resultPath)
    ensures foundResult ==> Distance(sW, eW) <= |resultPath| - 1
    ensures !foundResult ==> resultPath == [] && forall l :: !LadderThrough(l, eW, sW, pool)
    ensures sW == eW ==> foundResult && resultPath == [eW]
  {
    var arena, wordDictionary, openList := StartSearch(sW, eW, pool);
    ghost var closedList: seq<nat> := [];
    var endNode := |pool| + 1;
    foundResult := false;

    while |openList| != 0
      invariant !foundResult
      invariant SearchInv(arena, openList, wordDictionary, closedList, sW, eW, pool)
      decreases |wordDictionary| + |openList|
    {
      var index := SelectBest(arena, openList);
      var currentNode := openList[index];
      ghost var openBefore := openList;
      openList := RemoveAt(openList, index);

      if arena[currentNode].word == arena[endNode].word {
        foundResult := true;
        FoundPathIsLadder(arena, openBefore, wordDictionary, closedList, sW, eW, pool, currentNode);
        FoundPathNoRepeats(arena, openBefore, wordDictionary, closedList, sW, eW, pool);
        if sW == eW {
          EqualWordsPath(arena, openBefore, wordDictionary, closedList, sW, eW, pool);
        }
        break;
      }

      ExpandReady(arena, openBefore, wordDictionary, closedList, sW, eW, pool, index);
      var childrenNodes, newDict, arena', openList' := ExpandNode(arena, openList, currentNode, wordDictionary, eW);
      StepKeepsInv(arena, openBefore, wordDictionary, closedList, sW, eW, pool, index,
                   childrenNodes, newDict, arena', openList');
      arena, openList, wordDictionary := arena', openList', newDict;
      closedList := closedList + [currentNode];
    }

    if foundResult {
      resultPath := GetResultPath(arena, endNode, GRank(arena));
      LadderLowerBound(resultPath);
      DistanceSymmetric(sW, eW);
    } else {
      resultPath := [];
      NotFoundNoLadder(arena, wordDictionary, closedList, sW, eW, pool);
      assert sW == eW ==> LadderThrough([eW], eW, sW, pool);
    }
  }
}
