/** Reconstructing the result path by following parent links from the end node. */
module ResultPath {
  import opened WordNode

  /** Every parent link stays inside the arena and lowers `rank`, so every parent chain is finite.
      `rank` only witnesses acyclicity; the search passes its G scores. */
  ghost predicate Ranked(arena: seq<Node>, rank: seq<nat>)
  {
    |rank| == |arena| &&
    forall k :: 0 <= k < |arena| && arena[k].parent.Some? ==>
      arena[k].parent.value < |arena| && rank[arena[k].parent.value] < rank[k]
  }

  /** The arena indices met on the way from k up to the first parentless node. */
  ghost function Chain(arena: seq<Node>, rank: seq<nat>, k: nat): (c: seq<nat>)
    requires Ranked(arena, rank) && k < |arena|
    ensures |c| >= 1 && c[0] == k
    ensures forall i :: 0 <= i < |c| ==> c[i] < |arena|
    ensures forall i :: 0 <= i < |c| - 1 ==> arena[c[i]].parent == Some(c[i + 1])
    ensures arena[c[|c| - 1]].parent == None
    decreases rank[k]
  {
    match arena[k].parent
    case None => [k]
    case Some(p) => [k] + Chain(arena, rank, p)
  }

  /** The words of the nodes on the chain from k, in chain order. */
  ghost function ChainPath(arena: seq<Node>, rank: seq<nat>, k: nat): (path: seq<string>)
    requires Ranked(arena, rank) && k < |arena|
  {
    var c := Chain(arena, rank, k);
    seq(|c|, i requires 0 <= i < |c| => arena[c[i]].word)
  }

  /** Walks parent links from endNode collecting words, then adds the parentless node's word. */
  method GetResultPath(arena: seq<Node>, endNode: nat, ghost rank: seq<nat>) returns (result: seq<string>)
    requires Ranked(arena, rank) && endNode < |arena|
    ensures result == ChainPath(arena, rank, endNode)
  {
    ghost var chain := Chain(arena, rank, endNode);
    var currentNode := endNode;
    result := [];
    while arena[currentNode].parent != None
      invariant |result| < |chain|
      invariant currentNode == chain[|result|]
      invariant forall i :: 0 <= i < |result| ==> result[i] == arena[chain[i]].word
      decreases |chain| - |result|
    {
      result := result + [arena[currentNode].word];
      currentNode := arena[currentNode].parent.value;
    }
    forall i | 0 <= i < |chain| - 1
      ensures arena[chain[i]].parent != None
    {
      assert arena[chain[i]].parent == Some(chain[i + 1]);
    }
    assert |result| == |chain| - 1;
    result := result + [arena[currentNode].word];
    assert forall i :: 0 <= i < |result| ==> result[i] == arena[chain[i]].word;
  }

  /** The rank falls strictly along a chain, so a chain never meets the same node twice. */
  lemma {:induction false} ChainRankFalls(arena: seq<Node>, rank: seq<nat>, k: nat, i: nat, j: nat)
    requires Ranked(arena, rank) && k < |arena|
    requires i < j < |Chain(arena, rank, k)|
    ensures var c := Chain(arena, rank, k); rank[c[j]] < rank[c[i]] && c[i] != c[j]
    decreases j - i
  {
    var c := Chain(arena, rank, k);
    assert arena[c[j - 1]].parent == Some(c[j]);
    if j - 1 > i {
      ChainRankFalls(arena, rank, k, i, j - 1);
    }
  }

  /** A parentless node's path is just its word; otherwise the path is k's word followed by the
      path from k's parent. */
  lemma ChainPathShape(arena: seq<Node>, rank: seq<nat>, k: nat)
    requires Ranked(arena, rank) && k < |arena|
    ensures arena[k].parent == None ==> ChainPath(arena, rank, k) == [arena[k].word]
    ensures arena[k].parent.Some? ==>
      ChainPath(arena, rank, k) == [arena[k].word] + ChainPath(arena, rank, arena[k].parent.value)
  {
    if arena[k].parent.Some? {
      var p := arena[k].parent.value;
      var path, rest := ChainPath(arena, rank, k), ChainPath(arena, rank, p);
      assert Chain(arena, rank, k) == [k] + Chain(arena, rank, p);
      assert path == [arena[k].word] + rest;
    }
  }

  /** The fixture of the unit tests: brag -> brat -> beat -> best -> test, all with G score 0. */
  function TestChain(): seq<Node>
  {
    [ NewNode("test"),
      NewNode("best").(parent := Some(0)),
      NewNode("beat").(parent := Some(1)),
      NewNode("brat").(parent := Some(2)),
      NewNode("brag").(parent := Some(3)) ]
  }

  lemma TestChainRanked()
    ensures Ranked(TestChain(), [0, 1, 2, 3, 4])
  {
    var a := TestChain();
    assert a[1].parent == Some(0) && a[2].parent == Some(1) && a[3].parent == Some(2) && a[4].parent == Some(3);
  }

  /** The paths the unit tests expect from brag, from beat and from test. */
  lemma ChainPathExample()
    ensures Ranked(TestChain(), [0, 1, 2, 3, 4])
    ensures ChainPath(TestChain(), [0, 1, 2, 3, 4], 4) == ["brag", "brat", "beat", "best", "test"]
    ensures ChainPath(TestChain(), [0, 1, 2, 3, 4], 2) == ["beat", "best", "test"]
    ensures ChainPath(TestChain(), [0, 1, 2, 3, 4], 0) == ["test"]
  {
    TestChainRanked();
    var a, r := TestChain(), [0, 1, 2, 3, 4];
    ChainPathShape(a, r, 0);
    ChainPathShape(a, r, 1);
    ChainPathShape(a, r, 2);
    ChainPathShape(a, r, 3);
    ChainPathShape(a, r, 4);
  }
}
