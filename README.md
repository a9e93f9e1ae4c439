# wordPathAnalyser: a verified model of the A* word-ladder search

wordPathAnalyser looks for a word ladder between two words of the same length. Each step of a
ladder changes exactly one letter, and every word in between must come from a dictionary file.
`AStarAnalyseFile` runs a best-first (A*) search:

- H is `calculateNodeCost`, the number of letter positions in which a word differs from the end
  word.
- G is the number of steps taken so far.
- F is G + H.
- `generateNodeChildren` splits the remaining dictionary into the one-letter neighbours of the node
  being expanded and the rest.
- `getResultPath` follows the parent links from the end node back to the start node.

This project models that search, and the `aStarWordNode` record it works on, in Dafny.

- `wordnode.dfy` (`WordNode`): the node record and its constructor `newAStarWordNode`.
- `heuristic.dfy` (`Heuristic`):
  - `calculateNodeCost` as a loop, proved equal to the recursive count `Distance`;
  - that count's meaning, symmetry and triangle inequality;
  - the ladder notions `OneLetterApart` and `IsLadder`;
  - the proof that the heuristic never overestimates.
- `children.dfy` (`Children`): `generateNodeChildren` as the same single pass over the dictionary
  with a reset counter. It is proved equal to a filter `Select`, and `Select` is proved to partition
  the dictionary in order.
- `resultpath.dfy` (`ResultPath`): `getResultPath` as the same pointer walk over arena indices,
  proved equal to the words of the parent chain `Chain`.
- `search.dfy` (`Search`): the search loop of `AStarAnalyseFile`, in these parts:
  - the set-up;
  - the selection scan;
  - the removal from the open list;
  - the found test;
  - the expansion and the rescoring of the children.

  The loop carries an invariant `SearchInv`, preserved by every pass. From it the model proves:
  - a found path is a ladder from the end word back to the start word through dictionary words. It
    repeats no word, and it is no shorter than the heuristic predicts;
  - when nothing is found, no such ladder exists;
  - the loop terminates.
- `scenarios.dfy` (`Scenarios`): what the proved contract of the search decides about the
  end-to-end cases of the unit tests.

Nodes live in an arena, `seq<Node>`:

- index 0 is the start node;
- indices 1..|pool| are the dictionary words, in file order;
- the last index is the end node, which the source appends to the dictionary (line 36).

A parent pointer becomes an `Option<nat>` arena index. The open list and the dictionary become
sequences of indices. The source's closed list is written but never read, so it is a ghost
variable. The search's invariants are stated over it.

A dictionary word identical to the node being expanded differs in zero positions. It is therefore
not a child, and `generateNodeChildren` keeps it in the new dictionary rather than dropping it (see
`Children.IdenticalWordStays`).

## Model

| member | source | states |
|---|---|---|
| WordNode.NewNode | wordNode.go:12-18 | a fresh node carries the given word, has F = G = H = 0 (so F = G + H) and no parent |
| WordNode.NewNodeDeterminedByWord | wordNode.go:12-18 | two fresh nodes are equal field by field exactly when their words are equal |
| Heuristic.Mismatches | aStarWordAnalyser.go:142-156 | the count over the first n positions is at most n, and is 0 exactly when the words agree on all of them |
| Heuristic.CalculateNodeCost | aStarWordAnalyser.go:142-156 | the loop that starts from len(s) and subtracts one per matching position returns the number of differing positions, Distance(s, e) |
| Heuristic.MismatchesCountsPositions | aStarWordAnalyser.go:141-156 | the cost equals the size of the set of positions i < n where the words differ |
| Heuristic.DistanceSymmetric | aStarWordAnalyser.go:141-156 | for equal-length words the cost is symmetric, and so is being one letter apart |
| Heuristic.LadderLowerBound | aStarWordAnalyser.go:141-156 | the "minimum potential cost": every ladder from a to b has at least Distance(a, b) steps, and all its words have one length |
| Heuristic.DistanceExamples | aStarWordAnalyser_test.go:156-172 | test/test = 0, test/best = 1, test/beat = 2, test/brat = 3, test/brag = 4 |
| Children.GenerateNodeChildren | aStarWordAnalyser.go:159-188 | the single pass with its reset counter returns exactly the entries that are children, and exactly the others as the new dictionary |
| Children.SelectMembers | aStarWordAnalyser.go:171-182 | an entry is in the children list iff it is in the dictionary and differs from the node's word in exactly one position; it is in the new dictionary iff it is in the dictionary and does not |
| Children.SelectSplits | aStarWordAnalyser.go:170-185 | every dictionary entry lands in one of the two lists and no entry in both; both lists hold only dictionary entries |
| Children.SelectPartitions | aStarWordAnalyser.go:170-185 | the two lists together are the dictionary as a multiset, and their lengths sum to its length |
| Children.SelectKeepsOrder | aStarWordAnalyser.go:170-185 | both lists keep the dictionary's relative order (each is a subsequence of it) |
| Children.SelectDistinct | aStarWordAnalyser.go:170-185 | a dictionary without repeated entries gives lists without repeated entries |
| Children.IdenticalWordStays | aStarWordAnalyser.go:177-182 | an entry equal to the node's word is not a child and stays in the new dictionary |
| Children.SelectExampleFromTest | aStarWordAnalyser_test.go:212-215 | for any arena holding the fixture words, from "test" the children of [pest, best, beat, brat, brag] are [pest, best] and [beat, brat, brag] stay, in order |
| Children.SelectExampleFromBest | aStarWordAnalyser_test.go:217-220 | for any arena holding the fixture words, from "best" the children of [test, pest, beat, brat, brag] are [test, pest, beat] and [brat, brag] stay |
| Children.SelectExampleFromBrag | aStarWordAnalyser_test.go:222-225 | for any arena holding the fixture words, from "brag" the only child of [test, best, pest, beat, brat] is brat and the other four stay, in order |
| ResultPath.Chain | aStarWordAnalyser.go:191-206 | the chain starts at the given node, stays in the arena, follows one parent link per step and ends at the first parentless node |
| ResultPath.GetResultPath | aStarWordAnalyser.go:191-206 | the walk returns the words of the parent chain from the end node, in chain order, the parentless node last |
| ResultPath.ChainRankFalls | aStarWordAnalyser.go:198-201 | the rank falls strictly along a parent chain, so the walk never meets a node twice |
| ResultPath.ChainPathShape | aStarWordAnalyser.go:198-203 | a parentless node gives [word]; otherwise the path is the node's word followed by its parent's path |
| ResultPath.ChainPathExample | aStarWordAnalyser_test.go:270-287 | the test chain gives ["brag", "brat", "beat", "best", "test"] from brag, ["beat", "best", "test"] from beat and ["test"] from test |
| Search.SelectBest | aStarWordAnalyser.go:43-63 | the scan returns a valid index; with non-negative scores the chosen node is no worse than the head in F and G, and no later node is at least as good in both F and G (ties go to the later node) |
| Search.RemoveAt | aStarWordAnalyser.go:66 | exactly the i-th entry is removed; the entries before keep their places and the ones after move down by one |
| Search.AttachedUnscored | aStarWordAnalyser.go:80-81 | children that were never scored (G = 0) all pass the rescoring test, in order |
| Search.AttachChildren | aStarWordAnalyser.go:77-88 | every child that passes the test (new G lower, or G = 0) gets G = current G + 1, H = its cost to the end word, F = G + H and the current node as parent, and is appended to the open list in order; no other node changes |
| Search.ExpandNode | aStarWordAnalyser.go:75-88 | one expansion: the dictionary is split into children and the rest, and the passing children are scored and appended to the open list |
| Search.StartSearch | aStarWordAnalyser.go:16-36 | the set-up: start node scored with G = 0, H = F = its cost to the end word, open list [start], dictionary the pool's nodes then the end node; the loop invariant holds |
| Search.InitialInv | aStarWordAnalyser.go:22-36 | the state after the set-up satisfies the loop invariant |
| Search.StepKeepsInv | aStarWordAnalyser.go:39-92 | a pass that does not reach the end word keeps the invariant (F = G + H on every node; a node with a parent has a closed parent one letter away and one G step lower; every node is in exactly the right list; no dictionary node is a child of a closed node; reached copies of a word share their G score), and shrinks dictionary plus open list |
| Search.ReachedWordLeftDict | aStarWordAnalyser.go:75-85 | a word reached from a closed node has no copy left in the dictionary, since that copy would have been a child of the same node |
| Search.StepKeepsSameWordSameG | aStarWordAnalyser.go:75-91 | a pass keeps the fact that reached nodes (other than the start node) holding the same word have the same G score: all copies of a word leave the dictionary in one pass |
| Search.StepShrinks | aStarWordAnalyser.go:66-86 | each pass removes one node from the open list and moves the children from the dictionary to it, so |dictionary| + |open list| strictly decreases and the loop terminates |
| Search.GRanked | aStarWordAnalyser.go:77-85 | every parent link lowers G by one, so parent chains are acyclic |
| Search.ChainIsLadder | aStarWordAnalyser.go:81-85 | the words along any parent chain form a ladder |
| Search.ChainThroughPool | aStarWordAnalyser.go:80-86 | the words strictly inside a parent chain are dictionary words |
| Search.FoundPathIsLadder | aStarWordAnalyser.go:69-72 | when the selected node holds the end word, the path from the end node starts with the end word, ends with the start word, is a ladder and passes only through dictionary words |
| Search.FoundPathNoRepeats | aStarWordAnalyser.go:75-95 | the path from the end node repeats no word |
| Search.EqualWordsPath | aStarWordAnalyser.go:69-72 | with equal start and end words the end node never gets a parent, so its path is the end word alone |
| Search.NotFoundNoLadder | aStarWordAnalyser.go:39-92 | when the open list runs empty without reaching the end word, no ladder joins the two words through the dictionary |
| Search.AStarAnalyse | aStarWordAnalyser.go:14-101 | found: the path is a ladder from the end word to the start word through dictionary words, repeats no word, and has at least Distance(sW, eW) steps; not found: the path is empty and no such ladder exists; equal start and end words give found with [eW] |
| Scenarios.MostToTestLadder | aStarWordAnalyser_test.go:27 | the only ladder from most back to test through pest, post and fail that repeats no word is most, post, pest, test |
| Scenarios.PostToPestLadder | aStarWordAnalyser_test.go:28 | the only ladder from post back to pest through test, most and fail is post, pest |
| Scenarios.NoLadderFromFail | aStarWordAnalyser_test.go:29 | no ladder leaves fail through pest, post and most, whatever their order |
| Scenarios.TestToMost | aStarWordAnalyser_test.go:27 | test to most over [pest, post, fail] is found, and the path is most, post, pest, test (four words, as the test expects) |
| Scenarios.PestToPost | aStarWordAnalyser_test.go:28 | pest to post over [test, most, fail] is found, and the path is post, pest (two words, as the test expects) |
| Scenarios.TestToFail | aStarWordAnalyser_test.go:29 | test to fail is not found, and the path is empty |

## Left out

- `readFile` (aStarWordAnalyser.go:104-139) is file I/O: opening the file, scanning lines, splitting on the delimiter, and `log.Fatal`. The dictionary is a parameter. The reader drops the start and end words, and that is a precondition (`ValidInput`).
- AStarAnalyse: requires the start word, the end word and every dictionary word to have one length. The Go code accepts any lengths, with these effects, which the model does not cover:
  - A start word longer than the end word makes the first cost computation (aStarWordAnalyser.go:31) read past the end word, which panics.
  - A start word shorter than the end word is scored on its own letters only, and the search runs on.
  - A dictionary word shorter than the node being expanded makes the child test (line 172) read past its end, which panics.
  - A dictionary word longer than the node is compared on the node's letters only (line 172). Once such a word becomes a child, its cost computation (lines 83 and 150) reads past the end word, which panics.
- AStarAnalyse: does not promise the shortest path. The selection scan is not a minimum-F choice, so the code does not guarantee shortest paths.
- Scenarios.TestToMost, Scenarios.PestToPost, Scenarios.TestToFail: the dictionary file the tests read is not part of this model. Its words come from the expected results of the readFile test (aStarWordAnalyser_test.go:98-120). For test to fail the order of the remaining words is unknown, so any order is covered.
- Search.SelectBest: states its ordering properties only for non-negative scores. With the -1 sentinels a negative score would compare differently; the search only ever produces non-negative scores.
- ResultPath.GetResultPath: takes a ghost `rank` that witnesses that parent chains are finite. The Go walk assumes this without checking; the search passes its G scores (`Search.GRanked`).
- Pointers and aliasing: nodes are shared through pointers in the source. Here they are arena entries named by index, and a field update is an update of the arena entry.
- Go strings are byte strings. Here they are `seq<char>`, compared letter by letter; no encoding is modelled.
- The closed list is kept only as ghost state, because the source writes it and never reads it.
- The concurrent test harness, the test helpers that read files, and the mock structs are not part of this model.
