/** The search node record: one candidate word together with its A* scores. */
module WordNode {

  datatype Option<T> = None | Some(value: T)

  /** A word of the search.
      fScore is the total estimated number of steps to the goal, gScore the cost of the path so far,
      hScore the predicted number of remaining steps. `parent` is the arena index of the node this one
      was reached from (the source keeps a pointer; `None` plays the part of nil). */
  datatype Node = Node(fScore: int, gScore: int, hScore: int, parent: Option<nat>, word: string)

  /** A fresh, unscored node for `word`. */
  function NewNode(word: string): (n: Node)
    ensures n.word == word
    ensures n.gScore == 0 && n.hScore == 0 && n.fScore == n.gScore + n.hScore
    ensures n.parent == None
  {
    Node(0, 0, 0, None, word)
  }

  /** Fresh nodes are identified by their word: two built from the same word are equal field by field. */
  lemma NewNodeDeterminedByWord(a: string, b: string)
    ensures NewNode(a) == NewNode(b) <==> a == b
  {
  }
}
