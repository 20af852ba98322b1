/** The host document as the spell checker reads it: the nodes `descendants` visits, in
    pre-order, each with its absolute position. */
module Document {
  import opened Wrappers

  /** One visited node. `text` is `node.text` for a text node and `node.textContent`
      for any other node. */
  datatype Node = Node(isText: bool, isBlock: bool, pos: int, nodeSize: nat, text: string)

  /** A document: its nodes in pre-order, the root itself excluded. */
  datatype Doc = Doc(nodes: seq<Node>)

  /** `[pos, pos + nodeSize]` contains the selection `[from, to]`. */
  predicate Contains(n: Node, from: int, to: int) {
    n.pos <= from && to <= n.pos + n.nodeSize
  }

  /** A block whose range contains the selection: a candidate for a partial check. */
  predicate Candidate(n: Node, from: int, to: int) {
    n.isBlock && Contains(n, from, to)
  }

  /** The changed-block search of the plugin's `apply`: each qualifying block overwrites
      the previous choice, so the result is the index of the LAST candidate in pre-order,
      i.e. the innermost block around the selection, and `None` when no block qualifies. */
  function ChangedBlock(nodes: seq<Node>, from: int, to: int): (found: Option<nat>)
    ensures found.Some? ==> found.value < |nodes| && Candidate(nodes[found.value], from, to)
    ensures found.Some? ==> forall j :: found.value < j < |nodes| ==> !Candidate(nodes[j], from, to)
    ensures found.None? <==> forall j :: 0 <= j < |nodes| ==> !Candidate(nodes[j], from, to)
  {
    if |nodes| == 0 then None
    else if Candidate(nodes[|nodes| - 1], from, to) then Some(|nodes| - 1)
    else ChangedBlock(nodes[..|nodes| - 1], from, to)
  }
}
