/** The HTML library, treated as an oracle: a selector query from a scope node
    yields the matching nodes in document order, and every node has a text
    content that includes the text of its descendants. */
module Dom {

  datatype Oracle<!Node> = Oracle(find: (Node, string) -> seq<Node>, text: Node -> string)

  /** Text of the first node of a selection; an empty selection has empty
      text. */
  function FirstText<Node>(o: Oracle<Node>, nodes: seq<Node>): (t: string)
  {
    if |nodes| == 0 then [] else o.text(nodes[0])
  }
}
