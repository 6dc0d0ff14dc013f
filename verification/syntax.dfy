/**
  The view of a parsed syntax tree that the splitter uses. The parser itself is outside
  the model; a tree is any value of `Node` that is well formed for the bytes it was
  parsed from.
*/
module Syntax {

  /** A zero-based row and column, as the parser reports positions. */
  datatype Point = Point(row: nat, column: nat)

  /** A byte range `[startByte, endByte)` with the positions of its two ends. */
  datatype Range = Range(startByte: nat, endByte: nat, startPoint: Point, endPoint: Point)

  /** A syntax node: a kind label, its range, and its children in document order. */
  datatype Node = Node(kind: string, range: Range, children: seq<Node>)

  /** Every range lies inside the `len` bytes of the code, children are in document order
      without overlap, and each child lies inside its parent. */
  predicate WellFormed(n: Node, len: nat)
    decreases n
  {
    && n.range.startByte <= n.range.endByte <= len
    && (forall i :: 0 <= i < |n.children| ==>
          n.range.startByte <= n.children[i].range.startByte && n.children[i].range.endByte <= n.range.endByte)
    && (forall i :: 0 <= i < |n.children| - 1 ==> n.children[i].range.endByte <= n.children[i + 1].range.startByte)
    && (forall i :: 0 <= i < |n.children| ==> WellFormed(n.children[i], len))
  }
}
