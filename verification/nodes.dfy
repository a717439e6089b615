/** The node objects the three list classes link together. */
module Nodes {

  /** A node of a singly or circular list: a value and a link to the next node. */
  class Node {
    var data: int
    var next: Node?

    constructor (data: int)
      ensures this.data == data && next == null
    {
      this.data := data;
      next := null;
    }
  }

  /** A node of a doubly list: a value, a link to the next node and one back to the previous. */
  class DoublyNode {
    var data: int
    var prev: DoublyNode?
    var next: DoublyNode?

    constructor (data: int)
      ensures this.data == data && prev == null && next == null
    {
      this.data := data;
      prev := null;
      next := null;
    }
  }
}
