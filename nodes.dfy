/** One cell of a singly-linked chain: a stored value and the link to the
    next cell (null at the end of the chain). */
module Nodes {

  class Node<T> {
    const value: T
    var next: Node?<T>

    constructor (v: T)
      ensures value == v && next == null
    {
      value := v;
      next := null;
    }
  }

}
