/** The embeddable link node of the intrusive list (`list_element`).
    A value that takes part in a list *is* its link node here: the tag that
    lets one value carry several independent link nodes is a compile-time
    device with no run-time state, so every Element stands for one tagged
    link node. */
module Links {

  class Element {
    /** Non-owning neighbour references; null means "no neighbour". */
    var prev: Element?
    var next: Element?

    /** A node is unlinked when neither neighbour reference is set. */
    predicate Unlinked()
      reads this
    {
      prev == null && next == null
    }

    /** The default constructor: a fresh node starts unlinked. */
    constructor ()
      ensures Unlinked()
    {
      prev := null;
      next := null;
    }

    /** The two-pointer constructor: the node starts with the given links.
        (The code writes `this.prev` for `this->prev`; the evident meaning
        is modelled.) */
    constructor Between(prev: Element?, next: Element?)
      ensures this.prev == prev && this.next == next
    {
      this.prev := prev;
      this.next := next;
    }

    /** Removes the node from whatever chain references it: the former
        neighbours are made to point at each other, then the node's own links
        are cleared. Only the node and its two former neighbours may change,
        and of each neighbour only the field that pointed back at this node.
        On an unlinked node nothing changes at all, so unlinking twice is
        the same as unlinking once. */
    method Unlink()
      modifies this, prev, next
      ensures Unlinked()
      ensures old(prev) != null && old(prev) != this ==> old(prev).next == old(next)
      ensures old(next) != null && old(next) != this ==> old(next).prev == old(prev)
      ensures old(prev) != null && old(prev) != this && old(prev) != old(next) ==>
                old(prev).prev == old(prev.prev)
      ensures old(next) != null && old(next) != this && old(next) != old(prev) ==>
                old(next).next == old(next.next)
      ensures old(Unlinked()) ==> unchanged(this)
    {
      if prev != null {
        prev.next := next;
      }
      if next != null {
        next.prev := prev;
      }
      next := null;
      prev := null;
    }
  }
}
