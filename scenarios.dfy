/** Client code that uses only the contracts of the list, its iterator and
    its link nodes, in the way a program embedding the list would. */
module Scenarios {
  import opened Links
  import opened Lists

  /** push_back of a, b, c keeps insertion order; pop_front then leaves b, c
      and a size of 2, with a unlinked. */
  method PushBackThenPopFront(a: Element, b: Element, c: Element) returns (l: List)
    requires a.Unlinked() && b.Unlinked() && c.Unlinked()
    requires a != b && b != c && a != c
    modifies a, b, c
    ensures l.Valid() && l.Contents == [b, c] && l.size == 2
    ensures a.Unlinked()
  {
    l := new List();
    l.PushBack(a);
    l.PushBack(b);
    assert l.tail.prev == l.Back() == b;
    l.PushBack(c);
    assert l.Contents == [a, b, c] && l.Front() == a && l.Back() == c;
    assert l.head.next == b by {
      assert l.Chain()[1].prev == l.Chain()[0];
    }
    l.PopFront();
  }

  /** insert(end(), e) has the same effect on the elements as push_back(e). */
  method InsertAtEndAppends(l: List, e: Element) returns (it: ListIterator)
    requires l.Valid() && e.Unlinked() && e != l.tail
    modifies l, l.tail, l.tail.prev, e
    ensures l.Valid() && l.Contents == old(l.Contents) + [e] && it.current == e
  {
    var last := l.End();
    it := l.Insert(last, e);
  }

  /** After clear() the list is empty, and a push_back gives a one-element list. */
  method ClearThenPushBack(l: List, e: Element)
    requires l.Valid() && e.Unlinked() && e != l.tail
    modifies l, l.Contents, l.tail, e
    ensures l.Valid() && l.Contents == [e] && l.size == 1
  {
    l.UnlinkedIsOutside(e);
    l.Clear();
    assert l.Empty();
    l.PushBack(e);
  }

  /** Unlinking twice leaves everything as unlinking once did. */
  method UnlinkTwice(x: Element)
    modifies x, x.prev, x.next
    ensures x.Unlinked()
  {
    x.Unlink();
    label once:
    x.Unlink();
    assert unchanged@once(x);
  }
}
