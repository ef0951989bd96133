/** The intrusive list container (`list`) and its cursor (`list_iterator`).

    The list threads a doubly-linked chain through the elements' own link
    nodes and owns one extra node, the sentinel `tail`, which stands for
    "one past the last element". The chain runs from `head` through every
    element to the sentinel; the first node has no predecessor and the
    sentinel no successor. An empty list is the sentinel alone. */
module Lists {
  import opened Links

  /** No node occurs twice in `s`. */
  ghost predicate Distinct(s: seq<Element>)
  {
    forall i, j :: 0 <= i < j < |s| ==> s[i] != s[j]
  }

  /** Consecutive nodes of `s` point at each other, in both directions. */
  ghost predicate Linked(s: seq<Element>)
    reads s
  {
    forall i :: 0 < i < |s| ==> s[i - 1].next == s[i] && s[i].prev == s[i - 1]
  }

  /** The node reached from `n` by following `next` `k` times, or null once
      the walk has stepped past the end of a chain. */
  ghost function Forward(n: Element?, k: nat): Element?
    reads *
    decreases k
  {
    if k == 0 || n == null then n else Forward(n.next, k - 1)
  }

  /** The node reached from `n` by following `prev` `k` times, or null once
      the walk has stepped past the start of a chain. */
  ghost function Backward(n: Element?, k: nat): Element?
    reads *
    decreases k
  {
    if k == 0 || n == null then n else Backward(n.prev, k - 1)
  }

  /** Following `next` from any node of a linked chain walks the chain in order. */
  lemma {:induction false} ForwardAlong(s: seq<Element>, i: nat, k: nat)
    requires Linked(s) && i + k < |s|
    ensures Forward(s[i], k) == s[i + k]
    decreases k
  {
    if k > 0 {
      ForwardAlong(s, i + 1, k - 1);
    }
  }

  /** Following `prev` from any node of a linked chain walks it in reverse. */
  lemma {:induction false} BackwardAlong(s: seq<Element>, i: nat, k: nat)
    requires Linked(s) && k <= i < |s|
    ensures Backward(s[i], k) == s[i - k]
    decreases k
  {
    if k > 0 {
      BackwardAlong(s, i - 1, k - 1);
    }
  }

  /** Following `next` from a node of a linked chain whose last node has no
      successor falls off the chain one step after the last node. */
  lemma {:induction false} ForwardOffEnd(s: seq<Element>, i: nat)
    requires Linked(s) && i < |s| && s[|s| - 1].next == null
    ensures Forward(s[i], |s| - i) == null
    decreases |s| - i
  {
    if i + 1 < |s| {
      ForwardOffEnd(s, i + 1);
    }
  }

  /** Following `prev` from a node of a linked chain whose first node has no
      predecessor falls off the chain one step before the first node. */
  lemma {:induction false} BackwardOffStart(s: seq<Element>, i: nat)
    requires Linked(s) && i < |s| && s[0].prev == null
    ensures Backward(s[i], i + 1) == null
    decreases i
  {
    if i > 0 {
      BackwardOffStart(s, i - 1);
    }
  }

  /** The first index at which `n` occurs in `s`. */
  ghost function IndexOf(s: seq<Element>, n: Element): (k: nat)
    requires n in s
    ensures k < |s| && s[k] == n && n !in s[..k]
  {
    if s[0] == n then 0 else 1 + IndexOf(s[1..], n)
  }

  /** Putting a new node into a sequence of distinct nodes keeps them distinct. */
  lemma DistinctInsert(s: seq<Element>, k: nat, n: Element)
    requires Distinct(s) && n !in s && k <= |s|
    ensures Distinct(s[..k] + [n] + s[k..])
  {
  }

  /** Taking a node out of a sequence of distinct nodes keeps them distinct. */
  lemma DistinctRemove(s: seq<Element>, k: nat)
    requires Distinct(s) && k < |s|
    ensures Distinct(s[..k] + s[k + 1..])
  {
  }

  class List {
    /** The first node of the chain: the first element, or the sentinel. */
    var head: Element
    /** The sentinel, owned by the list for its whole life. */
    const tail: Element
    /** The number of elements (the sentinel is not one). */
    var size: int
    /** The elements, front to back. */
    ghost var Contents: seq<Element>

    /** Every node of the chain: the elements, then the sentinel. */
    ghost function Chain(): (c: seq<Element>)
      reads this
      ensures |c| == |Contents| + 1 && c[|Contents|] == tail
    {
      Contents + [tail]
    }

    ghost predicate Valid()
      reads this, Contents, tail
    {
      && size == |Contents|
      && Distinct(Chain())
      && Linked(Chain())
      && head == Chain()[0]
      && head.prev == null
      && tail.next == null
    }

    /** The index of node `n` in the chain. */
    ghost function Position(n: Element): (k: nat)
      reads this
      requires n in Chain()
      ensures k < |Chain()| && Chain()[k] == n
      ensures n in Contents ==> k < |Contents|
    {
      IndexOf(Chain(), n)
    }

    /** In a valid list every element has a successor (the next element or
        the sentinel), so an unlinked node other than the sentinel is not on
        the chain. */
    lemma UnlinkedIsOutside(elem: Element)
      requires Valid()
      requires elem.Unlinked() && elem != tail
      ensures elem !in Chain()
    {
      forall k | 0 <= k < |Contents|
        ensures Chain()[k] != elem
      {
        assert Chain()[k + 1].prev == Chain()[k];
      }
    }

    /** The sentinel is never one of the elements. */
    lemma SentinelIsNoElement()
      requires Valid()
      ensures tail !in Contents
    {
      forall k | 0 <= k < |Contents|
        ensures Contents[k] != tail
      {
        assert Chain()[k] == Contents[k] && Chain()[|Contents|] == tail;
      }
    }

    /** A new list: the chain is the sentinel alone and there are no elements.
        (The code assigns a node value to the pointer field `tail` and takes
        the address of that pointer; the evident meaning, a list owning its
        sentinel with `head` pointing at it, is modelled.) */
    constructor ()
      ensures Valid() && Contents == [] && fresh(tail)
    {
      var sentinel := new Element();
      tail := sentinel;
      head := sentinel;
      size := 0;
      Contents := [];
    }

    /** The list is empty exactly when it counts no elements, which is
        exactly when the chain starts at the sentinel (begin() == end()). */
    function Empty(): (b: bool)
      reads this, Contents, tail
      requires Valid()
      ensures b <==> Contents == []
      ensures b <==> head == tail
    {
      size == 0
    }

    /** The first element of a non-empty list. */
    function Front(): (r: Element)
      reads this, Contents, tail
      requires Valid() && size != 0
      ensures r == Contents[0] && r != tail
    {
      SentinelIsNoElement();
      head
    }

    /** The last element of a non-empty list: the sentinel's predecessor.
        (The code returns the sentinel itself; see BackAsWritten.) */
    function Back(): (r: Element)
      reads this, Contents, tail
      requires Valid() && size != 0
      ensures r == Contents[|Contents| - 1] && r != tail
    {
      assert Chain()[|Contents|].prev == Chain()[|Contents| - 1];
      SentinelIsNoElement();
      tail.prev
    }

    /** back() as the code writes it: the sentinel. */
    function BackAsWritten(): (r: Element)
      reads this
    {
      tail
    }

    /** back() as written never yields an element of a valid list, while
        Back yields the last one. */
    lemma BackAsWrittenIsNoElement()
      requires Valid() && size != 0
      ensures BackAsWritten() !in Contents
      ensures BackAsWritten() != Back()
    {
      SentinelIsNoElement();
    }

    /** Iteration: ++ from begin() visits the elements front to back and
        reaches end() after exactly `size` steps, never earlier; one more step
        leaves the chain. -- from end() visits the same nodes back to front,
        and one step past the first element leaves the chain. */
    lemma {:induction false} IterationVisitsContents()
      requires Valid()
      ensures forall i :: 0 <= i <= |Contents| ==> Forward(head, i) == Chain()[i]
      ensures forall i :: 0 <= i < |Contents| ==> Forward(head, i) != tail
      ensures Forward(head, |Contents| + 1) == null
      ensures forall i :: 0 <= i <= |Contents| ==> Backward(tail, i) == Chain()[|Contents| - i]
      ensures Backward(tail, |Contents| + 1) == null
    {
      var c := Chain();
      forall i | 0 <= i <= |Contents|
        ensures Forward(head, i) == c[i] && Backward(tail, i) == c[|Contents| - i]
      {
        ForwardAlong(c, 0, i);
        BackwardAlong(c, |Contents|, i);
      }
      forall i | 0 <= i < |Contents|
        ensures Forward(head, i) != tail
      {
        ForwardAlong(c, 0, i);
        assert c[i] != c[|Contents|];
      }
      ForwardOffEnd(c, 0);
      BackwardOffStart(c, |Contents|);
    }

    /** Appends `elem` just before the sentinel.
        When the list is non-empty the code never assigns `elem.next`
        (lines 192-195); the model links it to the sentinel. */
    method PushBack(elem: Element)
      requires Valid()
      requires elem.Unlinked() && elem != tail
      modifies this, tail, tail.prev, elem
      ensures Valid()
      ensures Contents == old(Contents) + [elem]
    {
      UnlinkedIsOutside(elem);
      if size == 0 {
        head := elem;
        tail.prev := head;
        head.next := tail;
        size := 1;
        Contents := [elem];
        return;
      }
      var last := tail.prev;
      assert last == Contents[|Contents| - 1] by {
        assert Chain()[|Contents|].prev == Chain()[|Contents| - 1];
      }
      last.next := elem;
      elem.prev := last;
      elem.next := tail;
      tail.prev := elem;
      size := size + 1;
      Contents := Contents + [elem];
      assert Chain() == old(Chain())[..|Contents| - 1] + [elem, tail];
    }

    /** Prepends `elem` before the current first node.
        The code's empty branch makes `elem` the sentinel and links it to
        itself (lines 229-233), and its non-empty branch never counts the new
        element (lines 239-242); the model links `elem` before the sentinel in
        the first case and increments `size` in the second. */
    method PushFront(elem: Element)
      requires Valid()
      requires elem.Unlinked() && elem != tail
      modifies this, head, elem
      ensures Valid()
      ensures Contents == [elem] + old(Contents)
    {
      UnlinkedIsOutside(elem);
      if size == 0 {
        head := elem;
        tail.prev := head;
        head.next := tail;
        size := 1;
        Contents := [elem];
        return;
      }
      head.prev := elem;
      elem.next := head;
      head := elem;
      size := size + 1;
      Contents := [elem] + Contents;
      assert Chain() == [elem] + old(Chain());
    }

    /** Removes the last element, if any, leaving it unlinked.
        The code moves the sentinel pointer itself onto the last element
        (line 212) and leaves the sentinel's predecessor set when the list
        becomes empty (lines 204-209); the model detaches the last element
        from its neighbours and keeps the sentinel. */
    method PopBack()
      requires Valid()
      modifies this, tail, tail.prev, if tail.prev == null then null else tail.prev.prev
      ensures Valid()
      ensures old(Contents) == [] ==> Contents == [] && unchanged(this)
      ensures old(Contents) != [] ==>
                Contents == old(Contents[..|Contents| - 1])
                && old(Contents[|Contents| - 1]).Unlinked()
    {
      if size == 0 {
        return;
      }
      if size == 1 {
        head.next := null;
        head := tail;
        tail.prev := null;
        size := 0;
        Contents := [];
        return;
      }
      var last := tail.prev;
      assert last == Contents[|Contents| - 1] by {
        assert Chain()[|Contents|].prev == Chain()[|Contents| - 1];
      }
      var before := last.prev;
      assert before == Contents[|Contents| - 2] by {
        assert Chain()[|Contents| - 1].prev == Chain()[|Contents| - 2];
      }
      ghost var c := Chain();
      ghost var n := |Contents|;
      assert last == c[n - 1] != tail && before == c[n - 2] != tail;
      tail.prev := before;
      before.next := tail;
      last.prev := null;
      last.next := null;
      size := size - 1;
      Contents := Contents[..n - 1];
      assert Chain() == c[..n - 1] + c[n..];
      DistinctRemove(c, n - 1);
      forall i | 0 < i < n - 1
        ensures c[i - 1].next == c[i] && c[i].prev == c[i - 1]
      {
        assert old(c[i - 1].next) == c[i] && old(c[i].prev) == c[i - 1];
        assert c[i - 1] != before && c[i - 1] != last && c[i] != last && c[i] != tail;
      }
    }

    /** Removes the first element, if any, leaving it unlinked.
        The code nulls both `head` and `tail` when the last element goes
        (lines 253-254); the model points `head` back at the sentinel. */
    method PopFront()
      requires Valid()
      modifies this, head, head.next
      ensures Valid()
      ensures old(Contents) == [] ==> Contents == [] && unchanged(this)
      ensures old(Contents) != [] ==>
                Contents == old(Contents[1..]) && old(Contents[0]).Unlinked()
    {
      if size == 0 {
        return;
      }
      if size == 1 {
        assert head.next == tail by {
          assert Chain()[1].prev == Chain()[0];
        }
        tail.prev := null;
        head.next := null;
        head := tail;
        size := 0;
        Contents := [];
        return;
      }
      assert head.next == Contents[1] by {
        assert Chain()[1].prev == Chain()[0];
      }
      head := head.next;
      head.prev.next := null;
      head.prev := null;
      size := size - 1;
      Contents := Contents[1..];
      assert Chain() == old(Chain())[1..];
    }

    /** Unlinks every node from `head` to the sentinel, saving each node's
        successor before unlinking it. Every former element ends unlinked.
        The code leaves `head` on a detached node and `size` unchanged
        (lines 166-175); the model resets both to the empty list. */
    method Clear()
      requires Valid()
      modifies this, Contents, tail
      ensures Valid() && Contents == []
      ensures forall i :: 0 <= i < |old(Contents)| ==> old(Contents)[i].Unlinked()
    {
      ghost var chain := Chain();
      var front: Element? := head;
      ghost var k := 0;
      while front != null
        invariant 0 <= k <= |chain|
        invariant Contents == old(Contents) && chain == Chain() && Distinct(chain)
        invariant front == if k < |chain| then chain[k] else null
        invariant k < |chain| ==> chain[k].prev == null
        invariant forall j :: 0 <= j < k ==> chain[j].Unlinked()
        invariant forall j :: k < j < |chain| ==> chain[j - 1].next == chain[j] && chain[j].prev == chain[j - 1]
        invariant k < |chain| ==> chain[|chain| - 1].next == null
        decreases |chain| - k
      {
        var frontNext := front.next;
        assert frontNext == null || frontNext in Contents || frontNext == tail by {
          if k + 1 < |chain| {
            assert chain[k + 1].prev == chain[k];
            assert chain[k + 1] in Contents || chain[k + 1] == tail;
          }
        }
        front.Unlink();
        front := frontNext;
        k := k + 1;
      }
      assert forall i :: 0 <= i < |old(Contents)| ==> old(Contents)[i] == chain[i];
      head := tail;
      size := 0;
      Contents := [];
    }

    /** Links `elem` immediately before the node at `pos` and returns an
        iterator to it. The code copies `pos`'s links into `elem`, so that
        `elem` takes `pos`'s place, and never counts it (lines 294-302); the
        model links `elem` between `pos`'s predecessor and `pos`, moves `head`
        when `pos` is the first node, and increments `size`. */
    method Insert(pos: ListIterator, elem: Element) returns (it: ListIterator)
      requires Valid()
      requires pos.current in Chain()
      requires elem.Unlinked() && elem != tail
      modifies this, pos.current, pos.current.prev, elem
      ensures Valid()
      ensures var k := old(Position(pos.current));
              Contents == old(Contents[..k]) + [elem] + old(Contents[k..])
      ensures old(pos.current) == tail ==> Contents == old(Contents) + [elem]
      ensures fresh(it) && it.current == elem
    {
      UnlinkedIsOutside(elem);
      var p := pos.current;
      ghost var k := Position(p);
      ghost var c := Chain();
      assert if k > 0 then p.prev == c[k - 1] else p.prev == null by {
        if k > 0 {
          assert c[k].prev == c[k - 1];
        }
      }
      if p.prev != null {
        p.prev.next := elem;
      } else {
        head := elem;
      }
      elem.prev := p.prev;
      elem.next := p;
      p.prev := elem;
      size := size + 1;
      Contents := Contents[..k] + [elem] + Contents[k..];
      ghost var t := c[..k] + [elem] + c[k..];
      assert Chain() == t;
      DistinctInsert(c, k, elem);
      forall i | 0 < i < |t|
        ensures t[i - 1].next == t[i] && t[i].prev == t[i - 1]
      {
        if i < k {
          assert t[i - 1] == c[i - 1] && t[i] == c[i];
          assert old(c[i - 1].next) == c[i] && old(c[i].prev) == c[i - 1];
          assert c[i - 1] != c[k - 1] && c[i] != p;
        } else if i > k + 1 {
          assert t[i - 1] == c[i - 2] && t[i] == c[i - 1];
          assert old(c[i - 2].next) == c[i - 1] && old(c[i - 1].prev) == c[i - 2];
          assert k == 0 || c[i - 2] != c[k - 1];
          assert c[i - 1] != p;
        }
      }
      assert k > 0 ==> c[0] != p && head == c[0];
      it := new ListIterator(elem);
    }

    /** Unlinks the element at `pos` and returns an iterator to its former
        predecessor, or to its former successor when it was the first
        element. The code never moves `head` off an erased first element
        and never decrements `size` (lines 307-319); the model does both.
        Its final `nullptr` return is unreachable: every element has a
        successor, if only the sentinel. */
    method Erase(pos: ListIterator) returns (it: ListIterator)
      requires Valid()
      requires pos.current in Contents
      modifies this, pos.current, pos.current.prev, pos.current.next
      ensures Valid()
      ensures var k := old(Position(pos.current));
              && Contents == old(Contents[..k]) + old(Contents[k + 1..])
              && it.current == (if k > 0 then old(Contents[k - 1]) else old(Chain()[1]))
      ensures old(pos.current).Unlinked()
      ensures fresh(it)
    {
      var p := pos.current;
      SentinelIsNoElement();
      ghost var k := Position(p);
      ghost var c := Chain();
      var prevCopy := p.prev;
      var nextCopy := p.next;
      assert nextCopy == c[k + 1] by {
        assert c[k + 1].prev == c[k];
      }
      assert k > 0 ==> prevCopy == c[k - 1] by {
        if k > 0 { assert c[k].prev == c[k - 1]; }
      }
      p.Unlink();
      if prevCopy == null {
        head := nextCopy;
      }
      size := size - 1;
      Contents := Contents[..k] + Contents[k + 1..];
      assert Chain() == c[..k] + c[k + 1..];
      DistinctRemove(c, k);
      if prevCopy != null {
        it := new ListIterator(prevCopy);
      } else {
        it := new ListIterator(nextCopy);
      }
    }

    /** An iterator to the first node: the first element, or the sentinel. */
    method Begin() returns (it: ListIterator)
      requires Valid()
      ensures fresh(it) && it.current == head
      ensures it.current == Chain()[0]
    {
      it := new ListIterator(head);
    }

    /** An iterator to the sentinel. */
    method End() returns (it: ListIterator)
      requires Valid()
      ensures fresh(it) && it.current == tail
      ensures it.current == Chain()[|Contents|]
    {
      it := new ListIterator(tail);
    }
  }

  /** A cursor over link nodes. It never wraps null: the sentinel stands for
      "end", so stepping requires a neighbour to step to. */
  class ListIterator {
    var current: Element

    constructor (current: Element)
      ensures this.current == current
    {
      this.current := current;
    }

    /** Prefix ++: moves to the successor. */
    method Increment()
      requires current.next != null
      modifies this
      ensures current == old(current.next)
    {
      current := current.next;
    }

    /** Prefix --: moves to the predecessor. */
    method Decrement()
      requires current.prev != null
      modifies this
      ensures current == old(current.prev)
    {
      current := current.prev;
    }

    /** Postfix ++: moves to the successor and returns a copy of the
        iterator as it was. */
    method PostIncrement() returns (was: ListIterator)
      requires current.next != null
      modifies this
      ensures fresh(was) && was.current == old(current)
      ensures current == old(current.next)
    {
      was := new ListIterator(current);
      current := current.next;
    }

    /** Postfix --: moves to the predecessor and returns a copy of the
        iterator as it was. The code follows `next` (line 109); see
        PostDecrementAsWritten. */
    method PostDecrement() returns (was: ListIterator)
      requires current.prev != null
      modifies this
      ensures fresh(was) && was.current == old(current)
      ensures current == old(current.prev)
    {
      was := new ListIterator(current);
      current := current.prev;
    }

    /** Postfix -- as the code writes it: it steps along `next`. */
    method PostDecrementAsWritten() returns (was: ListIterator)
      requires current.next != null
      modifies this
      ensures fresh(was) && was.current == old(current)
      ensures current == old(current.next)
    {
      was := new ListIterator(current);
      current := current.next;
    }

    /** Iterators compare equal exactly when they wrap the same node. */
    predicate Equals(rhs: ListIterator)
      reads this, rhs
      ensures rhs == this ==> Equals(rhs)
    {
      rhs.current == current
    }

    /** != is the negation of ==. */
    predicate NotEquals(rhs: ListIterator)
      reads this, rhs
      ensures NotEquals(rhs) <==> !Equals(rhs)
    {
      rhs.current != current
    }
  }

  /** Two iterators into a valid list compare equal exactly when they stand
      at the same position of the chain. */
  lemma EqualsIffSamePosition(l: List, a: ListIterator, b: ListIterator, i: nat, j: nat)
    requires l.Valid()
    requires i < |l.Chain()| && j < |l.Chain()|
    requires a.current == l.Chain()[i] && b.current == l.Chain()[j]
    ensures a.Equals(b) <==> i == j
    ensures a.NotEquals(b) <==> i != j
  {
  }

  /** Postfix -- as written never reaches the predecessor: from every node
      after the first, `next` leads to another node than `prev` does, or off
      the chain. */
  lemma PostDecrementAsWrittenMissesPredecessor(l: List, i: nat)
    requires l.Valid() && 0 < i < |l.Chain()|
    ensures l.Chain()[i].prev == l.Chain()[i - 1]
    ensures l.Chain()[i].next != l.Chain()[i - 1]
  {
    var c := l.Chain();
    if i + 1 < |c| {
      assert c[i + 1].prev == c[i];
    }
  }
}
