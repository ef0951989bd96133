# Intrusive doubly-linked list — a Dafny model

This project models the `intrusive` header `intrusive_list.h`: a doubly-linked
list that threads its chain through link nodes embedded in the stored values
themselves, so inserting a value never allocates.

- `links.dfy`, module `Links`: the link node `list_element` as class
  `Element`, with its two non-owning references `prev` and `next` and its one
  self-mutator `Unlink`.
- `lists.dfy`, module `Lists`: the container `list` as class `List` and the
  cursor `list_iterator` as class `ListIterator`. The list keeps `head`, the
  sentinel node `tail` that stands for "one past the last element", and the
  element count `size`. A ghost sequence `Contents` holds the elements front
  to back. `Chain()` is `Contents` followed by the sentinel. `Valid()` states
  the list's invariant:
  - `size` equals the number of elements;
  - the chain's nodes are distinct;
  - consecutive nodes point at each other both ways;
  - `head` is the first node of the chain and has no predecessor;
  - the sentinel has no successor.

  An empty list is therefore the sentinel alone, with `head` pointing at it.
  Every mutating method states the new `Contents` in terms of the old one
  and re-establishes `Valid()`. The `modifies` clauses of the push, pop,
  insert and erase operations name the few nodes each rewires. `Clear` may
  touch every node of the chain; `Valid()` and the new `Contents` fix the
  outcome.
- `scenarios.dfy`, module `Scenarios`: client code that relies only on the
  contracts. It covers these cases:
  - push_back keeps insertion order, then pop_front;
  - `insert(end(), e)` acts like `push_back(e)`;
  - clear followed by push_back;
  - unlinking twice.

Values are modelled as their link nodes. The tag that lets one value carry
several link nodes has no run-time state, so each `Element` stands for one
tagged link node of one value.

## Where the model differs from the code

The header does not compile as written, and several operations break the
sentinel invariant that its fields and comments describe. The sentinel is
described at intrusive_list.h:130-134, and the rule that an iterator never
wraps null at intrusive_list.h:122-126. The model follows that sentinel
design. Each method's comment names the lines it corrects:

- list constructor (148-151): assigns a node value to the pointer `tail` and
  takes the address of that pointer. The model has the list own a fresh
  sentinel, with `head` pointing at it.
- two-pointer `list_element` constructor (20-23): writes `this.prev`. The
  model sets the two fields.
- `push_back` (192-195): never sets the new element's `next`. The model links
  it to the sentinel.
- `push_front`, empty case (229-233): makes the element the sentinel and
  links it to itself. The model links it before the sentinel.
- `push_front`, non-empty case (239-242): never increments `size`. The model
  increments it.
- `pop_back` (204-214): moves the sentinel pointer onto the last element, and
  leaves the sentinel's `prev` set when the list becomes empty. The model
  detaches the last element and keeps the sentinel.
- `pop_front` (253-254): nulls `head` and `tail`. The model points `head`
  back at the sentinel.
- `clear` (166-175): never resets `head` or `size`. The model resets both
  after the loop. The loop itself is modelled as written: it walks from
  `head`, saving each successor before unlinking.
- `insert` (294-302): copies `pos`'s links into the element, which then takes
  `pos`'s place, and never counts it. The model links the element before
  `pos`, moves `head` when `pos` is the first node, and increments `size`.
- `erase` (307-319): never moves `head` off an erased first element and never
  decrements `size`. The model does both.
- `back()` (219-221): returns the sentinel. The model returns the sentinel's
  predecessor; see Findings.
- postfix `--` (107-111): follows `next`. The model follows `prev`; see
  Findings.
- `end()` (287-289): applies postfix `++` to a temporary. The iterator it
  returns still wraps the sentinel, and that is what the model returns.

`erase` returns the erased element's predecessor, or its successor when it
was first (intrusive_list.h:313-317); the model follows the code. Its final `return nullptr` cannot be reached in a
valid list, because every element has a successor, even if only the
sentinel.

## Model

| member | source | states |
|---|---|---|
| `Links.Element.constructor` | intrusive_list.h:50-51 | a default-constructed node is unlinked: both links are null |
| `Links.Element.Between` | intrusive_list.h:20-23 | the node starts with exactly the given `prev` and `next` |
| `Links.Element.Unlink` | intrusive_list.h:31-40 | the former neighbours point directly at each other; the node ends unlinked; of each neighbour only the field that pointed back changes, and no other object changes; on an unlinked node nothing changes (so unlink is idempotent) |
| `Lists.List.constructor` | intrusive_list.h:148-151 | a new list is valid, has no elements, and owns a fresh sentinel |
| `Lists.List.Empty` | intrusive_list.h:275-277 | `empty()` holds exactly when there are no elements, and exactly when `head` is the sentinel (begin() == end()) |
| `Lists.List.Front` | intrusive_list.h:267-269 | on a non-empty list, the first element, never the sentinel |
| `Lists.List.Back` | intrusive_list.h:219-221 | on a non-empty list, the last element (the sentinel's predecessor), never the sentinel |
| `Lists.List.BackAsWritten` | intrusive_list.h:219-221 | `back()` as written: the sentinel |
| `Lists.List.BackAsWrittenIsNoElement` | intrusive_list.h:219-221 | on every non-empty valid list, `back()` as written yields no element at all, and differs from the last element |
| `Lists.List.SentinelIsNoElement` | intrusive_list.h:130-134 | in a valid list the sentinel is never one of the elements |
| `Lists.List.UnlinkedIsOutside` | intrusive_list.h:181-198 | an unlinked node other than the sentinel is not on a valid list's chain, so linking it in cannot create a cycle |
| `Lists.List.PushBack` | intrusive_list.h:181-198 | the list stays valid and its elements become the old ones followed by `elem`; touches only the list, the sentinel, the old last node and `elem` |
| `Lists.List.PushFront` | intrusive_list.h:227-243 | the list stays valid and its elements become `elem` followed by the old ones; touches only the list, the old first node and `elem` |
| `Lists.List.PopBack` | intrusive_list.h:200-217 | on an empty list nothing changes; otherwise the last element is removed (size drops by one) and left unlinked, and the list stays valid; touches only the list, the sentinel, the last node and the node before it |
| `Lists.List.PopFront` | intrusive_list.h:245-265 | on an empty list nothing changes; otherwise the first element is removed (size drops by one) and left unlinked, and the list stays valid |
| `Lists.List.Clear` | intrusive_list.h:166-175 | the walk from `head` terminates, every former element ends unlinked, and the list is valid and empty |
| `Lists.List.Insert` | intrusive_list.h:294-305 | `elem` is placed at `pos`'s position, just before `pos`'s node, and the rest keep their order; inserting before `end()` appends; the returned iterator wraps `elem` |
| `Lists.List.Erase` | intrusive_list.h:307-320 | the element at `pos` is removed and left unlinked, the rest keep their order, and the returned iterator wraps its former predecessor, or its former successor when it was first |
| `Lists.List.Begin` | intrusive_list.h:279-281 | an iterator to the first node of the chain |
| `Lists.List.End` | intrusive_list.h:287-289 | an iterator to the sentinel, the last node of the chain |
| `Lists.List.IterationVisitsContents` | intrusive_list.h:91-99 | `++` from begin() visits the elements in order and first reaches end() after exactly `size` steps, one more step leaves the chain; `--` from end() visits the chain in reverse and leaves it after the first element |
| `Lists.ForwardAlong` | intrusive_list.h:91-94 | following `next` k times from a node of a linked chain reaches the node k places later |
| `Lists.BackwardAlong` | intrusive_list.h:96-99 | following `prev` k times from a node of a linked chain reaches the node k places earlier |
| `Lists.ListIterator.constructor` | intrusive_list.h:126-127 | the iterator wraps the given (non-null) node |
| `Lists.ListIterator.Increment` | intrusive_list.h:91-94 | prefix `++` moves to the current node's `next` |
| `Lists.ListIterator.Decrement` | intrusive_list.h:96-99 | prefix `--` moves to the current node's `prev` |
| `Lists.ListIterator.PostIncrement` | intrusive_list.h:101-105 | postfix `++` returns a copy at the old node and moves to `next` |
| `Lists.ListIterator.PostDecrement` | intrusive_list.h:107-111 | postfix `--` returns a copy at the old node and moves to `prev` |
| `Lists.ListIterator.PostDecrementAsWritten` | intrusive_list.h:107-111 | postfix `--` as written: it returns a copy at the old node and moves to `next` |
| `Lists.PostDecrementAsWrittenMissesPredecessor` | intrusive_list.h:107-111 | for every node after the first on a valid chain, `next` never leads to the predecessor that `prev` leads to |
| `Lists.ListIterator.Equals` | intrusive_list.h:113-115 | iterators compare equal exactly when they wrap the same node, so every iterator equals itself; `Lists.EqualsIffSamePosition` ties this to the position on the chain |
| `Lists.ListIterator.NotEquals` | intrusive_list.h:117-119 | `!=` is exactly the negation of `==` |
| `Lists.EqualsIffSamePosition` | intrusive_list.h:113-119 | two iterators into a valid list compare equal exactly when they stand at the same position of the chain (identity of the wrapped node), and unequal exactly otherwise |
| `Scenarios.PushBackThenPopFront` | intrusive_list.h:181-265 | push_back of a, b, c followed by pop_front leaves b, c, size 2, and a unlinked |
| `Scenarios.InsertAtEndAppends` | intrusive_list.h:287-305 | `insert(end(), e)` leaves the same elements as `push_back(e)` |
| `Scenarios.ClearThenPushBack` | intrusive_list.h:166-198 | after clear, one push_back gives a one-element list |
| `Scenarios.UnlinkTwice` | intrusive_list.h:31-40 | unlinking a node a second time changes nothing |

## Left out

- `splice` (intrusive_list.h:322-323): its body is empty, so there is no behaviour to model.
- Move constructor and move assignment (intrusive_list.h:154-156, 162-164): the assignment only returns its argument, and the constructor shares the source's nodes. Neither is a coherent transfer to verify, so both are left out.
- The copy constructor of `list_element` (intrusive_list.h:25-28): it duplicates the links of another node. This is not a coherent operation, so it is left out.
- `list_element::operator==` and `operator!=` (intrusive_list.h:42-48): they compare a field with itself. Node identity is Dafny reference equality.
- Destructor (intrusive_list.h:157-159): it only calls `clear`, which is modelled.
- Dereference `*` and `->`, and `front()`/`back()`'s `static_cast` to `T`: values are their link nodes here, so the cast has no counterpart.
- The `Tag` parameter, the `static_assert` (intrusive_list.h:141-142), the const/non-const iterator conversion (intrusive_list.h:66-71), the iterator trait typedefs (intrusive_list.h:58-62) and the default-constructed iterator (intrusive_list.h:64): these are compile-time machinery with no run-time behaviour.
- `const` overloads of `front`, `back`, `begin` and `end`: they behave the same as the non-const ones.
- `<iostream>` is included but unused; there is no I/O.
- Thread safety: the code has none; the model is sequential.
- `size` is an unbounded integer. The code's `int` could only overflow after more than 2^31 - 1 insertions, which is not modelled.
- Lists.ListIterator.Increment: requires a successor. Stepping past `end()` would make the iterator wrap null, which intrusive_list.h:122-126 rules out.
- Lists.ListIterator.Decrement: likewise requires a predecessor. The same applies to the postfix forms.
- Lists.List.PushBack: requires `elem` not to be the list's own sentinel, and so do Lists.List.PushFront and Lists.List.Insert. The sentinel is not a `T`. On a non-empty list it is linked, so `elem.Unlinked()` already excludes it; `elem != tail` only rules out an empty list's sentinel.
- Lists.List.Erase: requires `pos` to be an element of this list, and Lists.List.Insert requires `pos` to be on this list's chain and `elem` to be unlinked. Both are the operations' preconditions; misuse is undefined behaviour in the code.

## Findings

| source | as written | input that shows it | evidently intended | confidence | as-written member | corrected member |
|---|---|---|---|---|---|---|
| intrusive_list.h:219-221 | `back()` returns the sentinel `tail` | any non-empty list, e.g. after `push_back(a)`: `back()` yields the sentinel, not `a` | the last element, the sentinel's predecessor | high; not executed | `Lists.List.BackAsWritten` (shown by `Lists.List.BackAsWrittenIsNoElement`) | `Lists.List.Back` |
| intrusive_list.h:107-111 | postfix `--` assigns `current->next` | an iterator at `b` in the list `a, b`: `it--` moves to the sentinel instead of `a` | postfix `--` steps to `current->prev`, like prefix `--` | high; not executed | `Lists.ListIterator.PostDecrementAsWritten` (shown by `Lists.PostDecrementAsWrittenMissesPredecessor`) | `Lists.ListIterator.PostDecrement` |
