/**
 * The node-store contract the B+Tree engine relies on, stated on values:
 * the signed node-id scheme, the id-issuing counter, and the table from id
 * to node with its lookup, insert/overwrite and removal.
 */
module NodeStore {
  import opened JavaInt

  /** The reserved id that stands for "no node". */
  const NULL_ID: int := 0

  datatype Option<T> = None | Some(value: T)

  /** A tree node. Its keys, values and children stay opaque; only its id matters here. */
  datatype Node<C> = Node(id: int, contents: C)

  /** Positive ids name leaves. */
  predicate IsLeafId(id: int) {
    id > 0
  }

  /** Negative ids name internal nodes. */
  predicate IsInternalId(id: int) {
    id < 0
  }

  function Abs(x: int): nat {
    if x < 0 then -x else x
  }

  // ---------------------------------------------------------------------
  // Allocation
  // ---------------------------------------------------------------------

  /**
   * The id issued when the counter stands at `counter`: the counter's next
   * value, negated for an internal node. Requires the counter to have room
   * for one more id in Java's `int`.
   */
  function AllocId(counter: int, isLeaf: bool): (id: int)
    requires 0 <= counter < INT32_MAX
    ensures id != NULL_ID && InInt32(id)
    ensures IsLeafId(id) <==> isLeaf
    ensures IsInternalId(id) <==> !isLeaf
    ensures Abs(id) == counter + 1
  {
    if isLeaf then counter + 1 else -(counter + 1)
  }

  /** The counter after an allocation and the id that allocation returned. */
  datatype Allocation = Allocation(counter: int, id: int)

  /**
   * Allocation exactly as the Java code performs it on a 32-bit `int`:
   * `++maxNodeID` wraps around, and so does the negation for internal nodes.
   */
  function JavaAllocNode(counter: int, isLeaf: bool): (a: Allocation)
    requires InInt32(counter)
    ensures InInt32(a.counter) && InInt32(a.id)
    ensures isLeaf ==> a.id == a.counter
    ensures !isLeaf ==> (a.id + a.counter) % TWO_POW_32 == 0
  {
    var id := Wrap32(counter + 1);
    Allocation(id, if isLeaf then id else Wrap32(-id))
  }

  /** While the counter has not reached the top of the `int` range, Java's allocation is AllocId. */
  lemma JavaAllocNodeInRange(counter: int, isLeaf: bool)
    requires 0 <= counter < INT32_MAX
    ensures JavaAllocNode(counter, isLeaf) == Allocation(counter + 1, AllocId(counter, isLeaf))
  {
  }

  /**
   * At the top of the range the Java code breaks the sign convention: a leaf
   * receives a negative id, and it is the very id an internal node would get.
   */
  lemma JavaAllocNodeOverflow()
    ensures JavaAllocNode(INT32_MAX, true).id == INT32_MIN
    ensures IsInternalId(JavaAllocNode(INT32_MAX, true).id)
    ensures JavaAllocNode(INT32_MAX, false).id == JavaAllocNode(INT32_MAX, true).id
    ensures JavaAllocNode(INT32_MAX, true).counter == INT32_MIN
  {
  }

  /** The ids returned by successive allocations of the given kinds, starting from `counter`. */
  function IssuedIds(counter: int, kinds: seq<bool>): (ids: seq<int>)
    requires 0 <= counter && counter + |kinds| <= INT32_MAX
    ensures |ids| == |kinds|
    decreases |kinds|
  {
    if kinds == [] then [] else [AllocId(counter, kinds[0])] + IssuedIds(counter + 1, kinds[1..])
  }

  /** The i-th issued id has magnitude counter + i + 1 and the sign of the i-th requested kind. */
  lemma {:induction false} IssuedIdAt(counter: int, kinds: seq<bool>, i: int)
    requires 0 <= counter && counter + |kinds| <= INT32_MAX
    requires 0 <= i < |kinds|
    ensures Abs(IssuedIds(counter, kinds)[i]) == counter + i + 1
    ensures IsLeafId(IssuedIds(counter, kinds)[i]) <==> kinds[i]
    ensures IsInternalId(IssuedIds(counter, kinds)[i]) <==> !kinds[i]
    decreases i
  {
    if i > 0 {
      IssuedIdAt(counter + 1, kinds[1..], i - 1);
    }
  }

  /**
   * Successive allocations never return the null id, their magnitudes grow
   * strictly (so no id repeats), and every one exceeds the starting counter
   * (so none collides with an id issued before).
   */
  lemma IssuedIdsFresh(counter: int, kinds: seq<bool>)
    requires 0 <= counter && counter + |kinds| <= INT32_MAX
    ensures forall i :: 0 <= i < |kinds| ==>
      IssuedIds(counter, kinds)[i] != NULL_ID && counter < Abs(IssuedIds(counter, kinds)[i]) <= counter + |kinds|
    ensures forall i, j :: 0 <= i < j < |kinds| ==>
      Abs(IssuedIds(counter, kinds)[i]) < Abs(IssuedIds(counter, kinds)[j])
    ensures forall i, j :: 0 <= i < j < |kinds| ==> IssuedIds(counter, kinds)[i] != IssuedIds(counter, kinds)[j]
  {
    forall i | 0 <= i < |kinds|
      ensures Abs(IssuedIds(counter, kinds)[i]) == counter + i + 1
    {
      IssuedIdAt(counter, kinds, i);
    }
  }

  // ---------------------------------------------------------------------
  // The table from id to node
  // ---------------------------------------------------------------------

  /** What `getNode(id)` finds: the stored node, or nothing (Java's `null`). */
  function Lookup<C>(m: map<int, Node<C>>, id: int): (r: Option<Node<C>>)
    ensures r.Some? <==> id in m
    ensures r.Some? ==> r.value == m[id]
  {
    if id in m then Some(m[id]) else None
  }

  /** Every node is filed under its own id. */
  ghost predicate KeysMatchIds<C>(m: map<int, Node<C>>) {
    forall id :: id in m ==> m[id].id == id
  }

  /** The table after `putNode(n)`: `n` is filed under its id, replacing any node there. */
  function Stored<C>(m: map<int, Node<C>>, n: Node<C>): (r: map<int, Node<C>>)
    ensures forall id :: Lookup(r, id) == (if id == n.id then Some(n) else Lookup(m, id))
    ensures r.Keys == m.Keys + {n.id}
  {
    m[n.id := n]
  }

  /**
   * The table after `freeNode` on a node with id `id`: that entry is removed,
   * unless `id` is the null id, which leaves the table as it was.
   */
  function Freed<C>(m: map<int, Node<C>>, id: int): (r: map<int, Node<C>>)
    ensures forall i :: Lookup(r, i) == (if id != NULL_ID && i == id then None else Lookup(m, i))
    ensures id == NULL_ID ==> r == m
    ensures id != NULL_ID ==> r.Keys == m.Keys - {id}
  {
    if id == NULL_ID then m else m - {id}
  }

  /** Putting a node keeps every node filed under its own id. */
  lemma StoredKeepsIds<C>(m: map<int, Node<C>>, n: Node<C>)
    requires KeysMatchIds(m)
    ensures KeysMatchIds(Stored(m, n))
  {
  }

  /** Freeing keeps every node filed under its own id. */
  lemma FreedKeepsIds<C>(m: map<int, Node<C>>, id: int)
    requires KeysMatchIds(m)
    ensures KeysMatchIds(Freed(m, id))
  {
  }

  /** Putting the same node twice is the same as putting it once. */
  lemma StoredIdempotent<C>(m: map<int, Node<C>>, n: Node<C>)
    ensures Stored(Stored(m, n), n) == Stored(m, n)
  {
  }

  /** A later put under the same id overwrites the earlier one. */
  lemma StoredOverwrites<C>(m: map<int, Node<C>>, n1: Node<C>, n2: Node<C>)
    requires n1.id == n2.id
    ensures Stored(Stored(m, n1), n2) == Stored(m, n2)
  {
  }

  /** Freeing a node that was just put under a fresh, non-null id restores the table. */
  lemma FreedUndoesStored<C>(m: map<int, Node<C>>, n: Node<C>)
    requires n.id != NULL_ID && n.id !in m
    ensures Freed(Stored(m, n), n.id) == m
  {
  }

  /** Freeing the same id twice is the same as freeing it once. */
  lemma FreedIdempotent<C>(m: map<int, Node<C>>, id: int)
    ensures Freed(Freed(m, id), id) == Freed(m, id)
  {
  }
}
