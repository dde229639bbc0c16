/**
 * The in-memory node store of the B+Tree: an id-issuing counter, a table
 * from node id to node, and the tree's validity flag, updated in place.
 */
module BtreeMemory {
  import opened JavaInt
  import opened NodeStore

  class BplusTreeMemory<C> {
    /** The nodes currently stored, keyed by id (an `IntHashMap` in the source). */
    var storeNodes: map<int, Node<C>>
    /** The last id magnitude handed out; 0 before the first allocation. */
    var maxNodeID: int
    /** True while the tree is known to be internally consistent. */
    var validState: bool
    /** Every id allocated since the counter was last reset. */
    ghost var issued: set<int>

    ghost predicate Valid()
      reads this
    {
      && 0 <= maxNodeID <= INT32_MAX
      && KeysMatchIds(storeNodes)
      && (forall id :: id in issued ==> id != NULL_ID && Abs(id) <= maxNodeID)
    }

    /** A new tree starts with an empty table and, through ClearStates, a reset counter. */
    constructor ()
      ensures Valid()
      ensures storeNodes == map[] && maxNodeID == 0 && validState && issued == {}
    {
      storeNodes := map[];
      maxNodeID := 0;
      validState := false;
      issued := {};
      new;
      ClearStates();
    }

    /** The current value of the allocation counter. */
    method GetHighestNodeId() returns (highest: int)
      requires Valid()
      ensures highest == maxNodeID
      ensures forall id :: id in issued ==> Abs(id) <= highest
    {
      highest := maxNodeID;
    }

    /**
     * Issues a fresh id: the counter goes up by one and the id is its new
     * value, positive for a leaf and negated for an internal node. The
     * table is not touched.
     */
    method AllocNode(isLeaf: bool) returns (id: int)
      requires Valid()
      requires maxNodeID < INT32_MAX
      modifies this
      ensures Valid()
      ensures maxNodeID == old(maxNodeID) + 1
      ensures id == AllocId(old(maxNodeID), isLeaf)
      ensures id != NULL_ID && (IsLeafId(id) <==> isLeaf) && (IsInternalId(id) <==> !isLeaf)
      ensures Abs(id) == maxNodeID
      ensures id !in old(issued) && issued == old(issued) + {id}
      ensures storeNodes == old(storeNodes) && validState == old(validState)
    {
      maxNodeID := maxNodeID + 1;
      id := if isLeaf then maxNodeID else -maxNodeID;
      issued := issued + {id};
    }

    /** The node stored under `nodeid`, or None when there is none. */
    method GetNode(nodeid: int) returns (r: Option<Node<C>>)
      requires Valid()
      ensures r.Some? <==> nodeid in storeNodes
      ensures r.Some? ==> r.value == storeNodes[nodeid] && r.value.id == nodeid
    {
      r := if nodeid in storeNodes then Some(storeNodes[nodeid]) else None;
    }

    /** Files `node` under its own id, replacing whatever was stored there. */
    method PutNode(node: Node<C>)
      requires Valid()
      modifies this
      ensures Valid()
      ensures storeNodes == Stored(old(storeNodes), node)
      ensures Lookup(storeNodes, node.id) == Some(node)
      ensures forall id :: id != node.id ==> Lookup(storeNodes, id) == Lookup(old(storeNodes), id)
      ensures maxNodeID == old(maxNodeID) && validState == old(validState) && issued == old(issued)
    {
      storeNodes := storeNodes[node.id := node];
    }

    /**
     * Removes `node` from the table. The null id is refused: the store is
     * left exactly as it was (the source only reports it on the console).
     */
    method FreeNode(node: Node<C>)
      requires Valid()
      modifies this
      ensures Valid()
      ensures storeNodes == Freed(old(storeNodes), node.id)
      ensures node.id == NULL_ID ==> storeNodes == old(storeNodes)
      ensures node.id != NULL_ID ==> node.id !in storeNodes
      ensures forall id :: id != node.id ==> Lookup(storeNodes, id) == Lookup(old(storeNodes), id)
      ensures maxNodeID == old(maxNodeID) && validState == old(validState) && issued == old(issued)
    {
      if node.id == NULL_ID {
        return;
      }
      storeNodes := storeNodes - {node.id};
    }

    /** Releasing backend resources is a no-op for the memory store. */
    method ReleaseNodes()
      requires Valid()
      ensures unchanged(this)
    {
    }

    /** Drops every stored node and reports success; the counter is kept. */
    method ClearStorage() returns (ok: bool)
      requires Valid()
      modifies this
      ensures Valid()
      ensures ok && storeNodes == map[]
      ensures maxNodeID == old(maxNodeID) && validState == old(validState) && issued == old(issued)
    {
      storeNodes := map[];
      ok := true;
    }

    /** Resets the allocation counter and marks the tree valid again. */
    method ClearStates()
      requires Valid()
      modifies this
      ensures Valid()
      ensures maxNodeID == 0 && validState && issued == {}
      ensures storeNodes == old(storeNodes)
    {
      maxNodeID := 0;
      issued := {};
      validState := true;
    }
  }
}
