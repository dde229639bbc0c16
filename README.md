# In-memory B+Tree node store and null value holder

This project models two small pieces of the `kvstore` B+Tree. Both are used by the tree engine.

- **`BplusTreeMemory`** is the in-memory node store. It keeps an id-issuing counter (`maxNodeID`), a table from node id to node (`storeNodes`) and the tree's `validState` flag. Node ids carry the node kind in their sign: positive for a leaf, negative for an internal node. The id `0` (`NULL_ID`) means "no node". `allocNode` only moves the counter. `getNode`, `putNode` and `freeNode` work on the table directly. Freeing the null id is refused and leaves the table as it was. `clearStorage` empties the table. `clearStates` resets the counter and marks the tree valid.
- **`NullHolder`** is the null value of the key/value entry contract. Its encoded length is zero bytes. Serializing it writes nothing. Deserializing it returns the singleton whatever the buffer holds. Every comparison is a tie. It equals every other `NullHolder`, and its hash is 0.

Modules:

- `JavaInt` (`java_int.dfy`): Java's 32-bit `int` range and its two's-complement wrap-around.
- `NodeStore` (`node_store.dfy`): the store contract stated on values. It covers the signed id scheme, allocation, a run of allocations, and the table operations as functions on `map<int, Node<C>>`, with lemmas about them.
- `BtreeMemory` (`bplus_tree_memory.dfy`): the class `BplusTreeMemory`. It has the three fields of the source and a ghost set `issued` of the ids allocated since the last counter reset. The methods that change the store (`AllocNode`, `PutNode`, `FreeNode`, `ClearStorage`, `ClearStates`) are declared `modifies this` and state the whole new state. `PutNode` and `FreeNode` state the new table through the `NodeStore` functions `Stored` and `Freed`, and `AllocNode` states the new id through `AllocId`. `ClearStorage` and `ClearStates` state their new fields directly. `GetHighestNodeId`, `GetNode` and `ReleaseNodes` change nothing.
- `Holders` (`null_holder.dfy`): `NullHolder` as a one-value datatype, with functions and lemmas. The argument of `equals(Object)` is a `JavaObject`: Java's null, a `NullHolder`, or an object of another class. A byte buffer is a `seq<bv8>`. Serializing appends to the bytes already written. Deserializing returns the value together with the input that remains.

## Model

| member | source | states |
|---|---|---|
| JavaInt.Wrap32 | src/main/java/org/infra/structures/btree/BplusTreeMemory.java:62 | the Java `int` result of an exact value is in range, congruent to it modulo 2^32, and equal to it when it was already in range |
| NodeStore.AllocId | src/main/java/org/infra/structures/btree/BplusTreeMemory.java:60-64 | an issued id is never the null id; it is positive exactly for a leaf and negative exactly for an internal node; its magnitude is the counter's next value |
| NodeStore.JavaAllocNode | src/main/java/org/infra/structures/btree/BplusTreeMemory.java:60-64 | allocation as Java computes it on 32-bit `int`: the counter and id stay in range; a leaf's id equals the new counter; an internal id is its negation modulo 2^32 |
| NodeStore.JavaAllocNodeInRange | src/main/java/org/infra/structures/btree/BplusTreeMemory.java:60-64 | while the counter is below the `int` maximum, Java's allocation agrees with AllocId and raises the counter by one |
| NodeStore.JavaAllocNodeOverflow | src/main/java/org/infra/structures/btree/BplusTreeMemory.java:62-63 | at counter 2147483647 a leaf receives the negative id -2147483648, the same id an internal node would get, and the counter wraps to the minimum |
| NodeStore.IssuedIds | src/main/java/org/infra/structures/btree/BplusTreeMemory.java:60-64 | a run of allocations returns one id per requested kind |
| NodeStore.IssuedIdAt | src/main/java/org/infra/structures/btree/BplusTreeMemory.java:62-63 | the i-th id of a run has magnitude counter + i + 1 and the sign of the i-th requested kind |
| NodeStore.IssuedIdsFresh | src/main/java/org/infra/structures/btree/BplusTreeMemory.java:62 | the ids of a run are never null, exceed the starting counter in magnitude, grow strictly in magnitude, and are pairwise distinct |
| NodeStore.Lookup | src/main/java/org/infra/structures/btree/BplusTreeMemory.java:66-70 | a lookup finds a node exactly when the id is in the table, and then it is the node filed there |
| NodeStore.Stored | src/main/java/org/infra/structures/btree/BplusTreeMemory.java:72-75 | after a put, a lookup of the node's id gives the node, and every other id looks up as before |
| NodeStore.Freed | src/main/java/org/infra/structures/btree/BplusTreeMemory.java:77-86 | freeing the null id leaves the table equal to before; freeing any other id removes exactly that id and keeps every other entry |
| NodeStore.StoredKeepsIds | src/main/java/org/infra/structures/btree/BplusTreeMemory.java:72-75 | a put keeps every node filed under its own id |
| NodeStore.FreedKeepsIds | src/main/java/org/infra/structures/btree/BplusTreeMemory.java:77-86 | a free keeps every node filed under its own id |
| NodeStore.StoredIdempotent | src/main/java/org/infra/structures/btree/BplusTreeMemory.java:72-75 | putting the same node twice gives the same table as putting it once |
| NodeStore.StoredOverwrites | src/main/java/org/infra/structures/btree/BplusTreeMemory.java:72-75 | a later put under the same id replaces the earlier node |
| NodeStore.FreedUndoesStored | src/main/java/org/infra/structures/btree/BplusTreeMemory.java:72-86 | freeing a node just put under a fresh non-null id gives back the original table |
| NodeStore.FreedIdempotent | src/main/java/org/infra/structures/btree/BplusTreeMemory.java:77-86 | freeing the same id twice gives the same table as freeing it once |
| BtreeMemory.BplusTreeMemory.constructor | src/main/java/org/infra/structures/btree/BplusTreeMemory.java:49-53 | a new store is marked valid; before the tree engine allocates and stores its root, the table is empty, the counter is zero and no ids are issued |
| BtreeMemory.BplusTreeMemory.GetHighestNodeId | src/main/java/org/infra/structures/btree/BplusTreeMemory.java:55-58 | returns the counter, which bounds the magnitude of every id issued since the last reset |
| BtreeMemory.BplusTreeMemory.AllocNode | src/main/java/org/infra/structures/btree/BplusTreeMemory.java:60-64 | the counter rises by exactly one; the id is non-null and signed by kind; its magnitude equals the new counter; it was never issued since the last reset; the table and the flag are untouched |
| BtreeMemory.BplusTreeMemory.GetNode | src/main/java/org/infra/structures/btree/BplusTreeMemory.java:66-70 | finds a node exactly when the id is stored, and the node found carries that id |
| BtreeMemory.BplusTreeMemory.PutNode | src/main/java/org/infra/structures/btree/BplusTreeMemory.java:72-75 | afterwards the node's id looks up to the node; every other id looks up as before; the counter and the flag are untouched |
| BtreeMemory.BplusTreeMemory.FreeNode | src/main/java/org/infra/structures/btree/BplusTreeMemory.java:77-86 | the null id leaves the table unchanged; any other id is removed and every other entry kept; the counter and the flag are untouched |
| BtreeMemory.BplusTreeMemory.ReleaseNodes | src/main/java/org/infra/structures/btree/BplusTreeMemory.java:88-91 | changes nothing |
| BtreeMemory.BplusTreeMemory.ClearStorage | src/main/java/org/infra/structures/btree/BplusTreeMemory.java:93-97 | returns true and leaves the table empty; the counter is kept |
| BtreeMemory.BplusTreeMemory.ClearStates | src/main/java/org/infra/structures/btree/BplusTreeMemory.java:99-107 | the counter is back at 0, the tree is marked valid, and the table is untouched |
| Holders.ValueOf | src/main/java/org/kvstore/holders/NullHolder.java:24-28 | always returns the singleton NULL |
| Holders.ToString | src/main/java/org/kvstore/holders/NullHolder.java:37-39 | renders as the text `null` |
| Holders.Equals | src/main/java/org/kvstore/holders/NullHolder.java:47-52 | true exactly for another NullHolder, which is exactly when compareTo ties the two; false for Java null and for other classes |
| Holders.Serialize | src/main/java/org/kvstore/holders/NullHolder.java:64-65 | keeps what was written before and adds exactly ByteLength bytes, which is none |
| Holders.Deserialize | src/main/java/org/kvstore/holders/NullHolder.java:66-68 | returns the singleton whatever the input holds, and consumes exactly ByteLength bytes, which is none |
| Holders.HashCode | src/main/java/org/kvstore/holders/NullHolder.java:41-43 | the hash of every null value is 0 |
| Holders.CompareTo | src/main/java/org/kvstore/holders/NullHolder.java:54-56 | every comparison of two null values is a tie (0) |
| Holders.ByteLength | src/main/java/org/kvstore/holders/NullHolder.java:60-62 | the encoded length of the null value is 0 bytes |
| Holders.SerializeRoundTrip | src/main/java/org/kvstore/holders/NullHolder.java:64-68 | reading back what was written gives a value equal to the original and leaves the following bytes unread |
| Holders.SerializeWritesNothing | src/main/java/org/kvstore/holders/NullHolder.java:60-65 | byteLength is 0, and it is the number of bytes serialize adds |
| Holders.CompareToIsTotalPreorder | src/main/java/org/kvstore/holders/NullHolder.java:54-56 | compareTo is reflexive, antisymmetric in sign and transitive, and ties every pair |
| Holders.EqualsAgreesWithCompareTo | src/main/java/org/kvstore/holders/NullHolder.java:47-56 | equals is reflexive, symmetric and transitive on NullHolders, and holds exactly when compareTo is 0 |
| Holders.HashCodeAgreesWithEquals | src/main/java/org/kvstore/holders/NullHolder.java:41-52 | the hash is 0, so equal values have equal hashes |
| Holders.ValueOfIsSingleton | src/main/java/org/kvstore/holders/NullHolder.java:24-33 | every instance equals the singleton returned by valueOf, and deserialize returns that singleton |

## Left out

- BtreeMemory.BplusTreeMemory.AllocNode: requires the counter to be below 2147483647. This is the corrected behaviour; the Java code wraps around there (see Findings, modelled by `NodeStore.JavaAllocNode`).
- BtreeMemory.BplusTreeMemory.ClearStates: does not model the root reset done by the superclass's `clearStates` (line 104). The tree engine (`BplusTree`: search, insert and split, delete and merge, order tuning, the root node) is not part of this model. If that reset allocates and stores a root, the real counter and table move past what this contract states.
- BtreeMemory.BplusTreeMemory.FreeNode: does not model `node.clear()` (line 84). The `Node` class is not part of this model, so node contents are opaque apart from the id. The console message for a null id (line 81) is output only; the error path is modelled as "store unchanged".
- BtreeMemory.BplusTreeMemory.constructor: does not model the root reset that construction runs through `clearStates` and the superclass (line 51, line 104). The ensures `storeNodes == map[] && maxNodeID == 0 && issued == {}` describe the store before the tree engine allocates and stores its root. The real store most likely ends construction with the root in the table and a counter of at least 1. The order parameters (`autoTune`, `b_size`) and the key and value classes go to the superclass. Reflection-based instantiation and its checked exceptions are not modelled. The console message on line 52 is output only.
- The `IntHashMap` container (line 32) is modelled as a Dafny `map<int, Node<C>>`. Its hashing and resizing are not modelled.
- Nodes are stored as values, not as references. The Java table holds node objects (line 74). A change made in place to a node after `putNode` is therefore visible through `getNode` without another put. The model's table keeps the node as it was put. Node contents are opaque here, so no contract depends on this.
- The object is modelled as single-threaded. The thread-safety claim (line 22) is not modelled.
- `validState` lives in the superclass. Only the assignment in `clearStates` is modelled; the engine's use of the flag is not.
- Holders.ValueOf and Holders.ValueOfIsSingleton: Java object identity is not modelled. `NullHolder` is a one-value datatype, so "the same instance" is value equality. The public constructor (line 33) makes a value equal to the singleton.
- Holders.Serialize and Holders.Deserialize: the `ByteBuffer` position and limit mechanics are not modelled. The buffer is a byte sequence: written bytes are appended, and the unread input is returned.

## Findings

| source | as written | input that shows it | evidently intended | confidence | as-written member | corrected member |
|---|---|---|---|---|---|---|
| src/main/java/org/infra/structures/btree/BplusTreeMemory.java:62-63 | `++maxNodeID` on a 32-bit `int` wraps from 2147483647 to -2147483648, and negating -2147483648 gives -2147483648 again | counter at 2147483647, then `allocNode(true)` returns -2147483648 (a negative id, which names an internal node) and `allocNode(false)` returns the same id | leaf ids stay positive and internal ids negative, and no id is issued twice; the id space is bounded by the `int` maximum | low: needs 2^31 allocations without a reset; not executed | NodeStore.JavaAllocNodeOverflow | NodeStore.AllocId |
