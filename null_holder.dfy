/**
 * The holder for the null value: the trivial instance of the key/value
 * entry contract (byte length, serialization, ordering, equality, hash).
 * It carries no data, so every instance stands for the same value.
 */
module Holders {

  /** The null value; the unit type has exactly one element. */
  datatype NullHolder = NullHolder

  /** The shared singleton. */
  const NULL: NullHolder := NullHolder

  /** What `equals(Object)` may be handed: Java's null, a NullHolder, or an object of another class. */
  datatype JavaObject = JavaNull | NullHolderRef(holder: NullHolder) | OtherRef(className: string)

  function Sign(x: int): int {
    if x < 0 then -1 else if x == 0 then 0 else 1
  }

  /** `valueOf()`: always the singleton. */
  function ValueOf(): (r: NullHolder)
    ensures r == NULL
  {
    NULL
  }

  function ToString(h: NullHolder): (s: string)
    ensures s == "null"
  {
    "null"
  }

  /** `hashCode()`: the same constant for every instance. */
  function HashCode(h: NullHolder): (r: int)
    ensures r == 0
  {
    0
  }

  /** `compareTo(another)`: every pair of null values is tied. */
  function CompareTo(h: NullHolder, another: NullHolder): (r: int)
    ensures r == 0
  {
    0
  }

  /**
   * `equals(obj)`: true exactly for another NullHolder, which is also exactly
   * when compareTo reports the two as tied.
   */
  function Equals(h: NullHolder, obj: JavaObject): (r: bool)
    ensures r <==> obj.NullHolderRef? && CompareTo(h, obj.holder) == 0
    ensures obj.JavaNull? || obj.OtherRef? ==> !r
  {
    obj.NullHolderRef?
  }

  /** `byteLength()`: the null value is encoded in no bytes at all. */
  function ByteLength(h: NullHolder): (r: nat)
    ensures r == 0
  {
    0
  }

  /**
   * Appends the encoding of `h` to `out`: what was written before is kept
   * and exactly ByteLength(h) bytes are added, which for the null value is
   * none at all.
   */
  function Serialize(h: NullHolder, out: seq<bv8>): (r: seq<bv8>)
    ensures |r| == |out| + ByteLength(h)
    ensures r[..|out|] == out
    ensures r == out
  {
    out
  }

  /**
   * Reads a value from the front of `input`, returning it with the input
   * that remains. Whatever the buffer holds, the result is the singleton
   * and nothing is consumed.
   */
  function Deserialize(h: NullHolder, input: seq<bv8>): (r: (NullHolder, seq<bv8>))
    ensures r.0 == ValueOf()
    ensures |input| - |r.1| == ByteLength(r.0)
    ensures r.1 == input
  {
    (ValueOf(), input)
  }

  /** Reading back what was written yields an equal value and leaves the following bytes unread. */
  lemma SerializeRoundTrip(h: NullHolder, reader: NullHolder, rest: seq<bv8>)
    ensures Deserialize(reader, Serialize(h, []) + rest) == (h, rest)
    ensures Equals(Deserialize(reader, Serialize(h, []) + rest).0, NullHolderRef(h))
  {
    assert Serialize(h, []) + rest == rest;
  }

  /** Serializing into a buffer that already holds data writes nothing into it. */
  lemma SerializeWritesNothing(h: NullHolder, out: seq<bv8>)
    ensures ByteLength(h) == 0
    ensures |Serialize(h, out)| - |out| == ByteLength(h)
  {
  }

  /**
   * compareTo is a total preorder in which every pair is tied: reflexive,
   * antisymmetric in sign, transitive, and it never orders one value below
   * another.
   */
  lemma CompareToIsTotalPreorder()
    ensures forall a :: CompareTo(a, a) == 0
    ensures forall a, b :: Sign(CompareTo(a, b)) == -Sign(CompareTo(b, a))
    ensures forall a, b, c :: CompareTo(a, b) <= 0 && CompareTo(b, c) <= 0 ==> CompareTo(a, c) <= 0
    ensures forall a, b :: CompareTo(a, b) == 0
  {
  }

  /** equals is an equivalence on NullHolders and agrees with compareTo in both directions. */
  lemma EqualsAgreesWithCompareTo(a: NullHolder, b: NullHolder, c: NullHolder)
    ensures Equals(a, NullHolderRef(a))
    ensures Equals(a, NullHolderRef(b)) <==> Equals(b, NullHolderRef(a))
    ensures Equals(a, NullHolderRef(b)) && Equals(b, NullHolderRef(c)) ==> Equals(a, NullHolderRef(c))
    ensures Equals(a, NullHolderRef(b)) <==> CompareTo(a, b) == 0
  {
  }

  /** The hash is the constant 0, so values that are equal have equal hashes. */
  lemma HashCodeAgreesWithEquals(a: NullHolder, obj: JavaObject)
    ensures HashCode(a) == 0
    ensures Equals(a, obj) ==> HashCode(a) == HashCode(obj.holder)
  {
  }

  /**
   * Every instance equals the singleton returned by `valueOf()`, and
   * deserialization returns that singleton.
   */
  lemma ValueOfIsSingleton(h: NullHolder, input: seq<bv8>)
    ensures ValueOf() == NULL && h == NULL
    ensures Equals(h, NullHolderRef(ValueOf())) && Equals(ValueOf(), NullHolderRef(h))
    ensures Deserialize(h, input).0 == ValueOf()
  {
  }
}
