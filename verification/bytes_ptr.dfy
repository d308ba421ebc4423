/**
 Table names. The factory is handed an ImmutableBytesPtr: a window
 `[offset, offset + length)` onto a byte buffer. Two pointers denote the same
 table exactly when the bytes inside their windows are equal, whatever the
 buffers around them hold; the cache is keyed by those bytes.
 */
module BytesPtrs {

  /** The bytes of a table name, the value the cache compares. */
  type Name = seq<bv8>

  datatype BytesPtr = BytesPtr(buf: seq<bv8>, offset: nat, length: nat) {

    /** The window lies inside the buffer. */
    predicate Valid() {
      offset + length <= |buf|
    }

    /** The bytes the pointer denotes: a copy of its window. */
    function Key(): (k: Name)
      requires Valid()
      ensures |k| == length
      ensures forall i :: 0 <= i < length ==> k[i] == buf[offset + i]
    {
      buf[offset..offset + length]
    }
  }
}
