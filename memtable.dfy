/**
 * The memtable of the storage layer: an in-memory inverted index and vector
 * index that documents are written to until the storage rotates to a fresh
 * one. The two encoders are not part of this model, so the length of the
 * memtable's combined encoding is a field, and each Insert is given the
 * length the encoding has once the document is in.
 */
module Memtables {
  import opened Bytes

  class Memtable {
    /** The encoded size recorded by the last Insert; 0 for a new memtable. */
    var sizeUsed: nat
    const sizeLimit: int
    /** The current length of the inverted index's encoding plus the vector index's. */
    var encodedSize: nat
    /** The documents indexed into this memtable, oldest first. */
    ghost var docs: seq<(int, seq<byte>)>

    /**
     * NewMemtable: nothing used yet under the given limit. emptySize is the
     * length of the encoding of the two empty indices.
     */
    constructor (sizeLimit: int, emptySize: nat)
      ensures this.sizeLimit == sizeLimit && sizeUsed == 0
      ensures encodedSize == emptySize && docs == []
    {
      this.sizeLimit := sizeLimit;
      sizeUsed := 0;
      encodedSize := emptySize;
      docs := [];
    }

    /**
     * HasRoomForWrite: the current encoding plus the data fits in what the
     * limit leaves once the recorded size is taken off.
     */
    predicate HasRoomForWrite(data: seq<byte>)
      reads this
    {
      encodedSize + |data| <= sizeLimit - sizeUsed
    }

    /** Size: the recorded size. */
    function Size(): int
      reads this
    {
      sizeUsed
    }

    /**
     * Insert: the document goes into both indices (newSize is the length
     * of their encoding afterwards) and the recorded size becomes that
     * length, replacing the previous one rather than adding to it. Since
     * the encoding is then counted both as the current encoding and as the
     * recorded size, the room left for data afterwards is the limit less
     * twice the size.
     */
    method Insert(docID: int, document: seq<byte>, newSize: nat)
      modifies this
      ensures docs == old(docs) + [(docID, document)]
      ensures encodedSize == newSize && sizeUsed == newSize
      ensures forall data: seq<byte> :: HasRoomForWrite(data) <==> 2 * Size() + |data| <= sizeLimit
    {
      docs := docs + [(docID, document)];
      encodedSize := newSize;
      sizeUsed := encodedSize;
    }
  }
}
