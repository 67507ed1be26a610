// The index files of hw3 as byte images: big-endian fields, a cursor, and the
// layout that the hash tables in a file have in common.
module IndexFiles {
  import opened WordSpec

  // An unsigned field of n bytes in network order.
  function Unsigned(image: seq<Byte>, off: nat, n: nat): nat
    requires off + n <= |image|
  {
    if n == 0 then 0 else Unsigned(image, off, n - 1) * 256 + image[off + n - 1]
  }

  function Signed32(image: seq<Byte>, off: nat): int
    requires off + 4 <= |image|
  {
    var u := Unsigned(image, off, 4);
    if u < 0x8000_0000 then u else u - 0x1_0000_0000
  }

  function Signed16(image: seq<Byte>, off: nat): int
    requires off + 2 <= |image|
  {
    var u := Unsigned(image, off, 2);
    if u < 0x8000 then u else u - 0x1_0000
  }

  function At(image: seq<Byte>, off: nat): int
    requires off < |image|
  {
    image[off]
  }

  // The fields byte by byte, the most significant first.
  lemma FieldBytes(image: seq<Byte>, off: nat)
    ensures off + 2 <= |image| ==>
              Signed16(image, off) ==
              256 * At(image, off) + At(image, off + 1) - if At(image, off) < 128 then 0 else 0x1_0000
    ensures off + 4 <= |image| ==>
              Unsigned(image, off, 4) ==
              0x100_0000 * At(image, off) + 0x1_0000 * At(image, off + 1) +
              256 * At(image, off + 2) + At(image, off + 3)
    ensures off + 4 <= |image| ==>
              Signed32(image, off) == Unsigned(image, off, 4) - if At(image, off) < 128 then 0 else 0x1_0000_0000
    ensures off + 8 <= |image| ==>
              Unsigned(image, off, 8) == 0x1_0000_0000 * Unsigned(image, off, 4) + Unsigned(image, off + 4, 4)
  {
    if off + 2 <= |image| {
      TwoBytes(image, off);
    }
    if off + 4 <= |image| {
      FourBytes(image, off);
    }
    if off + 8 <= |image| {
      FourBytes(image, off);
      FourBytes(image, off + 4);
      EightBytes(image, off);
    }
  }

  lemma TwoBytes(image: seq<Byte>, off: nat)
    requires off + 2 <= |image|
    ensures Unsigned(image, off, 2) == 256 * At(image, off) + At(image, off + 1)
  {
    assert Unsigned(image, off, 1) == At(image, off);
  }

  lemma FourBytes(image: seq<Byte>, off: nat)
    requires off + 4 <= |image|
    ensures Unsigned(image, off, 4) ==
            0x100_0000 * At(image, off) + 0x1_0000 * At(image, off + 1) + 256 * At(image, off + 2) + At(image, off + 3)
  {
    TwoBytes(image, off);
    assert Unsigned(image, off, 3) == Unsigned(image, off, 2) * 256 + At(image, off + 2);
  }

  lemma EightBytes(image: seq<Byte>, off: nat)
    requires off + 8 <= |image|
    ensures Unsigned(image, off, 8) ==
            0x1_0000_0000 * Unsigned(image, off, 4) +
            0x100_0000 * At(image, off + 4) + 0x1_0000 * At(image, off + 5) +
            256 * At(image, off + 6) + At(image, off + 7)
  {
    assert Unsigned(image, off, 5) == Unsigned(image, off, 4) * 256 + At(image, off + 4);
    assert Unsigned(image, off, 6) == Unsigned(image, off, 5) * 256 + At(image, off + 5);
    assert Unsigned(image, off, 7) == Unsigned(image, off, 6) * 256 + At(image, off + 6);
  }

  // A FILE* with its position; reads stay inside the image.
  class File {
    const image: seq<Byte>
    var pos: nat

    constructor (image: seq<Byte>)
      ensures this.image == image && pos == 0
    {
      this.image := image;
      pos := 0;
    }

    method Seek(offset: nat)
      modifies this
      ensures pos == offset
    {
      pos := offset;
    }

    method Read32() returns (v: int)
      requires pos + 4 <= |image|
      modifies this
      ensures v == Signed32(image, old(pos)) && pos == old(pos) + 4
      ensures var a, b := At(image, old(pos)), At(image, old(pos) + 1);
              var c, d := At(image, old(pos) + 2), At(image, old(pos) + 3);
              v == 0x100_0000 * a + 0x1_0000 * b + 256 * c + d - if a < 128 then 0 else 0x1_0000_0000
    {
      FieldBytes(image, pos);
      v := Signed32(image, pos);
      pos := pos + 4;
    }

    method Read16() returns (v: int)
      requires pos + 2 <= |image|
      modifies this
      ensures v == Signed16(image, old(pos)) && pos == old(pos) + 2
      ensures var a, b := At(image, old(pos)), At(image, old(pos) + 1);
              v == 256 * a + b - if a < 128 then 0 else 0x1_0000
    {
      FieldBytes(image, pos);
      v := Signed16(image, pos);
      pos := pos + 2;
    }

    method ReadUnsigned(n: nat) returns (v: nat)
      requires pos + n <= |image|
      modifies this
      ensures v == Unsigned(image, old(pos), n) && pos == old(pos) + n
    {
      v := Unsigned(image, pos, n);
      pos := pos + n;
    }

    method Read8() returns (v: Byte)
      requires pos < |image|
      modifies this
      ensures v == image[old(pos)] && pos == old(pos) + 1
    {
      v := image[pos];
      pos := pos + 1;
    }
  }

  // --- The layout of a hash table: its header, a record for each bucket with
  // chain length and position, and for each chain the positions of its elements.

  function NumBuckets(image: seq<Byte>, off: nat): int
    requires off + 4 <= |image|
  {
    Signed32(image, off)
  }

  function RecordAt(off: nat, b: nat): nat {
    off + 4 + 8 * b
  }

  function ChainLength(image: seq<Byte>, off: nat, b: nat): int
    requires RecordAt(off, b) + 8 <= |image|
  {
    Signed32(image, RecordAt(off, b))
  }

  function ChainPosition(image: seq<Byte>, off: nat, b: nat): int
    requires RecordAt(off, b) + 8 <= |image|
  {
    Signed32(image, RecordAt(off, b) + 4)
  }

  // The header and all bucket records are there, and so are all chains.
  ghost predicate Readable(image: seq<Byte>, off: nat) {
    && off + 4 <= |image|
    && 0 < NumBuckets(image, off)
    && RecordAt(off, NumBuckets(image, off)) <= |image|
    && forall b | 0 <= b < NumBuckets(image, off) :: ReadableChain(image, off, b)
  }

  ghost predicate ReadableChain(image: seq<Byte>, off: nat, b: nat) {
    && RecordAt(off, b) + 8 <= |image|
    && 0 <= ChainLength(image, off, b)
    && 0 <= ChainPosition(image, off, b)
    && ChainPosition(image, off, b) + 4 * ChainLength(image, off, b) <= |image|
    && forall j | 0 <= j < ChainLength(image, off, b) :: 0 <= ElementAt(image, off, b, j)
  }

  // Where element j of chain b is.
  function ElementAt(image: seq<Byte>, off: nat, b: nat, j: nat): int
    requires RecordAt(off, b) + 8 <= |image|
    requires 0 <= ChainPosition(image, off, b)
    requires ChainPosition(image, off, b) + 4 * (j + 1) <= |image|
  {
    Signed32(image, ChainPosition(image, off, b) + 4 * j)
  }

  // The positions of all elements of chain b.
  function Chain(image: seq<Byte>, off: nat, b: nat): (c: seq<nat>)
    requires Readable(image, off) && b < NumBuckets(image, off)
    ensures |c| == ChainLength(image, off, b)
  {
    assert ReadableChain(image, off, b);
    seq(ChainLength(image, off, b), j requires 0 <= j < ChainLength(image, off, b) && ReadableChain(image, off, b) =>
      ElementAt(image, off, b, j))
  }

  const BUCKET_LIST_HEADER := 4
  const BUCKET_RECORD := 8
  const ELEMENT_POSITION_RECORD := 4

  class HashTableReader {
    const file: File
    const offset: nat
    const numBuckets: int

    ghost predicate Valid()
      ensures Valid() ==> 0 < numBuckets
    {
      Readable(file.image, offset) && numBuckets == NumBuckets(file.image, offset)
    }

    constructor (file: File, offset: nat)
      requires Readable(file.image, offset)
      modifies file
      ensures Valid() && this.file == file && this.offset == offset
    {
      this.file := file;
      this.offset := offset;
      file.Seek(offset);
      var n := file.Read32();
      numBuckets := n;
    }

    // The next n bytes, one at a time.
    method ReadChars(n: nat) returns (ss: seq<Byte>)
      requires file.pos + n <= |file.image|
      modifies file
      ensures ss == file.image[old(file.pos)..old(file.pos) + n] && file.pos == old(file.pos) + n
    {
      ss := [];
      for i := 0 to n
        invariant file.pos == old(file.pos) + i
        invariant ss == file.image[old(file.pos)..old(file.pos) + i]
      {
        var nextChar := file.Read8();
        ss := ss + [nextChar];
      }
    }

    // What the record of bucket b says.
    ghost predicate IsBucketRecord(b: nat, chainNumElements: int, position: int)
      requires Valid() && b < numBuckets
    {
      assert ReadableChain(file.image, offset, b);
      chainNumElements == ChainLength(file.image, offset, b) && position == ChainPosition(file.image, offset, b)
    }

    method ReadBucketRecord(b: nat) returns (chainNumElements: nat, position: nat)
      requires Valid() && b < numBuckets
      modifies file
      ensures IsBucketRecord(b, chainNumElements, position)
      ensures chainNumElements == |Chain(file.image, offset, b)|
    {
      assert ReadableChain(file.image, offset, b);
      file.Seek(offset + BUCKET_LIST_HEADER + BUCKET_RECORD * b);
      var n := file.Read32();
      var p := file.Read32();
      return n, p;
    }

    // The position of element j of bucket b, when the record of b has been read.
    method ReadElementPosition(b: nat, position: nat, j: nat) returns (elementPos: nat)
      requires Valid() && b < numBuckets && IsBucketRecord(b, |Chain(file.image, offset, b)|, position)
      requires j < |Chain(file.image, offset, b)|
      modifies file
      ensures elementPos == Chain(file.image, offset, b)[j]
    {
      hide Signed32;
      assert ReadableChain(file.image, offset, b);
      file.Seek(position + j * ELEMENT_POSITION_RECORD);
      var p := file.Read32();
      assert p == ElementAt(file.image, offset, b, j);
      return p;
    }

    // The positions of the elements in the bucket that hashKey selects.
    method LookupElementPositions(hashKey: nat) returns (retval: seq<nat>)
      requires Valid()
      modifies file
      ensures retval == Chain(file.image, offset, hashKey % numBuckets)
    {
      var bucketNum := hashKey % numBuckets;
      assert ReadableChain(file.image, offset, bucketNum);
      file.Seek(offset + BUCKET_LIST_HEADER + BUCKET_RECORD * bucketNum);
      var chainNumElements := file.Read32();
      var position := file.Read32();
      retval := [];
      file.Seek(position);
      for i := 0 to chainNumElements
        invariant file.pos == position + ELEMENT_POSITION_RECORD * i && |retval| == i
        invariant forall j | 0 <= j < i :: retval[j] == ElementAt(file.image, offset, bucketNum, j)
      {
        var pos := file.Read32();
        assert pos == ElementAt(file.image, offset, bucketNum, i);
        retval := retval + [pos];
      }
    }
  }
}
