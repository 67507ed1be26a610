// The readers of hw3 on well-formed images: the docID table of a word, the
// index of words, and the table of documents.
module TableReaders {
  import opened WordSpec
  import opened IndexFiles
  import opened StoredTables
  import Fnv

  const WORD_POSTINGS_HEADER := 6

  // --- DocIDTableReader ---

  datatype DocIDElementHeader = DocIDElementHeader(docID: nat, numPositions: nat)

  // The element at e and all its positions are inside the image.
  predicate IsDocIDElement(image: seq<Byte>, e: nat) {
    && e + 12 <= |image|
    && 0 <= Signed32(image, e + 8)
    && e + 12 + 4 * Signed32(image, e + 8) <= |image|
  }

  function PositionAt(image: seq<Byte>, e: nat, i: nat): nat
    requires e + 12 + 4 * (i + 1) <= |image|
  {
    Unsigned(image, e + 12 + 4 * i, 4)
  }

  function PositionsAt(image: seq<Byte>, e: nat): (ps: seq<nat>)
    requires IsDocIDElement(image, e)
    ensures |ps| == Signed32(image, e + 8)
    ensures forall i | 0 <= i < |ps| :: ps[i] == PositionAt(image, e, i)
  {
    seq(Signed32(image, e + 8), i requires 0 <= i < Signed32(image, e + 8) => PositionAt(image, e, i))
  }

  function DocIDElementAt(image: seq<Byte>, e: nat): Entry<nat, seq<nat>>
    requires IsDocIDElement(image, e)
  {
    Entry(Unsigned(image, e, 8), PositionsAt(image, e))
  }

  ghost predicate AreDocIDElements(image: seq<Byte>, chain: seq<nat>) {
    forall j | 0 <= j < |chain| :: IsDocIDElement(image, chain[j])
  }

  function DocIDBucket(image: seq<Byte>, chain: seq<nat>): (es: seq<Entry<nat, seq<nat>>>)
    requires AreDocIDElements(image, chain)
    ensures |es| == |chain|
    ensures forall j | 0 <= j < |es| :: es[j] == DocIDElementAt(image, chain[j])
  {
    seq(|chain|, j requires 0 <= j < |chain| => DocIDElementAt(image, chain[j]))
  }

  ghost predicate HasDocIDElements(image: seq<Byte>, off: nat) {
    Readable(image, off) && forall b: nat | b < NumBuckets(image, off) :: AreDocIDElements(image, Chain(image, off, b))
  }

  // The buckets of the docID table at off.
  ghost function DocIDBuckets(image: seq<Byte>, off: nat): (t: Buckets<nat, seq<nat>>)
    requires HasDocIDElements(image, off)
    ensures |t| == NumBuckets(image, off)
    ensures forall b: nat | b < |t| :: t[b] == DocIDBucket(image, Chain(image, off, b))
  {
    seq(NumBuckets(image, off), b requires 0 <= b < NumBuckets(image, off) && HasDocIDElements(image, off) =>
      DocIDBucket(image, Chain(image, off, b)))
  }

  // The docID is its own hash.
  function DocIDHash(docID: nat): nat {
    docID
  }

  ghost predicate IsDocIDTable(image: seq<Byte>, off: nat) {
    && HasDocIDElements(image, off)
    && InTheirBuckets(DocIDBuckets(image, off), DocIDHash)
    && KeysDiffer(DocIDBuckets(image, off))
  }

  function HeadersOf(es: seq<Entry<nat, seq<nat>>>): (hs: seq<DocIDElementHeader>)
    ensures |hs| == |es|
    ensures forall i | 0 <= i < |es| :: hs[i] == DocIDElementHeader(es[i].key, |es[i].value|)
  {
    seq(|es|, i requires 0 <= i < |es| => DocIDElementHeader(es[i].key, |es[i].value|))
  }

  class DocIDTableReader {
    const reader: HashTableReader

    ghost predicate Valid() {
      reader.Valid() && IsDocIDTable(reader.file.image, reader.offset)
    }

    // The buckets of the table that is read.
    ghost function Table(): Buckets<nat, seq<nat>>
      requires Valid()
    {
      DocIDBuckets(reader.file.image, reader.offset)
    }

    constructor (file: File, offset: nat)
      requires IsDocIDTable(file.image, offset)
      modifies file
      ensures Valid() && reader.file == file && reader.offset == offset
    {
      reader := new HashTableReader(file, offset);
    }

    // The positions of the word in document docID, if the table has it.
    method LookupDocID(docID: nat) returns (found: bool, retval: seq<nat>)
      requires Valid()
      modifies reader.file
      ensures found ==> Stores(Table(), docID, retval)
      ensures found <==> StoresKey(Table(), docID)
    {
      hide Readable, Chain, Signed32, Unsigned, IsDocIDElement, InTheirBuckets, KeysDiffer;
      ghost var t := Table();
      BucketDecides(t, DocIDHash, docID);
      var elements := reader.LookupElementPositions(docID);
      ghost var b := docID % |t|;
      assert t[b] == DocIDBucket(reader.file.image, elements);
      for k := 0 to |elements|
        invariant forall j: nat | j < k :: t[b][j].key != docID
      {
        var currDocID, positions := ReadIfMatch(elements[k], docID);
        if currDocID == docID {
          assert IsEntry(t, b, k) && t[b][k] == Entry(docID, positions);
          return true, positions;
        }
      }
      return false, [];
    }

    // The docID of the element at curr, with its positions if it is the one sought.
    method ReadIfMatch(curr: nat, docID: nat) returns (currDocID: nat, retlist: seq<nat>)
      requires IsDocIDElement(reader.file.image, curr)
      modifies reader.file
      ensures currDocID == DocIDElementAt(reader.file.image, curr).key
      ensures currDocID == docID ==> retlist == DocIDElementAt(reader.file.image, curr).value
    {
      hide Signed32, Unsigned;
      reader.file.Seek(curr);
      currDocID := reader.file.ReadUnsigned(8);
      var numPositions := reader.file.Read32();
      retlist := [];
      if currDocID == docID {
        for i := 0 to numPositions
          invariant reader.file.pos == curr + 12 + 4 * i && |retlist| == i
          invariant forall k | 0 <= k < i :: retlist[k] == PositionAt(reader.file.image, curr, k)
        {
          var pos := reader.file.ReadUnsigned(4);
          assert pos == PositionAt(reader.file.image, curr, i);
          retlist := retlist + [pos];
        }
      }
    }

    // Every docID of the table with its number of positions, bucket by bucket.
    method GetDocIDList() returns (docidlist: seq<DocIDElementHeader>)
      requires Valid()
      modifies reader.file
      ensures docidlist == HeadersOf(EntriesBefore(Table(), |Table()|))
    {
      hide Readable, Chain, InTheirBuckets, KeysDiffer;
      docidlist := [];
      for i := 0 to reader.numBuckets
        invariant docidlist == HeadersOf(EntriesBefore(Table(), i))
      {
        var bucket := ReadBucket(i);
        docidlist := docidlist + bucket;
      }
    }

    method ReadBucket(i: nat) returns (headers: seq<DocIDElementHeader>)
      requires Valid() && i < reader.numBuckets
      modifies reader.file
      ensures headers == HeadersOf(Table()[i])
    {
      hide Signed32, Unsigned, InTheirBuckets, KeysDiffer, Readable, IsDocIDElement, Chain;
      ghost var chain := Chain(reader.file.image, reader.offset, i);
      var chainNumElements, position := reader.ReadBucketRecord(i);
      headers := [];
      for j := 0 to chainNumElements
        invariant |headers| == j
        invariant forall k: nat | k < j :: headers[k] == HeadersOf(DocIDBucket(reader.file.image, chain))[k]
      {
        var header := ReadHeader(i, position, j);
        headers := headers + [header];
      }
    }

    // Header of element j of bucket i, by way of its position record.
    method ReadHeader(i: nat, position: nat, j: nat) returns (element: DocIDElementHeader)
      requires Valid() && i < reader.numBuckets && reader.IsBucketRecord(i, |Table()[i]|, position) && j < |Table()[i]|
      modifies reader.file
      ensures element == DocIDElementHeader(Table()[i][j].key, |Table()[i][j].value|)
    {
      hide Signed32, Unsigned, InTheirBuckets, KeysDiffer, Readable, Chain;
      var elementPos := reader.ReadElementPosition(i, position, j);
      assert IsDocIDElement(reader.file.image, elementPos);
      reader.file.Seek(elementPos);
      var docID := reader.file.ReadUnsigned(8);
      var numPositions := reader.file.Read32();
      element := DocIDElementHeader(docID, numPositions);
    }
  }

  ghost predicate DistinctDocIDs(hs: seq<DocIDElementHeader>) {
    forall i, j | 0 <= i < j < |hs| :: hs[i].docID != hs[j].docID
  }

  // LookupDocID succeeds for exactly the docIDs that GetDocIDList returns, each
  // of which it returns once, and yields as many positions as the list says.
  lemma LookupsMatchList(image: seq<Byte>, off: nat, docID: nat, n: nat)
    requires IsDocIDTable(image, off)
    ensures var t := DocIDBuckets(image, off); var hs := HeadersOf(EntriesBefore(t, |t|));
            && DistinctDocIDs(hs)
            && ((exists ps :: Stores(t, docID, ps) && |ps| == n) <==>
                exists k :: 0 <= k < |hs| && hs[k] == DocIDElementHeader(docID, n))
  {
    hide HasDocIDElements, InTheirBuckets, KeysDiffer, DocIDBuckets;
    var t := DocIDBuckets(image, off);
    var es := EntriesBefore(t, |t|);
    var hs := HeadersOf(es);
    WalkIsStored(t, DocIDHash, 0, []);
    if ps :| Stores(t, docID, ps) && |ps| == n {
      WalkIsStored(t, DocIDHash, docID, ps);
      var k :| 0 <= k < |es| && es[k] == Entry(docID, ps);
      assert hs[k] == DocIDElementHeader(docID, n);
    }
    if k :| 0 <= k < |hs| && hs[k] == DocIDElementHeader(docID, n) {
      WalkIsStored(t, DocIDHash, docID, es[k].value);
      assert es[k] == Entry(docID, es[k].value);
      assert Stores(t, docID, es[k].value) && |es[k].value| == n;
    }
  }

  // --- IndexTableReader ---

  // The word at e and the docID table behind it, at SubTable(e), are inside the
  // image, and that table is well formed.
  ghost predicate IsWordElement(image: seq<Byte>, e: nat) {
    && e + 6 <= |image|
    && 0 <= Signed16(image, e)
    && e + 6 + Signed16(image, e) <= |image|
    && IsDocIDTable(image, e + 6 + Signed16(image, e))
  }

  // The word stored at e, with the offset of its docID table.
  ghost function WordElementAt(image: seq<Byte>, e: nat): Entry<Word, nat>
    requires IsWordElement(image, e)
  {
    var start := e + 6;
    Entry(image[start..start + Signed16(image, e)], start + Signed16(image, e))
  }

  ghost predicate AreWordElements(image: seq<Byte>, chain: seq<nat>) {
    forall j | 0 <= j < |chain| :: IsWordElement(image, chain[j])
  }

  ghost function WordBucket(image: seq<Byte>, chain: seq<nat>): (es: seq<Entry<Word, nat>>)
    requires AreWordElements(image, chain)
    ensures |es| == |chain|
    ensures forall j | 0 <= j < |es| :: es[j] == WordElementAt(image, chain[j])
  {
    seq(|chain|, j requires 0 <= j < |chain| && AreWordElements(image, chain) => WordElementAt(image, chain[j]))
  }

  ghost predicate HasWordElements(image: seq<Byte>, off: nat) {
    Readable(image, off) && forall b: nat | b < NumBuckets(image, off) :: AreWordElements(image, Chain(image, off, b))
  }

  // The buckets of the word index at off.
  ghost function WordBuckets(image: seq<Byte>, off: nat): (t: Buckets<Word, nat>)
    requires HasWordElements(image, off)
    ensures |t| == NumBuckets(image, off)
    ensures forall b: nat | b < |t| :: t[b] == WordBucket(image, Chain(image, off, b))
  {
    seq(NumBuckets(image, off), b requires 0 <= b < NumBuckets(image, off) && HasWordElements(image, off) =>
      WordBucket(image, Chain(image, off, b)))
  }

  function WordHash(word: Word): nat {
    Fnv.Rounds(Fnv.FNV1_64_INIT, word)
  }

  // Two words may share a bucket, and even a hash.
  ghost predicate IsIndexTable(image: seq<Byte>, off: nat) {
    && HasWordElements(image, off)
    && InTheirBuckets(WordBuckets(image, off), WordHash)
    && KeysDiffer(WordBuckets(image, off))
  }

  class IndexTableReader {
    const reader: HashTableReader

    ghost predicate Valid() {
      reader.Valid() && IsIndexTable(reader.file.image, reader.offset)
    }

    ghost function Table(): Buckets<Word, nat>
      requires Valid()
    {
      WordBuckets(reader.file.image, reader.offset)
    }

    constructor (file: File, offset: nat)
      requires IsIndexTable(file.image, offset)
      modifies file
      ensures Valid() && reader.file == file && reader.offset == offset
    {
      reader := new HashTableReader(file, offset);
    }

    // A reader, with a file handle of its own, for the docID table of the word;
    // none if the word is not stored.
    method LookupWord(word: Word) returns (ditr: DocIDTableReader?)
      requires Valid()
      modifies reader.file
      ensures ditr != null <==> StoresKey(Table(), word)
      ensures ditr != null ==> fresh(ditr) && ditr.Valid() && fresh(ditr.reader.file)
      ensures ditr != null ==> ditr.reader.file.image == reader.file.image && Stores(Table(), word, ditr.reader.offset)
    {
      hide Readable, Chain, Signed16, IsDocIDTable, InTheirBuckets, KeysDiffer, Fnv.Rounds;
      ghost var t := Table();
      BucketDecides(t, WordHash, word);
      var wordhash := Fnv.FNVHash64(word);
      var elements := reader.LookupElementPositions(wordhash);
      ghost var b := WordHash(word) % |t|;
      assert t[b] == WordBucket(reader.file.image, elements);
      for k := 0 to |elements|
        invariant forall j: nat | j < k :: t[b][j].key != word
      {
        assert IsWordElement(reader.file.image, elements[k]);
        var matches, docIDTableOffset := ReadIfMatch(elements[k], word);
        if matches {
          assert IsEntry(t, b, k) && t[b][k] == Entry(word, docIDTableOffset);
          var dup := new File(reader.file.image);
          ditr := new DocIDTableReader(dup, docIDTableOffset);
          return;
        }
      }
      return null;
    }

    // Whether the word at offset is the one sought; lengths are compared first.
    method ReadIfMatch(offset: nat, word: Word) returns (matches: bool, docIDTableOffset: nat)
      requires IsWordElement(reader.file.image, offset)
      modifies reader.file
      ensures matches <==> WordElementAt(reader.file.image, offset).key == word
      ensures matches ==> docIDTableOffset == WordElementAt(reader.file.image, offset).value
    {
      hide Signed16, Signed32, IsDocIDTable;
      reader.file.Seek(offset);
      var wordBytes := reader.file.Read16();
      var tableBytes := reader.file.Read32();
      if wordBytes != |word| {
        return false, 0;
      }
      var ss := reader.ReadChars(wordBytes);
      return word == ss, offset + WORD_POSTINGS_HEADER + wordBytes;
    }
  }

  // --- DocTableReader ---

  // The name at e is inside the image.
  predicate IsDocElement(image: seq<Byte>, e: nat) {
    && e + 10 <= |image|
    && 0 <= Signed16(image, e + 8)
    && e + 10 + Signed16(image, e + 8) <= |image|
  }

  function DocElementAt(image: seq<Byte>, e: nat): Entry<nat, seq<Byte>>
    requires IsDocElement(image, e)
  {
    var start := e + 10;
    Entry(Unsigned(image, e, 8), image[start..start + Signed16(image, e + 8)])
  }

  ghost predicate AreDocElements(image: seq<Byte>, chain: seq<nat>) {
    forall j | 0 <= j < |chain| :: IsDocElement(image, chain[j])
  }

  function DocBucket(image: seq<Byte>, chain: seq<nat>): (es: seq<Entry<nat, seq<Byte>>>)
    requires AreDocElements(image, chain)
    ensures |es| == |chain|
    ensures forall j | 0 <= j < |es| :: es[j] == DocElementAt(image, chain[j])
  {
    seq(|chain|, j requires 0 <= j < |chain| => DocElementAt(image, chain[j]))
  }

  ghost predicate HasDocElements(image: seq<Byte>, off: nat) {
    Readable(image, off) && forall b: nat | b < NumBuckets(image, off) :: AreDocElements(image, Chain(image, off, b))
  }

  // The buckets of the document table at off.
  ghost function DocBuckets(image: seq<Byte>, off: nat): (t: Buckets<nat, seq<Byte>>)
    requires HasDocElements(image, off)
    ensures |t| == NumBuckets(image, off)
    ensures forall b: nat | b < |t| :: t[b] == DocBucket(image, Chain(image, off, b))
  {
    seq(NumBuckets(image, off), b requires 0 <= b < NumBuckets(image, off) && HasDocElements(image, off) =>
      DocBucket(image, Chain(image, off, b)))
  }

  ghost predicate IsDocTable(image: seq<Byte>, off: nat) {
    && HasDocElements(image, off)
    && InTheirBuckets(DocBuckets(image, off), DocIDHash)
    && KeysDiffer(DocBuckets(image, off))
  }

  class DocTableReader {
    const reader: HashTableReader

    ghost predicate Valid() {
      reader.Valid() && IsDocTable(reader.file.image, reader.offset)
    }

    ghost function Table(): Buckets<nat, seq<Byte>>
      requires Valid()
    {
      DocBuckets(reader.file.image, reader.offset)
    }

    constructor (file: File, offset: nat)
      requires IsDocTable(file.image, offset)
      modifies file
      ensures Valid() && reader.file == file && reader.offset == offset
    {
      reader := new HashTableReader(file, offset);
    }

    // The name of document docid, if the table has it.
    method LookupDocID(docid: nat) returns (found: bool, retval: seq<Byte>)
      requires Valid()
      modifies reader.file
      ensures found ==> Stores(Table(), docid, retval)
      ensures found <==> StoresKey(Table(), docid)
    {
      hide Readable, Chain, Signed16, Unsigned, IsDocElement, InTheirBuckets, KeysDiffer;
      ghost var t := Table();
      BucketDecides(t, DocIDHash, docid);
      var elements := reader.LookupElementPositions(docid);
      ghost var b := docid % |t|;
      assert t[b] == DocBucket(reader.file.image, elements);
      for k := 0 to |elements|
        invariant forall j: nat | j < k :: t[b][j].key != docid
      {
        var currDocID, name := ReadIfMatch(elements[k], docid);
        if currDocID == docid {
          assert IsEntry(t, b, k) && t[b][k] == Entry(docid, name);
          return true, name;
        }
      }
      return false, [];
    }

    // The docID of the element at curr, with its name if it is the one sought.
    method ReadIfMatch(curr: nat, docid: nat) returns (currDocID: nat, name: seq<Byte>)
      requires IsDocElement(reader.file.image, curr)
      modifies reader.file
      ensures currDocID == DocElementAt(reader.file.image, curr).key
      ensures currDocID == docid ==> name == DocElementAt(reader.file.image, curr).value
    {
      hide Signed16, Unsigned;
      reader.file.Seek(curr);
      currDocID := reader.file.ReadUnsigned(8);
      var filenameBytes := reader.file.Read16();
      name := [];
      if currDocID == docid {
        name := reader.ReadChars(filenameBytes);
      }
    }
  }
}
