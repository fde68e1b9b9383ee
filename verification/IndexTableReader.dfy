/** hw3/IndexTableReader.cc: from a word to the table of its documents. */
module IndexTableReaders {
  import opened Chains
  import opened Fnv
  import opened Layouts
  import opened HashTableReaders
  import opened DocIDTableReaders

  type WordIndex = map<Image, Postings>

  /** A WordDocSet: its header, and the word behind it. */
  ghost predicate WordFits(image: Image, at: nat) {
    at + 6 <= |image| && at + 6 + U16(image, at) <= |image|
  }

  ghost function WordAt(image: Image, at: nat): Image
    requires WordFits(image, at)
  {
    image[at + 6..at + 6 + U16(image, at)]
  }

  /** An element holds a word of the index, in the bucket i of its hash, with its postings. */
  ghost predicate HoldsWord(image: Image, at: nat, words: WordIndex, i: nat, n: nat)
    requires n > 0
  {
    && WordFits(image, at)
    && var word := WordAt(image, at);
       && word in words && Bucket(Hash(word), n) == i
       && StoresPostings(image, at + 6 + |word|, words[word])
  }

  ghost predicate HasWord(image: Image, chain: seq<uint32>, word: Image) {
    exists j :: 0 <= j < |chain| && WordFits(image, chain[j] as nat) && WordAt(image, chain[j] as nat) == word
  }

  /** The image has at off a well formed table for exactly these words. */
  ghost predicate StoresWords(image: Image, off: nat, words: WordIndex) {
    && TableFits(image, off)
    && var n := NumBuckets(image, off);
       && (forall i, j :: 0 <= i < n && 0 <= j < |Chain(image, off, i)| ==>
            HoldsWord(image, Chain(image, off, i)[j] as nat, words, i, n))
       && (forall w :: w in words ==> HasWord(image, Chain(image, off, Bucket(Hash(w), n)), w))
  }

  class IndexTableReader {
    const table: HashTableReader
    ghost const words: WordIndex

    ghost predicate Valid()
      reads table.file`content
    {
      table.Valid() && StoresWords(table.file.content, table.offset, words)
    }

    constructor (f: DiskFile, offset: nat, ghost words: WordIndex)
      requires StoresWords(f.content, offset, words)
      modifies f`pos
      ensures Valid() && table.file == f && this.words == words && fresh(table)
    {
      hide TableFits, HoldsWord, HasWord;
      var t := new HashTableReader(f, offset);
      table, this.words := t, words;
    }

    /** nullptr (null) when the word is not in the index, and else a reader for its documents. */
    method LookupWord(word: Image) returns (ditr: DocIDTableReader?)
      requires Valid()
      modifies table.file`pos
      ensures (ditr != null) == (word in words)
      ensures ditr != null ==> fresh(ditr) && ditr.Valid() && ditr.postings == words[word] && ditr.table.file == table.file
    {
      hide StoresWords, HashTableReader.Valid, ElementsAre, U16, U32, Chain, Bucket, Hash, StoresPostings, WordFits, WordAt,
        DocIDTableReader.Valid;
      var wordhash := FNVHash64(word);
      BucketOf(word);
      var elements := table.LookupElementPositions(wordhash);
      if |elements| == 0 {
        return null;
      }
      var it := 0;
      while it < |elements|
        invariant it <= |elements|
        invariant forall j :: 0 <= j < it ==> WordAt(table.file.content, elements[j] as nat) != word
      {
        ditr := ReadElement(elements[it] as nat, word);
        if ditr != null {
          return;
        }
        it := it + 1;
      }
      return null;
    }

    /** The loop body: a reader if the word at nextOffset is this one. */
    method ReadElement(nextOffset: nat, word: Image) returns (ditr: DocIDTableReader?)
      requires WordFits(table.file.content, nextOffset)
      requires nextOffset + 6 + |WordAt(table.file.content, nextOffset)| < TWO32
      requires WordAt(table.file.content, nextOffset) == word ==>
        word in words && StoresPostings(table.file.content, nextOffset + 6 + |word|, words[word])
      modifies table.file`pos
      ensures (ditr != null) == (WordAt(table.file.content, nextOffset) == word)
      ensures ditr != null ==> fresh(ditr) && ditr.Valid() && ditr.postings == words[word] && ditr.table.file == table.file
    {
      hide U16, U32, Hash, StoresPostings;
      table.file.Seek(nextOffset);
      var wordLen := table.file.ReadU16();
      var doctableLen := table.file.ReadU32();
      if wordLen == |word| {
        var ss := table.file.ReadString(wordLen);
        if word == ss {
          ditr := new DocIDTableReader(table.file, (nextOffset + 6 + wordLen) % TWO32, words[word]);
          return;
        }
      }
      return null;
    }

    ghost predicate Bucketful(elements: seq<uint32>, word: Image)
      reads table.file`content
    {
      var image := table.file.content;
      && (forall j :: 0 <= j < |elements| ==>
           && WordFits(image, elements[j] as nat)
           && elements[j] as nat + 6 + |WordAt(image, elements[j] as nat)| < TWO32
           && (WordAt(image, elements[j] as nat) == word ==>
                word in words && StoresPostings(image, elements[j] as nat + 6 + |word|, words[word])))
      && (word in words ==> HasWord(image, elements, word))
    }

    lemma BucketOf(word: Image)
      requires Valid()
      ensures table.Valid()
      ensures Bucketful(Chain(table.file.content, table.offset, Bucket(Hash(word), table.numBuckets as nat)), word)
    {
      hide TableFits, Chain, Bucket, Hash, U16, U32, HasWord, ElementsFit, Holds;
      var image, off := table.file.content, table.offset;
      Offsets32(image, off);
      var b := Bucket(Hash(word), table.numBuckets as nat);
      var chain := Chain(image, off, b);
      forall j | 0 <= j < |chain|
        ensures HoldsWord(image, chain[j] as nat, words, b, NumBuckets(image, off))
      {}
    }
  }

  lemma Offsets32(image: Image, off: nat)
    requires TableFits(image, off)
    ensures |image| < TWO32
  {}
}
