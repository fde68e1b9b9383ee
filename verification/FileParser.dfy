/** hw2/fileparser.c: cutting a file into words, and the table of their positions. */
module FileParsers {
  import opened Chains
  import opened LinkedLists
  import opened HashTables
  import opened Fnv
  import opened Words

  const ASCII_UPPER_BOUND: byte := 0x7F

  /** WordPositions. */
  datatype WordPositions = WordPositions(word: seq<byte>, positions: LinkedList<uint32>)

  /** The entries of a word table: their lists share nothing and hold the offsets of `words`. */
  ghost predicate PositionsLinked(m: map<uint64, WordPositions>, words: WordMap, lists: set<object>)
    reads lists
  {
    && m.Keys == words.Keys
    && (forall h :: h in m ==> m[h].word == words[h].word && ListLinked(m[h].positions, words[h].positions, lists))
    && (forall h, g :: h in m && g in m && h != g ==>
         m[h].positions in lists && m[g].positions in lists && m[h].positions.Repr !! m[g].positions.Repr)
  }

  ghost predicate ListLinked(l: LinkedList<uint32>, offsets: seq<uint32>, lists: set<object>)
    reads lists
  {
    l in lists && l in l.Repr && l.Repr <= lists && l.Valid() && l.contents == offsets
  }

  /** One more offset for a known word. */
  method AppendPosition(l: LinkedList<uint32>, pos: uint32, ghost m: map<uint64, WordPositions>, ghost words: WordMap,
                        ghost lists: set<object>, ghost h: uint64)
    requires PositionsLinked(m, words, lists) && h in m && l == m[h].positions && l in l.Repr && l.Repr <= lists
    modifies l.Repr
    ensures fresh(l.Repr - old(l.Repr))
    ensures PositionsLinked(m, words[h := Entry(words[h].word, words[h].positions + [pos])], lists + l.Repr)
  {
    hide LinkedList.Valid;
    l.Append(pos);
    l.InRepr();
  }

  /** The first offset of a new word. */
  method NewPositions(pos: uint32) returns (l: LinkedList<uint32>)
    ensures fresh(l.Repr) && ListLinked(l, [pos], l.Repr)
  {
    hide LinkedList.Valid;
    l := new LinkedList<uint32>();
    l.Append(pos);
    l.InRepr();
  }

  lemma NewWordLinked(m: map<uint64, WordPositions>, words: WordMap, lists: set<object>,
                      h: uint64, word: seq<byte>, l: LinkedList<uint32>, pos: uint32)
    requires PositionsLinked(m, words, lists) && h !in m && l.Repr !! lists && ListLinked(l, [pos], l.Repr)
    ensures PositionsLinked(m[h := WordPositions(word, l)], words[h := Entry(word, [pos])], lists + l.Repr)
  {
    hide LinkedList.Valid;
  }

  /** The table BuildWordHT fills. */
  class WordTable {
    var tab: HashTable<WordPositions>
    ghost var words: WordMap
    ghost var lists: set<object>
    ghost var Repr: set<object>

    ghost predicate Valid()
      reads this, Repr
      ensures Valid() ==> this in Repr
    {
      && this in Repr && tab in Repr && Repr == {this} + tab.Repr + lists
      && this !in tab.Repr && this !in lists && tab.Repr !! lists
      && tab.Valid() && PositionsLinked(tab.m, words, lists)
    }

    constructor ()
      ensures Valid() && fresh(Repr) && words == map[] && tab.numBuckets == 64
    {
      hide HashTable.Valid;
      var ht := new HashTable<WordPositions>(64);
      tab, words, lists, Repr := ht, map[], {}, {this} + ht.Repr;
    }

    /** How the objects are partitioned. */
    lemma Parts()
      requires Valid()
      ensures this in Repr && tab in Repr && tab.Valid() && Repr == {this} + tab.Repr + lists && tab.Repr !! lists
      ensures this !in tab.Repr && this !in lists && tab.m.Keys == words.Keys
    {
      hide HashTable.Shape, HashTable.Valid, ListLinked;
    }

    /** NumElementsInHashTable. */
    method NumWords() returns (n: nat)
      requires Valid()
      ensures n == |words| && (n == 0 <==> words == map[])
    {
      hide HashTable.Shape, HashTable.Valid, ListLinked;
      tab.SizeBound();
      assert |tab.m| == |tab.m.Keys| && |words| == |words.Keys|;
      n := tab.numElements;
    }

    lemma HasRoom()
      requires Valid() && |words| + 1 < TWO32
      ensures tab.numElements + 1 < TWO32
    {
      hide HashTable.Shape, HashTable.Valid, ListLinked;
      tab.SizeBound();
      assert |tab.m| == |tab.m.Keys| && |words| == |words.Keys|;
    }

    /** AddToHashTable. */
    method AddToHashTable(word: seq<byte>, pos: uint32)
      requires Valid() && |words| + 1 < TWO32
      modifies Repr
      ensures Valid() && fresh(Repr - old(Repr))
      ensures words == Recorded(old(words), word, pos)
    {
      hide HashTable.Valid, LinkedList.Valid, Hash;
      HasRoom();
      var hashKey := FNVHash64(word);
      var retval, kv := tab.Lookup(hashKey);
      if retval == 1 {
        AddPosition(hashKey, kv.value.value.positions, pos);
      } else {
        AddWord(hashKey, word, pos);
      }
    }

    method AddPosition(h: uint64, l: LinkedList<uint32>, pos: uint32)
      requires Valid() && h in tab.m && h in words && l == tab.m[h].positions
      modifies Repr
      ensures Valid() && fresh(Repr - old(Repr))
      ensures words == old(words)[h := Entry(old(words)[h].word, old(words)[h].positions + [pos])]
    {
      hide HashTable.Valid, LinkedList.Valid;
      AppendPosition(l, pos, tab.m, words, lists, h);
      words := words[h := Entry(words[h].word, words[h].positions + [pos])];
      lists := lists + l.Repr;
      Repr := {this} + tab.Repr + lists;
    }

    method AddWord(h: uint64, word: seq<byte>, pos: uint32)
      requires Valid() && h !in tab.m && tab.numElements + 1 < TWO32
      modifies Repr
      ensures Valid() && fresh(Repr - old(Repr))
      ensures words == old(words)[h := Entry(word, [pos])]
    {
      hide HashTable.Valid, LinkedList.Valid, PositionsLinked;
      var l := NewPositions(pos);
      NewWordLinked(tab.m, words, lists, h, word, l, pos);
      var retval, _ := tab.Insert(KeyValue(h, WordPositions(word, l)));
      assert retval == 1;
      words := words[h := Entry(word, [pos])];
      lists := lists + l.Repr;
      Repr := {this} + tab.Repr + lists;
    }
  }

  /** What LoopAndInsert leaves at position k of the buffer: letters in lower case, and a
      terminator behind every word it recorded. */
  ghost function Cut(text: seq<byte>, k: nat): byte
    requires k < |text|
  {
    if IsAlpha(text[k]) then ToLower(text[k]) else if RunEndsAt(text, k) then 0 else text[k]
  }

  /** The 52 letters of ASCII. */
  predicate Letter(c: byte) {
    65 <= c <= 90 || 97 <= c <= 122
  }

  /** The same in numbers: 32 more for every upper-case letter, a terminator for what follows a
      letter and is none, and every other character as it was. */
  ghost predicate LowerCased(text: seq<byte>, done: seq<byte>) {
    && |done| == |text|
    && (forall k :: 0 <= k < |text| && 65 <= text[k] <= 90 ==> done[k] == text[k] + 32)
    && (forall k :: 0 <= k < |text| && 97 <= text[k] <= 122 ==> done[k] == text[k])
    && (forall k :: 0 < k < |text| && !Letter(text[k]) && Letter(text[k - 1]) ==> done[k] == 0)
    && (forall k :: 0 <= k < |text| && !Letter(text[k]) && (k == 0 || !Letter(text[k - 1])) ==> done[k] == text[k])
  }

  /** A C string of length n fills the buffer. */
  ghost predicate Terminated(content: seq<byte>, n: nat) {
    n < |content| && content[n] == 0 && forall k :: 0 <= k < n ==> content[k] != 0
  }

  /** The table holds exactly the runs of the text that end before position n. */
  ghost predicate RecordedUpTo(words: WordMap, text: seq<byte>, n: nat) {
    && n <= |text| < TWO32
    && (forall r :: r in Runs(text, n) ==> r.start <= r.end <= |text|)
    && words == RecordAll(text, Runs(text, n))
  }

  /** LoopAndInsert. */
  method LoopAndInsert(tab: WordTable, content: array<byte>, ghost n: nat)
    requires tab.Valid() && tab.words == map[] && content !in tab.Repr
    requires Terminated(content[..], n) && content.Length < TWO32
    modifies content, tab.Repr
    ensures tab.Valid() && fresh(tab.Repr - old(tab.Repr))
    ensures var text := old(content[..n]);
      && RecordedUpTo(tab.words, text, n)
      && LowerCased(text, content[..n])
  {
    hide Hash, RunStart, RecordAll, WordTable.Valid, RecordedUpTo, Runs, Recorded, LowerCased, Cut, RunEndsAt, ToLower;
    ghost var text := content[..n];
    RecordNothing(text);
    var curptr, wordstart := 0, 0;
    var parsingAWord := IsAlpha(content[0]);
    while content[curptr] != 0
      invariant curptr <= n && (forall k :: curptr <= k < content.Length ==> content[k] == old(content[k]))
      invariant forall k :: 0 <= k < curptr ==> content[k] == Cut(text, k)
      invariant parsingAWord <==> if curptr == 0 then IsAlpha(content[0]) else IsAlpha(text[curptr - 1])
      invariant parsingAWord ==> wordstart <= curptr && wordstart == RunStart(text, curptr)
      invariant tab.Valid() && fresh(tab.Repr - old(tab.Repr)) && content !in tab.Repr
      invariant RecordedUpTo(tab.words, text, curptr)
      decreases n - curptr
    {
      RecordStep(tab.words, text, curptr);
      StartStep(text, curptr);
      CutAt(text, curptr);
      if parsingAWord {
        if !IsAlpha(content[curptr]) {
          content[curptr] := 0;
          EndRun(tab, content, text, wordstart, curptr);
          parsingAWord := false;
        }
      } else {
        if IsAlpha(content[curptr]) {
          wordstart := curptr;
          parsingAWord := true;
        }
      }
      if IsAlpha(content[curptr]) {
        content[curptr] := ToLower(content[curptr]);
      }
      curptr := curptr + 1;
    }
    CutLowers(text, content[..n]);
  }

  lemma CutAt(text: seq<byte>, k: nat)
    requires k < |text|
    ensures RunEndsAt(text, k) <==> k > 0 && IsAlpha(text[k - 1]) && !IsAlpha(text[k])
    ensures Cut(text, k) ==
      if IsAlpha(text[k]) then ToLower(text[k]) else if k > 0 && IsAlpha(text[k - 1]) then 0 else text[k]
    ensures !IsAlpha(0)
  {}

  lemma CutLowers(text: seq<byte>, done: seq<byte>)
    requires |done| == |text| && forall k :: 0 <= k < |text| ==> done[k] == Cut(text, k)
    ensures LowerCased(text, done)
  {}

  lemma RecordNothing(text: seq<byte>)
    requires |text| < TWO32
    ensures RecordedUpTo(map[], text, 0)
    ensures RunStart(text, 0) == 0
  {}

  lemma StartStep(text: seq<byte>, j: nat)
    requires j < |text|
    ensures RunStart(text, j + 1) == if IsAlpha(text[j]) then RunStart(text, j) else j + 1
    ensures RunStart(text, j) <= j && (j > 0 && !IsAlpha(text[j - 1]) ==> RunStart(text, j) == j)
  {}

  lemma WordIsCut(text: seq<byte>, content: array<byte>, i: nat, j: nat)
    requires i <= j < |text| <= content.Length && i == RunStart(text, j)
    requires forall k :: 0 <= k < j ==> content[k] == Cut(text, k)
    ensures content[i..j] == Word(text, i, j)
  {
    hide RunStart;
    RunIsAlpha(text, j);
    var word := content[i..j];
    forall k | 0 <= k < |word|
      ensures word[k] == ToLower(text[i + k])
    {}
  }

  lemma RunIsAlpha(text: seq<byte>, j: nat)
    requires j <= |text|
    ensures forall k :: RunStart(text, j) <= k < j ==> IsAlpha(text[k])
  {}

  /** The word from wordstart ends at curptr. */
  method EndRun(tab: WordTable, content: array<byte>, ghost text: seq<byte>, wordstart: nat, curptr: nat)
    requires tab.Valid() && RecordedUpTo(tab.words, text, curptr) && content !in tab.Repr
    requires wordstart <= curptr < |text| <= content.Length && |text| < TWO32
    requires wordstart == RunStart(text, curptr) && RunEndsAt(text, curptr)
    requires forall k :: 0 <= k < curptr ==> content[k] == Cut(text, k)
    modifies tab.Repr
    ensures tab.Valid() && fresh(tab.Repr - old(tab.Repr))
    ensures RecordedUpTo(tab.words, text, curptr + 1)
  {
    hide Hash, RunStart, RecordAll, WordTable.Valid, RecordedUpTo, Runs, Recorded, RunEndsAt;
    WordIsCut(text, content, wordstart, curptr);
    RecordRun(tab, text, curptr, content[wordstart..curptr], wordstart as uint32);
  }

  /** The call of AddToHashTable at the end of a run. */
  method RecordRun(tab: WordTable, ghost text: seq<byte>, ghost j: nat, word: seq<byte>, pos: uint32)
    requires tab.Valid() && RecordedUpTo(tab.words, text, j) && j < |text| && |text| < TWO32
    requires RunEndsAt(text, j) && pos as nat == RunStart(text, j) && word == Word(text, pos as nat, j)
    modifies tab.Repr
    ensures tab.Valid() && fresh(tab.Repr - old(tab.Repr))
    ensures RecordedUpTo(tab.words, text, j + 1)
  {
    hide *;
    FewWords(tab.words, text, j);
    RecordStep(tab.words, text, j);
    tab.AddToHashTable(word, pos);
  }

  /** One more position: a run ends there and is recorded, or nothing changes. */
  lemma RecordStep(words: WordMap, text: seq<byte>, j: nat)
    requires RecordedUpTo(words, text, j) && j < |text|
    ensures RecordedUpTo(if RunEndsAt(text, j)
                         then Recorded(words, Word(text, RunStart(text, j), j), RunStart(text, j) as uint32)
                         else words, text, j + 1)
  {
    hide Hash, Recorded, RunStart, Word;
  }

  /** There are no more words than runs, and no more runs than characters. */
  lemma FewWords(words: WordMap, text: seq<byte>, n: nat)
    requires RecordedUpTo(words, text, n)
    ensures |words| <= n <= |text|
  {
    RunsAscend(text, n);
    RecordCount(text, Runs(text, n));
  }

  lemma {:induction false} RecordCount(text: seq<byte>, runs: seq<Run>)
    requires |text| < TWO32
    requires forall r :: r in runs ==> r.start <= r.end <= |text|
    ensures |RecordAll(text, runs)| <= |runs|
    decreases |runs|
  {
    hide Hash, Word;
    if runs != [] {
      RecordCount(text, runs[..|runs| - 1]);
    }
  }

  /** Only texts of the 127 non-NUL ASCII characters are indexed. */
  predicate Indexable(text: seq<byte>) {
    forall k :: 0 <= k < |text| ==> text[k] != 0 && text[k] <= ASCII_UPPER_BOUND
  }

  /** BuildWordHT after ReadFile, which adds the terminator. */
  method BuildWordHT(filecontent: array<byte>, filelen: nat) returns (tab: WordTable?)
    requires filecontent.Length == filelen + 1 && filecontent[filelen] == 0 && filecontent.Length < TWO32
    modifies filecontent
    ensures var text := old(filecontent[..filelen]);
      && (tab == null <==> text == [] || !Indexable(text) || Runs(text, filelen) == [])
      && (tab != null <==> (forall k :: 0 <= k < filelen ==> 1 <= text[k] <= 127) && EndsARun(text))
      && (tab != null ==> tab.Valid() && fresh(tab.Repr) && RecordedUpTo(tab.words, text, filelen) && tab.words != map[])
  {
    hide Hash, Word, Runs, WordTable.Valid, HashTable.Valid;
    ghost var text := filecontent[..filelen];
    if filelen == 0 {
      return null;
    }
    var i := 0;
    while i < filelen
      invariant i <= filelen && Indexable(text[..i])
    {
      if filecontent[i] == 0 || filecontent[i] > ASCII_UPPER_BOUND {
        assert text[i] == filecontent[i];
        return null;
      }
      assert text[..i + 1] == text[..i] + [text[i]];
      i := i + 1;
    }
    assert text[..filelen] == text;
    RunsEnd(text, filelen);
    tab := new WordTable();
    LoopAndInsert(tab, filecontent, filelen);
    NoWords(text, Runs(text, filelen));
    var n := tab.NumWords();
    if n == 0 {
      tab := null;
    }
  }

  /** Somewhere a letter is followed by something else. */
  ghost predicate EndsARun(text: seq<byte>) {
    exists j :: 0 < j < |text| && Letter(text[j - 1]) && !Letter(text[j])
  }

  lemma {:induction false} RunsEnd(text: seq<byte>, n: nat)
    requires n <= |text|
    ensures Runs(text, n) != [] <==> exists j :: 0 < j < n && Letter(text[j - 1]) && !Letter(text[j])
  {
    if n > 0 {
      RunsEnd(text, n - 1);
    }
  }

  lemma NoWords(text: seq<byte>, runs: seq<Run>)
    requires |text| < TWO32
    requires forall r :: r in runs ==> r.start <= r.end <= |text|
    ensures RecordAll(text, runs) == map[] <==> runs == []
  {
    hide Hash, Word;
  }
}
