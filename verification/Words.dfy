/** What the tokenizer of hw2/fileparser.c finds in a text, as values. */
module Words {
  import opened Chains
  import opened Fnv

  predicate IsAlpha(c: byte) {
    'A' as byte <= c <= 'Z' as byte || 'a' as byte <= c <= 'z' as byte
  }

  function ToLower(c: byte): byte {
    if 'A' as byte <= c <= 'Z' as byte then c + 32 else c
  }

  /** The word at text[i..j], in lower case. */
  function Word(text: seq<byte>, i: nat, j: nat): seq<byte>
    requires i <= j <= |text|
  {
    seq(j - i, k requires 0 <= k < j - i => ToLower(text[i + k]))
  }

  /** text[i..j] is a maximal run of letters that ends before the end of the text. */
  ghost predicate IsRun(text: seq<byte>, i: nat, j: nat) {
    && i < j < |text|
    && (forall k :: i <= k < j ==> IsAlpha(text[k]))
    && (i == 0 || !IsAlpha(text[i - 1]))
    && !IsAlpha(text[j])
  }

  datatype Run = Run(start: nat, end: nat)

  /** Where the letters just before position j begin. */
  function RunStart(text: seq<byte>, j: nat): (i: nat)
    requires j <= |text|
    ensures i <= j && (forall k :: i <= k < j ==> IsAlpha(text[k])) && (i == 0 || !IsAlpha(text[i - 1]))
  {
    if j == 0 || !IsAlpha(text[j - 1]) then j else RunStart(text, j - 1)
  }

  predicate RunEndsAt(text: seq<byte>, j: nat)
    requires j < |text|
  {
    !IsAlpha(text[j]) && j > 0 && IsAlpha(text[j - 1])
  }

  /** The runs that end before position n, in order. */
  function Runs(text: seq<byte>, n: nat): seq<Run>
    requires n <= |text|
  {
    if n == 0 then []
    else if RunEndsAt(text, n - 1) then Runs(text, n - 1) + [Run(RunStart(text, n - 1), n - 1)]
    else Runs(text, n - 1)
  }

  lemma {:induction false} StartIsUnique(text: seq<byte>, i: nat, j: nat)
    requires i <= j <= |text| && (forall k :: i <= k < j ==> IsAlpha(text[k]))
    requires i == 0 || !IsAlpha(text[i - 1])
    ensures RunStart(text, j) == i
    decreases j
  {}

  /** The scan finds exactly the maximal runs of letters that end before position n. */
  lemma {:induction false} RunsAreMaximal(text: seq<byte>, n: nat, r: Run)
    requires n <= |text|
    ensures r in Runs(text, n) <==> IsRun(text, r.start, r.end) && r.end < n
  {
    if n > 0 {
      RunsAreMaximal(text, n - 1, r);
      if r.end == n - 1 && IsRun(text, r.start, r.end) {
        StartIsUnique(text, r.start, r.end);
      }
      if RunEndsAt(text, n - 1) && r == Run(RunStart(text, n - 1), n - 1) {
        assert r.start < r.end;
      }
    }
  }

  /** Runs come in order and do not touch. */
  lemma {:induction false} RunsAscend(text: seq<byte>, n: nat)
    requires n <= |text|
    ensures forall a, b :: 0 <= a < b < |Runs(text, n)| ==> Runs(text, n)[a].end < Runs(text, n)[b].start
    ensures forall a :: 0 <= a < |Runs(text, n)| ==> Runs(text, n)[a].start < Runs(text, n)[a].end < n
    ensures |Runs(text, n)| <= n
  {
    if n > 0 {
      RunsAscend(text, n - 1);
      if RunEndsAt(text, n - 1) {
        var i, before := RunStart(text, n - 1), Runs(text, n - 1);
        forall a | 0 <= a < |before|
          ensures before[a].end < i
        {
          RunsAreMaximal(text, n - 1, before[a]);
          assert before[a] in before && !IsAlpha(text[before[a].end]);
        }
      }
    }
  }

  /** Every maximal run of letters is found, the last one included, exactly when the text
      does not end inside a run. */
  lemma AllRunsFoundIff(text: seq<byte>)
    ensures (forall i: nat, j: nat :: MaximalRun(text, i, j) ==> Run(i, j) in Runs(text, |text|))
       <==> text == [] || !IsAlpha(text[|text| - 1])
  {
    var n := |text|;
    if text != [] && IsAlpha(text[n - 1]) {
      var i := RunStart(text, n);
      assert MaximalRun(text, i, n);
      RunsAreMaximal(text, n, Run(i, n));
    } else {
      forall i: nat, j: nat | MaximalRun(text, i, j)
        ensures Run(i, j) in Runs(text, n)
      {
        RunsAreMaximal(text, n, Run(i, j));
      }
    }
  }

  /** A maximal run of letters, wherever it ends. */
  ghost predicate MaximalRun(text: seq<byte>, i: nat, j: nat) {
    && i < j <= |text|
    && (forall k :: i <= k < j ==> IsAlpha(text[k]))
    && (i == 0 || !IsAlpha(text[i - 1]))
    && (j == |text| || !IsAlpha(text[j]))
  }

  /** WordPositions: a word and the offsets where it starts. */
  datatype Entry = Entry(word: seq<byte>, positions: seq<uint32>)

  type WordMap = map<uint64, Entry>

  /** AddToHashTable on values: the word is known only by its hash. */
  function Recorded(words: WordMap, word: seq<byte>, pos: uint32): WordMap {
    var h := Hash(word);
    if h in words then words[h := Entry(words[h].word, words[h].positions + [pos])]
    else words[h := Entry(word, [pos])]
  }

  function RecordAll(text: seq<byte>, runs: seq<Run>): WordMap
    requires |text| < TWO32
    requires forall r :: r in runs ==> r.start <= r.end <= |text|
  {
    if runs == [] then map[]
    else
      var r := runs[|runs| - 1];
      Recorded(RecordAll(text, runs[..|runs| - 1]), Word(text, r.start, r.end), r.start as uint32)
  }

  /** The start offsets, in order, of the runs whose word has the hash. */
  ghost function Starts(text: seq<byte>, runs: seq<Run>, h: uint64): seq<uint32>
    requires |text| < TWO32
    requires forall r :: r in runs ==> r.start <= r.end <= |text|
  {
    if runs == [] then []
    else
      var r, before := runs[|runs| - 1], Starts(text, runs[..|runs| - 1], h);
      if Hash(Word(text, r.start, r.end)) == h then before + [r.start as uint32] else before
  }

  /** Every word hash is listed with exactly the offsets of its runs. */
  lemma {:induction false} RecordedPositions(text: seq<byte>, runs: seq<Run>, h: uint64)
    requires |text| < TWO32
    requires forall r :: r in runs ==> r.start <= r.end <= |text|
    ensures var words := RecordAll(text, runs);
      && (h in words <==> Starts(text, runs, h) != [])
      && (h in words ==> words[h].positions == Starts(text, runs, h) && Hash(words[h].word) == h)
    decreases |runs|
  {
    hide Hash, Word;
    if runs != [] {
      RecordedPositions(text, runs[..|runs| - 1], h);
    }
  }

  lemma {:induction false} StartsMembers(text: seq<byte>, runs: seq<Run>, h: uint64, p: uint32)
    requires |text| < TWO32
    requires forall r :: r in runs ==> r.start <= r.end <= |text|
    ensures p in Starts(text, runs, h) <==>
      exists r :: r in runs && r.start == p as nat && Hash(Word(text, r.start, r.end)) == h
    decreases |runs|
  {
    hide Hash, Word;
    if runs != [] {
      var init, last := runs[..|runs| - 1], runs[|runs| - 1];
      assert runs == init + [last];
      StartsMembers(text, init, h, p);
    }
  }

  /** Runs in order give offsets in order. */
  lemma {:induction false} StartsAscend(text: seq<byte>, runs: seq<Run>, h: uint64)
    requires |text| < TWO32
    requires forall r :: r in runs ==> r.start <= r.end <= |text|
    requires forall a, b :: 0 <= a < b < |runs| ==> runs[a].start < runs[b].start
    ensures forall a, b :: 0 <= a < b < |Starts(text, runs, h)| ==> Starts(text, runs, h)[a] < Starts(text, runs, h)[b]
    ensures runs != [] ==> forall p :: p in Starts(text, runs, h) ==> p as nat <= runs[|runs| - 1].start
    decreases |runs|
  {
    hide Hash, Word;
    if runs != [] {
      var init := runs[..|runs| - 1];
      StartsAscend(text, init, h);
      var before := Starts(text, init, h);
      assert forall a :: 0 <= a < |before| ==> before[a] in before;
    }
  }

  /** Every stored position, as its word and its place in the list. */
  ghost function Stored(words: WordMap): set<(uint64, nat)> {
    set h, i | h in words && 0 <= i < |words[h].positions| :: (h, i)
  }

  /** Exactly one position is stored per run. */
  lemma {:induction false} OnePositionPerRun(text: seq<byte>, runs: seq<Run>)
    requires |text| < TWO32
    requires forall r :: r in runs ==> r.start <= r.end <= |text|
    ensures |Stored(RecordAll(text, runs))| == |runs|
    decreases |runs|
  {
    hide Hash, Word;
    if runs == [] {
      assert Stored(map[]) == {};
    } else {
      var init, r := runs[..|runs| - 1], runs[|runs| - 1];
      OnePositionPerRun(text, init);
      var before, h := RecordAll(text, init), Hash(Word(text, r.start, r.end));
      var place := if h in before then |before[h].positions| else 0;
      assert Stored(RecordAll(text, runs)) == Stored(before) + {(h, place)};
      assert (h, place) !in Stored(before);
    }
  }

  /** The runs of a text lie inside it. */
  lemma RunsInside(text: seq<byte>, n: nat)
    requires n <= |text|
    ensures forall r :: r in Runs(text, n) ==> r.start <= r.end <= |text|
  {}

  /** No two different words of the text share a hash. */
  ghost predicate NoCollisions(text: seq<byte>) {
    forall i: nat, j: nat, k: nat, l: nat :: (
      IsRun(text, i, j) && IsRun(text, k, l) && Hash(Word(text, i, j)) == Hash(Word(text, k, l))
      ==> Word(text, i, j) == Word(text, k, l))
  }

  /** The word w stands at position p of the text. */
  ghost predicate StandsAt(text: seq<byte>, w: seq<byte>, p: nat) {
    exists e: nat :: IsRun(text, p, e) && Word(text, p, e) == w
  }

  lemma {:induction false} StoredWordIsARun(text: seq<byte>, runs: seq<Run>, h: uint64)
    requires |text| < TWO32
    requires forall r :: r in runs ==> r.start <= r.end <= |text|
    requires h in RecordAll(text, runs)
    ensures exists r :: r in runs && Word(text, r.start, r.end) == RecordAll(text, runs)[h].word
    decreases |runs|
  {
    hide Hash, Word;
    var init, last := runs[..|runs| - 1], runs[|runs| - 1];
    assert runs == init + [last];
    if h in RecordAll(text, init) {
      StoredWordIsARun(text, init, h);
    } else {
      assert last in runs;
    }
  }

  /** Without collisions every word of the text is stored under its own spelling, with exactly
      the offsets of its runs, strictly ascending. */
  lemma EveryWordIndexed(text: seq<byte>, i: nat, j: nat)
    requires |text| < TWO32 && NoCollisions(text) && IsRun(text, i, j)
    requires forall r :: r in Runs(text, |text|) ==> r.start <= r.end <= |text|
    ensures var words, w := RecordAll(text, Runs(text, |text|)), Word(text, i, j);
      && Hash(w) in words && words[Hash(w)].word == w
      && (forall p :: p in words[Hash(w)].positions <==> StandsAt(text, w, p as nat))
      && (forall a, b :: 0 <= a < b < |words[Hash(w)].positions| ==>
           words[Hash(w)].positions[a] < words[Hash(w)].positions[b])
  {
    hide Hash, Word, Runs, RecordAll, Starts;
    var runs, w := Runs(text, |text|), Word(text, i, j);
    var h := Hash(w);
    RunsAreMaximal(text, |text|, Run(i, j));
    StartsMembers(text, runs, h, i as uint32);
    RecordedPositions(text, runs, h);
    StoredWordIsARun(text, runs, h);
    var s :| s in runs && Word(text, s.start, s.end) == RecordAll(text, runs)[h].word;
    RunsAreMaximal(text, |text|, s);
    RunsAscend(text, |text|);
    StartsAscend(text, runs, h);
    forall p: uint32
      ensures p in Starts(text, runs, h) <==> StandsAt(text, w, p as nat)
    {
      StartsMembers(text, runs, h, p);
      if p in Starts(text, runs, h) {
        var r :| r in runs && r.start == p as nat && Hash(Word(text, r.start, r.end)) == h;
        RunsAreMaximal(text, |text|, r);
      }
      if StandsAt(text, w, p as nat) {
        var e: nat :| IsRun(text, p as nat, e) && Word(text, p as nat, e) == w;
        RunsAreMaximal(text, |text|, Run(p as nat, e));
      }
    }
  }
}
