/** What a word of a text is, byte by byte: the words that the search engine finds are runs of ASCII letters,
    and their case does not matter. */
module TextLaws {
  import opened Chains
  import opened Fnv
  import opened Words
  import opened FileParsers
  import opened FileCrawlers

  /** A letter of a text and the letter of a word that it stands for. */
  ghost predicate StandsFor(c: byte, w: byte) {
    97 <= w <= 122 && (c == w || (65 <= c <= 90 && c + 32 == w))
  }

  /** The word, in lower case, at position p of the text, with no letter on either side and something behind it. */
  ghost predicate SpellsAt(text: seq<byte>, w: seq<byte>, p: nat) {
    && w != [] && p + |w| < |text|
    && (forall k :: 0 <= k < |w| ==> StandsFor(text[p + k], w[k]))
    && (p > 0 ==> !Letter(text[p - 1])) && !Letter(text[p + |w|])
  }

  /** Where a word stands in a text. */
  ghost function Places(text: seq<byte>, w: seq<byte>): set<nat> {
    set p: nat | p < |text| && SpellsAt(text, w, p)
  }

  lemma RunIff(text: seq<byte>, i: nat, j: nat)
    ensures IsRun(text, i, j) <==>
      && i < j < |text| && (forall k :: i <= k < j ==> Letter(text[k]))
      && (i > 0 ==> !Letter(text[i - 1])) && !Letter(text[j])
  {}

  lemma RunSpells(text: seq<byte>, i: nat, j: nat)
    requires IsRun(text, i, j)
    ensures SpellsAt(text, Word(text, i, j), i)
  {
    var w := Word(text, i, j);
    forall k | 0 <= k < |w|
      ensures StandsFor(text[i + k], w[k])
    {
      assert IsAlpha(text[i + k]) && w[k] == ToLower(text[i + k]);
    }
  }

  lemma SpellsRun(text: seq<byte>, w: seq<byte>, p: nat)
    requires SpellsAt(text, w, p)
    ensures IsRun(text, p, p + |w|) && Word(text, p, p + |w|) == w
  {
    forall k | p <= k < p + |w|
      ensures IsAlpha(text[k]) && ToLower(text[k]) == w[k - p]
    {
      assert StandsFor(text[p + (k - p)], w[k - p]);
    }
    var word := Word(text, p, p + |w|);
    forall k | 0 <= k < |w|
      ensures word[k] == w[k]
    {
      assert ToLower(text[p + k]) == w[p + k - p];
    }
  }

  /** A word stands where it is spelled out. */
  lemma StandsIff(text: seq<byte>, w: seq<byte>, p: nat)
    ensures StandsAt(text, w, p) <==> SpellsAt(text, w, p)
    ensures p in Places(text, w) <==> SpellsAt(text, w, p)
  {
    hide Word;
    if StandsAt(text, w, p) {
      var e: nat :| IsRun(text, p, e) && Word(text, p, e) == w;
      RunSpells(text, p, e);
    }
    if SpellsAt(text, w, p) {
      SpellsRun(text, w, p);
    }
  }

  /** Every word that a table stores is one of lower-case letters. */
  lemma StoredInLowerCase(text: seq<byte>, h: uint64)
    requires |text| < TWO32 && h in WordsOf(text)
    ensures WordsOf(text)[h].word != [] && forall c :: c in WordsOf(text)[h].word ==> 97 <= c <= 122
  {
    hide Hash, IsRun, Word, Runs, RecordAll;
    var runs := Runs(text, |text|);
    RunsInside(text, |text|);
    StoredWordIsARun(text, runs, h);
    var r :| r in runs && Word(text, r.start, r.end) == RecordAll(text, runs)[h].word;
    RunsAreMaximal(text, |text|, r);
    RunSpells(text, r.start, r.end);
    var w := Word(text, r.start, r.end);
    forall c | c in w
      ensures 97 <= c <= 122
    {
      var k :| 0 <= k < |w| && w[k] == c;
      assert StandsFor(text[r.start + k], w[k]);
    }
  }

  // ---- The case of letters ----

  /** One byte is the other, or the same letter in the other case. */
  ghost predicate SameLetter(a: byte, b: byte) {
    a == b || (65 <= a <= 90 && b == a + 32) || (65 <= b <= 90 && a == b + 32)
  }

  ghost predicate SameButForCase(a: seq<byte>, b: seq<byte>) {
    |a| == |b| && forall k :: 0 <= k < |a| ==> SameLetter(a[k], b[k])
  }

  lemma SameKind(a: byte, b: byte)
    requires SameLetter(a, b)
    ensures IsAlpha(a) == IsAlpha(b) && ToLower(a) == ToLower(b)
  {}

  lemma SameAt(a: seq<byte>, b: seq<byte>, k: nat)
    requires SameButForCase(a, b) && k < |a|
    ensures IsAlpha(a[k]) == IsAlpha(b[k]) && ToLower(a[k]) == ToLower(b[k])
  {
    SameKind(a[k], b[k]);
  }

  lemma {:induction false} SameStart(a: seq<byte>, b: seq<byte>, j: nat)
    requires SameButForCase(a, b) && j <= |a|
    ensures RunStart(a, j) == RunStart(b, j)
  {
    hide IsAlpha, SameLetter;
    if j > 0 {
      SameAt(a, b, j - 1);
      SameStart(a, b, j - 1);
    }
  }

  lemma {:induction false} SameRuns(a: seq<byte>, b: seq<byte>, n: nat)
    requires SameButForCase(a, b) && n <= |a|
    ensures Runs(a, n) == Runs(b, n)
  {
    hide IsAlpha, SameLetter, RunStart;
    if n > 0 {
      SameRuns(a, b, n - 1);
      SameAt(a, b, n - 1);
      SameStart(a, b, n - 1);
      if n > 1 {
        SameAt(a, b, n - 2);
      }
    }
  }

  lemma SameWord(a: seq<byte>, b: seq<byte>, i: nat, j: nat)
    requires SameButForCase(a, b) && i <= j <= |a|
    ensures Word(a, i, j) == Word(b, i, j)
  {
    hide ToLower, SameLetter;
    forall k | 0 <= k < j - i
      ensures Word(a, i, j)[k] == Word(b, i, j)[k]
    {
      SameAt(a, b, i + k);
    }
  }

  lemma {:induction false} SameRecords(a: seq<byte>, b: seq<byte>, runs: seq<Run>)
    requires SameButForCase(a, b) && |a| < TWO32
    requires forall r :: r in runs ==> r.start <= r.end <= |a|
    ensures RecordAll(a, runs) == RecordAll(b, runs)
    decreases |runs|
  {
    hide Hash, Word, SameButForCase, Recorded;
    if runs != [] {
      var r := runs[|runs| - 1];
      SameLengths(a, b);
      SameRecords(a, b, runs[..|runs| - 1]);
      SameWord(a, b, r.start, r.end);
    } else {
      SameLengths(a, b);
    }
  }

  lemma SameLengths(a: seq<byte>, b: seq<byte>)
    requires SameButForCase(a, b)
    ensures |a| == |b|
  {}

  /** The case of the letters of a text changes neither the words that are stored nor their places. */
  lemma CaseDoesNotMatter(a: seq<byte>, b: seq<byte>)
    requires SameButForCase(a, b) && |a| < TWO32
    ensures |b| < TWO32 && WordsOf(a) == WordsOf(b) && forall w :: Places(a, w) == Places(b, w)
  {
    hide Runs, RecordAll, SameButForCase, StandsAt, SpellsAt;
    SameLengths(a, b);
    SameRuns(a, b, |a|);
    RunsInside(a, |a|);
    SameRecords(a, b, Runs(a, |a|));
    forall w
      ensures Places(a, w) == Places(b, w)
    {
      forall p: nat
        ensures SpellsAt(a, w, p) == SpellsAt(b, w, p)
      {
        StandsIff(a, w, p);
        StandsIff(b, w, p);
        SamePlace(a, b, w, p);
        SameTheOtherWay(a, b);
        SamePlace(b, a, w, p);
      }
    }
  }

  lemma SameTheOtherWay(a: seq<byte>, b: seq<byte>)
    requires SameButForCase(a, b)
    ensures SameButForCase(b, a)
  {}

  lemma SamePlace(a: seq<byte>, b: seq<byte>, w: seq<byte>, p: nat)
    requires SameButForCase(a, b)
    ensures StandsAt(a, w, p) ==> StandsAt(b, w, p)
  {
    hide IsAlpha, ToLower, SameLetter;
    if StandsAt(a, w, p) {
      var e: nat :| IsRun(a, p, e) && Word(a, p, e) == w;
      forall k | 0 <= k < |a|
        ensures IsAlpha(a[k]) == IsAlpha(b[k])
      {
        SameAt(a, b, k);
      }
      SameWord(a, b, p, e);
    }
  }

  lemma HelloAt(text: seq<byte>, hello: seq<byte>, p: nat)
    requires text == [72, 101, 108, 108, 111, 32, 119, 111, 114, 108, 100, 32] && hello == [104, 101, 108, 108, 111]
    ensures SpellsAt(text, hello, p) <==> p == 0
  {
    if SpellsAt(text, hello, p) {
      assert StandsFor(text[p + 0], hello[0]);
    }
  }

  lemma WorldAt(text: seq<byte>, world: seq<byte>, p: nat)
    requires text == [72, 101, 108, 108, 111, 32, 119, 111, 114, 108, 100, 32] && world == [119, 111, 114, 108, 100]
    ensures SpellsAt(text, world, p) <==> p == 6
  {
    if SpellsAt(text, world, p) {
      assert StandsFor(text[p + 0], world[0]);
    }
  }

  /** A word with a byte that is no lower-case letter stands nowhere. */
  lemma UpperCaseNowhere(text: seq<byte>, w: seq<byte>, k: nat)
    requires k < |w| && !(97 <= w[k] <= 122)
    ensures Places(text, w) == {}
  {
    hide Places, SpellsAt;
    forall p: nat
      ensures p !in Places(text, w)
    {
      StandsIff(text, w, p);
      NotSpelled(text, w, k, p);
    }
  }

  lemma NotSpelled(text: seq<byte>, w: seq<byte>, k: nat, p: nat)
    requires k < |w| && !(97 <= w[k] <= 122)
    ensures !SpellsAt(text, w, p)
  {}

  /** An example: the words hello and world in the text "Hello world ". */
  lemma HelloWorld(text: seq<byte>, hello: seq<byte>, world: seq<byte>)
    requires text == [72, 101, 108, 108, 111, 32, 119, 111, 114, 108, 100, 32]
    requires hello == [104, 101, 108, 108, 111] && world == [119, 111, 114, 108, 100]
    ensures Places(text, hello) == {0} && Places(text, world) == {6}
  {
    hide Places, SpellsAt;
    forall p: nat
      ensures p in Places(text, hello) <==> p == 0
      ensures p in Places(text, world) <==> p == 6
    {
      StandsIff(text, hello, p);
      StandsIff(text, world, p);
      HelloAt(text, hello, p);
      WorldAt(text, world, p);
    }
  }
}
