/** The scans of cpplint.py over the lines of a file, from and to a round, square or curly bracket. */
module FileScans {
  import opened Brackets
  import opened LineScans
  import opened LineTexts

  /** A position in a file, or none. */
  datatype Spot = Spot(line: nat, pos: nat) | Nowhere

  /** The scan from position i of line l to the end of the file. */
  function LinesForward(stack: string, lines: seq<string>, l: nat, i: nat): Spot
    requires l < |lines| && i <= |lines[l]|
    decreases |lines| - l
  {
    match LineForward(stack, lines[l], i)
    case Closed(e) => Spot(l, e)
    case Broken => Nowhere
    case Pending(next) => if next == [] || l + 1 >= |lines| then Nowhere else LinesForward(next, lines, l + 1, 0)
  }

  /** The scan from position i of line l back to the beginning of the file. */
  function LinesBackward(stack: string, lines: seq<string>, l: nat, i: int): Spot
    requires l < |lines| && -1 <= i < |lines[l]|
    decreases l
  {
    match LineBackward(stack, lines[l], i)
    case Closed(p) => Spot(l, p)
    case Broken => Nowhere
    case Pending(next) => if next == [] || l == 0 then Nowhere else LinesBackward(next, lines, l - 1, |lines[l - 1]| - 1)
  }

  /** The match of <[<=] at position i. */
  predicate ShiftOrAtMost(line: string, i: nat)
    requires i < |line|
  {
    line[i] == '<' && i + 1 < |line| && (line[i + 1] == '<' || line[i + 1] == '=')
  }

  function EndFound(lines: seq<string>, linenum: nat, pos: nat): Spot
    requires linenum < |lines| && pos < |lines[linenum]|
  {
    var line := lines[linenum];
    if !(IsOpen(line[pos]) || line[pos] == '<') || ShiftOrAtMost(line, pos) then Nowhere
    else LinesForward([], lines, linenum, pos)
  }

  function StartFound(lines: seq<string>, linenum: nat, pos: nat): Spot
    requires linenum < |lines| && pos < |lines[linenum]|
  {
    if !(IsClose(lines[linenum][pos]) || lines[linenum][pos] == '>') then Nowhere
    else LinesBackward([], lines, linenum, pos)
  }

  /** Some bracket closes the one here. */
  ghost predicate Opens(lines: seq<string>, linenum: nat, pos: nat)
    requires linenum < |lines|
  {
    exists b: nat :: Matches(Flat(lines), At(lines, linenum, pos), b)
  }

  /** The bracket here closes some bracket. */
  ghost predicate Closes(lines: seq<string>, linenum: nat, pos: nat)
    requires linenum < |lines|
  {
    var b := At(lines, linenum, pos + 1);
    exists a: nat :: Matches(Flat(lines), a, b)
  }

  /** One line more. */
  lemma NextLine(stack: string, lines: seq<string>, l: nat, i: nat)
    requires l < |lines| && i <= |lines[l]|
    ensures LinesForward(stack, lines, l, i) ==
      match LineForward(stack, lines[l], i)
      case Closed(e) => Spot(l, e)
      case Broken => Nowhere
      case Pending(next) => if next == [] || l + 1 >= |lines| then Nowhere else LinesForward(next, lines, l + 1, 0)
  {}

  lemma PreviousLine(stack: string, lines: seq<string>, l: nat, i: int)
    requires l < |lines| && -1 <= i < |lines[l]|
    ensures LinesBackward(stack, lines, l, i) ==
      match LineBackward(stack, lines[l], i)
      case Closed(p) => Spot(l, p)
      case Broken => Nowhere
      case Pending(next) => if next == [] || l == 0 then Nowhere else LinesBackward(next, lines, l - 1, |lines[l - 1]| - 1)
  {}

  // ---- Towards the end ----

  /** The scan of the text from a on, when the lines before line l are read and the stack is left. */
  lemma {:induction false} RoundLines(stack: string, lines: seq<string>, l: nat, a: nat)
    requires RoundStack(stack, true) && l < |lines| && a < Offset(lines, l) <= |Flat(lines)|
    requires ScanForward([], Flat(lines)[a..Offset(lines, l)]) == Pending(Rounds(stack))
    ensures match LinesForward(stack, lines, l, 0)
            case Spot(k, e) => RoundFound(lines, a, k, e)
            case Nowhere => !ScanForward([], Flat(lines)[a..]).Closed?
    decreases |lines| - l
  {
    hide Flat, Offset, ScanForward, LineForward, RoundStack, Rounds;
    RoundLineForward(stack, lines[l], 0);
    OneLineOn(lines, l, Flat(lines), a);
    match LineForward(stack, lines[l], 0)
    case Closed(e) =>
    case Broken => ScannedToEnd(lines, l, a);
    case Pending(next) => {
      NotEmpty(next);
      if l + 1 == |lines| {
        ScannedToEnd(lines, l, a);
      } else {
        RoundLines(next, lines, l + 1, a);
      }
    }
  }

  lemma NotEmpty(stack: string)
    requires RoundStack(stack, true) || RoundStack(stack, false)
    ensures stack != []
  {}

  ghost predicate RoundFound(lines: seq<string>, a: nat, k: nat, e: nat) {
    && k < |lines| && 0 < e <= |lines[k]| && a < Offset(lines, k + 1) <= |Flat(lines)|
    && a < At(lines, k, e) && ScanForward([], Flat(lines)[a..Offset(lines, k + 1)]) == Closed(At(lines, k, e) - a)
  }

  /** The first bracket of a scan. */
  lemma FirstForward(line: string, i: nat)
    requires i < |line| && IsOpen(line[i])
    ensures LineForward([], line, i) == LineForward([line[i]], line, i + 1)
    ensures ScanForward([], line[i..]) == Further(ScanForward([line[i]], line[i + 1..]))
    ensures RoundStack([line[i]], true) && Rounds([line[i]]) == [line[i]]
  {
    hide LineForward, ScanForward, Rounds;
    assert [] + [line[i]] == [line[i]];
    OneForward([], line, i);
    StepOne([], line, i);
    RoundsOfOne([line[i]]);
  }

  /** What the scan of its own line says about an opening bracket. */
  lemma FirstLine(line: string, pos: nat)
    requires pos < |line| && IsOpen(line[pos])
    ensures match LineForward([], line, pos)
            case Broken => ScanForward([], line[pos..]) == Broken
            case Closed(e) => pos + 1 < e <= |line| && ScanForward([], line[pos..]) == Closed(e - pos)
            case Pending(next) => RoundStack(next, true) && ScanForward([], line[pos..]) == Pending(Rounds(next))
  {
    hide ScanForward, LineForward, RoundStack, Rounds;
    FirstForward(line, pos);
    RoundLineForward([line[pos]], line, pos + 1);
  }

  /** From an opening bracket the scan finds its match, or there is none. */
  lemma RoundEnd(lines: seq<string>, linenum: nat, pos: nat)
    requires linenum < |lines| && pos < |lines[linenum]| && IsOpen(lines[linenum][pos])
    ensures var s := LinesForward([], lines, linenum, pos);
      if s == Nowhere then !Opens(lines, linenum, pos)
      else s.line < |lines| && 0 < s.pos <= |lines[s.line]| && Matches(Flat(lines), At(lines, linenum, pos), At(lines, s.line, s.pos))
  {
    hide Flat, Matches, ScanForward, Offset, LineForward, RoundStack, Rounds, LinesForward;
    var line, text, a := lines[linenum], Flat(lines), At(lines, linenum, pos);
    FromHere(lines, linenum, pos);
    FirstLine(line, pos);
    NextLine([], lines, linenum, pos);
    match LineForward([], line, pos)
    case Closed(e) => ClosedAt(text, a, Offset(lines, linenum + 1), At(lines, linenum, e));
    case Broken => {
      ScannedToEnd(lines, linenum, a);
      NeverClosed(text, a);
    }
    case Pending(next) => {
      NotEmpty(next);
      if linenum + 1 == |lines| {
        ScannedToEnd(lines, linenum, a);
        NeverClosed(text, a);
      } else {
        RoundLines(next, lines, linenum + 1, a);
        match LinesForward(next, lines, linenum + 1, 0)
        case Spot(k, e) => ClosedAt(text, a, Offset(lines, k + 1), At(lines, k, e));
        case Nowhere => NeverClosed(text, a);
      }
    }
  }

  lemma OneLineOn(lines: seq<string>, l: nat, text: string, a: nat)
    requires l < |lines| && text == Flat(lines) && a < Offset(lines, l) <= |text|
    ensures lines[l][0..] == lines[l]
    ensures Offset(lines, l + 1) == Offset(lines, l) + |lines[l]| <= |text|
    ensures ScanForward([], text[a..Offset(lines, l + 1)]) ==
      match ScanForward([], text[a..Offset(lines, l)])
      case Pending(next) => Then(ScanForward(next, lines[l]), Offset(lines, l) - a)
      case other => other
  {
    hide Flat, Offset, ScanForward;
    LineAt(lines, l);
    assert text[a..Offset(lines, l + 1)] == text[a..Offset(lines, l)] + lines[l];
    ScanSplit([], text[a..Offset(lines, l)], lines[l]);
  }

  lemma NeverOpened(text: string, a: nat)
    requires a < |text| && !IsOpen(text[a])
    ensures forall b: nat :: !Matches(text, a, b)
  {}

  lemma DropFront(text: string, a: nat, c: nat, b: nat)
    requires a < b <= c <= |text|
    ensures Matches(text, a, b) <==> Matches(text[a..c], 0, b - a)
  {
    if a + 1 < b {
      SliceOfSlice(text, a, c, 1, b - a - 1);
    }
  }

  /** The scan of the text from a up to c stopped at b. */
  lemma ClosedAt(text: string, a: nat, c: nat, b: nat)
    requires a < b && a < c <= |text| && IsOpen(text[a]) && ScanForward([], text[a..c]) == Closed(b - a)
    ensures b <= c && Matches(text, a, b)
  {
    hide ScanForward, Matches;
    ForwardFindsMatch(text[a..c], b - a);
    DropFront(text, a, c, b);
  }

  lemma ScannedToEnd(lines: seq<string>, l: nat, a: nat)
    requires l < |lines| && a < Offset(lines, l + 1) <= |Flat(lines)|
    requires var r := ScanForward([], Flat(lines)[a..Offset(lines, l + 1)]);
      r == Broken || (l == |lines| - 1 && r.Pending?)
    ensures !ScanForward([], Flat(lines)[a..]).Closed?
  {
    hide ScanForward;
    var text, after := Flat(lines), Offset(lines, l + 1);
    assert text[a..] == text[a..after] + text[after..];
    ScanSplit([], text[a..after], text[after..]);
    if l == |lines| - 1 {
      assert lines[..|lines|] == lines && text[a..after] == text[a..];
    }
  }

  lemma NeverClosed(text: string, a: nat)
    requires a < |text| && IsOpen(text[a]) && !ScanForward([], text[a..]).Closed?
    ensures forall b: nat :: !Matches(text, a, b)
  {
    hide ScanForward, Matches;
    forall b: nat
      ensures !Matches(text, a, b)
    {
      if a < b <= |text| {
        ForwardFindsMatch(text[a..], b - a);
        assert text[a..|text|] == text[a..];
        DropFront(text, a, |text|, b);
      } else {
        OutsideText(text, a, b);
      }
    }
  }

  lemma OutsideText(text: string, a: nat, b: nat)
    requires !(a < b <= |text|)
    ensures !Matches(text, a, b)
  {}

  // ---- Towards the start ----

  lemma {:induction false} RoundLinesBack(stack: string, lines: seq<string>, l: nat, b: nat)
    requires RoundStack(stack, false) && l < |lines| && Offset(lines, l + 1) < b <= |Flat(lines)|
    requires ScanBackward([], Flat(lines)[Offset(lines, l + 1)..b]) == Pending(Rounds(stack))
    ensures match LinesBackward(stack, lines, l, |lines[l]| - 1)
            case Spot(k, p) => RoundStartFound(lines, b, k, p)
            case Nowhere => !ScanBackward([], Flat(lines)[..b]).Closed?
    decreases l
  {
    hide Flat, Offset, ScanBackward, LineBackward, RoundStack, Rounds;
    RoundLineBackward(stack, lines[l], |lines[l]| - 1);
    OneLineBack(lines, l, Flat(lines), b);
    match LineBackward(stack, lines[l], |lines[l]| - 1)
    case Closed(p) =>
    case Broken => ScannedToStart(lines, l, b);
    case Pending(next) => {
      NotEmpty(next);
      if l == 0 {
        ScannedToStart(lines, l, b);
      } else {
        RoundLinesBack(next, lines, l - 1, b);
      }
    }
  }

  ghost predicate RoundStartFound(lines: seq<string>, b: nat, k: nat, p: nat) {
    && k < |lines| && p < |lines[k]| && Offset(lines, k) < b <= |Flat(lines)|
    && At(lines, k, p) < b && ScanBackward([], Flat(lines)[Offset(lines, k)..b]) == Closed(b - At(lines, k, p))
  }

  lemma FirstBackward(line: string, i: nat)
    requires i < |line| && IsClose(line[i])
    ensures LineBackward([], line, i) == LineBackward([line[i]], line, i - 1)
    ensures ScanBackward([], line[..i + 1]) == Further(ScanBackward([line[i]], line[..i]))
    ensures RoundStack([line[i]], false) && Rounds([line[i]]) == [line[i]]
  {
    hide LineBackward, ScanBackward, Rounds;
    assert [] + [line[i]] == [line[i]];
    Kinds(line[i]);
    OneBackward([], line, i);
    StepOneBack([], line, i);
    RoundsOfOne([line[i]]);
  }

  lemma LastLine(line: string, pos: nat)
    requires pos < |line| && IsClose(line[pos])
    ensures match LineBackward([], line, pos)
            case Broken => ScanBackward([], line[..pos + 1]) == Broken
            case Closed(p) => p < pos && ScanBackward([], line[..pos + 1]) == Closed(pos + 1 - p)
            case Pending(next) => RoundStack(next, false) && ScanBackward([], line[..pos + 1]) == Pending(Rounds(next))
  {
    hide ScanBackward, LineBackward, RoundStack, Rounds;
    FirstBackward(line, pos);
    RoundLineBackward([line[pos]], line, pos - 1);
    assert line[..pos - 1 + 1] == line[..pos];
  }

  /** From a closing bracket the scan finds its match, or there is none. */
  lemma RoundStart(lines: seq<string>, linenum: nat, pos: nat)
    requires linenum < |lines| && pos < |lines[linenum]| && IsClose(lines[linenum][pos])
    ensures var s := LinesBackward([], lines, linenum, pos);
      if s == Nowhere then !Closes(lines, linenum, pos)
      else s.line < |lines| && s.pos < |lines[s.line]| && Matches(Flat(lines), At(lines, s.line, s.pos), At(lines, linenum, pos + 1))
  {
    hide Flat, Matches, ScanBackward, Offset, LineBackward, RoundStack, Rounds, LinesBackward;
    var line, text, b := lines[linenum], Flat(lines), At(lines, linenum, pos + 1);
    UpToHere(lines, linenum, pos);
    LastLine(line, pos);
    PreviousLine([], lines, linenum, pos);
    match LineBackward([], line, pos)
    case Closed(p) => OpenedAt(text, b, Offset(lines, linenum), At(lines, linenum, p));
    case Broken => {
      ScannedToStart(lines, linenum, b);
      NeverOpenedBack(text, b);
    }
    case Pending(next) => {
      NotEmpty(next);
      if linenum == 0 {
        ScannedToStart(lines, linenum, b);
        NeverOpenedBack(text, b);
      } else {
        RoundLinesBack(next, lines, linenum - 1, b);
        match LinesBackward(next, lines, linenum - 1, |lines[linenum - 1]| - 1)
        case Spot(k, p) => OpenedAt(text, b, Offset(lines, k), At(lines, k, p));
        case Nowhere => NeverOpenedBack(text, b);
      }
    }
  }

  lemma OneLineBack(lines: seq<string>, l: nat, text: string, b: nat)
    requires l < |lines| && text == Flat(lines) && Offset(lines, l + 1) < b <= |text|
    ensures lines[l][..|lines[l]| - 1 + 1] == lines[l]
    ensures Offset(lines, l + 1) == Offset(lines, l) + |lines[l]| <= |text|
    ensures ScanBackward([], text[Offset(lines, l)..b]) ==
      match ScanBackward([], text[Offset(lines, l + 1)..b])
      case Pending(next) => Then(ScanBackward(next, lines[l]), b - Offset(lines, l + 1))
      case other => other
  {
    hide Flat, Offset, ScanBackward;
    LineAt(lines, l);
    assert text[Offset(lines, l)..b] == lines[l] + text[Offset(lines, l + 1)..b];
    ScanBackSplit([], lines[l], text[Offset(lines, l + 1)..b]);
  }

  lemma NoCloser(text: string, b: nat)
    requires 0 < b <= |text| && !IsClose(text[b - 1])
    ensures forall a: nat :: !Matches(text, a, b)
  {}

  /** The scan of the text from b down to c stopped at a. */
  lemma OpenedAt(text: string, b: nat, c: nat, a: nat)
    requires a < b && c < b <= |text| && IsClose(text[b - 1]) && ScanBackward([], text[c..b]) == Closed(b - a)
    ensures c <= a && Matches(text, a, b)
  {
    hide ScanBackward, Matches;
    BackwardFindsMatch(text[c..b], b - a);
    DropBack(text, c, a, b);
  }

  lemma DropBack(text: string, c: nat, a: nat, b: nat)
    requires c <= a < b <= |text|
    ensures Matches(text, a, b) <==> Matches(text[c..b], a - c, b - c)
  {
    if a + 1 < b {
      SliceOfSlice(text, c, b, a - c + 1, b - c - 1);
    }
  }

  lemma ScannedToStart(lines: seq<string>, l: nat, b: nat)
    requires l < |lines| && Offset(lines, l) < b <= |Flat(lines)|
    requires var r := ScanBackward([], Flat(lines)[Offset(lines, l)..b]);
      r == Broken || (l == 0 && r.Pending?)
    ensures !ScanBackward([], Flat(lines)[..b]).Closed?
  {
    hide ScanBackward;
    var text, from := Flat(lines), Offset(lines, l);
    assert text[..b] == text[..from] + text[from..b];
    ScanBackSplit([], text[..from], text[from..b]);
    if l == 0 {
      assert lines[..0] == [] && text[from..b] == text[..b];
    }
  }

  lemma NeverOpenedBack(text: string, b: nat)
    requires 0 < b <= |text| && IsClose(text[b - 1]) && !ScanBackward([], text[..b]).Closed?
    ensures forall a: nat :: !Matches(text, a, b)
  {
    hide ScanBackward, Matches;
    forall a: nat
      ensures !Matches(text, a, b)
    {
      if a < b {
        BackwardFindsMatch(text[..b], b - a);
        assert text[0..b] == text[..b];
        DropBack(text, 0, a, b);
      } else {
        OutsideText(text, a, b);
      }
    }
  }

  lemma MatchIsUnique(text: string, a: nat, b: nat, c: nat, d: nat)
    requires Matches(text, a, b) && Matches(text, c, d) && (a == c || b == d)
    ensures a == c && b == d
  {
    hide ScanForward, ScanBackward;
    if a == c {
      ForwardFindsMatch(text[a..], b - a);
      ForwardFindsMatch(text[a..], d - a);
      assert text[a..|text|] == text[a..];
      DropFront(text, a, |text|, b);
      DropFront(text, a, |text|, d);
    } else {
      BackwardFindsMatch(text[..b], b - a);
      BackwardFindsMatch(text[..b], b - c);
      assert text[0..b] == text[..b];
      DropBack(text, 0, a, b);
      DropBack(text, 0, c, b);
    }
  }
}
