/** How cpplint.py reads one line when it looks for the end or the start of an expression: which
    angle brackets may delimit template arguments, and what every character does to the stack. */
module LineScans {
  import opened LinkedLists
  import opened Brackets

  predicate IsSpace(c: char) {
    c == ' ' || c == '\t' || c == '\n' || c == '\r' || c == '\U{0B}' || c == '\U{0C}'
  }

  predicate IsWordCharacter(c: char) {
    'a' <= c <= 'z' || 'A' <= c <= 'Z' || '0' <= c <= '9' || c == '_'
  }

  /** The search for \boperator\s*$. */
  predicate EndsInOperator(s: string) {
    var n := |s|;
    if n > 0 && IsSpace(s[n - 1]) then EndsInOperator(s[..n - 1])
    else n >= 8 && s[n - 8..] == "operator" && (n == 8 || !IsWordCharacter(s[n - 9]))
  }

  /** The match of \s>=\s around position i. */
  predicate SpacedAtLeast(line: string, i: nat)
    requires i < |line|
  {
    i > 0 && i + 2 < |line| && IsSpace(line[i - 1]) && line[i] == '>' && line[i + 1] == '=' && IsSpace(line[i + 2])
  }

  /** What a character is to a scan. A Skip also passes over the character behind it. */
  datatype Role = Push(c: char) | Pop(c: char) | AnglePop | Shift | Semicolon | Skip | Plain

  function RoleForward(line: string, i: nat): Role
    requires i < |line|
  {
    var c := line[i];
    if IsOpen(c) then Push(c)
    else if c == '<' then
      if i > 0 && line[i - 1] == '<' then Shift
      else if i > 0 && EndsInOperator(line[..i]) then Plain
      else Push('<')
    else if IsClose(c) then Pop(c)
    else if c == '>' then
      if i > 0 && (line[i - 1] == '-' || EndsInOperator(line[..i - 1])) then Plain else AnglePop
    else if c == ';' then Semicolon
    else Plain
  }

  function RoleBackward(line: string, i: nat): Role
    requires i < |line|
    ensures RoleBackward(line, i) == Skip ==> i > 0
  {
    var c := line[i];
    if IsClose(c) then Push(c)
    else if c == '>' then
      if i > 0 && (line[i - 1] == '-' || SpacedAtLeast(line, i) || EndsInOperator(line[..i])) then Skip else Push('>')
    else if c == '<' then
      if i > 0 && line[i - 1] == '<' then Skip else AnglePop
    else if IsOpen(c) then Pop(c)
    else if c == ';' then Semicolon
    else Plain
  }

  predicate IsAngle(c: char) { c == '<' || c == '>' }

  /** The stack without the angle brackets at its top: they were operators. */
  function DropAngles(stack: string, angle: char): (s: string)
    ensures s <= stack && (s != [] ==> s[|s| - 1] != angle)
  {
    if stack != [] && stack[|stack| - 1] == angle then DropAngles(stack[..|stack| - 1], angle) else stack
  }

  /** Two brackets of a kind, in either order. */
  predicate Pair(a: char, b: char) {
    (IsOpen(a) && b == Closer(a)) || (IsOpen(b) && a == Closer(b))
  }

  datatype Outcome = Go(stack: string) | Found | Stop

  /** The stack without its top; emptying it ends the scan. */
  function Popped(stack: string, last: Outcome): Outcome {
    if |stack| <= 1 then last else Go(stack[..|stack| - 1])
  }

  /** One character of a scan whose stack may hold the given angle bracket. */
  function Turn(stack: string, role: Role, angle: char): Outcome {
    var angled := stack != [] && stack[|stack| - 1] == angle;
    match role
    case Push(c) => Go(stack + [c])
    case Pop(c) =>
      var s := DropAngles(stack, angle);
      if s == [] || !Pair(s[|s| - 1], c) then Stop else Popped(s, Outcome.Found)
    case AnglePop => if angled then Popped(stack, Outcome.Found) else Go(stack)
    case Shift => if angled then Popped(stack, Stop) else Go(stack)
    case Semicolon =>
      var s := DropAngles(stack, angle);
      if s == [] then Stop else Go(s)
    case _ => Go(stack)
  }

  /** The scan of a line from position i on: Closed gives the position past the end found. */
  function LineForward(stack: string, line: string, i: nat): Scan
    requires i <= |line|
    decreases |line| - i
  {
    if i == |line| then Pending(stack)
    else match Turn(stack, RoleForward(line, i), '<')
      case Stop => Broken
      case Found => Closed(i + 1)
      case Go(next) => LineForward(next, line, i + 1)
  }

  /** The scan from position i down: Closed gives the position of the start found. */
  function LineBackward(stack: string, line: string, i: int): Scan
    requires -1 <= i < |line|
    decreases i + 1
  {
    if i < 0 then Pending(stack)
    else
      var role := RoleBackward(line, i);
      match Turn(stack, role, '>')
      case Stop => Broken
      case Found => Closed(i)
      case Go(next) => LineBackward(next, line, if role == Skip then i - 2 else i - 1)
  }

  // ---- Round, square and curly brackets are not disturbed by angle brackets ----

  /** The stack without angle brackets. */
  ghost function Rounds(stack: string): string {
    if stack == [] then []
    else
      var init, last := Rounds(stack[..|stack| - 1]), stack[|stack| - 1];
      if IsAngle(last) then init else init + [last]
  }

  lemma RoundsPush(stack: string, c: char)
    ensures Rounds(stack + [c]) == if IsAngle(c) then Rounds(stack) else Rounds(stack) + [c]
  {
    assert (stack + [c])[..|stack|] == stack;
  }

  lemma {:induction false} RoundsDrop(stack: string, angle: char)
    requires IsAngle(angle)
    ensures Rounds(DropAngles(stack, angle)) == Rounds(stack)
  {
    if stack != [] && stack[|stack| - 1] == angle {
      RoundsDrop(stack[..|stack| - 1], angle);
    }
  }

  lemma {:induction false} RoundsTop(stack: string)
    ensures stack != [] && !IsAngle(stack[|stack| - 1]) ==>
      Rounds(stack) != [] && Rounds(stack)[|Rounds(stack)| - 1] == stack[|stack| - 1]
      && Rounds(stack[..|stack| - 1]) == Rounds(stack)[..|Rounds(stack)| - 1]
  {}

  /** The first bracket stays at the bottom of the stack. */
  lemma {:induction false} RoundsBottom(stack: string)
    requires stack != [] && !IsAngle(stack[0])
    ensures Rounds(stack) != []
  {
    if |stack| > 1 {
      RoundsBottom(stack[..|stack| - 1]);
    }
  }

  /** What a stack of a scan holds: brackets of one direction and the angle bracket of that direction. */
  ghost predicate OneWay(stack: string, forwards: bool) {
    forall i :: 0 <= i < |stack| ==> stack[i] == Angle(forwards) || (if forwards then IsOpen(stack[i]) else IsClose(stack[i]))
  }

  function Angle(forwards: bool): char {
    if forwards then '<' else '>'
  }

  /** The effect of one character when angle brackets are plain text. */
  ghost function PlainStep(stack: string, c: char, forwards: bool): Option<string> {
    if forwards then Step(stack, c) else StepBack(stack, c)
  }

  /** A role that fits its character, as far as the other brackets go. */
  ghost predicate Fits(role: Role, c: char, forwards: bool) {
    match role
    case Push(d) => c == d && (if forwards then IsOpen(c) || c == '<' else IsClose(c) || c == '>')
    case Pop(d) => c == d && (if forwards then IsClose(c) else IsOpen(c))
    case _ => IsPlain(c)
  }

  lemma RolesFit(line: string, i: nat)
    requires i < |line|
    ensures Fits(RoleForward(line, i), line[i], true) && Fits(RoleBackward(line, i), line[i], false)
  {}

  lemma PlainSteps(stack: string, c: char, forwards: bool)
    requires IsPlain(c)
    ensures PlainStep(stack, c, forwards) == Some(stack)
  {}

  /** What a turn means when angle brackets are plain text, for a scan with a bracket at the bottom
      of its stack. */
  ghost predicate PlainTurn(outcome: Outcome, stack: string, plain: Option<string>, forwards: bool)
    requires stack != []
  {
    match outcome
    case Stop => plain == None
    case Found => plain == Some([])
    case Go(next) => next != [] && next[0] == stack[0] && OneWay(next, forwards) && plain == Some(Rounds(next))
  }

  lemma RoundTurn(stack: string, role: Role, c: char, forwards: bool)
    requires OneWay(stack, forwards) && Fits(role, c, forwards)
    requires stack != [] && !IsAngle(stack[0])
    ensures PlainTurn(Turn(stack, role, Angle(forwards)), stack, PlainStep(Rounds(stack), c, forwards), forwards)
  {
    hide Rounds, DropAngles;
    RoundsDrop(stack, Angle(forwards));
    if role.Pop? {
      RoundPop(stack, c, forwards);
    } else if role.Push? {
      RoundsPush(stack, c);
    } else {
      PlainSteps(Rounds(stack), c, forwards);
      DropsTop(stack);
      KeepsBottom(stack, Angle(forwards));
    }
  }

  lemma DropsTop(stack: string)
    ensures stack != [] && IsAngle(stack[|stack| - 1]) ==> Rounds(stack[..|stack| - 1]) == Rounds(stack)
  {}

  lemma {:induction false} KeepsBottom(stack: string, angle: char)
    requires stack != [] && !IsAngle(stack[0]) && IsAngle(angle)
    ensures var s := DropAngles(stack, angle);
      s != [] && s[0] == stack[0] && s <= stack && s[|s| - 1] != angle
    ensures stack[|stack| - 1] == angle ==> |stack| > 1
  {
    if stack[|stack| - 1] == angle {
      KeepsBottom(stack[..|stack| - 1], angle);
    }
  }

  /** A closing step depends only on the top of the stack. */
  lemma PairIsStep(s: string, c: char, forwards: bool)
    requires s != [] && if forwards then IsOpen(s[|s| - 1]) && IsClose(c) else IsClose(s[|s| - 1]) && IsOpen(c)
    ensures PlainStep(s, c, forwards) == if Pair(s[|s| - 1], c) then Some(s[..|s| - 1]) else None
  {}

  lemma RoundPop(stack: string, c: char, forwards: bool)
    requires OneWay(stack, forwards) && stack != [] && !IsAngle(stack[0])
    requires if forwards then IsClose(c) else IsOpen(c)
    ensures PlainTurn(Turn(stack, Pop(c), Angle(forwards)), stack, PlainStep(Rounds(stack), c, forwards), forwards)
  {
    hide Rounds, DropAngles, PlainStep, Pair, IsOpen, IsClose;
    KeepsBottom(stack, Angle(forwards));
    var s := DropAngles(stack, Angle(forwards));
    RoundsDrop(stack, Angle(forwards));
    assert s[|s| - 1] == stack[|s| - 1];
    NotAngle(s[|s| - 1], forwards);
    RoundsTop(s);
    RoundsOfOne(s);
    PairIsStep(Rounds(stack), c, forwards);
    if |s| > 1 {
      assert s[..|s| - 1][0] == stack[0];
    }
  }

  lemma NotAngle(c: char, forwards: bool)
    ensures c != Angle(forwards) && (if forwards then IsOpen(c) else IsClose(c)) ==> !IsAngle(c)
  {}

  lemma RoundsOfOne(s: string)
    requires s != [] && !IsAngle(s[0])
    ensures |s| == 1 ==> Rounds(s) == s
    ensures Rounds([]) == []
  {
    if |s| == 1 {
      assert s[..0] == [] && s == [s[0]];
    }
  }

  /** The stack of such a scan. */
  ghost predicate RoundStack(stack: string, forwards: bool) {
    stack != [] && !IsAngle(stack[0]) && OneWay(stack, forwards)
  }

  /** From i on, the line is read as if angle brackets were plain text. */
  lemma {:induction false} RoundLineForward(stack: string, line: string, i: nat)
    requires RoundStack(stack, true) && i <= |line|
    ensures match LineForward(stack, line, i)
            case Broken => ScanForward(Rounds(stack), line[i..]) == Broken
            case Closed(e) => i < e <= |line| && ScanForward(Rounds(stack), line[i..]) == Closed(e - i)
            case Pending(next) => RoundStack(next, true) && ScanForward(Rounds(stack), line[i..]) == Pending(Rounds(next))
    decreases |line| - i
  {
    hide Rounds, OneWay, RoleForward, Turn, IsAngle;
    if i < |line| {
      RolesFit(line, i);
      RoundTurn(stack, RoleForward(line, i), line[i], true);
      StepOne(Rounds(stack), line, i);
      match Turn(stack, RoleForward(line, i), '<')
      case Go(next) => {
        RoundsBottom(next);
        RoundLineForward(next, line, i + 1);
      }
      case _ =>
    }
  }

  lemma StepOne(stack: string, line: string, i: nat)
    requires i < |line|
    ensures ScanForward(stack, line[i..]) ==
      var next := PlainStep(stack, line[i], true); Brackets.Found(next, if next.Some? then ScanForward(next.value, line[i + 1..]) else Broken)
  {
    assert line[i..][1..] == line[i + 1..];
  }

  lemma StepOneBack(stack: string, line: string, i: nat)
    requires i < |line|
    ensures ScanBackward(stack, line[..i + 1]) ==
      var next := PlainStep(stack, line[i], false); Brackets.Found(next, if next.Some? then ScanBackward(next.value, line[..i]) else Broken)
  {
    assert line[..i + 1][..i] == line[..i];
  }

  /** The character that a Skip passes over is no bracket either. */
  lemma {:induction false} OperatorEnds(s: string)
    requires EndsInOperator(s)
    ensures s != [] && IsPlain(s[|s| - 1])
  {
    if !IsSpace(s[|s| - 1]) {
      assert s[|s| - 8..][7] == "operator"[7];
    }
  }

  lemma SkippedIsPlain(line: string, i: nat)
    requires i < |line| && RoleBackward(line, i) == Skip
    ensures i > 0 && IsPlain(line[i]) && IsPlain(line[i - 1])
  {
    if EndsInOperator(line[..i]) {
      OperatorEnds(line[..i]);
    }
  }

  /** From i down, the line is read as if angle brackets were plain text. */
  lemma {:induction false} RoundLineBackward(stack: string, line: string, i: int)
    requires RoundStack(stack, false) && -1 <= i < |line|
    ensures match LineBackward(stack, line, i)
            case Broken => ScanBackward(Rounds(stack), line[..i + 1]) == Broken
            case Closed(p) => p <= i && ScanBackward(Rounds(stack), line[..i + 1]) == Closed((i + 1 - p) as nat)
            case Pending(next) => RoundStack(next, false) && ScanBackward(Rounds(stack), line[..i + 1]) == Pending(Rounds(next))
    decreases i + 1
  {
    hide Rounds, OneWay, RoleBackward, Turn, IsAngle, PlainStep;
    if i >= 0 {
      var role := RoleBackward(line, i);
      RolesFit(line, i);
      RoundTurn(stack, role, line[i], false);
      StepOneBack(Rounds(stack), line, i);
      match Turn(stack, role, '>')
      case Go(next) => {
        RoundsBottom(next);
        if role == Skip {
          SkipOne(stack, next, line, i);
          RoundLineBackward(next, line, i - 2);
        } else {
          RoundLineBackward(next, line, i - 1);
        }
      }
      case _ =>
    }
  }

  lemma SkipOne(stack: string, next: string, line: string, i: nat)
    requires i < |line| && RoleBackward(line, i) == Skip && Turn(stack, RoleBackward(line, i), '>') == Go(next)
    requires Rounds(next) != []
    ensures i > 0 && next == stack && ScanBackward(Rounds(next), line[..i]) == Further(ScanBackward(Rounds(next), line[..i - 1]))
  {
    SkippedIsPlain(line, i);
    PlainSteps(Rounds(next), line[i - 1], false);
    StepOneBack(Rounds(next), line, i - 1);
  }

  // ---- One character of a scan ----

  /** One character of a scan. */
  lemma OneForward(stack: string, line: string, i: nat)
    requires i <= |line|
    ensures LineForward(stack, line, i) ==
      if i == |line| then Pending(stack)
      else match Turn(stack, RoleForward(line, i), '<')
        case Stop => Broken
        case Found => Closed(i + 1)
        case Go(next) => LineForward(next, line, i + 1)
  {}

  lemma OneBackward(stack: string, line: string, i: int)
    requires -1 <= i < |line|
    ensures LineBackward(stack, line, i) ==
      if i < 0 then Pending(stack)
      else match Turn(stack, RoleBackward(line, i), '>')
        case Stop => Broken
        case Found => Closed(i)
        case Go(next) => LineBackward(next, line, if RoleBackward(line, i) == Skip then i - 2 else i - 1)
  {}

  lemma Kinds(c: char)
    ensures c == '<' || c == '>' || c == ';' ==> IsPlain(c)
    ensures IsOpen(c) ==> !IsClose(c)
  {}
}
