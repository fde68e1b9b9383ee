/** CloseExpression and ReverseCloseExpression of cpplint.py. */
module BracketScan {
  import opened Brackets
  import opened LineScans
  import opened LineTexts
  import opened FileScans
  import opened AngleScans
  import opened AngleTexts
  import opened ArgumentScans
  import opened ScanRoundTrips
  import opened RoleLaws

  /** The nesting stack, a list that one line's scan hands to the next. */
  class Stack {
    var items: string

    constructor ()
      ensures items == []
    {
      items := [];
    }
  }

  /** Angle brackets at the top of the stack were operators. */
  method DropOperators(stack: Stack, angle: char)
    modifies stack
    ensures stack.items == DropAngles(old(stack.items), angle)
  {
    while stack.items != [] && stack.items[|stack.items| - 1] == angle
      invariant DropAngles(stack.items, angle) == DropAngles(old(stack.items), angle)
      decreases |stack.items|
    {
      stack.items := stack.items[..|stack.items| - 1];
    }
  }

  /** A stack operation that empties the stack ends the scan. */
  method PopTop(stack: Stack) returns (empty: bool)
    requires stack.items != []
    modifies stack
    ensures stack.items == old(stack.items)[..|old(stack.items)| - 1] && empty == (stack.items == [])
  {
    stack.items := stack.items[..|stack.items| - 1];
    empty := stack.items == [];
  }

  method FindEndOfExpressionInLine(line: string, startpos: nat, stack: Stack) returns (endPos: int, rest: Stack?)
    requires startpos <= |line|
    modifies stack
    ensures match LineForward(old(stack.items), line, startpos)
            case Closed(e) => startpos < e <= |line| && endPos == e && rest == null
            case Broken => endPos == -1 && rest == null
            case Pending(next) => endPos == -1 && rest == stack && stack.items == next
  {
    hide LineForward, Closer, IsOpen, IsClose, EndsInOperator;
    var i := startpos;
    while i < |line|
      invariant startpos <= i <= |line|
      invariant LineForward(old(stack.items), line, startpos) == LineForward(stack.items, line, i)
      decreases |line| - i
    {
      var c := line[i];
      Kinds(c);
      OneForward(stack.items, line, i);
      if IsOpen(c) {
        stack.items := stack.items + [c];
      } else if c == '<' {
        if i > 0 && line[i - 1] == '<' {
          if stack.items != [] && stack.items[|stack.items| - 1] == '<' {
            var empty := PopTop(stack);
            if empty {
              return -1, null;
            }
          }
        } else if i > 0 && EndsInOperator(line[..i]) {
          i := i + 1;
          continue;
        } else {
          stack.items := stack.items + ['<'];
        }
      } else if IsClose(c) {
        DropOperators(stack, '<');
        if stack.items == [] {
          return -1, null;
        }
        if Pair(stack.items[|stack.items| - 1], c) {
          var empty := PopTop(stack);
          if empty {
            return i + 1, null;
          }
        } else {
          return -1, null;
        }
      } else if c == '>' {
        if i > 0 && (line[i - 1] == '-' || EndsInOperator(line[..i - 1])) {
          i := i + 1;
          continue;
        }
        if stack.items != [] && stack.items[|stack.items| - 1] == '<' {
          var empty := PopTop(stack);
          if empty {
            return i + 1, null;
          }
        }
      } else if c == ';' {
        DropOperators(stack, '<');
        if stack.items == [] {
          return -1, null;
        }
      }
      i := i + 1;
    }
    OneForward(stack.items, line, i);
    return -1, stack;
  }

  method FindStartOfExpressionInLine(line: string, endpos: int, stack: Stack) returns (startPos: int, rest: Stack?)
    requires -1 <= endpos < |line|
    modifies stack
    ensures match LineBackward(old(stack.items), line, endpos)
            case Closed(p) => p <= endpos && startPos == p && rest == null
            case Broken => startPos == -1 && rest == null
            case Pending(next) => startPos == -1 && rest == stack && stack.items == next
  {
    hide LineBackward, Closer, IsOpen, IsClose, EndsInOperator, SpacedAtLeast;
    var i := endpos;
    while i >= 0
      invariant -1 <= i <= endpos
      invariant LineBackward(old(stack.items), line, endpos) == LineBackward(stack.items, line, i)
      decreases i + 1
    {
      var c := line[i];
      Kinds(c);
      OneBackward(stack.items, line, i);
      if IsClose(c) {
        stack.items := stack.items + [c];
      } else if c == '>' {
        if i > 0 && (line[i - 1] == '-' || SpacedAtLeast(line, i) || EndsInOperator(line[..i])) {
          i := i - 1;
        } else {
          stack.items := stack.items + ['>'];
        }
      } else if c == '<' {
        if i > 0 && line[i - 1] == '<' {
          i := i - 1;
        } else {
          if stack.items != [] && stack.items[|stack.items| - 1] == '>' {
            var empty := PopTop(stack);
            if empty {
              return i, null;
            }
          }
        }
      } else if IsOpen(c) {
        DropOperators(stack, '>');
        if stack.items == [] {
          return -1, null;
        }
        if Pair(stack.items[|stack.items| - 1], c) {
          var empty := PopTop(stack);
          if empty {
            return i, null;
          }
        } else {
          return -1, null;
        }
      } else if c == ';' {
        DropOperators(stack, '>');
        if stack.items == [] {
          return -1, null;
        }
      }
      i := i - 1;
    }
    OneBackward(stack.items, line, i);
    return -1, stack;
  }

  /** Angle brackets around a text in which the other brackets nest. */
  ghost predicate Delimits(text: string, a: nat, b: nat) {
    a + 1 < b <= |text| && text[a] == '<' && text[b - 1] == '>' && Balanced(text[a + 1..b - 1])
  }

  lemma EndsDelimit(lines: seq<string>, l: nat, pos: nat, k: nat, e: nat)
    requires l < |lines| && pos < |lines[l]| && lines[l][pos] == '<' && EndsArguments(lines, l, pos, k, e)
    ensures Delimits(Flat(lines), At(lines, l, pos), At(lines, k, e))
  {
    hide Flat, Offset, Balanced, Counted, RoleForward, Between;
    FromHere(lines, l, pos);
    UpToHere(lines, k, e - 1);
    EndsInAngle(lines, l, pos, k, e);
    InText(lines, l, pos + 1, k, e - 1);
  }

  lemma StartsDelimit(lines: seq<string>, l: nat, p: nat, k: nat, q: nat)
    requires k < |lines| && q < |lines[k]| && lines[k][q] == '>' && StartsArguments(lines, l, p, k, q)
    ensures Delimits(Flat(lines), At(lines, l, p), At(lines, k, q + 1))
  {
    hide Flat, Offset, Balanced, Counted, BackBetween, LastRead;
    StartsInAngle(lines, l, p, k, q);
    FromHere(lines, l, p);
    UpToHere(lines, k, q);
    InText(lines, l, p + 1, k, q);
  }

  /** CloseExpression: the line and the position just past the end that is found, or
      (NumLines, -1). It finds exactly what Ends says: from a round, square or curly bracket the one
      that closes it, and from a '<' the end of the template arguments that it may open. */
  method CloseExpression(lines: seq<string>, linenum: nat, pos: nat) returns (endLine: nat, endPos: int)
    requires linenum < |lines| && pos < |lines[linenum]|
    ensures endPos > -1 ==> endLine < |lines| && 0 < endPos <= |lines[endLine]| && EndFound(lines, linenum, pos) == Spot(endLine, endPos)
    ensures endPos <= -1 ==> endPos == -1 && endLine == |lines| && EndFound(lines, linenum, pos) == Nowhere
    ensures forall k, e :: Ends(lines, linenum, pos, k, e) <==> endPos > -1 && k == endLine && e == endPos
    ensures endPos > -1 && IsOpen(lines[linenum][pos]) ==> Matches(Flat(lines), At(lines, linenum, pos), At(lines, endLine, endPos))
    ensures endPos <= -1 && lines[linenum][pos] != '<' ==> !Opens(lines, linenum, pos)
    ensures endPos > -1 && MayOpen(lines[linenum], pos) ==> Delimits(Flat(lines), At(lines, linenum, pos), At(lines, endLine, endPos))
    ensures endPos > -1 && OpensArguments(lines[linenum], pos) ==> ClosesArguments(lines[endLine], endPos - 1)
  {
    hide Flat, Matches, Offset, LineForward, Delimits, RoleForward, LinesForward, Ends, Opens;
    var line := lines[linenum];
    EndMeans(lines, linenum, pos);
    if !(IsOpen(line[pos]) || line[pos] == '<') || ShiftOrAtMost(line, pos) {
      return |lines|, -1;
    }
    var empty := new Stack();
    var stack: Stack?;
    endPos, stack := FindEndOfExpressionInLine(line, pos, empty);
    NextLine([], lines, linenum, pos);
    if endPos > -1 {
      return linenum, endPos;
    }
    var l := linenum;
    while stack != null && stack.items != [] && l < |lines| - 1
      invariant linenum <= l < |lines| && (stack != null ==> fresh(stack))
      invariant LinesForward([], lines, linenum, pos) ==
        if stack == null || stack.items == [] || l + 1 == |lines| then Nowhere else LinesForward(stack.items, lines, l + 1, 0)
      decreases |lines| - l
    {
      l := l + 1;
      line := lines[l];
      NextLine(stack.items, lines, l, 0);
      endPos, stack := FindEndOfExpressionInLine(line, 0, stack);
      if endPos > -1 {
        return l, endPos;
      }
    }
    return |lines|, -1;
  }

  /** The end that is found, in all its meanings. */
  lemma EndMeans(lines: seq<string>, linenum: nat, pos: nat)
    requires linenum < |lines| && pos < |lines[linenum]|
    ensures var s := EndFound(lines, linenum, pos);
      && (s != Nowhere ==> s.line < |lines| && 0 < s.pos <= |lines[s.line]|)
      && (forall k, e :: Ends(lines, linenum, pos, k, e) <==> s == Spot(k, e))
      && (s != Nowhere && IsOpen(lines[linenum][pos]) ==> Matches(Flat(lines), At(lines, linenum, pos), At(lines, s.line, s.pos)))
      && (s == Nowhere && lines[linenum][pos] != '<' ==> !Opens(lines, linenum, pos))
      && (s != Nowhere && MayOpen(lines[linenum], pos) ==> Delimits(Flat(lines), At(lines, linenum, pos), At(lines, s.line, s.pos)))
      && (s != Nowhere && OpensArguments(lines[linenum], pos) ==> ClosesArguments(lines[s.line], s.pos - 1))
  {
    hide Flat, Matches, Offset, Delimits, RoleForward, LinesForward, EndsArguments, Beginning, Opens, MayOpen, OpensArguments,
      ClosesArguments;
    var s, c := EndFound(lines, linenum, pos), lines[linenum][pos];
    forall k, e
      ensures Ends(lines, linenum, pos, k, e) <==> s == Spot(k, e)
    {
      EndFoundIff(lines, linenum, pos, k, e);
    }
    PushIsBracket(lines[linenum], pos);
    OpensIsMayOpen(lines[linenum], pos);
    if s != Nowhere {
      EndIsInFile(lines, linenum, Beginning(lines[linenum], pos).value, s.line, s.pos);
    }
    if IsOpen(c) {
      RoundEnd(lines, linenum, pos);
    } else if c != '<' {
      FromHere(lines, linenum, pos);
      NeverOpened(Flat(lines), At(lines, linenum, pos));
      NotOpened(lines, linenum, pos);
    } else if MayOpen(lines[linenum], pos) && s != Nowhere {
      EndOfMayOpen(lines, linenum, pos, s.line, s.pos);
      EndsDelimit(lines, linenum, pos, s.line, s.pos);
      EndCloses(lines, linenum, pos, s.line, s.pos);
    }
  }

  lemma OpensIsMayOpen(line: string, i: nat)
    requires i < |line|
    ensures OpensArguments(line, i) ==> MayOpen(line, i) && !IsOpen(line[i]) && line[i] == '<'
    ensures MayCloseArguments(line, i) ==> MayClose(line, i) && !IsClose(line[i]) && line[i] == '>'
  {
    hide RoleForward, RoleBackward;
    ForwardRole(line, i);
    BackwardRole(line, i);
  }

  lemma EndCloses(lines: seq<string>, l: nat, pos: nat, k: nat, e: nat)
    requires l < |lines| && pos < |lines[l]| && EndsArguments(lines, l, pos, k, e)
    ensures k < |lines| && 0 < e <= |lines[k]| && ClosesArguments(lines[k], e - 1)
  {
    hide Inner, Counted, Piece, Between, RoleForward, ClosesArguments;
    ForwardRole(lines[k], e - 1);
  }

  lemma StartOpens(lines: seq<string>, l: nat, p: nat, k: nat, q: nat)
    requires k < |lines| && q < |lines[k]| && StartsArguments(lines, l, p, k, q)
    ensures l < |lines| && p < |lines[l]| && lines[l][p] == '<' && (p > 0 ==> lines[l][p - 1] != '<')
  {
    hide Inner, Counted, Piece, BackBetween, LastRead, RoleBackward;
    LastReadIsRole(lines[l], p, if l == k then q else |lines[l]|);
    BackwardRole(lines[l], p);
  }

  lemma NotOpened(lines: seq<string>, linenum: nat, pos: nat)
    requires linenum < |lines| && forall b: nat :: !Matches(Flat(lines), At(lines, linenum, pos), b)
    ensures !Opens(lines, linenum, pos)
  {
    hide Matches, Flat;
  }

  /** The start that is found, in all its meanings. */
  lemma StartMeans(lines: seq<string>, linenum: nat, pos: nat)
    requires linenum < |lines| && pos < |lines[linenum]|
    ensures var s := StartFound(lines, linenum, pos);
      && (s != Nowhere ==> s.line < |lines| && s.pos < |lines[s.line]|)
      && (forall l, p :: Starts(lines, l, p, linenum, pos) <==> s == Spot(l, p))
      && (s != Nowhere && IsClose(lines[linenum][pos]) ==> Matches(Flat(lines), At(lines, s.line, s.pos), At(lines, linenum, pos + 1)))
      && (s == Nowhere && lines[linenum][pos] != '>' ==> !Closes(lines, linenum, pos))
      && (s != Nowhere && MayClose(lines[linenum], pos) ==> Delimits(Flat(lines), At(lines, s.line, s.pos), At(lines, linenum, pos + 1)))
      && (s != Nowhere && MayCloseArguments(lines[linenum], pos) ==>
           lines[s.line][s.pos] == '<' && (s.pos > 0 ==> lines[s.line][s.pos - 1] != '<'))
  {
    hide Flat, Matches, Offset, Delimits, RoleBackward, LinesBackward, StartsArguments, BackBeginning, Closes, MayClose,
      MayCloseArguments;
    OpensIsMayOpen(lines[linenum], pos);
    var s, c := StartFound(lines, linenum, pos), lines[linenum][pos];
    forall l, p
      ensures Starts(lines, l, p, linenum, pos) <==> s == Spot(l, p)
    {
      StartFoundIff(lines, l, p, linenum, pos);
    }
    PushIsBracket(lines[linenum], pos);
    if s != Nowhere {
      StartIsInFile(lines, s.line, s.pos, linenum, BackBeginning(lines[linenum], pos).value);
    }
    if IsClose(c) {
      RoundStart(lines, linenum, pos);
    } else if c != '>' {
      UpToHere(lines, linenum, pos);
      NoCloser(Flat(lines), At(lines, linenum, pos + 1));
      NotClosed(lines, linenum, pos, At(lines, linenum, pos + 1));
    } else if MayClose(lines[linenum], pos) && s != Nowhere {
      StartIff(lines, s.line, s.pos, linenum, pos);
      StartsDelimit(lines, s.line, s.pos, linenum, pos);
      StartOpens(lines, s.line, s.pos, linenum, pos);
    }
  }

  lemma NotClosed(lines: seq<string>, linenum: nat, pos: nat, b: nat)
    requires linenum < |lines| && b == At(lines, linenum, pos + 1) && forall a: nat :: !Matches(Flat(lines), a, b)
    ensures !Closes(lines, linenum, pos)
  {
    hide Matches, Flat;
  }

  /** ReverseCloseExpression: the line and the position of the start that is found, or (0, -1). It
      finds exactly what Starts says: from a round, square or curly bracket the one that it closes, and
      from a '>' the start of the template arguments that it may close. */
  method ReverseCloseExpression(lines: seq<string>, linenum: nat, pos: nat) returns (startLine: nat, startPos: int)
    requires linenum < |lines| && pos < |lines[linenum]|
    ensures startPos > -1 ==>
      startLine < |lines| && startPos < |lines[startLine]| && StartFound(lines, linenum, pos) == Spot(startLine, startPos)
    ensures startPos <= -1 ==> startPos == -1 && startLine == 0 && StartFound(lines, linenum, pos) == Nowhere
    ensures forall l, p :: Starts(lines, l, p, linenum, pos) <==> startPos > -1 && l == startLine && p == startPos
    ensures startPos > -1 && IsClose(lines[linenum][pos]) ==>
      Matches(Flat(lines), At(lines, startLine, startPos), At(lines, linenum, pos + 1))
    ensures startPos <= -1 && lines[linenum][pos] != '>' ==> !Closes(lines, linenum, pos)
    ensures startPos > -1 && MayClose(lines[linenum], pos) ==>
      Delimits(Flat(lines), At(lines, startLine, startPos), At(lines, linenum, pos + 1))
    ensures startPos > -1 && MayCloseArguments(lines[linenum], pos) ==>
      lines[startLine][startPos] == '<' && (startPos > 0 ==> lines[startLine][startPos - 1] != '<')
  {
    hide Flat, Matches, Offset, LineBackward, Delimits, RoleBackward, LinesBackward, Starts, Closes;
    var line := lines[linenum];
    StartMeans(lines, linenum, pos);
    if !(IsClose(line[pos]) || line[pos] == '>') {
      return 0, -1;
    }
    var empty := new Stack();
    var stack: Stack?;
    startPos, stack := FindStartOfExpressionInLine(line, pos, empty);
    PreviousLine([], lines, linenum, pos);
    if startPos > -1 {
      return linenum, startPos;
    }
    var l := linenum;
    while stack != null && stack.items != [] && l > 0
      invariant l <= linenum && (stack != null ==> fresh(stack))
      invariant LinesBackward([], lines, linenum, pos) ==
        if stack == null || stack.items == [] || l == 0 then Nowhere
        else LinesBackward(stack.items, lines, l - 1, |lines[l - 1]| - 1)
      decreases l
    {
      l := l - 1;
      line := lines[l];
      PreviousLine(stack.items, lines, l, |line| - 1);
      startPos, stack := FindStartOfExpressionInLine(line, |line| - 1, stack);
      if startPos > -1 {
        return l, startPos;
      }
    }
    return 0, -1;
  }

  /** To the other end of an expression and back. From a round, square or curly bracket that is where
      one started, in both directions; from an angle bracket exactly if the other end reads back to it. */
  method ThereAndBack(lines: seq<string>, linenum: nat, pos: nat) returns (line: nat, position: int, found: bool)
    requires linenum < |lines| && pos < |lines[linenum]|
    ensures found == (EndFound(lines, linenum, pos) != Nowhere || StartFound(lines, linenum, pos) != Nowhere)
    ensures !IsAngle(lines[linenum][pos]) ==> found == (Opens(lines, linenum, pos) || Closes(lines, linenum, pos))
    ensures !IsAngle(lines[linenum][pos]) && found ==> line == linenum && position == pos
    ensures lines[linenum][pos] == '<' && found ==>
      var s := EndFound(lines, linenum, pos);
      && s != Nowhere && s.line < |lines| && 0 < s.pos <= |lines[s.line]|
      && (line == linenum && position == pos <==> ReadsBack(lines, linenum, pos, s.line, s.pos))
    ensures lines[linenum][pos] == '>' && found ==>
      var s := StartFound(lines, linenum, pos);
      && s != Nowhere && s.line < |lines| && s.pos < |lines[s.line]|
      && (line == linenum && position == pos <==> ReadsForth(lines, s.line, s.pos, linenum, pos))
  {
    hide Flat, Matches, Offset, EndFound, StartFound, ReadsBack, ReadsForth, Ends, Starts, MayOpen, MayClose, Delimits;
    ghost var c := lines[linenum][pos];
    OnlyBrackets(lines, linenum, pos);
    var l, p := CloseExpression(lines, linenum, pos);
    if p > -1 {
      line, position := ReverseCloseExpression(lines, l, p - 1);
      if c == '<' {
        ForthAndBackIff(lines, linenum, pos, l, p);
      } else {
        BackToBracket(lines, linenum, pos, l, p, line, position);
      }
      return line, position, true;
    }
    l, p := ReverseCloseExpression(lines, linenum, pos);
    if p > -1 {
      line, position := CloseExpression(lines, l, p);
      if c == '>' {
        BackAndForthIff(lines, l, p, linenum, pos);
      } else {
        ForthToBracket(lines, l, p, linenum, pos, line, position);
      }
      return line, position - 1, true;
    }
    return 0, -1, false;
  }

  lemma BackToBracket(lines: seq<string>, linenum: nat, pos: nat, l: nat, p: nat, line: nat, position: int)
    requires linenum < |lines| && pos < |lines[linenum]| && l < |lines| && 0 < p <= |lines[l]|
    requires Matches(Flat(lines), At(lines, linenum, pos), At(lines, l, p))
    requires position > -1 ==> line < |lines| && position < |lines[line]|
    requires position > -1 && IsClose(lines[l][p - 1]) ==> Matches(Flat(lines), At(lines, line, position), At(lines, l, p - 1 + 1))
    requires position <= -1 && lines[l][p - 1] != '>' ==> !Closes(lines, l, p - 1)
    ensures line == linenum && position == pos && Opens(lines, linenum, pos)
  {
    hide Flat, Matches, Offset, At;
    RoundEndsRound(lines, At(lines, linenum, pos), l, p);
    AngleIsNoClose(lines[l][p - 1]);
    Matched(lines, linenum, pos, l, p);
    if position > -1 {
      MatchIsUnique(Flat(lines), At(lines, linenum, pos), At(lines, l, p), At(lines, line, position), At(lines, l, p));
      SamePlace(lines, line, position, linenum, pos);
    }
  }

  lemma SamePlace(lines: seq<string>, k: nat, p: nat, l: nat, q: nat)
    requires k < |lines| && l < |lines| && p < |lines[k]| && q < |lines[l]| && At(lines, k, p) == At(lines, l, q)
    ensures k == l && p == q
  {
    hide Offset;
    PositionIsUnique(lines, k, p, l, q);
  }

  lemma Matched(lines: seq<string>, linenum: nat, pos: nat, l: nat, p: nat)
    requires linenum < |lines| && l < |lines| && 0 < p && Matches(Flat(lines), At(lines, linenum, pos), At(lines, l, p))
    ensures Opens(lines, linenum, pos) && Closes(lines, l, p - 1)
  {
    hide Flat, Matches, Offset;
    assert At(lines, l, p - 1 + 1) == At(lines, l, p);
  }

  lemma ForthToBracket(lines: seq<string>, l: nat, p: nat, linenum: nat, pos: nat, line: nat, position: int)
    requires linenum < |lines| && pos < |lines[linenum]| && l < |lines| && p < |lines[l]|
    requires Matches(Flat(lines), At(lines, l, p), At(lines, linenum, pos + 1))
    requires position > -1 ==> line < |lines| && 0 < position <= |lines[line]|
    requires position > -1 && IsOpen(lines[l][p]) ==> Matches(Flat(lines), At(lines, l, p), At(lines, line, position))
    requires position <= -1 && lines[l][p] != '<' ==> !Opens(lines, l, p)
    ensures line == linenum && position - 1 == pos && Closes(lines, linenum, pos)
  {
    hide Flat, Matches, Offset, At;
    RoundStartsRound(lines, l, p, At(lines, linenum, pos + 1));
    AngleIsNoClose(lines[l][p]);
    Matched(lines, l, p, linenum, pos + 1);
    if position > -1 {
      MatchIsUnique(Flat(lines), At(lines, l, p), At(lines, linenum, pos + 1), At(lines, l, p), At(lines, line, position));
      SameEnd(lines, line, position, linenum, pos + 1);
    }
  }

  lemma OnlyBrackets(lines: seq<string>, linenum: nat, pos: nat)
    requires linenum < |lines| && pos < |lines[linenum]|
    ensures EndFound(lines, linenum, pos) != Nowhere ==> IsOpen(lines[linenum][pos]) || lines[linenum][pos] == '<'
    ensures StartFound(lines, linenum, pos) != Nowhere ==> IsClose(lines[linenum][pos]) || lines[linenum][pos] == '>'
    ensures IsAngle(lines[linenum][pos]) ==> !IsOpen(lines[linenum][pos]) && !IsClose(lines[linenum][pos])
  {
    hide LinesForward, LinesBackward;
  }

  /** For angle brackets the scans are no inverses: in "< >= c" the '<' is closed by a '>' that is
      not taken for a closing one from the other side. */
  lemma AnglesNotThereAndBack()
    ensures EndFound(["< >= c"], 0, 0) == Spot(0, 3) && StartFound(["< >= c"], 0, 2) == Nowhere
  {
    var line := "< >= c";
    Roles(line);
    assert LineForward(['<'], line, 2) == Closed(3);
    assert [] + ['<'] == ['<'];
    assert LineForward(['<'], line, 1) == Closed(3);
    assert LineForward([], line, 0) == Closed(3);
    assert LineBackward([], line, -1) == Pending([]);
    assert LineBackward([], line, 0) == Pending([]);
    assert LineBackward([], line, 2) == Pending([]);
  }

  lemma Roles(line: string)
    requires line == "< >= c"
    ensures RoleForward(line, 0) == Push('<') && RoleForward(line, 1) == Plain && RoleForward(line, 2) == AnglePop
    ensures RoleBackward(line, 2) == Skip && RoleBackward(line, 0) == AnglePop
  {
    assert line[..1] == ['<'];
  }

  /** The second '<' of a shift is no delimiter, and then the scan finds the end of the next
      bracket: in "<<(a)" the position past the ')'. */
  lemma ShiftFindsNextBracket()
    ensures EndFound(["<<(a)"], 0, 1) == Spot(0, 5)
  {
    var line := "<<(a)";
    assert RoleForward(line, 1) == Shift && RoleForward(line, 2) == Push('(') && RoleForward(line, 3) == Plain && RoleForward(line, 4) == Pop(')');
    assert [] + ['('] == ['('];
    assert LineForward(['('], line, 4) == Closed(5);
    assert LineForward(['('], line, 3) == Closed(5);
    assert LineForward([], line, 2) == Closed(5);
    assert LineForward([], line, 1) == Closed(5);
  }

  /** A '>' that the scan back skips can be the end of arguments all the same: in "<operatorX> >= b" the
      forward scan passes over the first '>' and ends at the second, and the scan back passes over the
      second, begins at the first and returns. */
  lemma SkippedEndReadsBack()
    ensures EndFound(["<operatorX> >= b"], 0, 0) == Spot(0, 13) && StartFound(["<operatorX> >= b"], 0, 12) == Spot(0, 0)
    ensures !MayClose("<operatorX> >= b", 12)
  {
    hide LineForward, LineBackward, RoleForward, RoleBackward;
    var line := "<operatorX> >= b";
    OperatorRoles(line);
    OneForward([], line, 0);
    assert [] + ['<'] == ['<'] && [] + ['>'] == ['>'];
    PassesForward(['<'], line, 1, 12);
    OneForward(['<'], line, 12);
    OneBackward([], line, 12);
    OneBackward([], line, 10);
    PassesBackward(['>'], line, 9, 0);
    OneBackward(['>'], line, 0);
  }

  lemma OperatorRoles(line: string)
    requires line == "<operatorX> >= b"
    ensures RoleForward(line, 0) == Push('<') && RoleForward(line, 12) == AnglePop
    ensures forall i :: 1 <= i < 12 ==> RoleForward(line, i) == Role.Plain
    ensures RoleBackward(line, 12) == Skip && RoleBackward(line, 10) == Push('>') && RoleBackward(line, 0) == AnglePop
    ensures forall i :: 1 <= i < 10 ==> RoleBackward(line, i) == Role.Plain
  {
    hide EndsInOperator, SpacedAtLeast;
    AfterOperator(line[..9]);
    NotAfterOperator(line[..11]);
    NotAfterOperator(line[..10]);
    Spaces(line);
  }

  lemma Spaces(line: string)
    requires line == "<operatorX> >= b"
    ensures SpacedAtLeast(line, 12) && !SpacedAtLeast(line, 10)
  {}

  lemma AfterOperator(s: string)
    requires s == "<operator"
    ensures EndsInOperator(s)
  {
    assert s[1..] == "operator";
  }

  lemma NotAfterOperator(s: string)
    requires s != [] && !IsSpace(s[|s| - 1]) && s[|s| - 1] != 'r'
    ensures !EndsInOperator(s)
  {
    if EndsInOperator(s) {
      OperatorLast(s);
    }
  }

  lemma {:induction false} PassesForward(stack: string, line: string, i: nat, j: nat)
    requires i <= j <= |line| && forall m :: i <= m < j ==> RoleForward(line, m) == Role.Plain
    ensures LineForward(stack, line, i) == LineForward(stack, line, j)
    decreases j - i
  {
    hide LineForward, RoleForward;
    if i < j {
      OneForward(stack, line, i);
      PassesForward(stack, line, i + 1, j);
    }
  }

  lemma {:induction false} PassesBackward(stack: string, line: string, i: nat, j: nat)
    requires j <= i < |line| && forall m :: j < m <= i ==> RoleBackward(line, m) == Role.Plain
    ensures LineBackward(stack, line, i) == LineBackward(stack, line, j)
    decreases i - j
  {
    hide LineBackward, RoleBackward;
    if j < i {
      OneBackward(stack, line, i);
      PassesBackward(stack, line, i - 1, j);
    }
  }
}
