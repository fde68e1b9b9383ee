/** Which ends and starts the scans of cpplint.py find from an angle bracket, and when they undo
    each other. */
module ArgumentScans {
  import opened Brackets
  import opened LineScans
  import opened LineTexts
  import opened FileScans
  import opened AngleScans
  import opened AngleTexts

  // ---- Pieces of a file ----

  /** Position i of line l is not behind position j of line k. */
  predicate InOrder(lines: seq<string>, l: nat, i: nat, k: nat, j: nat) {
    l <= k < |lines| && i <= |lines[l]| && j <= |lines[k]| && (l == k ==> i <= j)
  }

  lemma InText(lines: seq<string>, l: nat, i: nat, k: nat, j: nat)
    requires InOrder(lines, l, i, k, j)
    ensures At(lines, l, i) <= At(lines, k, j) <= |Flat(lines)|
  {
    hide Flat, Offset;
    LineAt(lines, l);
    LineAt(lines, k);
    if l < k {
      LaterLine(lines, l, k);
    }
  }

  ghost function Piece(lines: seq<string>, l: nat, i: nat, k: nat, j: nat): string
    requires InOrder(lines, l, i, k, j)
  {
    InText(lines, l, i, k, j);
    Flat(lines)[At(lines, l, i)..At(lines, k, j)]
  }

  lemma PieceOfLine(lines: seq<string>, l: nat, i: nat, j: nat)
    requires InOrder(lines, l, i, l, j)
    ensures Piece(lines, l, i, l, j) == lines[l][i..j]
  {
    hide Flat, Offset;
    LineAt(lines, l);
    SliceOfSlice(Flat(lines), Offset(lines, l), Offset(lines, l + 1), i, j);
  }

  lemma PieceSplit(lines: seq<string>, l: nat, i: nat, m: nat, h: nat, k: nat, j: nat)
    requires InOrder(lines, l, i, m, h) && InOrder(lines, m, h, k, j)
    ensures InOrder(lines, l, i, k, j) && Piece(lines, l, i, k, j) == Piece(lines, l, i, m, h) + Piece(lines, m, h, k, j)
  {
    hide Flat, Offset;
    InText(lines, l, i, m, h);
    InText(lines, m, h, k, j);
  }

  /** The end of a line is the beginning of the next. */
  lemma LineEnd(lines: seq<string>, l: nat, k: nat, j: nat)
    requires l < k && InOrder(lines, l + 1, 0, k, j)
    ensures Piece(lines, l, |lines[l]|, k, j) == Piece(lines, l + 1, 0, k, j)
  {
    hide Flat, Offset;
    LineAt(lines, l);
  }

  lemma LineStart(lines: seq<string>, l: nat, i: nat, k: nat)
    requires l < k && InOrder(lines, l, i, k, 0)
    ensures InOrder(lines, l, i, k - 1, |lines[k - 1]|) && Piece(lines, l, i, k, 0) == Piece(lines, l, i, k - 1, |lines[k - 1]|)
  {
    hide Flat, Offset;
    LineAt(lines, k - 1);
  }

  /** The roles of a piece of a file, read forwards. */
  ghost function Between(lines: seq<string>, l: nat, i: nat, k: nat, j: nat): seq<Role>
    requires InOrder(lines, l, i, k, j)
    decreases k - l
  {
    if l == k then RolesForward(lines[l], i, j)
    else RolesForward(lines[l], i, |lines[l]|) + Between(lines, l + 1, 0, k, j)
  }

  /** The roles of a piece of a file, read backwards. */
  ghost function BackBetween(lines: seq<string>, l: nat, i: nat, k: nat, j: nat): seq<Role>
    requires InOrder(lines, l, i, k, j)
    decreases k
  {
    if l == k then RolesBackward(lines[l], i, j)
    else RolesBackward(lines[k], 0, j) + BackBetween(lines, l, i, k - 1, |lines[k - 1]|)
  }

  lemma {:induction false} BetweenReads(lines: seq<string>, l: nat, i: nat, k: nat, j: nat)
    requires InOrder(lines, l, i, k, j)
    ensures ReadsAs(Between(lines, l, i, k, j), Piece(lines, l, i, k, j), true)
    decreases k - l
  {
    hide ReadsAs, Piece, RolesForward;
    if l == k {
      PieceOfLine(lines, l, i, j);
      RolesAreForward(lines[l], i, j);
    } else {
      var line := lines[l];
      PieceSplit(lines, l, i, l, |line|, k, j);
      LineEnd(lines, l, k, j);
      PieceOfLine(lines, l, i, |line|);
      RolesAreForward(line, i, |line|);
      BetweenReads(lines, l + 1, 0, k, j);
      ReadsBoth(RolesForward(line, i, |line|), Between(lines, l + 1, 0, k, j), line[i..|line|], Piece(lines, l + 1, 0, k, j), true);
    }
  }

  lemma {:induction false} BackBetweenReads(lines: seq<string>, l: nat, i: nat, k: nat, j: nat)
    requires InOrder(lines, l, i, k, j)
    ensures ReadsAs(BackBetween(lines, l, i, k, j), Piece(lines, l, i, k, j), false)
    decreases k
  {
    hide ReadsAs, Piece, RolesBackward;
    if l == k {
      PieceOfLine(lines, l, i, j);
      RolesAreBackward(lines[l], i, j);
    } else {
      PieceSplit(lines, l, i, k, 0, k, j);
      LineStart(lines, l, i, k);
      PieceOfLine(lines, k, 0, j);
      RolesAreBackward(lines[k], 0, j);
      var end := |lines[k - 1]|;
      BackBetweenReads(lines, l, i, k - 1, end);
      ReadsBoth(RolesBackward(lines[k], 0, j), BackBetween(lines, l, i, k - 1, end), lines[k][0..j], Piece(lines, l, i, k - 1, end), false);
    }
  }

  // ---- Scans over lines as scans over roles ----

  lemma {:induction false} StaysAngled(stack: string, roles: seq<Role>, forwards: bool)
    requires AngleStack(stack, forwards) && AllSuit(roles, forwards)
    ensures ScanRoles(stack, roles, Angle(forwards)).Pending? ==> AngleStack(ScanRoles(stack, roles, Angle(forwards)).stack, forwards)
    decreases |roles|
  {
    hide Turn, AngleStack, Suits, Rounds, RoundStep, Base, Weight;
    if roles != [] {
      var init := roles[..|roles| - 1];
      StaysAngled(stack, init, forwards);
      match ScanRoles(stack, init, Angle(forwards))
      case Pending(s) => AngleTurn(s, roles[|roles| - 1], forwards);
      case _ =>
    }
  }

  lemma ForwardStaysAngled(stack: string, line: string, i: nat, next: string)
    requires AngleStack(stack, true) && i <= |line| && LineForward(stack, line, i) == Pending(next)
    ensures next != [] && AngleStack(next, true)
  {
    hide ScanRoles, LineForward, ReadsAs;
    ForwardPends(stack, line, i, next);
    RolesAreForward(line, i, |line|);
    RolesSuit(RolesForward(line, i, |line|), line[i..|line|], true);
    StaysAngled(stack, RolesForward(line, i, |line|), true);
  }

  lemma BackwardStaysAngled(stack: string, line: string, j: nat, next: string)
    requires AngleStack(stack, false) && j <= |line| && LineBackward(stack, line, j - 1) == Pending(next)
    ensures next != [] && AngleStack(next, false)
  {
    hide ScanRoles, LineBackward, ReadsAs;
    BackwardPends(stack, line, j, next);
    RolesAreBackward(line, 0, j);
    RolesSuit(RolesBackward(line, 0, j), line[0..j], false);
    StaysAngled(stack, RolesBackward(line, 0, j), false);
  }

  lemma {:induction false} SpotIsLater(stack: string, lines: seq<string>, l: nat, i: nat)
    requires l < |lines| && i <= |lines[l]|
    ensures var s := LinesForward(stack, lines, l, i); s == Nowhere || s.line >= l
    decreases |lines| - l
  {
    hide LineForward;
    match LineForward(stack, lines[l], i)
    case Pending(next) => {
      if next != [] && l + 1 < |lines| {
        SpotIsLater(next, lines, l + 1, 0);
      }
    }
    case _ =>
  }

  lemma {:induction false} SpotIsEarlier(stack: string, lines: seq<string>, k: nat, i: int)
    requires k < |lines| && -1 <= i < |lines[k]|
    ensures var s := LinesBackward(stack, lines, k, i); s == Nowhere || s.line <= k
    decreases k
  {
    hide LineBackward;
    match LineBackward(stack, lines[k], i)
    case Pending(next) => {
      if next != [] && k > 0 {
        SpotIsEarlier(next, lines, k - 1, |lines[k - 1]| - 1);
      }
    }
    case _ =>
  }

  lemma {:induction false} LinesForwardStops(stack: string, lines: seq<string>, l: nat, i: nat, k: nat, e: nat)
    requires l < |lines| && i <= |lines[l]| && AngleStack(stack, true)
    ensures LinesForward(stack, lines, l, i) == Spot(k, e) <==>
      e > 0 && InOrder(lines, l, i, k, e) && ScanRoles(stack, Between(lines, l, i, k, e), '<') == Closed(|Between(lines, l, i, k, e)|)
    decreases |lines| - l
  {
    hide AngleStack, LineForward, ScanRoles, RolesForward;
    var line := lines[l];
    ForwardStops(stack, line, i, e);
    NextLine(stack, lines, l, i);
    if l == k {
      LinesAhead(stack, lines, l, i);
      if i <= e <= |line| {
        OnOneLine(stack, line, i, e);
      }
    } else if l < k < |lines| {
      match LineForward(stack, line, i)
      case Pending(next) => {
        ForwardStaysAngled(stack, line, i, next);
        ForwardPends(stack, line, i, next);
        LinesForwardStops(next, lines, l + 1, 0, k, e);
        if e <= |lines[k]| {
          RolesSplit(stack, RolesForward(line, i, |line|), Between(lines, l + 1, 0, k, e), '<');
        }
      }
      case Closed(n) => {
        ForwardStops(stack, line, i, n);
        if e <= |lines[k]| && e > 0 {
          NotEmptyBetween(lines, l + 1, 0, k, e);
          EarlyEnd(stack, RolesForward(line, i, |line|), Between(lines, l + 1, 0, k, e));
          ForwardNotPending(stack, line, i);
        }
      }
      case Broken => {
        if e <= |lines[k]| && e > 0 {
          NotEmptyBetween(lines, l + 1, 0, k, e);
          EarlyEnd(stack, RolesForward(line, i, |line|), Between(lines, l + 1, 0, k, e));
          ForwardNotPending(stack, line, i);
        }
      }
    } else {
      SpotIsLater(stack, lines, l, i);
      SpotInFile(stack, lines, l, i);
    }
  }

  lemma OnOneLine(stack: string, line: string, i: nat, e: nat)
    requires i <= e <= |line|
    ensures |RolesForward(line, i, e)| == |RolesBackward(line, i, e)| == e - i
    ensures i == e ==> ScanRoles(stack, RolesForward(line, i, e), '<') == ScanRoles(stack, RolesBackward(line, i, e), '>') == Pending(stack)
  {}

  lemma {:induction false} SpotInFile(stack: string, lines: seq<string>, l: nat, i: nat)
    requires l < |lines| && i <= |lines[l]|
    ensures var s := LinesForward(stack, lines, l, i); s == Nowhere || s.line < |lines|
    decreases |lines| - l
  {
    hide LineForward;
    match LineForward(stack, lines[l], i)
    case Pending(next) => {
      if next != [] && l + 1 < |lines| {
        SpotInFile(next, lines, l + 1, 0);
      }
    }
    case _ =>
  }

  /** An end on the line itself is found by the scan of the line. */
  lemma LinesAhead(stack: string, lines: seq<string>, l: nat, i: nat)
    requires l < |lines| && i <= |lines[l]|
    ensures forall e :: LinesForward(stack, lines, l, i) == Spot(l, e) <==> LineForward(stack, lines[l], i) == Closed(e)
  {
    hide LineForward;
    match LineForward(stack, lines[l], i)
    case Pending(next) => {
      if next != [] && l + 1 < |lines| {
        SpotIsLater(next, lines, l + 1, 0);
      }
    }
    case _ =>
  }

  lemma LinesBehind(stack: string, lines: seq<string>, k: nat, i: int)
    requires k < |lines| && -1 <= i < |lines[k]|
    ensures forall p :: LinesBackward(stack, lines, k, i) == Spot(k, p) <==> LineBackward(stack, lines[k], i) == Closed(p)
  {
    hide LineBackward;
    match LineBackward(stack, lines[k], i)
    case Pending(next) => {
      if next != [] && k > 0 {
        SpotIsEarlier(next, lines, k - 1, |lines[k - 1]| - 1);
      }
    }
    case _ =>
  }

  lemma ForwardNotPending(stack: string, line: string, i: nat)
    requires i <= |line| && !LineForward(stack, line, i).Pending?
    ensures !ScanRoles(stack, RolesForward(line, i, |line|), '<').Pending?
  {
    hide LineForward, ScanRoles;
    var r := ScanRoles(stack, RolesForward(line, i, |line|), '<');
    if r.Pending? {
      ForwardPends(stack, line, i, r.stack);
    }
  }

  lemma BackwardNotPending(stack: string, line: string, j: nat)
    requires j <= |line| && !LineBackward(stack, line, j - 1).Pending?
    ensures !ScanRoles(stack, RolesBackward(line, 0, j), '>').Pending?
  {
    hide LineBackward, ScanRoles;
    var r := ScanRoles(stack, RolesBackward(line, 0, j), '>');
    if r.Pending? {
      BackwardPends(stack, line, j, r.stack);
    }
  }

  /** A scan that is over after the first roles does not close with the last. */
  lemma EarlyEnd(stack: string, u: seq<Role>, v: seq<Role>)
    ensures v != [] || u == [] ==>
      (!ScanRoles(stack, u, '<').Pending? ==> ScanRoles(stack, u + v, '<') != Closed(|u + v|))
    ensures v != [] || u == [] ==>
      (!ScanRoles(stack, u, '>').Pending? ==> ScanRoles(stack, u + v, '>') != Closed(|u + v|))
  {
    hide ScanRoles;
    RolesSplit(stack, u, v, '<');
    RolesSplit(stack, u, v, '>');
    if ScanRoles(stack, u, '<').Closed? {
      ClosedEarlier(stack, u, '<', ScanRoles(stack, u, '<').n);
    }
    if ScanRoles(stack, u, '>').Closed? {
      ClosedEarlier(stack, u, '>', ScanRoles(stack, u, '>').n);
    }
  }

  lemma {:induction false} NotEmptyBetween(lines: seq<string>, l: nat, i: nat, k: nat, e: nat)
    requires InOrder(lines, l, i, k, e) && e > 0 && (l == k ==> i < e)
    ensures Between(lines, l, i, k, e) != []
    decreases k - l
  {
    if l < k {
      NotEmptyBetween(lines, l + 1, 0, k, e);
    }
  }

  lemma {:induction false} NotEmptyBack(lines: seq<string>, l: nat, p: nat, k: nat, j: nat)
    requires InOrder(lines, l, p, k, j) && p < |lines[l]| && (l == k ==> p < j)
    ensures BackBetween(lines, l, p, k, j) != []
    decreases k
  {
    if l < k {
      NotEmptyBack(lines, l, p, k - 1, |lines[k - 1]|);
    }
  }

  lemma {:induction false} LinesBackwardStops(stack: string, lines: seq<string>, k: nat, j: nat, l: nat, p: nat)
    requires k < |lines| && j <= |lines[k]| && AngleStack(stack, false)
    ensures LinesBackward(stack, lines, k, j - 1) == Spot(l, p) <==>
      InOrder(lines, l, p, k, j) && p < |lines[l]|
      && ScanRoles(stack, BackBetween(lines, l, p, k, j), '>') == Closed(|BackBetween(lines, l, p, k, j)|)
    decreases k
  {
    hide AngleStack, LineBackward, ScanRoles, RolesBackward;
    var line := lines[k];
    PreviousLine(stack, lines, k, j - 1);
    if l == k {
      LinesBehind(stack, lines, k, j - 1);
      if p <= j {
        BackwardStops(stack, line, p, j);
        OnOneLine(stack, line, p, j);
      } else if LineBackward(stack, line, j - 1) == Closed(p) {
        BackwardBelow(stack, line, j - 1, p);
      }
    } else if l < k {
      var end := |lines[k - 1]|;
      match LineBackward(stack, line, j - 1)
      case Pending(next) => {
        BackwardStaysAngled(stack, line, j, next);
        BackwardPends(stack, line, j, next);
        LinesBackwardStops(next, lines, k - 1, end, l, p);
        if p < |lines[l]| {
          RolesSplit(stack, RolesBackward(line, 0, j), BackBetween(lines, l, p, k - 1, end), '>');
        }
      }
      case _ => {
        if p < |lines[l]| {
          NotEmptyBack(lines, l, p, k - 1, end);
          EarlyEnd(stack, RolesBackward(line, 0, j), BackBetween(lines, l, p, k - 1, end));
          BackwardNotPending(stack, line, j);
        }
      }
    } else {
      SpotIsEarlier(stack, lines, k, j - 1);
    }
  }

  // ---- The ends and the starts of arguments ----

  lemma {:induction false} BetweenLast(lines: seq<string>, l: nat, i: nat, k: nat, e: nat)
    requires InOrder(lines, l, i, k, e) && e > 0 && (l == k ==> i < e)
    ensures Between(lines, l, i, k, e) == Between(lines, l, i, k, e - 1) + [RoleForward(lines[k], e - 1)]
    decreases k - l
  {
    hide RoleForward;
    if l < k {
      BetweenLast(lines, l + 1, 0, k, e);
    }
  }

  /** How position p is read by a scan back from position j: not at all when it is skipped. */
  function LastRead(line: string, p: nat, j: nat): Role
    requires p < j <= |line|
  {
    RolesBackward(line, p, j)[j - p - 1]
  }

  lemma {:induction false} BackwardLast(line: string, p: nat, j: nat)
    requires p < j <= |line|
    ensures RolesBackward(line, p, j) == RolesBackward(line, p + 1, j) + [LastRead(line, p, j)]
    decreases j
  {
    hide RoleBackward;
    if p + 1 < j {
      if RoleBackward(line, j - 1) != Skip {
        BackwardLast(line, p, j - 1);
      } else if p + 1 < j - 1 {
        BackwardLast(line, p, j - 2);
      }
    }
  }

  lemma {:induction false} BackBetweenLast(lines: seq<string>, l: nat, p: nat, k: nat, j: nat)
    requires InOrder(lines, l, p, k, j) && p < |lines[l]| && (l == k ==> p < j)
    ensures BackBetween(lines, l, p, k, j) ==
      BackBetween(lines, l, p + 1, k, j) + [LastRead(lines[l], p, if l == k then j else |lines[l]|)]
    decreases k
  {
    hide RolesBackward, LastRead;
    if l == k {
      BackwardLast(lines[l], p, j);
    } else {
      BackBetweenLast(lines, l, p, k - 1, |lines[k - 1]|);
    }
  }

  /** The '<' at pos may open template arguments and the character before e closes them: brackets
      nest and no statement ends in between, and the angle brackets outside the other brackets
      count up, as the forward scan reads them. */
  ghost predicate EndsArguments(lines: seq<string>, l: nat, pos: nat, k: nat, e: nat)
    requires l < |lines| && pos < |lines[l]|
  {
    && e > 0 && InOrder(lines, l, pos + 1, k, e - 1) && e <= |lines[k]| && RoleForward(lines[k], e - 1) == AnglePop
    && Inner(Piece(lines, l, pos + 1, k, e - 1)) && Counted(Between(lines, l, pos + 1, k, e - 1))
  }

  /** The same for a '>' at q and the character at p, as the backward scan reads them. */
  ghost predicate StartsArguments(lines: seq<string>, l: nat, p: nat, k: nat, q: nat)
    requires k < |lines| && q < |lines[k]|
  {
    && l <= k && p < |lines[l]| && InOrder(lines, l, p + 1, k, q)
    && LastRead(lines[l], p, if l == k then q else |lines[l]|) == AnglePop
    && Inner(Piece(lines, l, p + 1, k, q)) && Counted(BackBetween(lines, l, p + 1, k, q))
  }

  predicate MayOpen(line: string, i: nat)
    requires i < |line|
  {
    RoleForward(line, i) == Push('<')
  }

  predicate MayClose(line: string, i: nat)
    requires i < |line|
  {
    RoleBackward(line, i) == Push('>')
  }

  lemma FirstAngle(line: string, i: nat)
    requires i < |line| && MayOpen(line, i)
    ensures line[i] == '<' && LineForward([], line, i) == LineForward(['<'], line, i + 1) && AngleStack(['<'], true)
  {
    hide LineForward;
    OneForward([], line, i);
    assert [] + ['<'] == ['<'];
  }

  lemma FirstAngleBack(line: string, i: nat)
    requires i < |line| && MayClose(line, i)
    ensures line[i] == '>' && LineBackward([], line, i) == LineBackward(['>'], line, i - 1) && AngleStack(['>'], false)
  {
    hide LineBackward;
    OneBackward([], line, i);
    assert [] + ['>'] == ['>'];
  }

  /** The forward scan from a '<' that may open template arguments finds exactly their end. */
  lemma EndIff(lines: seq<string>, l: nat, pos: nat, k: nat, e: nat)
    requires l < |lines| && pos < |lines[l]| && MayOpen(lines[l], pos)
    ensures LinesForward([], lines, l, pos) == Spot(k, e) <==> EndsArguments(lines, l, pos, k, e)
  {
    hide LineForward, LinesForward, ScanRoles, Between, Piece, RoleForward, Inner, Counted, AngleStack, ReadsAs, MayOpen;
    var line := lines[l];
    FirstAngle(line, pos);
    NextLine([], lines, l, pos);
    NextLine(['<'], lines, l, pos + 1);
    LinesForwardStops(['<'], lines, l, pos + 1, k, e);
    if e > 0 && InOrder(lines, l, pos + 1, k, e) {
      if l == k && e == pos + 1 {
        EmptyBetween(lines, l, e);
        NoRoles(['<'], '<');
      } else {
        BetweenLast(lines, l, pos + 1, k, e);
        BetweenReads(lines, l, pos + 1, k, e);
        RolesSuit(Between(lines, l, pos + 1, k, e), Piece(lines, l, pos + 1, k, e), true);
        ScanCloses(Between(lines, l, pos + 1, k, e), true);
        BetweenReads(lines, l, pos + 1, k, e - 1);
        ArgumentsIff(Between(lines, l, pos + 1, k, e - 1), Piece(lines, l, pos + 1, k, e - 1), true);
        WithoutLast(Between(lines, l, pos + 1, k, e - 1), RoleForward(lines[k], e - 1));
      }
    }
  }

  lemma WithoutLast(roles: seq<Role>, role: Role)
    ensures var all := roles + [role]; all != [] && all[|all| - 1] == role && all[..|all| - 1] == roles
  {}

  lemma EmptyBetween(lines: seq<string>, l: nat, e: nat)
    requires InOrder(lines, l, e, l, e)
    ensures Between(lines, l, e, l, e) == [] && BackBetween(lines, l, e, l, e) == []
  {}

  /** The backward scan from a '>' that may close template arguments finds exactly their start. */
  lemma StartIff(lines: seq<string>, l: nat, p: nat, k: nat, q: nat)
    requires k < |lines| && q < |lines[k]| && MayClose(lines[k], q)
    ensures LinesBackward([], lines, k, q) == Spot(l, p) <==> StartsArguments(lines, l, p, k, q)
  {
    hide LineBackward, LinesBackward, ScanRoles, BackBetween, Piece, RoleBackward, Inner, Counted, AngleStack, ReadsAs, MayClose, LastRead;
    var line := lines[k];
    FirstAngleBack(line, q);
    PreviousLine([], lines, k, q);
    PreviousLine(['>'], lines, k, q - 1);
    LinesBackwardStops(['>'], lines, k, q, l, p);
    if InOrder(lines, l, p, k, q) && p < |lines[l]| {
      if l == k && q == p {
        EmptyBetween(lines, l, p);
        NoRoles(['>'], '>');
      } else {
        var roles, last := BackBetween(lines, l, p + 1, k, q), LastRead(lines[l], p, if l == k then q else |lines[l]|);
        BackBetweenLast(lines, l, p, k, q);
        BackBetweenReads(lines, l, p, k, q);
        RolesSuit(BackBetween(lines, l, p, k, q), Piece(lines, l, p, k, q), false);
        ScanCloses(BackBetween(lines, l, p, k, q), false);
        BackBetweenReads(lines, l, p + 1, k, q);
        ArgumentsIff(roles, Piece(lines, l, p + 1, k, q), false);
        WithoutLast(roles, last);
      }
    }
  }
}
