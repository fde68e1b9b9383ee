/** Where the scans of cpplint.py end, for every character they can begin at, and when the scan back
    returns to where the scan forth began. */
module ScanRoundTrips {
  import opened LinkedLists
  import opened Brackets
  import opened LineScans
  import opened LineTexts
  import opened FileScans
  import opened AngleScans
  import opened AngleTexts
  import opened ArgumentScans

  // ---- Where a scan really begins ----

  /** A role that a scan with an empty stack does not pass over. */
  predicate Notable(role: Role) {
    role.Push? || role.Pop? || role == Semicolon
  }

  /** The first character from i on that a scan with an empty stack does not pass over. */
  function Beginning(line: string, i: nat): (q: Option<nat>)
    requires i <= |line|
    ensures q.Some? ==> i <= q.value < |line|
    decreases |line| - i
  {
    if i == |line| then None
    else if Notable(RoleForward(line, i)) then Some(i)
    else Beginning(line, i + 1)
  }

  /** The same from i down. */
  function BackBeginning(line: string, i: int): (q: Option<nat>)
    requires -1 <= i < |line|
    ensures q.Some? ==> q.value <= i
    decreases i + 1
  {
    if i < 0 then None
    else
      var role := RoleBackward(line, i);
      if Notable(role) then Some(i) else BackBeginning(line, if role == Skip then i - 2 else i - 1)
  }

  lemma PassedOver(role: Role, c: char, forwards: bool, angle: char)
    requires RoleOf(role, c, forwards) && !Notable(role)
    ensures IsPlain(c) && c != ';' && Turn([], role, angle) == Go([])
  {}

  lemma EmptyStops(role: Role, angle: char)
    requires Notable(role) && !role.Push?
    ensures Turn([], role, angle) == Stop
  {}

  lemma {:induction false} BeginsForward(line: string, i: nat)
    requires i <= |line|
    ensures match Beginning(line, i)
            case None => LineForward([], line, i) == Pending([]) && Quiet(line[i..])
            case Some(q) =>
              && Quiet(line[i..q]) && Notable(RoleForward(line, q))
              && LineForward([], line, i) == (if RoleForward(line, q).Push? then LineForward([], line, q) else Broken)
    decreases |line| - i
  {
    hide RoleForward, LineForward, Turn, IsPlain;
    OneForward([], line, i);
    if i < |line| {
      RoleFits(line, i);
      if Notable(RoleForward(line, i)) {
        if !RoleForward(line, i).Push? {
          EmptyStops(RoleForward(line, i), '<');
        }
      } else {
        PassedOver(RoleForward(line, i), line[i], true, '<');
        BeginsForward(line, i + 1);
      }
    }
  }

  lemma {:induction false} BeginsBackward(line: string, i: int)
    requires -1 <= i < |line|
    ensures match BackBeginning(line, i)
            case None => LineBackward([], line, i) == Pending([]) && Quiet(line[..i + 1])
            case Some(q) =>
              && Quiet(line[q + 1..i + 1]) && Notable(RoleBackward(line, q))
              && LineBackward([], line, i) == (if RoleBackward(line, q).Push? then LineBackward([], line, q) else Broken)
    decreases i + 1
  {
    hide RoleBackward, LineBackward, Turn, IsPlain;
    OneBackward([], line, i);
    if i >= 0 {
      var role := RoleBackward(line, i);
      RoleFits(line, i);
      if Notable(role) {
        if !role.Push? {
          EmptyStops(role, '>');
        }
      } else {
        PassedOver(role, line[i], false, '>');
        if role == Skip {
          PassedOver(Role.Plain, line[i - 1], false, '>');
          BeginsBackward(line, i - 2);
          QuietUpTo(line, i - 1, BackBeginning(line, i - 2));
        } else {
          BeginsBackward(line, i - 1);
        }
        QuietUpTo(line, i, BackBeginning(line, i));
      }
    }
  }

  /** One more character that no scan notices. */
  lemma QuietUpTo(line: string, i: nat, q: Option<nat>)
    requires i < |line| && IsPlain(line[i]) && line[i] != ';' && (q.Some? ==> q.value < i)
    ensures var from := if q.Some? then q.value + 1 else 0;
      Quiet(line[from..i]) ==> Quiet(line[from..i + 1])
    ensures line[0..i + 1] == line[..i + 1] && line[0..i] == line[..i]
  {
    var from := if q.Some? then q.value + 1 else 0;
    var piece := line[from..i + 1];
    forall x | 0 <= x < |piece|
      ensures Quiet(line[from..i]) ==> IsPlain(piece[x]) && piece[x] != ';'
    {
      if x < i - from {
        assert piece[x] == line[from..i][x];
      }
    }
  }

  lemma FileBegins(lines: seq<string>, l: nat, i: nat)
    requires l < |lines| && i <= |lines[l]|
    ensures LinesForward([], lines, l, i) ==
      match Beginning(lines[l], i)
      case Some(q) => if RoleForward(lines[l], q).Push? then LinesForward([], lines, l, q) else Nowhere
      case None => Nowhere
  {
    hide LineForward, RoleForward, Beginning, Quiet;
    BeginsForward(lines[l], i);
    NextLine([], lines, l, i);
    match Beginning(lines[l], i)
    case Some(q) => {
      BeginsIn(lines[l], i);
      NextLine([], lines, l, q);
    }
    case None =>
  }

  lemma BeginsIn(line: string, i: nat)
    requires i <= |line|
    ensures Beginning(line, i).Some? ==> i <= Beginning(line, i).value < |line|
    ensures i < |line| ==> BackBeginning(line, i).Some? ==> BackBeginning(line, i).value <= i
  {}

  lemma FileBeginsBack(lines: seq<string>, k: nat, i: nat)
    requires k < |lines| && i < |lines[k]|
    ensures LinesBackward([], lines, k, i) ==
      match BackBeginning(lines[k], i)
      case Some(q) => if RoleBackward(lines[k], q).Push? then LinesBackward([], lines, k, q) else Nowhere
      case None => Nowhere
  {
    hide LineBackward, RoleBackward, BackBeginning, Quiet;
    BeginsBackward(lines[k], i);
    PreviousLine([], lines, k, i);
    match BackBeginning(lines[k], i)
    case Some(q) => {
      BeginsIn(lines[k], i);
      PreviousLine([], lines, k, q);
    }
    case None =>
  }

  // ---- What is found, from every character ----

  /** The scan from a bracket at q ends just past position e - 1 of line k. */
  ghost predicate EndsAt(lines: seq<string>, l: nat, q: nat, k: nat, e: nat)
    requires l < |lines| && q < |lines[l]|
  {
    if IsOpen(lines[l][q]) then k < |lines| && 0 < e <= |lines[k]| && Matches(Flat(lines), At(lines, l, q), At(lines, k, e))
    else EndsArguments(lines, l, q, k, e)
  }

  ghost predicate StartsAt(lines: seq<string>, l: nat, p: nat, k: nat, q: nat)
    requires k < |lines| && q < |lines[k]|
  {
    if IsClose(lines[k][q]) then l < |lines| && p < |lines[l]| && Matches(Flat(lines), At(lines, l, p), At(lines, k, q + 1))
    else StartsArguments(lines, l, p, k, q)
  }

  /** What CloseExpression finds from any character: the end for the first bracket from there on. */
  ghost predicate Ends(lines: seq<string>, l: nat, pos: nat, k: nat, e: nat)
    requires l < |lines| && pos < |lines[l]|
  {
    && (IsOpen(lines[l][pos]) || lines[l][pos] == '<') && !ShiftOrAtMost(lines[l], pos)
    && var q := Beginning(lines[l], pos);
       q.Some? && RoleForward(lines[l], q.value).Push? && EndsAt(lines, l, q.value, k, e)
  }

  /** What ReverseCloseExpression finds from any character. */
  ghost predicate Starts(lines: seq<string>, l: nat, p: nat, k: nat, pos: nat)
    requires k < |lines| && pos < |lines[k]|
  {
    && (IsClose(lines[k][pos]) || lines[k][pos] == '>')
    && var q := BackBeginning(lines[k], pos);
       q.Some? && RoleBackward(lines[k], q.value).Push? && StartsAt(lines, l, p, k, q.value)
  }

  /** A place just past a character, and the place of a character, are those of one line only. */
  lemma SameEnd(lines: seq<string>, k: nat, e: nat, m: nat, f: nat)
    requires k < |lines| && m < |lines| && 0 < e <= |lines[k]| && 0 < f <= |lines[m]| && At(lines, k, e) == At(lines, m, f)
    ensures k == m && e == f
  {
    hide Offset;
    PositionIsUnique(lines, k, e - 1, m, f - 1);
  }

  lemma RoundEndIff(lines: seq<string>, l: nat, q: nat, k: nat, e: nat)
    requires l < |lines| && q < |lines[l]| && IsOpen(lines[l][q])
    ensures LinesForward([], lines, l, q) == Spot(k, e) <==>
      k < |lines| && 0 < e <= |lines[k]| && Matches(Flat(lines), At(lines, l, q), At(lines, k, e))
  {
    hide Flat, Offset, Matches, LinesForward, At;
    RoundEnd(lines, l, q);
    if k < |lines| && 0 < e <= |lines[k]| && Matches(Flat(lines), At(lines, l, q), At(lines, k, e)) {
      var s := LinesForward([], lines, l, q);
      assert Opens(lines, l, q);
      MatchIsUnique(Flat(lines), At(lines, l, q), At(lines, k, e), At(lines, l, q), At(lines, s.line, s.pos));
      SameEnd(lines, k, e, s.line, s.pos);
    }
  }

  lemma RoundStartIff(lines: seq<string>, l: nat, p: nat, k: nat, q: nat)
    requires k < |lines| && q < |lines[k]| && IsClose(lines[k][q])
    ensures LinesBackward([], lines, k, q) == Spot(l, p) <==>
      l < |lines| && p < |lines[l]| && Matches(Flat(lines), At(lines, l, p), At(lines, k, q + 1))
  {
    hide Flat, Offset, Matches, LinesBackward;
    RoundStart(lines, k, q);
    if l < |lines| && p < |lines[l]| && Matches(Flat(lines), At(lines, l, p), At(lines, k, q + 1)) {
      var s := LinesBackward([], lines, k, q);
      assert Closes(lines, k, q);
      MatchIsUnique(Flat(lines), At(lines, l, p), At(lines, k, q + 1), At(lines, s.line, s.pos), At(lines, k, q + 1));
      PositionIsUnique(lines, l, p, s.line, s.pos);
    }
  }

  lemma PushIsBracket(line: string, i: nat)
    requires i < |line|
    ensures RoleForward(line, i).Push? <==> IsOpen(line[i]) || MayOpen(line, i)
    ensures RoleBackward(line, i).Push? <==> IsClose(line[i]) || MayClose(line, i)
    ensures MayOpen(line, i) ==> line[i] == '<'
    ensures MayClose(line, i) ==> line[i] == '>'
  {
    hide EndsInOperator, SpacedAtLeast;
  }

  /** CloseExpression finds exactly the end for the first bracket from its character on. */
  lemma EndFoundIff(lines: seq<string>, l: nat, pos: nat, k: nat, e: nat)
    requires l < |lines| && pos < |lines[l]|
    ensures EndFound(lines, l, pos) == Spot(k, e) <==> Ends(lines, l, pos, k, e)
  {
    hide Flat, Offset, Matches, LinesForward, RoleForward, Beginning, EndsArguments, MayOpen, ShiftOrAtMost;
    FileBegins(lines, l, pos);
    BeginsIn(lines[l], pos);
    match Beginning(lines[l], pos)
    case Some(q) => {
      PushIsBracket(lines[l], q);
      if IsOpen(lines[l][q]) {
        RoundEndIff(lines, l, q, k, e);
      } else if MayOpen(lines[l], q) {
        EndIff(lines, l, q, k, e);
      }
    }
    case None =>
  }

  lemma StartFoundIff(lines: seq<string>, l: nat, p: nat, k: nat, pos: nat)
    requires k < |lines| && pos < |lines[k]|
    ensures StartFound(lines, k, pos) == Spot(l, p) <==> Starts(lines, l, p, k, pos)
  {
    hide Flat, Offset, Matches, LinesBackward, RoleBackward, BackBeginning, StartsArguments, MayClose;
    FileBeginsBack(lines, k, pos);
    BeginsIn(lines[k], pos);
    match BackBeginning(lines[k], pos)
    case Some(q) => {
      PushIsBracket(lines[k], q);
      if IsClose(lines[k][q]) {
        RoundStartIff(lines, l, p, k, q);
      } else if MayClose(lines[k], q) {
        StartIff(lines, l, p, k, q);
      }
    }
    case None =>
  }

  // ---- There and back, from an angle bracket ----

  /** The end found for the '<' at pos leads back to it: the scan back begins at a closing angle
      bracket behind the '<', the angle brackets outside the other brackets count down to it, and it is
      read as an opening one. */
  ghost predicate ReadsBack(lines: seq<string>, l: nat, pos: nat, k: nat, e: nat)
    requires l < |lines| && pos < |lines[l]| && k < |lines| && 0 < e <= |lines[k]|
  {
    && RoleBackward(lines[l], pos) == AnglePop && lines[k][e - 1] == '>'
    && var q := BackBeginning(lines[k], e - 1);
       && q.Some? && MayClose(lines[k], q.value) && InOrder(lines, l, pos + 1, k, q.value)
       && Counted(BackBetween(lines, l, pos + 1, k, q.value))
  }

  /** The start found for the '>' at pos leads forth to it. */
  ghost predicate ReadsForth(lines: seq<string>, l: nat, p: nat, k: nat, pos: nat)
    requires l < |lines| && p < |lines[l]| && k < |lines| && pos < |lines[k]|
  {
    && RoleForward(lines[k], pos) == AnglePop && lines[l][p] == '<' && !ShiftOrAtMost(lines[l], p)
    && var q := Beginning(lines[l], p);
       && q.Some? && MayOpen(lines[l], q.value) && InOrder(lines, l, q.value + 1, k, pos)
       && Counted(Between(lines, l, q.value + 1, k, pos))
  }

  /** Between two angle brackets with quiet text the nesting does not change, from the front. */
  lemma InnerFront(lines: seq<string>, l: nat, pos: nat, q: nat, k: nat, j: nat)
    requires l < |lines| && pos <= q < |lines[l]| && Quiet(lines[l][pos..q]) && lines[l][q] == '<'
    requires InOrder(lines, l, q + 1, k, j)
    ensures InOrder(lines, l, pos + 1, k, j)
    ensures Inner(Piece(lines, l, pos + 1, k, j)) <==> Inner(Piece(lines, l, q + 1, k, j))
  {
    hide Piece, Inner;
    if pos < q {
      PieceSplit(lines, l, pos + 1, l, q + 1, k, j);
      PieceOfLine(lines, l, pos + 1, q + 1);
      QuietAround(lines[l], pos, q);
      QuietFront(lines[l][pos + 1..q + 1], Piece(lines, l, q + 1, k, j));
    }
  }

  lemma QuietAround(s: string, i: nat, q: nat)
    requires i < q < |s| && IsAngle(s[q])
    ensures Quiet(s[i..q]) ==> Quiet(s[i + 1..q + 1])
  {
    var inner := s[i + 1..q + 1];
    forall x | 0 <= x < |inner|
      ensures Quiet(s[i..q]) ==> IsPlain(inner[x]) && inner[x] != ';'
    {
      if x < q - i - 1 {
        assert inner[x] == s[i..q][x + 1];
      }
    }
  }

  /** The same from the back. */
  lemma InnerBack(lines: seq<string>, l: nat, i: nat, k: nat, q: nat, pos: nat)
    requires k < |lines| && q <= pos < |lines[k]| && Quiet(lines[k][q + 1..pos + 1]) && lines[k][q] == '>'
    requires InOrder(lines, l, i, k, q)
    ensures InOrder(lines, l, i, k, pos)
    ensures Inner(Piece(lines, l, i, k, pos)) <==> Inner(Piece(lines, l, i, k, q))
  {
    hide Piece, Inner;
    if q < pos {
      PieceSplit(lines, l, i, k, q, k, pos);
      PieceOfLine(lines, k, q, pos);
      QuietFromAngle(lines[k], q, pos);
      QuietBack(Piece(lines, l, i, k, q), lines[k][q..pos]);
    }
  }

  lemma QuietFromAngle(s: string, q: nat, pos: nat)
    requires q < pos < |s| && IsAngle(s[q]) && Quiet(s[q + 1..pos + 1])
    ensures Quiet(s[q..pos])
  {
    forall x | 0 <= x < pos - q
      ensures IsPlain(s[q..pos][x]) && s[q..pos][x] != ';'
    {
      if x > 0 {
        assert s[q..pos][x] == s[q + 1..pos + 1][x - 1];
      }
    }
  }

  /** A '<' that no '<' or '=' follows is not skipped on the way back. */
  lemma NotSkipped(line: string, p: nat, j: nat)
    requires p < j <= |line| && line[p] == '<' && !ShiftOrAtMost(line, p)
    ensures LastRead(line, p, j) == AnglePop <==> RoleBackward(line, p) == AnglePop
  {
    hide RoleBackward, RolesBackward;
    if p + 1 < j {
      NoSkipOver(line, p);
    }
    Unskipped(line, p, j);
  }

  lemma NoSkipOver(line: string, p: nat)
    requires p + 1 < |line| && line[p] == '<' && !ShiftOrAtMost(line, p)
    ensures RoleBackward(line, p + 1) != Skip
  {
    if EndsInOperator(line[..p + 1]) {
      OperatorLast(line[..p + 1]);
    }
  }

  lemma {:induction false} Unskipped(line: string, p: nat, j: nat)
    requires p < j <= |line| && (p + 1 < j ==> RoleBackward(line, p + 1) != Skip)
    ensures LastRead(line, p, j) == if RoleBackward(line, p) == Skip then Role.Plain else RoleBackward(line, p)
    decreases j
  {
    hide RoleBackward, LastRead;
    ReadLast(line, p, j);
    if p + 1 < j {
      Unskipped(line, p, if RoleBackward(line, j - 1) != Skip then j - 1 else j - 2);
    }
  }

  lemma ReadLast(line: string, p: nat, j: nat)
    requires p < j <= |line|
    ensures LastRead(line, p, j) ==
      if RoleBackward(line, j - 1) != Skip then (if p + 1 == j then RoleBackward(line, p) else LastRead(line, p, j - 1))
      else if p + 2 >= j then Role.Plain else LastRead(line, p, j - 2)
  {
    hide RoleBackward;
    if p + 2 < j && RoleBackward(line, j - 1) == Skip {
      Behind2(line, p, j);
    }
  }

  lemma Behind2(line: string, p: nat, j: nat)
    requires p + 2 < j <= |line| && RoleBackward(line, j - 1) == Skip
    ensures LastRead(line, p, j) == LastRead(line, p, j - 2)
  {
    hide RoleBackward;
    var rest := RolesBackward(line, p, j - 2);
    assert RolesBackward(line, p, j) == [Role.Plain] + ([Role.Plain] + rest);
    assert ([Role.Plain] + ([Role.Plain] + rest))[j - p - 1] == rest[j - p - 3];
  }

  lemma RoundEndsRound(lines: seq<string>, a: nat, k: nat, e: nat)
    requires k < |lines| && 0 < e <= |lines[k]| && Matches(Flat(lines), a, At(lines, k, e))
    ensures IsClose(lines[k][e - 1])
  {
    hide Flat, Offset;
    UpToHere(lines, k, e - 1);
  }

  lemma RoundStartsRound(lines: seq<string>, l: nat, p: nat, b: nat)
    requires l < |lines| && p < |lines[l]| && Matches(Flat(lines), At(lines, l, p), b)
    ensures IsOpen(lines[l][p])
  {
    hide Flat, Offset;
    FromHere(lines, l, p);
  }

  lemma AnglePopIs(line: string, i: nat)
    requires i < |line|
    ensures RoleForward(line, i) == AnglePop ==> line[i] == '>'
    ensures RoleBackward(line, i) == AnglePop ==> line[i] == '<'
  {
    hide EndsInOperator, SpacedAtLeast;
  }

  /** Between the '<' at pos and a '>' from which the scan back from the end begins, brackets nest and
      no statement ends. */
  lemma InnerOnTheWayBack(lines: seq<string>, l: nat, pos: nat, q: nat, k: nat, e: nat, r: nat)
    requires l < |lines| && pos <= q < |lines[l]| && Quiet(lines[l][pos..q]) && lines[l][q] == '<'
    requires EndsArguments(lines, l, q, k, e)
    requires r < e && Quiet(lines[k][r + 1..e]) && lines[k][r] == '>' && InOrder(lines, l, pos + 1, k, r)
    ensures Inner(Piece(lines, l, pos + 1, k, r))
  {
    hide Piece, Inner, Counted, Quiet, RoleForward;
    InnerFront(lines, l, pos, q, k, e - 1);
    InnerBack(lines, l, pos + 1, k, r, e - 1);
  }

  /** CloseExpression and then ReverseCloseExpression: from a '<' one gets back exactly if its end
      reads back to it. */
  lemma ForthAndBackIff(lines: seq<string>, l: nat, pos: nat, k: nat, e: nat)
    requires l < |lines| && pos < |lines[l]| && lines[l][pos] == '<' && EndFound(lines, l, pos) == Spot(k, e)
    ensures k < |lines| && 0 < e <= |lines[k]|
    ensures StartFound(lines, k, e - 1) == Spot(l, pos) <==> ReadsBack(lines, l, pos, k, e)
  {
    hide Flat, Offset, Matches, RoleForward, RoleBackward, Beginning, BackBeginning, EndsArguments, StartsArguments, MayOpen, MayClose,
      LinesForward, LinesBackward, ShiftOrAtMost, Between, BackBetween, Counted, Inner, Piece, LastRead, LineForward, LineBackward, Quiet;
    EndFoundIff(lines, l, pos, k, e);
    BeginsIn(lines[l], pos);
    BeginsForward(lines[l], pos);
    var q := Beginning(lines[l], pos).value;
    PushIsBracket(lines[l], q);
    EndIsInFile(lines, l, q, k, e);
    StartFoundIff(lines, l, pos, k, e - 1);
    BeginsIn(lines[k], e - 1);
    BeginsBackward(lines[k], e - 1);
    if IsOpen(lines[l][q]) {
      RoundEndsRound(lines, At(lines, l, q), k, e);
      FromRound(lines, l, pos, k, e);
    } else if BackBeginning(lines[k], e - 1).Some? {
      var r := BackBeginning(lines[k], e - 1).value;
      PushIsBracket(lines[k], r);
      EndsInAngle(lines, l, q, k, e);
      if IsClose(lines[k][r]) {
        FromClose(lines, l, pos, k, r);
      } else if MayClose(lines[k], r) && InOrder(lines, l, pos + 1, k, r) {
        InnerOnTheWayBack(lines, l, pos, q, k, e, r);
        NotSkipped(lines[l], pos, if l == k then r else |lines[l]|);
      }
      BackIff(lines, l, pos, k, e, r);
    }
  }

  lemma EndIsInFile(lines: seq<string>, l: nat, q: nat, k: nat, e: nat)
    requires l < |lines| && q < |lines[l]| && EndsAt(lines, l, q, k, e)
    ensures k < |lines| && 0 < e <= |lines[k]|
  {
    hide Matches, Inner, Counted, Piece, Between, RoleForward;
  }

  lemma EndsInAngle(lines: seq<string>, l: nat, q: nat, k: nat, e: nat)
    requires l < |lines| && q < |lines[l]| && EndsArguments(lines, l, q, k, e)
    ensures k < |lines| && 0 < e <= |lines[k]| && lines[k][e - 1] == '>'
  {
    hide Inner, Counted, Piece, Between, RoleForward;
    AnglePopIs(lines[k], e - 1);
  }

  /** The end of a round bracket leads back to no angle bracket. */
  lemma FromRound(lines: seq<string>, l: nat, pos: nat, k: nat, e: nat)
    requires l < |lines| && pos < |lines[l]| && lines[l][pos] == '<' && k < |lines| && 0 < e <= |lines[k]| && IsClose(lines[k][e - 1])
    ensures !Starts(lines, l, pos, k, e - 1) && !ReadsBack(lines, l, pos, k, e)
  {
    hide Flat, Offset, Matches, Counted, Inner, Piece, BackBetween, StartsArguments, MayClose;
    RoleOfClose(lines[k], e - 1);
    if StartsAt(lines, l, pos, k, e - 1) {
      RoundStartsRound(lines, l, pos, At(lines, k, e));
    }
  }

  lemma RoleOfClose(line: string, i: nat)
    requires i < |line| && IsClose(line[i])
    ensures BackBeginning(line, i) == Some(i) && line[i] != '>'
  {}

  lemma FromClose(lines: seq<string>, l: nat, pos: nat, k: nat, r: nat)
    requires l < |lines| && pos < |lines[l]| && lines[l][pos] == '<' && k < |lines| && r < |lines[k]| && IsClose(lines[k][r])
    ensures !StartsAt(lines, l, pos, k, r)
  {
    hide Flat, Offset, Matches;
    if StartsAt(lines, l, pos, k, r) {
      RoundStartsRound(lines, l, pos, At(lines, k, r + 1));
    }
  }

  /** What is left to compare. */
  lemma BackIff(lines: seq<string>, l: nat, pos: nat, k: nat, e: nat, r: nat)
    requires l < |lines| && pos < |lines[l]| && k < |lines| && 0 < e <= |lines[k]| && lines[k][e - 1] == '>'
    requires BackBeginning(lines[k], e - 1) == Some(r) && r < e
    requires RoleBackward(lines[k], r).Push? <==> IsClose(lines[k][r]) || MayClose(lines[k], r)
    requires MayClose(lines[k], r) ==> lines[k][r] == '>'
    requires IsClose(lines[k][r]) ==> !StartsAt(lines, l, pos, k, r)
    requires MayClose(lines[k], r) && InOrder(lines, l, pos + 1, k, r) ==>
      Inner(Piece(lines, l, pos + 1, k, r))
      && (LastRead(lines[l], pos, if l == k then r else |lines[l]|) == AnglePop <==> RoleBackward(lines[l], pos) == AnglePop)
    ensures Starts(lines, l, pos, k, e - 1) <==> ReadsBack(lines, l, pos, k, e)
  {
    hide Matches, RoleBackward, BackBeginning, MayClose, BackBetween, Counted, Inner, Piece, LastRead;
    AngleIsNoClose(lines[k][r]);
  }

  lemma AngleIsNoClose(c: char)
    ensures IsAngle(c) ==> !IsClose(c) && !IsOpen(c)
  {}

  /** ReverseCloseExpression and then CloseExpression: from a '>' one gets back exactly if its start
      reads forth to it. */
  lemma BackAndForthIff(lines: seq<string>, l: nat, p: nat, k: nat, pos: nat)
    requires k < |lines| && pos < |lines[k]| && lines[k][pos] == '>' && StartFound(lines, k, pos) == Spot(l, p)
    ensures l < |lines| && p < |lines[l]|
    ensures EndFound(lines, l, p) == Spot(k, pos + 1) <==> ReadsForth(lines, l, p, k, pos)
  {
    hide Flat, Offset, Matches, RoleForward, RoleBackward, Beginning, BackBeginning, EndsArguments, StartsArguments, MayOpen, MayClose,
      LinesForward, LinesBackward, ShiftOrAtMost, Between, BackBetween, Counted, Inner, Piece, LastRead, LineForward, LineBackward, Quiet;
    StartFoundIff(lines, l, p, k, pos);
    BeginsIn(lines[k], pos);
    BeginsBackward(lines[k], pos);
    var q := BackBeginning(lines[k], pos).value;
    PushIsBracket(lines[k], q);
    StartIsInFile(lines, l, p, k, q);
    EndFoundIff(lines, l, p, k, pos + 1);
    BeginsIn(lines[l], p);
    BeginsForward(lines[l], p);
    if IsClose(lines[k][q]) {
      RoundStartsRound(lines, l, p, At(lines, k, q + 1));
      ToRound(lines, l, p, k, pos);
    } else if Beginning(lines[l], p).Some? {
      var d := Beginning(lines[l], p).value;
      PushIsBracket(lines[l], d);
      StartsInAngle(lines, l, p, k, q);
      if IsOpen(lines[l][d]) {
        FromOpen(lines, l, d, k, pos);
      } else if MayOpen(lines[l], d) && InOrder(lines, l, d + 1, k, pos) {
        InnerOnTheWayForth(lines, l, p, d, k, q, pos);
      }
      ForthIff(lines, l, p, k, pos, d);
    }
  }

  lemma InnerOnTheWayForth(lines: seq<string>, l: nat, p: nat, d: nat, k: nat, q: nat, pos: nat)
    requires l < |lines| && p <= d < |lines[l]| && Quiet(lines[l][p..d]) && lines[l][d] == '<'
    requires k < |lines| && q <= pos < |lines[k]| && StartsArguments(lines, l, p, k, q)
    requires Quiet(lines[k][q + 1..pos + 1]) && lines[k][q] == '>' && InOrder(lines, l, d + 1, k, pos)
    ensures Inner(Piece(lines, l, d + 1, k, pos))
  {
    hide Piece, Inner, Counted, Quiet, LastRead;
    InnerBack(lines, l, p + 1, k, q, pos);
    InnerFront(lines, l, p, d, k, pos);
  }

  lemma StartIsInFile(lines: seq<string>, l: nat, p: nat, k: nat, q: nat)
    requires k < |lines| && q < |lines[k]| && StartsAt(lines, l, p, k, q)
    ensures l < |lines| && p < |lines[l]|
  {
    hide Matches, Inner, Counted, Piece, BackBetween, LastRead;
  }

  lemma StartsInAngle(lines: seq<string>, l: nat, p: nat, k: nat, q: nat)
    requires k < |lines| && q < |lines[k]| && StartsArguments(lines, l, p, k, q)
    ensures l < |lines| && p < |lines[l]| && lines[l][p] == '<'
  {
    hide Inner, Counted, Piece, BackBetween, LastRead;
    LastReadIs(lines[l], p, if l == k then q else |lines[l]|);
  }

  lemma {:induction false} LastReadIs(line: string, p: nat, j: nat)
    requires p < j <= |line| && LastRead(line, p, j) == AnglePop
    ensures line[p] == '<'
    decreases j
  {
    hide RoleBackward, LastRead;
    ReadLast(line, p, j);
    if RoleBackward(line, j - 1) != Skip && p + 1 == j {
      AnglePopIs(line, p);
    } else {
      LastReadIs(line, p, if RoleBackward(line, j - 1) != Skip then j - 1 else j - 2);
    }
  }

  lemma {:induction false} LastReadIsRole(line: string, p: nat, j: nat)
    requires p < j <= |line| && LastRead(line, p, j) == AnglePop
    ensures RoleBackward(line, p) == AnglePop
    decreases j
  {
    hide RoleBackward, LastRead;
    ReadLast(line, p, j);
    if RoleBackward(line, j - 1) == Skip || p + 1 < j {
      LastReadIsRole(line, p, if RoleBackward(line, j - 1) != Skip then j - 1 else j - 2);
    }
  }

  lemma ToRound(lines: seq<string>, l: nat, p: nat, k: nat, pos: nat)
    requires l < |lines| && p < |lines[l]| && IsOpen(lines[l][p]) && k < |lines| && pos < |lines[k]| && lines[k][pos] == '>'
    ensures !Ends(lines, l, p, k, pos + 1) && !ReadsForth(lines, l, p, k, pos)
  {
    hide Flat, Offset, Matches, Counted, Between, RoleForward, Beginning;
    RoleOfOpen(lines[l], p);
    if EndsAt(lines, l, p, k, pos + 1) {
      RoundEndsRound(lines, At(lines, l, p), k, pos + 1);
    }
  }

  lemma RoleOfOpen(line: string, i: nat)
    requires i < |line| && IsOpen(line[i])
    ensures Beginning(line, i) == Some(i) && line[i] != '<'
  {}

  lemma FromOpen(lines: seq<string>, l: nat, d: nat, k: nat, pos: nat)
    requires l < |lines| && d < |lines[l]| && IsOpen(lines[l][d]) && k < |lines| && pos < |lines[k]| && lines[k][pos] == '>'
    ensures !EndsAt(lines, l, d, k, pos + 1)
  {
    hide Flat, Offset, Matches;
    if EndsAt(lines, l, d, k, pos + 1) {
      RoundEndsRound(lines, At(lines, l, d), k, pos + 1);
    }
  }

  lemma ForthIff(lines: seq<string>, l: nat, p: nat, k: nat, pos: nat, d: nat)
    requires l < |lines| && p < |lines[l]| && lines[l][p] == '<' && k < |lines| && pos < |lines[k]|
    requires Beginning(lines[l], p) == Some(d) && d < |lines[l]|
    requires RoleForward(lines[l], d).Push? <==> IsOpen(lines[l][d]) || MayOpen(lines[l], d)
    requires MayOpen(lines[l], d) ==> lines[l][d] == '<'
    requires IsOpen(lines[l][d]) ==> !EndsAt(lines, l, d, k, pos + 1)
    requires MayOpen(lines[l], d) && InOrder(lines, l, d + 1, k, pos) ==> Inner(Piece(lines, l, d + 1, k, pos))
    ensures Ends(lines, l, p, k, pos + 1) <==> ReadsForth(lines, l, p, k, pos)
  {
    hide Matches, RoleForward, Beginning, MayOpen, Between, Counted, Inner, Piece, ShiftOrAtMost;
    AngleIsNoClose(lines[l][d]);
  }

  /** When every angle bracket in between, outside the other brackets, is read as the same from both
      sides, one gets back. */
  lemma SameReadingReturns(lines: seq<string>, l: nat, pos: nat, k: nat, e: nat)
    requires l < |lines| && pos < |lines[l]| && MayOpen(lines[l], pos) && EndFound(lines, l, pos) == Spot(k, e)
    requires k < |lines| && 0 < e <= |lines[k]| && MayClose(lines[k], e - 1) && InOrder(lines, l, pos + 1, k, e - 1)
    requires SameReading(Between(lines, l, pos + 1, k, e - 1), BackBetween(lines, l, pos + 1, k, e - 1))
    ensures StartFound(lines, k, e - 1) == Spot(l, pos)
  {
    hide Flat, Offset, RoleForward, RoleBackward, LinesForward, LinesBackward, Between, BackBetween, Counted, Balanced, NoStatement,
      Piece, LastRead, SameReading, ReadsAs, EndFound, StartFound, MayOpen, MayClose, BackBeginning, Beginning;
    PushIsBracket(lines[l], pos);
    PushIsBracket(lines[k], e - 1);
    ForthAndBackIff(lines, l, pos, k, e);
    EndOfMayOpen(lines, l, pos, k, e);
    BackOfMayClose(lines[k], e - 1);
    OpensBothWays(lines[l], pos);
    BetweenReads(lines, l, pos + 1, k, e - 1);
    BackBetweenReads(lines, l, pos + 1, k, e - 1);
    CountedBothWays(Between(lines, l, pos + 1, k, e - 1), BackBetween(lines, l, pos + 1, k, e - 1), Piece(lines, l, pos + 1, k, e - 1));
  }

  lemma EndOfMayOpen(lines: seq<string>, l: nat, pos: nat, k: nat, e: nat)
    requires l < |lines| && pos < |lines[l]| && MayOpen(lines[l], pos) && EndFound(lines, l, pos) == Spot(k, e)
    ensures EndsArguments(lines, l, pos, k, e)
  {
    hide LinesForward, RoleForward, EndsArguments, MayOpen;
    PushIsBracket(lines[l], pos);
    EndIff(lines, l, pos, k, e);
  }

  lemma BackOfMayClose(line: string, i: nat)
    requires i < |line| && MayClose(line, i)
    ensures BackBeginning(line, i) == Some(i)
  {
    hide RoleBackward;
  }

  lemma OpensBothWays(line: string, i: nat)
    requires i < |line| && MayOpen(line, i)
    ensures RoleBackward(line, i) == AnglePop
  {
    hide EndsInOperator, SpacedAtLeast;
  }
}
