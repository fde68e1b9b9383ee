/** When a scan of cpplint.py that began at an angle bracket ends: the scan as a count of the angle
    brackets that stand outside the other brackets. */
module AngleScans {
  import opened LinkedLists
  import opened Brackets
  import opened LineScans

  // ---- A scan over roles, in the order in which they are read ----

  function ScanRoles(stack: string, roles: seq<Role>, angle: char): Scan {
    if roles == [] then Pending(stack)
    else match ScanRoles(stack, roles[..|roles| - 1], angle)
      case Pending(s) => After(Turn(s, roles[|roles| - 1], angle), |roles|)
      case other => other
  }

  function After(outcome: Outcome, n: nat): Scan {
    match outcome
    case Stop => Broken
    case Found => Closed(n)
    case Go(next) => Pending(next)
  }

  lemma {:induction false} RolesSplit(stack: string, u: seq<Role>, v: seq<Role>, angle: char)
    ensures ScanRoles(stack, u + v, angle) ==
      match ScanRoles(stack, u, angle) case Pending(next) => Then(ScanRoles(next, v, angle), |u|) case other => other
    decreases |v|
  {
    hide ScanRoles, Turn, After;
    if v == [] {
      assert u + v == u;
      if ScanRoles(stack, u, angle).Pending? {
        NoRoles(ScanRoles(stack, u, angle).stack, angle);
      }
    } else {
      var init, last := v[..|v| - 1], v[|v| - 1];
      assert v == init + [last] && u + v == (u + init) + [last];
      RolesSplit(stack, u, init, angle);
      LastRole(stack, u + init, last, angle);
      match ScanRoles(stack, u, angle)
      case Pending(next) => {
        LastRole(next, init, last, angle);
        match ScanRoles(next, init, angle)
        case Pending(s) => LaterOutcome(Turn(s, last, angle), |v|, |u|);
        case _ =>
      }
      case _ =>
    }
  }

  lemma LastRole(stack: string, init: seq<Role>, last: Role, angle: char)
    ensures ScanRoles(stack, init + [last], angle) ==
      match ScanRoles(stack, init, angle) case Pending(s) => After(Turn(s, last, angle), |init| + 1) case other => other
  {
    hide Turn, After;
    assert (init + [last])[..|init|] == init;
  }

  lemma LaterOutcome(outcome: Outcome, n: nat, k: nat)
    ensures Then(After(outcome, n), k) == After(outcome, k + n)
  {}

  lemma OneRole(stack: string, role: Role, rest: seq<Role>, angle: char)
    ensures ScanRoles(stack, [role] + rest, angle) ==
      match Turn(stack, role, angle)
      case Stop => Broken
      case Found => Closed(1)
      case Go(next) => Then(ScanRoles(next, rest, angle), 1)
  {
    RolesSplit(stack, [role], rest, angle);
    assert [role][..0] == [];
  }

  /** Where a scan closes, it closes without the roles behind. */
  lemma {:induction false} ClosedEarlier(stack: string, roles: seq<Role>, angle: char, n: nat)
    requires ScanRoles(stack, roles, angle) == Closed(n)
    ensures 0 < n <= |roles| && ScanRoles(stack, roles[..n], angle) == Closed(n)
    decreases |roles|
  {
    if roles != [] {
      var init := roles[..|roles| - 1];
      if ScanRoles(stack, init, angle).Pending? {
        assert roles[..n] == roles;
      } else {
        ClosedEarlier(stack, init, angle, n);
        assert init[..n] == roles[..n];
      }
    }
  }

  // ---- The roles of a piece of a line ----

  function RolesForward(line: string, i: nat, j: nat): (roles: seq<Role>)
    requires i <= j <= |line|
    ensures |roles| == j - i
  {
    seq(j - i, k requires 0 <= k < j - i => RoleForward(line, i + k))
  }

  /** From j - 1 down to i; what a Skip passes over is plain. */
  function RolesBackward(line: string, i: nat, j: nat): (roles: seq<Role>)
    requires i <= j <= |line|
    ensures |roles| == j - i
    decreases j
  {
    if i == j then []
    else
      var role := RoleBackward(line, j - 1);
      if role != Skip then [role] + RolesBackward(line, i, j - 1)
      else if j - 1 == i then [Role.Plain]
      else [Role.Plain] + ([Role.Plain] + RolesBackward(line, i, j - 2))
  }

  /** The scan of a line goes through the roles of its characters. */
  lemma {:induction false} ForwardRoles(stack: string, line: string, i: nat, j: nat)
    requires i <= j <= |line|
    ensures LineForward(stack, line, i) ==
      match ScanRoles(stack, RolesForward(line, i, j), '<')
      case Pending(s) => LineForward(s, line, j)
      case Closed(n) => Closed(i + n)
      case Broken => Broken
    decreases j
  {
    hide Turn, RoleForward;
    if i < j {
      ForwardRoles(stack, line, i, j - 1);
      var roles := RolesForward(line, i, j);
      assert roles[..|roles| - 1] == RolesForward(line, i, j - 1);
    } else {
      assert RolesForward(line, i, j) == [];
    }
  }

  lemma ForwardStops(stack: string, line: string, i: nat, e: nat)
    requires i <= |line|
    ensures LineForward(stack, line, i) == Closed(e) <==>
      i < e <= |line| && ScanRoles(stack, RolesForward(line, i, e), '<') == Closed(e - i)
  {
    hide Turn, RoleForward, ScanRoles;
    ForwardRoles(stack, line, i, |line|);
    if i < e <= |line| {
      ForwardRoles(stack, line, i, e);
      assert RolesForward(line, i, |line|)[..e - i] == RolesForward(line, i, e);
    }
    if LineForward(stack, line, i) == Closed(e) {
      var n := ScanRoles(stack, RolesForward(line, i, |line|), '<').n;
      ClosedEarlier(stack, RolesForward(line, i, |line|), '<', n);
    }
  }

  lemma ForwardPends(stack: string, line: string, i: nat, next: string)
    requires i <= |line|
    ensures LineForward(stack, line, i) == Pending(next) <==> ScanRoles(stack, RolesForward(line, i, |line|), '<') == Pending(next)
  {
    hide Turn, RoleForward, ScanRoles;
    ForwardRoles(stack, line, i, |line|);
  }

  lemma {:induction false} BackwardBelow(stack: string, line: string, i: int, p: nat)
    requires -1 <= i < |line| && LineBackward(stack, line, i) == Closed(p)
    ensures p <= i
    decreases i + 1
  {
    hide Turn, RoleBackward;
    if i >= 0 {
      match Turn(stack, RoleBackward(line, i), '>')
      case Go(next) => {
        SkipInside(line, i);
        BackwardBelow(next, line, if RoleBackward(line, i) == Skip then i - 2 else i - 1, p);
      }
      case _ =>
    }
  }

  lemma SkipInside(line: string, i: nat)
    requires i < |line|
    ensures RoleBackward(line, i) == Skip ==> i > 0
  {}

  lemma PlainTurns(stack: string, angle: char)
    ensures Turn(stack, Role.Plain, angle) == Go(stack) == Turn(stack, Skip, angle)
  {}

  lemma {:induction false} BackwardStops(stack: string, line: string, p: nat, j: nat)
    requires p <= j <= |line|
    ensures LineBackward(stack, line, j - 1) == Closed(p) <==>
      p < j && ScanRoles(stack, RolesBackward(line, p, j), '>') == Closed(j - p)
    decreases j
  {
    hide Turn, RoleBackward, ScanRoles;
    if LineBackward(stack, line, j - 1) == Closed(p) {
      BackwardBelow(stack, line, j - 1, p);
    }
    if p < j {
      var role := RoleBackward(line, j - 1);
      SkipInside(line, j - 1);
      if role != Skip {
        OneRole(stack, role, RolesBackward(line, p, j - 1), '>');
        match Turn(stack, role, '>')
        case Go(next) => {
          NoRoles(next, '>');
          BackwardStops(next, line, p, j - 1);
        }
        case _ =>
      } else {
        PlainTurns(stack, '>');
        OneBackward(stack, line, j - 1);
        if j - 1 == p {
          SkipsToTheEnd(stack, line, p);
        } else {
          BackwardStops(stack, line, p, j - 2);
          SkipsTwo(stack, line, p, j);
        }
      }
    }
  }

  lemma SkipsToTheEnd(stack: string, line: string, p: nat)
    requires p < |line| && RoleBackward(line, p) == Skip
    ensures ScanRoles(stack, RolesBackward(line, p, p + 1), '>') == Pending(stack)
    ensures p > 0 && LineBackward(stack, line, p - 2) != Closed(p)
  {
    hide Turn, RoleBackward, ScanRoles;
    SkipInside(line, p);
    PlainTurns(stack, '>');
    OneRole(stack, Role.Plain, [], '>');
    NoRoles(stack, '>');
    assert [Role.Plain] + [] == [Role.Plain];
    if LineBackward(stack, line, p - 2) == Closed(p) {
      BackwardBelow(stack, line, p - 2, p);
    }
  }

  lemma SkipsTwo(stack: string, line: string, p: nat, j: nat)
    requires p + 1 < j <= |line| && RoleBackward(line, j - 1) == Skip
    ensures ScanRoles(stack, RolesBackward(line, p, j), '>') == Closed(j - p) <==>
      p < j - 2 && ScanRoles(stack, RolesBackward(line, p, j - 2), '>') == Closed(j - 2 - p)
  {
    hide Turn, RoleBackward, ScanRoles;
    PlainTurns(stack, '>');
    OneRole(stack, Role.Plain, [Role.Plain] + RolesBackward(line, p, j - 2), '>');
    OneRole(stack, Role.Plain, RolesBackward(line, p, j - 2), '>');
    NoRoles(stack, '>');
    ThenTwice(ScanRoles(stack, RolesBackward(line, p, j - 2), '>'), j - 2 - p);
  }

  lemma ThenTwice(r: Scan, n: nat)
    ensures Then(Then(r, 1), 1) == Closed(n + 2) <==> r == Closed(n)
  {}

  lemma NoRoles(stack: string, angle: char)
    ensures ScanRoles(stack, [], angle) == Pending(stack)
  {}

  lemma {:induction false} BackwardPends(stack: string, line: string, j: nat, next: string)
    requires j <= |line|
    ensures LineBackward(stack, line, j - 1) == Pending(next) <==> ScanRoles(stack, RolesBackward(line, 0, j), '>') == Pending(next)
    decreases j
  {
    hide Turn, RoleBackward, ScanRoles;
    if j == 0 {
      NoRoles(stack, '>');
    } else {
      var role := RoleBackward(line, j - 1);
      SkipInside(line, j - 1);
      if role != Skip {
        OneRole(stack, role, RolesBackward(line, 0, j - 1), '>');
        match Turn(stack, role, '>')
        case Go(s) => BackwardPends(s, line, j - 1, next);
        case _ =>
      } else {
        PlainTurns(stack, '>');
        OneRole(stack, Role.Plain, [Role.Plain] + RolesBackward(line, 0, j - 2), '>');
        OneRole(stack, Role.Plain, RolesBackward(line, 0, j - 2), '>');
        BackwardPends(stack, line, j - 2, next);
      }
    }
  }

  // ---- Nesting and counting ----

  /** The effect on the round, square and curly brackets that are open. */
  function RoundStep(rounds: string, role: Role): Option<string> {
    match role
    case Push(c) => Some(if IsAngle(c) then rounds else rounds + [c])
    case Pop(c) => if rounds != [] && Pair(rounds[|rounds| - 1], c) then Some(rounds[..|rounds| - 1]) else None
    case _ => Some(rounds)
  }

  /** The round, square and curly brackets that are open after the roles, or None for a mismatch. */
  function Nest(roles: seq<Role>): Option<string> {
    if roles == [] then Some([])
    else match Nest(roles[..|roles| - 1])
      case None => None
      case Some(rounds) => RoundStep(rounds, roles[|roles| - 1])
  }

  predicate Outside(roles: seq<Role>) {
    Nest(roles) == Some([])
  }

  /** What an angle bracket counts. */
  function Weight(role: Role): int {
    match role
    case Push(c) => if IsAngle(c) then 1 else 0
    case AnglePop => -1
    case Shift => -1
    case _ => 0
  }

  /** The opening minus the closing angle brackets that stand outside the other brackets. */
  function Angles(roles: seq<Role>): int {
    if roles == [] then 0
    else
      var init := roles[..|roles| - 1];
      Angles(init) + if Outside(init) then Weight(roles[|roles| - 1]) else 0
  }

  ghost predicate NeverBelow(roles: seq<Role>) {
    forall m :: 0 <= m <= |roles| ==> Angles(roles[..m]) >= 0
  }

  /** The angle brackets outside the other brackets nest. */
  ghost predicate Counted(roles: seq<Role>) {
    NeverBelow(roles) && Angles(roles) == 0
  }

  ghost predicate NoOuterSemicolon(roles: seq<Role>) {
    forall m :: 0 <= m < |roles| && roles[m] == Semicolon ==> !Outside(roles[..m])
  }

  /** A scan that began at an angle bracket is still looking for its partner. */
  ghost predicate Alive(roles: seq<Role>) {
    Nest(roles).Some? && NeverBelow(roles) && NoOuterSemicolon(roles)
  }

  lemma NeverBelowStep(init: seq<Role>, role: Role)
    ensures NeverBelow(init + [role]) <==> NeverBelow(init) && Angles(init + [role]) >= 0
  {
    hide Angles;
    var roles := init + [role];
    assert forall m :: 0 <= m <= |init| ==> roles[..m] == init[..m];
    assert roles[..|roles|] == roles;
  }

  lemma SemicolonStep(init: seq<Role>, role: Role)
    ensures NoOuterSemicolon(init + [role]) <==> NoOuterSemicolon(init) && (role == Semicolon ==> !Outside(init))
  {
    hide Outside;
    var roles := init + [role];
    assert forall m :: 0 <= m <= |init| ==> roles[..m] == init[..m];
    assert roles[|init|] == role && roles[..|init|] == init && init[..|init|] == init;
    if NoOuterSemicolon(roles) {
      forall m | 0 <= m < |init| && init[m] == Semicolon
        ensures !Outside(init[..m])
      {
        assert roles[m] == Semicolon;
      }
    }
  }

  lemma AliveStep(init: seq<Role>, role: Role)
    ensures Alive(init + [role]) <==>
      Alive(init) && RoundStep(Nest(init).value, role).Some? && Angles(init + [role]) >= 0 && (role == Semicolon ==> !Outside(init))
    ensures Nest(init + [role]) == match Nest(init) case None => None case Some(rounds) => RoundStep(rounds, role)
    ensures Angles(init + [role]) == Angles(init) + if Outside(init) then Weight(role) else 0
  {
    hide RoundStep, Weight, NeverBelow, NoOuterSemicolon;
    assert (init + [role])[..|init|] == init;
    NeverBelowStep(init, role);
    SemicolonStep(init, role);
  }

  // ---- The stack and the count ----

  ghost predicate AngleStack(stack: string, forwards: bool) {
    stack != [] && stack[0] == Angle(forwards) && OneWay(stack, forwards)
  }

  /** How many angle brackets lie below the first other bracket of the stack. */
  ghost function Base(stack: string): nat {
    if Rounds(stack) == [] then |stack| else Base(stack[..|stack| - 1])
  }

  lemma BasePush(stack: string, c: char)
    ensures Rounds(stack + [c]) == if IsAngle(c) then Rounds(stack) else Rounds(stack) + [c]
    ensures Base(stack + [c]) == Base(stack) + if Rounds(stack) == [] && IsAngle(c) then 1 else 0
  {
    assert (stack + [c])[..|stack|] == stack;
  }

  lemma {:induction false} BaseDrop(stack: string, angle: char)
    requires IsAngle(angle)
    ensures Rounds(DropAngles(stack, angle)) == Rounds(stack)
    ensures Rounds(stack) != [] ==> Base(DropAngles(stack, angle)) == Base(stack)
  {
    if stack != [] && stack[|stack| - 1] == angle {
      BaseDrop(stack[..|stack| - 1], angle);
    }
  }

  /** A role of the given direction. */
  predicate Suits(role: Role, forwards: bool) {
    match role
    case Push(c) => c == Angle(forwards) || (if forwards then IsOpen(c) else IsClose(c))
    case Pop(c) => if forwards then IsClose(c) else IsOpen(c)
    case _ => true
  }

  ghost predicate AllSuit(roles: seq<Role>, forwards: bool) {
    forall m :: 0 <= m < |roles| ==> Suits(roles[m], forwards)
  }

  lemma {:induction false} OnlyAngles(stack: string, forwards: bool)
    requires OneWay(stack, forwards)
    ensures Rounds(stack) == [] <==> forall i :: 0 <= i < |stack| ==> stack[i] == Angle(forwards)
  {
    if stack != [] {
      var init, last := stack[..|stack| - 1], stack[|stack| - 1];
      OnlyAngles(init, forwards);
      NotAngle(last, forwards);
      if Rounds(stack) == [] {
        assert last == Angle(forwards);
      }
    }
  }

  lemma {:induction false} DropAll(stack: string, angle: char)
    ensures DropAngles(stack, angle) == [] <==> forall i :: 0 <= i < |stack| ==> stack[i] == angle
  {
    if stack != [] && stack[|stack| - 1] == angle {
      DropAll(stack[..|stack| - 1], angle);
    }
  }

  lemma {:induction false} AngleStays(stack: string, angle: char)
    requires stack != [] && stack[0] == angle
    ensures var s := DropAngles(stack, angle);
      s <= stack && (s != [] ==> |s| > 1 && s[0] == angle && s[|s| - 1] != angle)
  {
    if stack[|stack| - 1] == angle && |stack| > 1 {
      AngleStays(stack[..|stack| - 1], angle);
    }
  }

  /** What a turn does, said without the stack: the other brackets nest and the angle brackets
      outside them are counted. */
  ghost predicate CountsTurn(outcome: Outcome, stack: string, role: Role, forwards: bool) {
    var rounds, step := Rounds(stack), RoundStep(Rounds(stack), role);
    var base := Base(stack) + if rounds == [] then Weight(role) else 0;
    match outcome
    case Stop => step == None || (role == Semicolon && rounds == []) || base == 0
    case Found => role == AnglePop && rounds == [] && base == 0
    case Go(next) => AngleStack(next, forwards) && step == Some(Rounds(next)) && Base(next) == base > 0 && !(role == Semicolon && rounds == [])
  }

  lemma AngleTurn(stack: string, role: Role, forwards: bool)
    requires AngleStack(stack, forwards) && Suits(role, forwards)
    ensures CountsTurn(Turn(stack, role, Angle(forwards)), stack, role, forwards)
    ensures role == AnglePop && Rounds(stack) == [] && Base(stack) == 1 ==> Turn(stack, role, Angle(forwards)) == Outcome.Found
  {
    hide Rounds, DropAngles, Base, Pair;
    BaseIsPositive(stack, forwards);
    match role
    case Push(c) => BasePush(stack, c);
    case Pop(c) => PopTurn(stack, c, forwards);
    case AnglePop => TopTurn(stack, forwards);
    case Shift => TopTurn(stack, forwards);
    case Semicolon => SemicolonTurn(stack, forwards);
    case _ =>
  }

  lemma {:induction false} BaseIsPositive(stack: string, forwards: bool)
    requires AngleStack(stack, forwards)
    ensures Base(stack) > 0 && (Rounds(stack) == [] ==> Base(stack) == |stack|)
  {
    if |stack| > 1 {
      BaseIsPositive(stack[..|stack| - 1], forwards);
    } else {
      assert stack[..0] == [] && IsAngle(stack[0]);
    }
  }

  /** An angle bracket on top of the stack is taken away; under another bracket nothing happens. */
  lemma TopTurn(stack: string, forwards: bool)
    requires AngleStack(stack, forwards)
    ensures var n := |stack|;
      && (Rounds(stack) == [] ==> stack[n - 1] == Angle(forwards))
      && (stack[n - 1] == Angle(forwards) ==>
           && Rounds(stack[..n - 1]) == Rounds(stack) && (n > 1 ==> AngleStack(stack[..n - 1], forwards))
           && (Rounds(stack) == [] ==> Base(stack) == n && Base(stack[..n - 1]) == n - 1)
           && (Rounds(stack) != [] ==> n > 1 && Base(stack[..n - 1]) == Base(stack)))
  {
    OnlyAngles(stack, forwards);
    if |stack| == 1 {
      assert stack[..0] == [];
    }
  }

  lemma SemicolonTurn(stack: string, forwards: bool)
    requires AngleStack(stack, forwards)
    ensures var s := DropAngles(stack, Angle(forwards));
      && (s == [] <==> Rounds(stack) == [])
      && (s != [] ==> AngleStack(s, forwards) && Rounds(s) == Rounds(stack) && Base(s) == Base(stack))
  {
    hide Rounds, DropAngles, Base;
    OnlyAngles(stack, forwards);
    DropAll(stack, Angle(forwards));
    AngleStays(stack, Angle(forwards));
    BaseDrop(stack, Angle(forwards));
  }

  lemma PopTurn(stack: string, c: char, forwards: bool)
    requires AngleStack(stack, forwards) && Suits(Pop(c), forwards)
    ensures CountsTurn(Turn(stack, Pop(c), Angle(forwards)), stack, Pop(c), forwards)
  {
    hide Rounds, DropAngles, Base, Pair, IsOpen, IsClose;
    var s := DropAngles(stack, Angle(forwards));
    SemicolonTurn(stack, forwards);
    AngleStays(stack, Angle(forwards));
    BaseIsPositive(stack, forwards);
    if s != [] {
      assert s[|s| - 1] == stack[|s| - 1];
      NotAngle(s[|s| - 1], forwards);
      RoundsTop(s);
      assert s[..|s| - 1] + [s[|s| - 1]] == s;
      BasePush(s[..|s| - 1], s[|s| - 1]);
      assert s[..|s| - 1][0] == stack[0];
    }
  }

  /** A scan that began at an angle bracket is pending exactly as long as it is alive. */
  lemma {:induction false} ScanCounts(roles: seq<Role>, forwards: bool)
    requires AllSuit(roles, forwards)
    ensures match ScanRoles([Angle(forwards)], roles, Angle(forwards))
            case Pending(s) => Alive(roles) && AngleStack(s, forwards) && Nest(roles) == Some(Rounds(s)) && Base(s) == 1 + Angles(roles)
            case _ => !Alive(roles)
    decreases |roles|
  {
    hide Turn, Alive, Nest, Angles, Base, Rounds, RoundStep, AngleStack, Suits, Weight;
    if roles == [] {
      StartsAlive(forwards);
    } else {
      var init, role := roles[..|roles| - 1], roles[|roles| - 1];
      assert roles == init + [role];
      ScanCounts(init, forwards);
      AliveStep(init, role);
      match ScanRoles([Angle(forwards)], init, Angle(forwards))
      case Pending(s) => AngleTurn(s, role, forwards);
      case _ =>
    }
  }

  lemma StartsAlive(forwards: bool)
    ensures Alive([]) && Nest([]) == Some([]) && Angles([]) == 0
    ensures AngleStack([Angle(forwards)], forwards) && Rounds([Angle(forwards)]) == [] && Base([Angle(forwards)]) == 1
  {
    assert [Angle(forwards)][..0] == [];
  }

  /** Between an angle bracket and its partner. */
  ghost predicate Arguments(roles: seq<Role>) {
    Outside(roles) && Counted(roles) && NoOuterSemicolon(roles)
  }

  /** The scan closes exactly at an angle bracket behind which the roles are arguments. */
  lemma ScanCloses(roles: seq<Role>, forwards: bool)
    requires AllSuit(roles, forwards)
    ensures ScanRoles([Angle(forwards)], roles, Angle(forwards)) == Closed(|roles|) <==>
      roles != [] && roles[|roles| - 1] == AnglePop && Arguments(roles[..|roles| - 1])
  {
    hide Turn, Nest, Angles, Base, Rounds, RoundStep, AngleStack, Suits, Weight, NeverBelow, NoOuterSemicolon;
    if roles != [] {
      var init, role := roles[..|roles| - 1], roles[|roles| - 1];
      ScanCounts(init, forwards);
      match ScanRoles([Angle(forwards)], init, Angle(forwards))
      case Pending(s) => {
        AngleTurn(s, role, forwards);
        PopWeight();
      }
      case Closed(n) => ClosedEarlier([Angle(forwards)], init, Angle(forwards), n);
      case _ =>
    }
  }

  lemma PopWeight()
    ensures Weight(AnglePop) == -1
  {}
}
