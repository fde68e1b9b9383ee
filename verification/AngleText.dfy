/** The arguments between two angle brackets, said about their text: what the roles of its characters
    say is the same from either side, but for the count of the angle brackets. */
module AngleTexts {
  import opened LinkedLists
  import opened Brackets
  import opened LineScans
  import opened AngleScans

  /** The role is one that the character can have. */
  ghost predicate RoleOf(role: Role, c: char, forwards: bool) {
    Fits(role, c, forwards) && (role == Semicolon <==> c == ';')
  }

  /** The roles are those of a text, read in the direction. */
  ghost predicate ReadsAs(roles: seq<Role>, text: string, forwards: bool) {
    && |roles| == |text|
    && forall m :: 0 <= m < |roles| ==> RoleOf(roles[m], text[if forwards then m else |text| - 1 - m], forwards)
  }

  /** No statement ends outside the brackets of the text. */
  ghost predicate NoStatement(text: string) {
    forall p :: 0 <= p < |text| && text[p] == ';' ==> Run([], text[..p]) != Some([])
  }

  /** A text in which the brackets nest and no statement ends outside them. */
  ghost predicate Inner(text: string) {
    Balanced(text) && NoStatement(text)
  }

  ghost predicate AllClose(stack: string) {
    forall i :: 0 <= i < |stack| ==> IsClose(stack[i])
  }

  // ---- Roles of the characters of a line ----

  lemma RolesAreForward(line: string, i: nat, j: nat)
    requires i <= j <= |line|
    ensures ReadsAs(RolesForward(line, i, j), line[i..j], true)
  {
    hide RoleForward, RoleOf;
    var roles := RolesForward(line, i, j);
    forall m | 0 <= m < |roles|
      ensures RoleOf(roles[m], line[i..j][m], true)
    {
      RoleFits(line, i + m);
    }
  }

  lemma RoleFits(line: string, i: nat)
    requires i < |line|
    ensures RoleOf(RoleForward(line, i), line[i], true) && RoleOf(RoleBackward(line, i), line[i], false)
    ensures RoleBackward(line, i) == Skip ==> i > 0 && RoleOf(Role.Plain, line[i], false) && RoleOf(Role.Plain, line[i - 1], false)
  {
    RolesFit(line, i);
    if RoleBackward(line, i) == Skip {
      SkippedIsPlain(line, i);
      SkippedIsNoSemicolon(line, i);
    }
  }

  lemma SkippedIsNoSemicolon(line: string, i: nat)
    requires i < |line| && RoleBackward(line, i) == Skip
    ensures i > 0 && line[i - 1] != ';' && line[i] != ';'
  {
    if EndsInOperator(line[..i]) {
      OperatorLast(line[..i]);
    }
  }

  lemma OperatorLast(s: string)
    requires EndsInOperator(s)
    ensures s != [] && (IsSpace(s[|s| - 1]) || s[|s| - 1] == 'r')
  {
    if !IsSpace(s[|s| - 1]) {
      assert s[|s| - 8..][7] == "operator"[7];
    }
  }

  lemma ReadsOne(role: Role, roles: seq<Role>, text: string, c: char)
    requires RoleOf(role, c, false) && ReadsAs(roles, text, false)
    ensures ReadsAs([role] + roles, text + [c], false)
  {
    hide RoleOf;
  }

  lemma ReadsBoth(u: seq<Role>, v: seq<Role>, s: string, t: string, forwards: bool)
    requires ReadsAs(u, s, forwards) && ReadsAs(v, t, forwards)
    ensures forwards ==> ReadsAs(u + v, s + t, true)
    ensures !forwards ==> ReadsAs(u + v, t + s, false)
  {
    hide RoleOf;
  }

  lemma {:induction false} RolesAreBackward(line: string, i: nat, j: nat)
    requires i <= j <= |line|
    ensures ReadsAs(RolesBackward(line, i, j), line[i..j], false)
    decreases j
  {
    hide RoleBackward, RoleOf, ReadsAs;
    NothingReads();
    if i < j {
      RoleFits(line, j - 1);
      var role := RoleBackward(line, j - 1);
      if role != Skip {
        RolesAreBackward(line, i, j - 1);
        assert line[i..j] == line[i..j - 1] + [line[j - 1]];
        ReadsOne(role, RolesBackward(line, i, j - 1), line[i..j - 1], line[j - 1]);
      } else if j - 1 == i {
        assert line[i..j] == [] + [line[i]] && [Role.Plain] == [Role.Plain] + [];
        ReadsOne(Role.Plain, [], [], line[i]);
      } else {
        RolesAreBackward(line, i, j - 2);
        assert line[i..j] == line[i..j - 2] + [line[j - 2]] + [line[j - 1]];
        ReadsOne(Role.Plain, RolesBackward(line, i, j - 2), line[i..j - 2], line[j - 2]);
        ReadsOne(Role.Plain, [Role.Plain] + RolesBackward(line, i, j - 2), line[i..j - 2] + [line[j - 2]], line[j - 1]);
      }
    } else {
      assert line[i..j] == [];
    }
  }

  lemma NothingReads()
    ensures ReadsAs([], [], true) && ReadsAs([], [], false)
  {}

  lemma RolesSuit(roles: seq<Role>, text: string, forwards: bool)
    requires ReadsAs(roles, text, forwards)
    ensures AllSuit(roles, forwards)
  {
    hide IsOpen, IsClose;
    forall m | 0 <= m < |roles|
      ensures Suits(roles[m], forwards)
    {
      assert RoleOf(roles[m], text[if forwards then m else |text| - 1 - m], forwards);
    }
  }

  // ---- Nesting ----

  lemma RoundStepIsPlain(rounds: string, role: Role, c: char, forwards: bool)
    requires Fits(role, c, forwards) && if forwards then AllOpen(rounds) else AllClose(rounds)
    ensures RoundStep(rounds, role) == PlainStep(rounds, c, forwards)
    ensures var next := RoundStep(rounds, role);
      next.Some? ==> if forwards then AllOpen(next.value) else AllClose(next.value)
  {
    if role.Pop? && rounds != [] {
      PairIsStep(rounds, c, forwards);
    }
  }

  /** The open brackets are those of a run over the text. */
  ghost predicate NestsAs(roles: seq<Role>, text: string, forwards: bool) {
    && Nest(roles) == (if forwards then Run([], text) else RunBack([], text))
    && (Nest(roles).Some? ==> if forwards then AllOpen(Nest(roles).value) else AllClose(Nest(roles).value))
  }

  lemma {:induction false} NestForward(roles: seq<Role>, text: string)
    requires ReadsAs(roles, text, true)
    ensures NestsAs(roles, text, true)
    decreases |roles|
  {
    hide RoundStep, Step, Fits, AllOpen, AllClose;
    if roles != [] {
      var n := |roles| - 1;
      assert ReadsAs(roles[..n], text[..n], true) by {
        hide RoleOf;
      }
      NestForward(roles[..n], text[..n]);
      assert RoleOf(roles[n], text[n], true);
      assert text == text[..n] + [text[n]];
      RunSplit([], text[..n], [text[n]]);
      if Nest(roles[..n]).Some? {
        OneStep(Nest(roles[..n]).value, text[n]);
        RoundStepIsPlain(Nest(roles[..n]).value, roles[n], text[n], true);
      }
    } else {
      NothingNests();
    }
  }

  lemma NothingNests()
    ensures NestsAs([], [], true) && NestsAs([], [], false)
  {}

  lemma {:induction false} NestBackward(roles: seq<Role>, text: string)
    requires ReadsAs(roles, text, false)
    ensures NestsAs(roles, text, false)
    decreases |roles|
  {
    hide RoundStep, StepBack, Fits, AllOpen, AllClose;
    if roles != [] {
      var n := |roles| - 1;
      ReadsEarlier(roles, text, n);
      NestBackward(roles[..n], text[1..]);
      assert RoleOf(roles[n], text[0], false);
      assert text == [text[0]] + text[1..];
      BackToFirst(text[0], text[1..]);
      if Nest(roles[..n]).Some? {
        RoundStepIsPlain(Nest(roles[..n]).value, roles[n], text[0], false);
      }
    } else {
      NothingNests();
    }
  }

  lemma ReadsEarlier(roles: seq<Role>, text: string, m: nat)
    requires ReadsAs(roles, text, false) && m <= |roles|
    ensures ReadsAs(roles[..m], text[|text| - m..], false)
  {
    hide RoleOf;
  }

  // ---- Statements ----

  /** Whether a plain character stands outside the brackets is the same from either side. */
  lemma OutsideBothWays(text: string, p: nat)
    requires Run([], text) == Some([]) && p < |text| && IsPlain(text[p])
    ensures Run([], text[..p]) == Some([]) <==> RunBack([], text[p + 1..]) == Some([])
  {
    hide Run, RunBack, IsOpen, IsClose, Closers;
    var u, v := text[..p], text[p + 1..];
    assert text == u + ([text[p]] + v);
    RunSplit([], u, [text[p]] + v);
    var s := Run([], u).value;
    RunKeepsOpen([], u);
    RunSplit(s, [text[p]], v);
    OneStep(s, text[p]);
    PlainSteps(s, text[p], true);
    Dual(s, v);
    BackOfNothing(s);
  }

  lemma StatementsForward(roles: seq<Role>, text: string)
    requires ReadsAs(roles, text, true)
    ensures NoOuterSemicolon(roles) <==> NoStatement(text)
  {
    hide RoleOf, Run, Nest;
    forall m | 0 <= m < |roles|
      ensures roles[m] == Semicolon <==> text[m] == ';'
      ensures Outside(roles[..m]) <==> Run([], text[..m]) == Some([])
    {
      SemicolonOf(roles[m], text[m], true);
      assert ReadsAs(roles[..m], text[..m], true);
      NestForward(roles[..m], text[..m]);
    }
  }

  lemma SemicolonOf(role: Role, c: char, forwards: bool)
    requires RoleOf(role, c, forwards)
    ensures role == Semicolon <==> c == ';'
  {}

  lemma StatementsBackward(roles: seq<Role>, text: string)
    requires ReadsAs(roles, text, false) && Run([], text) == Some([])
    ensures NoOuterSemicolon(roles) <==> NoStatement(text)
  {
    hide RoleOf, Run, RunBack, Nest;
    forall p | 0 <= p < |text|
      ensures roles[|text| - 1 - p] == Semicolon <==> text[p] == ';'
      ensures text[p] == ';' ==> (Outside(roles[..|text| - 1 - p]) <==> Run([], text[..p]) == Some([]))
    {
      var m := |text| - 1 - p;
      assert RoleOf(roles[m], text[p], false);
      SemicolonOf(roles[m], text[p], false);
      ReadsEarlier(roles, text, m);
      NestBackward(roles[..m], text[p + 1..]);
      if text[p] == ';' {
        OutsideBothWays(text, p);
      }
    }
    if NoStatement(text) {
      forall m | 0 <= m < |roles| && roles[m] == Semicolon
        ensures !Outside(roles[..m])
      {
        var p := |text| - 1 - m;
        assert roles[|text| - 1 - p] == Semicolon;
      }
    }
  }

  /** Arguments by their roles are arguments by their text in which the angle brackets count up. */
  lemma ArgumentsIff(roles: seq<Role>, text: string, forwards: bool)
    requires ReadsAs(roles, text, forwards)
    ensures Arguments(roles) <==> Inner(text) && Counted(roles)
  {
    hide ReadsAs, Run, RunBack, Nest, Balanced, Counted, NoStatement, NoOuterSemicolon, Closers;
    BalancedIffRun(text);
    if forwards {
      NestForward(roles, text);
      StatementsForward(roles, text);
    } else {
      NestBackward(roles, text);
      Dual([], text);
      BackOfNothing([]);
      if Run([], text) == Some([]) {
        StatementsBackward(roles, text);
      }
    }
  }

  // ---- Text that no scan notices ----

  /** No bracket, but for angle brackets, and no semicolon. */
  ghost predicate Quiet(text: string) {
    forall i :: 0 <= i < |text| ==> IsPlain(text[i]) && text[i] != ';'
  }

  lemma {:induction false} QuietRun(stack: string, text: string)
    requires Quiet(text)
    ensures Run(stack, text) == Some(stack)
    decreases |text|
  {
    if text != [] {
      QuietRun(stack, text[1..]);
    }
  }

  lemma QuietFront(quiet: string, text: string)
    requires Quiet(quiet)
    ensures Inner(quiet + text) <==> Inner(text)
  {
    hide Run, Balanced;
    var all, n := quiet + text, |quiet|;
    BalancedIffRun(all);
    BalancedIffRun(text);
    QuietRun([], quiet);
    RunSplit([], quiet, text);
    forall p | 0 <= p < |text|
      ensures all[n + p] == text[p] && Run([], all[..n + p]) == Run([], text[..p])
    {
      assert all[..n + p] == quiet + text[..p];
      RunSplit([], quiet, text[..p]);
    }
    if NoStatement(all) {
      forall p | 0 <= p < |text| && text[p] == ';'
        ensures Run([], text[..p]) != Some([])
      {
        assert all[n + p] == ';';
      }
    }
    if NoStatement(text) {
      forall p | 0 <= p < |all| && all[p] == ';'
        ensures Run([], all[..p]) != Some([])
      {
        assert p >= n && all[n + (p - n)] == text[p - n];
      }
    }
  }

  lemma QuietBack(text: string, quiet: string)
    requires Quiet(quiet)
    ensures Inner(text + quiet) <==> Inner(text)
  {
    hide Run, Balanced;
    var all := text + quiet;
    BalancedIffRun(all);
    BalancedIffRun(text);
    RunSplit([], text, quiet);
    if Run([], text).Some? {
      QuietRun(Run([], text).value, quiet);
    }
    assert forall p :: 0 <= p < |text| ==> all[p] == text[p] && all[..p] == text[..p];
    if NoStatement(all) {
      forall p | 0 <= p < |text| && text[p] == ';'
        ensures Run([], text[..p]) != Some([])
      {
        assert all[p] == ';';
      }
    }
  }

  // ---- The same reading from both sides ----

  /** What the character with number m counts. */
  function Contribution(roles: seq<Role>, m: nat): int
    requires m < |roles|
  {
    if Outside(roles[..m]) then Weight(roles[m]) else 0
  }

  /** Every angle bracket outside the other brackets is read as the same from both sides: an opening
      one, a closing one or an operator. */
  ghost predicate SameReading(forth: seq<Role>, back: seq<Role>) {
    |forth| == |back| && forall i :: 0 <= i < |forth| && Outside(forth[..i]) ==> Weight(forth[i]) == -Weight(back[|forth| - 1 - i])
  }

  lemma WeightIsPlain(role: Role, c: char, forwards: bool)
    requires RoleOf(role, c, forwards)
    ensures Weight(role) != 0 ==> IsPlain(c)
  {}

  lemma OppositeContribution(forth: seq<Role>, back: seq<Role>, text: string, i: nat)
    requires ReadsAs(forth, text, true) && ReadsAs(back, text, false) && Run([], text) == Some([]) && SameReading(forth, back)
    requires i < |text|
    ensures Contribution(back, |text| - 1 - i) == -Contribution(forth, i)
  {
    hide RoleOf, Run, RunBack, Nest, Weight, IsPlain;
    var m := |text| - 1 - i;
    assert RoleOf(forth[i], text[i], true) && RoleOf(back[m], text[i], false);
    WeightIsPlain(forth[i], text[i], true);
    WeightIsPlain(back[m], text[i], false);
    if IsPlain(text[i]) {
      assert ReadsAs(forth[..i], text[..i], true);
      NestForward(forth[..i], text[..i]);
      ReadsEarlier(back, text, m);
      NestBackward(back[..m], text[i + 1..]);
      OutsideBothWays(text, i);
    }
  }

  lemma AnglesStep(roles: seq<Role>, m: nat)
    requires m < |roles|
    ensures Angles(roles[..m + 1]) == Angles(roles[..m]) + Contribution(roles, m)
  {
    hide Outside, Weight;
    assert roles[..m + 1][..m] == roles[..m];
  }

  lemma {:induction false} OppositeCounts(forth: seq<Role>, back: seq<Role>, text: string, m: nat)
    requires ReadsAs(forth, text, true) && ReadsAs(back, text, false) && Run([], text) == Some([]) && SameReading(forth, back)
    requires m <= |text|
    ensures Angles(back[..m]) == Angles(forth[..|text| - m]) - Angles(forth)
    decreases m
  {
    hide ReadsAs, SameReading, Run, Angles, Contribution;
    SameLengths(forth, back, text);
    if m == 0 {
      assert forth[..|text|] == forth;
      NoAngles(back);
    } else {
      OppositeCounts(forth, back, text, m - 1);
      AnglesStep(back, m - 1);
      AnglesStep(forth, |text| - m);
      OppositeContribution(forth, back, text, |text| - m);
    }
  }

  lemma SameLengths(forth: seq<Role>, back: seq<Role>, text: string)
    requires ReadsAs(forth, text, true) && ReadsAs(back, text, false)
    ensures |forth| == |back| == |text|
  {}

  lemma NoAngles(roles: seq<Role>)
    ensures Angles(roles[..0]) == 0
  {}

  lemma CountedBothWays(forth: seq<Role>, back: seq<Role>, text: string)
    requires ReadsAs(forth, text, true) && ReadsAs(back, text, false) && Balanced(text) && SameReading(forth, back)
    requires Counted(forth)
    ensures Counted(back)
  {
    hide ReadsAs, SameReading, Run, Angles, Balanced;
    SameLengths(forth, back, text);
    BalancedIffRun(text);
    forall m | 0 <= m <= |back|
      ensures Angles(back[..m]) >= 0
    {
      OppositeCounts(forth, back, text, m);
    }
    OppositeCounts(forth, back, text, |text|);
    assert back[..|text|] == back;
    NoAngles(forth);
  }
}
