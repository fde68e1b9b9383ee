/** What the scans of cpplint.py read, character by character: which characters are brackets and which
    partner each has, and when an angle bracket counts, said without the functions of the scans. */
module RoleLaws {
  import opened LinkedLists
  import opened Brackets
  import opened LineScans
  import opened FileScans
  import opened AngleScans

  // ---- Brackets ----

  lemma BracketKinds(c: char)
    ensures IsOpen(c) <==> c == '(' || c == '[' || c == '{'
    ensures IsClose(c) <==> c == ')' || c == ']' || c == '}'
  {}

  /** Two brackets that match are of one kind. */
  lemma MatchingKinds(text: string, a: nat, b: nat)
    requires Matches(text, a, b)
    ensures var open, close := text[a], text[b - 1];
      (open == '(' && close == ')') || (open == '[' && close == ']') || (open == '{' && close == '}')
  {
    hide Balanced;
  }

  /** Brackets in brackets, and what else there is: the three kinds, one in another and side by side. */
  lemma KindsNest(inner: string, rest: string)
    requires Balanced(inner) && Balanced(rest)
    ensures Balanced("(" + inner + ")" + rest) && Balanced("[" + inner + "]" + rest) && Balanced("{" + inner + "}" + rest)
  {
    Nests('(', inner, ')', rest);
    Nests('[', inner, ']', rest);
    Nests('{', inner, '}', rest);
  }

  lemma Nests(open: char, inner: string, close: char, rest: string)
    requires IsOpen(open) && Closer(open) == close && Balanced(inner) && Balanced(rest)
    ensures Balanced([open] + inner + [close] + rest)
  {
    var s, k := [open] + inner + [close] + rest, |inner| + 1;
    assert s[k] == close && s[1..k] == inner && s[k + 1..] == rest;
  }

  /** An empty pair of every kind, and no pair of different kinds. */
  lemma EmptyPairs(a: char, b: char)
    requires a == '(' || a == '[' || a == '{' || a == ')' || a == ']' || a == '}'
    ensures Balanced([a, b]) <==> [a, b] == "()" || [a, b] == "[]" || [a, b] == "{}"
  {
    var s := [a, b];
    assert s[1..1] == [] && s[2..] == [] && s[1..] == [b];
    if IsOpen(a) && b == Closer(a) {
      assert s[1] == Closer(s[0]) && Balanced(s[1..1]) && Balanced(s[1 + 1..]);
    }
  }

  // ---- The word operator ----

  /** The first n characters end in the word operator and white space behind it. */
  ghost predicate BehindOperator(line: string, n: nat) {
    exists p: nat :: OperatorAt(line, p, n)
  }

  ghost predicate OperatorAt(line: string, p: nat, n: nat) {
    && p + 8 <= n <= |line| && line[p..p + 8] == "operator"
    && (p > 0 ==> var c := line[p - 1];
         !('a' <= c <= 'z') && !('A' <= c <= 'Z') && !('0' <= c <= '9') && c != '_')
    && forall x :: p + 8 <= x < n ==>
         line[x] == ' ' || line[x] == '\t' || line[x] == '\n' || line[x] == '\r' || line[x] == '\U{0B}' || line[x] == '\U{0C}'
  }

  lemma {:induction false} OperatorIff(line: string, n: nat)
    requires n <= |line|
    ensures EndsInOperator(line[..n]) <==> BehindOperator(line, n)
    decreases n
  {
    hide OperatorAt;
    var s := line[..n];
    if n > 0 && IsSpace(s[n - 1]) {
      assert s[..n - 1] == line[..n - 1];
      OperatorIff(line, n - 1);
      forall p: nat {:trigger OperatorAt(line, p, n)} {:trigger OperatorAt(line, p, n - 1)}
        ensures OperatorAt(line, p, n) <==> OperatorAt(line, p, n - 1)
      {
        PassSpace(line, p, n);
      }
    } else {
      forall p: nat
        ensures OperatorAt(line, p, n) <==> p == n - 8 && EndsInOperator(s)
      {
        NoSpace(line, p, n);
      }
      assert EndsInOperator(s) ==> OperatorAt(line, n - 8, n);
    }
  }

  lemma PassSpace(line: string, p: nat, n: nat)
    requires 0 < n <= |line| && IsSpace(line[n - 1])
    ensures OperatorAt(line, p, n) <==> OperatorAt(line, p, n - 1)
  {
    if OperatorAt(line, p, n) {
      LastIsNoSpace(line, p, n);
    }
  }

  lemma NoSpace(line: string, p: nat, n: nat)
    requires n <= |line| && (n > 0 ==> !IsSpace(line[n - 1]))
    ensures OperatorAt(line, p, n) <==> p == n - 8 && EndsInOperator(line[..n])
  {
    hide EndsInOperator;
    LastWord(line[..n]);
    if n >= 8 {
      assert line[..n][n - 8..] == line[n - 8..n];
    }
  }

  lemma LastWord(s: string)
    requires s != [] ==> !IsSpace(s[|s| - 1])
    ensures var n := |s|; EndsInOperator(s) <==> n >= 8 && s[n - 8..] == "operator" && (n == 8 || !IsWordCharacter(s[n - 9]))
  {}

  lemma LastIsNoSpace(line: string, p: nat, n: nat)
    requires OperatorAt(line, p, n) && IsSpace(line[n - 1])
    ensures p + 8 < n
  {
    assert line[p..p + 8][7] == 'r';
  }

  // ---- Angle brackets, from the left ----

  /** A '<' that may open template arguments: no second one of a shift, and none behind operator. */
  ghost predicate OpensArguments(line: string, i: nat)
    requires i < |line|
  {
    line[i] == '<' && (i > 0 ==> line[i - 1] != '<' && !BehindOperator(line, i))
  }

  /** A '>' that closes template arguments: no arrow, and none behind operator and one more character. */
  ghost predicate ClosesArguments(line: string, i: nat)
    requires i < |line|
  {
    line[i] == '>' && (i > 0 ==> line[i - 1] != '-' && !BehindOperator(line, i - 1))
  }

  lemma ForwardRole(line: string, i: nat)
    requires i < |line|
    ensures var c, role := line[i], RoleForward(line, i);
      && (role == Push('<') <==> OpensArguments(line, i))
      && (role == AnglePop <==> ClosesArguments(line, i))
      && (role == Shift <==> c == '<' && i > 0 && line[i - 1] == '<')
      && (role == Push(c) && c != '<' <==> c == '(' || c == '[' || c == '{')
      && (role == Pop(c) <==> c == ')' || c == ']' || c == '}')
      && (role == Semicolon <==> c == ';') && role != Skip
      && (role.Push? || role.Pop? ==> role.c == c)
  {
    hide EndsInOperator;
    OperatorIff(line, i);
    if i > 0 {
      OperatorIff(line, i - 1);
    }
  }

  /** What a character counts in a forward scan. */
  lemma ForwardWeight(line: string, i: nat)
    requires i < |line|
    ensures Weight(RoleForward(line, i)) ==
      if OpensArguments(line, i) then 1
      else if ClosesArguments(line, i) || (line[i] == '<' && i > 0 && line[i - 1] == '<') then -1
      else 0
  {
    hide RoleForward;
    ForwardRole(line, i);
  }

  // ---- Angle brackets, from the right ----

  /** A '>' that may close template arguments: no arrow, no comparison between spaces, none behind operator. */
  ghost predicate MayCloseArguments(line: string, i: nat)
    requires i < |line|
  {
    line[i] == '>' && (i > 0 ==> line[i - 1] != '-' && !Comparison(line, i) && !BehindOperator(line, i))
  }

  ghost predicate Space(c: char) {
    c == ' ' || c == '\t' || c == '\n' || c == '\r' || c == '\U{0B}' || c == '\U{0C}'
  }

  /** A '>=' with white space around it. */
  ghost predicate Comparison(line: string, i: nat)
    requires i < |line|
  {
    i > 0 && i + 2 < |line| && Space(line[i - 1]) && line[i] == '>' && line[i + 1] == '=' && Space(line[i + 2])
  }

  lemma BackwardRole(line: string, i: nat)
    requires i < |line|
    ensures var c, role := line[i], RoleBackward(line, i);
      && (role == Push('>') <==> MayCloseArguments(line, i))
      && (role == AnglePop <==> c == '<' && (i > 0 ==> line[i - 1] != '<'))
      && (role == Skip <==> (c == '>' && !MayCloseArguments(line, i)) || (c == '<' && i > 0 && line[i - 1] == '<'))
      && (role == Push(c) && c != '>' <==> c == ')' || c == ']' || c == '}')
      && (role == Pop(c) <==> c == '(' || c == '[' || c == '{')
      && (role == Semicolon <==> c == ';') && role != Shift
      && (role.Push? || role.Pop? ==> role.c == c)
  {
    hide EndsInOperator;
    OperatorIff(line, i);
  }

  lemma BackwardWeight(line: string, i: nat)
    requires i < |line|
    ensures Weight(RoleBackward(line, i)) ==
      if MayCloseArguments(line, i) then 1 else if line[i] == '<' && (i > 0 ==> line[i - 1] != '<') then -1 else 0
  {
    hide RoleBackward;
    BackwardRole(line, i);
  }

  // ---- Where a scan begins ----

  /** No scan begins at a '<' in front of '<' or '='. */
  lemma ShiftOrAtMostIff(line: string, i: nat)
    requires i < |line|
    ensures ShiftOrAtMost(line, i) <==> exists rest :: line[i..] == "<<" + rest || line[i..] == "<=" + rest
  {
    if i + 1 < |line| {
      assert line[i..] == [line[i], line[i + 1]] + line[i + 2..];
    }
    forall rest | line[i..] == "<<" + rest || line[i..] == "<=" + rest
      ensures ShiftOrAtMost(line, i)
    {
      assert line[i..][0] == line[i] && line[i..][1] == line[i + 1];
    }
    if ShiftOrAtMost(line, i) {
      assert line[i..] == (if line[i + 1] == '<' then "<<" else "<=") + line[i + 2..];
    }
  }

  /** An arrow is no closing angle bracket. */
  lemma ArrowIsPassedOver()
    ensures EndFound(["<a->b>"], 0, 0) == Spot(0, 6)
    ensures StartFound(["<a->b>"], 0, 5) == Spot(0, 0) && StartFound(["<a->b>"], 0, 3) == Nowhere
  {
    hide LineForward, LineBackward, RoleForward, RoleBackward;
    var line := "<a->b>";
    ArrowRoles(line);
    assert [] + ['<'] == ['<'] && [] + ['>'] == ['>'];
    OneForward([], line, 0);
    OneForward(['<'], line, 1);
    OneForward(['<'], line, 2);
    OneForward(['<'], line, 3);
    OneForward(['<'], line, 4);
    OneForward(['<'], line, 5);
    OneBackward([], line, 5);
    OneBackward(['>'], line, 4);
    OneBackward(['>'], line, 3);
    OneBackward(['>'], line, 1);
    OneBackward(['>'], line, 0);
    OneBackward([], line, 3);
    OneBackward([], line, 1);
    OneBackward([], line, 0);
    OneBackward([], line, -1);
  }

  lemma ArrowRoles(line: string)
    requires line == "<a->b>"
    ensures RoleForward(line, 0) == Push('<') && RoleForward(line, 3) == Role.Plain && RoleForward(line, 5) == AnglePop
    ensures RoleForward(line, 1) == RoleForward(line, 2) == RoleForward(line, 4) == Role.Plain
    ensures RoleBackward(line, 5) == Push('>') && RoleBackward(line, 3) == Skip && RoleBackward(line, 0) == AnglePop
    ensures RoleBackward(line, 1) == RoleBackward(line, 4) == Role.Plain
  {
    hide EndsInOperator;
    ShortNoOperator(line[..4]);
    ShortNoOperator(line[..5]);
  }

  lemma {:induction false} ShortNoOperator(s: string)
    requires |s| < 8
    ensures !EndsInOperator(s)
  {
    if s != [] && IsSpace(s[|s| - 1]) {
      ShortNoOperator(s[..|s| - 1]);
    }
  }
}
