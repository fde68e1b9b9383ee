/** What it means for two brackets to match, and the stack scans of cpplint.py that find the match
    from either side, where angle brackets are plain text. */
module Brackets {
  import opened LinkedLists

  predicate IsOpen(c: char) { c == '(' || c == '[' || c == '{' }

  predicate IsClose(c: char) { c == ')' || c == ']' || c == '}' }

  predicate IsPlain(c: char) { !IsOpen(c) && !IsClose(c) }

  function Closer(c: char): char {
    if c == '(' then ')' else if c == '[' then ']' else '}'
  }

  /** Brackets that nest: the grammar. */
  ghost predicate Balanced(s: string)
    decreases |s|
  {
    || s == []
    || (IsPlain(s[0]) && Balanced(s[1..]))
    || (IsOpen(s[0]) && exists k :: 1 <= k < |s| && s[k] == Closer(s[0]) && Balanced(s[1..k]) && Balanced(s[k + 1..]))
  }

  /** The bracket that opens at a closes just before b. */
  ghost predicate Matches(s: string, a: nat, b: nat) {
    && a + 1 < b <= |s| && IsOpen(s[a]) && s[b - 1] == Closer(s[a]) && Balanced(s[a + 1..b - 1])
  }

  // ---- Running a stack over a text ----

  /** One character, forwards: the new stack of open brackets, or None for a mismatch. */
  function Step(stack: string, c: char): Option<string> {
    if IsOpen(c) then Some(stack + [c])
    else if IsClose(c) then
      if stack != [] && Closer(stack[|stack| - 1]) == c then Some(stack[..|stack| - 1]) else None
    else Some(stack)
  }

  function Run(stack: string, s: string): Option<string>
    decreases |s|
  {
    if s == [] then Some(stack)
    else match Step(stack, s[0]) case None => None case Some(next) => Run(next, s[1..])
  }

  /** One character, backwards: the stack holds closing brackets. */
  function StepBack(stack: string, c: char): Option<string> {
    if IsClose(c) then Some(stack + [c])
    else if IsOpen(c) then
      if stack != [] && stack[|stack| - 1] == Closer(c) then Some(stack[..|stack| - 1]) else None
    else Some(stack)
  }

  function RunBack(stack: string, s: string): Option<string>
    decreases |s|
  {
    if s == [] then Some(stack)
    else match StepBack(stack, s[|s| - 1]) case None => None case Some(next) => RunBack(next, s[..|s| - 1])
  }

  ghost predicate AllOpen(stack: string) {
    forall i :: 0 <= i < |stack| ==> IsOpen(stack[i])
  }

  ghost function Closers(stack: string): (c: string)
    ensures |c| == |stack|
  {
    seq(|stack|, i requires 0 <= i < |stack| => Closer(stack[i]))
  }

  lemma {:induction false} RunSplit(stack: string, u: string, v: string)
    ensures Run(stack, u + v) == match Run(stack, u) case None => None case Some(next) => Run(next, v)
    decreases |u|
  {
    if u == [] {
      assert u + v == v;
    } else {
      assert (u + v)[1..] == u[1..] + v;
      if Step(stack, u[0]).Some? {
        RunSplit(Step(stack, u[0]).value, u[1..], v);
      }
    }
  }

  lemma {:induction false} RunBackSplit(stack: string, u: string, v: string)
    ensures RunBack(stack, u + v) == match RunBack(stack, v) case None => None case Some(next) => RunBack(next, u)
    decreases |v|
  {
    if v == [] {
      assert u + v == u;
    } else {
      assert (u + v)[..|u + v| - 1] == u + v[..|v| - 1];
      if StepBack(stack, v[|v| - 1]).Some? {
        RunBackSplit(StepBack(stack, v[|v| - 1]).value, u, v[..|v| - 1]);
      }
    }
  }

  lemma {:induction false} RunKeepsOpen(stack: string, s: string)
    requires AllOpen(stack)
    ensures Run(stack, s).Some? ==> AllOpen(Run(stack, s).value)
    decreases |s|
  {
    if s != [] && Step(stack, s[0]).Some? {
      RunKeepsOpen(Step(stack, s[0]).value, s[1..]);
    }
  }

  lemma ClosersOfTop(stack: string, c: char)
    ensures Closers(stack + [c]) == Closers(stack) + [Closer(c)]
  {}

  lemma SameEnds<T>(a: seq<T>, x: T, b: seq<T>, y: T)
    ensures a + [x] == b + [y] <==> a == b && x == y
  {
    assert (a + [x])[..|a|] == a && (b + [y])[..|b|] == b;
    assert (a + [x])[|a|] == x && (b + [y])[|b|] == y;
  }

  /** The two directions are dual: a text closes exactly the brackets of a stack if and only if
      the backward run over it ends with their closers. */
  lemma {:induction false} Dual(stack: string, s: string)
    requires AllOpen(stack)
    ensures Run(stack, s) == Some([]) <==> RunBack([], s) == Some(Closers(stack))
    decreases |s|
  {
    hide Closers, RunBack, Closer;
    if s == [] {
      BackOfNothing(stack);
    } else {
      var c, rest := s[0], s[1..];
      assert s == [c] + rest;
      BackToFirst(c, rest);
      if IsOpen(c) {
        Dual(stack + [c], rest);
        ClosersOfTop(stack, c);
        if RunBack([], rest).Some? && RunBack([], rest).value != [] {
          var b := RunBack([], rest).value;
          assert b == b[..|b| - 1] + [b[|b| - 1]];
          SameEnds(b[..|b| - 1], b[|b| - 1], Closers(stack), Closer(c));
        }
      } else if IsClose(c) {
        if stack == [] {
          BackOfNothing(stack);
        } else {
          var init, last := stack[..|stack| - 1], stack[|stack| - 1];
          assert stack == init + [last];
          Dual(init, rest);
          ClosersOfTop(init, last);
          if RunBack([], rest).Some? {
            SameEnds(RunBack([], rest).value, c, Closers(init), Closer(last));
          }
        }
      } else {
        Dual(stack, rest);
      }
    }
  }

  lemma BackOfNothing(stack: string)
    ensures RunBack([], []) == Some([]) && (Closers(stack) == [] <==> stack == [])
  {}

  lemma BackToFirst(c: char, rest: string)
    ensures RunBack([], [c] + rest) == match RunBack([], rest) case None => None case Some(b) => StepBack(b, c)
  {
    RunBackSplit([], [c], rest);
  }

  // ---- The grammar and the stack agree ----

  /** The brackets above c are closed, and c itself is closed by a bracket of its kind. */
  lemma {:induction false} FirstReturn(c: char, above: string, s: string) returns (k: nat)
    requires IsOpen(c) && AllOpen(above) && Run([c] + above, s) == Some([])
    ensures k < |s| && s[k] == Closer(c) && Run(above, s[..k]) == Some([]) && Run([], s[k + 1..]) == Some([])
    decreases |s|
  {
    var d, rest, stack := s[0], s[1..], [c] + above;
    if IsClose(d) && above == [] {
      k := 0;
    } else {
      var next := if IsOpen(d) then above + [d] else if IsClose(d) then above[..|above| - 1] else above;
      assert IsOpen(d) ==> stack + [d] == [c] + next;
      assert IsClose(d) ==> stack[..|stack| - 1] == [c] + next;
      k := FirstReturn(c, next, rest);
      assert s[..k + 1][1..] == rest[..k];
      k := k + 1;
    }
  }

  ghost predicate Above(stack: string, o: Option<string>) {
    o.Some? && stack <= o.value
  }

  /** Running over s leaves the stack as it was and never goes below it. */
  ghost predicate Keeps(stack: string, s: string) {
    Run(stack, s) == Some(stack) && forall k :: 0 <= k <= |s| ==> Above(stack, Run(stack, s[..k]))
  }

  lemma KeepsConcat(stack: string, u: string, v: string)
    requires Keeps(stack, u) && Keeps(stack, v)
    ensures Keeps(stack, u + v)
  {
    RunSplit(stack, u, v);
    forall k | 0 <= k <= |u + v|
      ensures Above(stack, Run(stack, (u + v)[..k]))
    {
      if k <= |u| {
        assert (u + v)[..k] == u[..k];
      } else {
        assert (u + v)[..k] == u + v[..k - |u|];
        RunSplit(stack, u, v[..k - |u|]);
      }
    }
  }

  lemma KeepsBracketed(stack: string, c: char, u: string)
    requires IsOpen(c) && Keeps(stack + [c], u)
    ensures Keeps(stack, [c] + u + [Closer(c)])
  {
    var s, up := [c] + u + [Closer(c)], stack + [c];
    OneStep(stack, c);
    OneStep(up, Closer(c));
    CloserCloses(c);
    RunSplit(stack, [c] + u, [Closer(c)]);
    RunSplit(stack, [c], u);
    forall k | 0 <= k <= |s|
      ensures Above(stack, Run(stack, s[..k]))
    {
      if 1 <= k <= |u| + 1 {
        assert s[..k] == [c] + u[..k - 1];
        RunSplit(stack, [c], u[..k - 1]);
        assert Above(up, Run(up, u[..k - 1]));
      } else if k == |s| {
        assert s[..k] == s;
      }
    }
  }

  lemma OneStep(stack: string, c: char)
    ensures Run(stack, [c]) == Step(stack, c)
  {}

  lemma CloserCloses(c: char)
    requires IsOpen(c)
    ensures IsClose(Closer(c)) && !IsOpen(Closer(c))
  {}

  lemma KeepsPlain(stack: string, c: char)
    requires IsPlain(c)
    ensures Keeps(stack, [c])
  {}

  lemma {:induction false} BalancedKeeps(stack: string, s: string)
    requires Balanced(s)
    ensures Keeps(stack, s)
    decreases |s|
  {
    hide Keeps, Closer;
    if s == [] {
      KeepsNothing(stack);
    } else if IsPlain(s[0]) && Balanced(s[1..]) {
      KeepsPlain(stack, s[0]);
      BalancedKeeps(stack, s[1..]);
      KeepsConcat(stack, [s[0]], s[1..]);
      assert s == [s[0]] + s[1..];
    } else {
      var j :| 1 <= j < |s| && s[j] == Closer(s[0]) && Balanced(s[1..j]) && Balanced(s[j + 1..]);
      BalancedKeeps(stack + [s[0]], s[1..j]);
      BalancedKeeps(stack, s[j + 1..]);
      KeepsBracketed(stack, s[0], s[1..j]);
      KeepsConcat(stack, [s[0]] + s[1..j] + [s[j]], s[j + 1..]);
      InThree(s, j);
    }
  }

  lemma KeepsNothing(stack: string)
    ensures Keeps(stack, [])
  {}

  lemma InThree<T>(s: seq<T>, j: nat)
    requires 1 <= j < |s|
    ensures s == [s[0]] + s[1..j] + [s[j]] + s[j + 1..]
  {}

  /** A text is balanced exactly when the stack is empty again at its end. */
  lemma {:induction false} BalancedIffRun(s: string)
    ensures Balanced(s) <==> Run([], s) == Some([])
    decreases |s|
  {
    if Balanced(s) {
      BalancedKeeps([], s);
    }
    if Run([], s) == Some([]) && s != [] {
      if IsOpen(s[0]) {
        assert [] + [s[0]] == [s[0]] + [];
        var k := FirstReturn(s[0], [], s[1..]);
        BalancedIffRun(s[1..][..k]);
        BalancedIffRun(s[1..][k + 1..]);
        assert s[1..][..k] == s[1..k + 1] && s[1..][k + 1..] == s[k + 2..];
        assert s[k + 1] == Closer(s[0]);
      } else {
        BalancedIffRun(s[1..]);
      }
    }
  }

  // ---- The scans ----

  /** How a scan of one line ends: after n characters, with a mismatch, or with brackets still open. */
  datatype Scan = Closed(n: nat) | Broken | Pending(stack: string)

  function Found(o: Option<string>, rest: Scan): Scan {
    if o == None then Broken else if o == Some([]) then Closed(1) else Further(rest)
  }

  function Further(r: Scan): Scan {
    match r case Closed(n) => Closed(n + 1) case other => other
  }

  /** FindEndOfExpressionInLine, from the left. */
  function ScanForward(stack: string, s: string): Scan
    decreases |s|
  {
    if s == [] then Pending(stack)
    else
      var next := Step(stack, s[0]);
      Found(next, if next.Some? then ScanForward(next.value, s[1..]) else Broken)
  }

  /** FindStartOfExpressionInLine, from the right. */
  function ScanBackward(stack: string, s: string): Scan
    decreases |s|
  {
    if s == [] then Pending(stack)
    else
      var next := StepBack(stack, s[|s| - 1]);
      Found(next, if next.Some? then ScanBackward(next.value, s[..|s| - 1]) else Broken)
  }

  function Then(r: Scan, before: nat): Scan {
    match r case Closed(n) => Closed(before + n) case other => other
  }

  /** Scanning two pieces one after the other. */
  lemma {:induction false} ScanSplit(stack: string, u: string, v: string)
    ensures ScanForward(stack, u + v) ==
      match ScanForward(stack, u) case Pending(next) => Then(ScanForward(next, v), |u|) case other => other
    decreases |u|
  {
    if u == [] {
      assert u + v == v;
    } else {
      assert (u + v)[1..] == u[1..] + v;
      if Step(stack, u[0]).Some? {
        ScanSplit(Step(stack, u[0]).value, u[1..], v);
      }
    }
  }

  lemma {:induction false} ScanBackSplit(stack: string, u: string, v: string)
    ensures ScanBackward(stack, u + v) ==
      match ScanBackward(stack, v) case Pending(next) => Then(ScanBackward(next, u), |v|) case other => other
    decreases |v|
  {
    if v == [] {
      assert u + v == u;
    } else {
      assert (u + v)[..|u + v| - 1] == u + v[..|v| - 1];
      if StepBack(stack, v[|v| - 1]).Some? {
        ScanBackSplit(StepBack(stack, v[|v| - 1]).value, u, v[..|v| - 1]);
      }
    }
  }

  ghost predicate Running(o: Option<string>) {
    o.Some? && o.value != []
  }

  /** After n characters the stack is empty, and it was not empty before. */
  ghost predicate StopsAt(stack: string, s: string, n: nat) {
    0 < n <= |s| && Run(stack, s[..n]) == Some([]) && forall k :: 0 < k < n ==> Running(Run(stack, s[..k]))
  }

  lemma PrefixStep(stack: string, s: string, k: nat)
    requires 0 < k <= |s|
    ensures Run(stack, s[..k]) == match Step(stack, s[0]) case None => None case Some(next) => Run(next, s[1..][..k - 1])
  {
    assert s[..k][1..] == s[1..][..k - 1];
  }

  lemma StopsLater(stack: string, next: string, s: string, n: nat)
    requires 0 < n < |s| && Step(stack, s[0]) == Some(next) && next != []
    ensures StopsAt(stack, s, n + 1) <==> StopsAt(next, s[1..], n)
  {
    PrefixStep(stack, s, n + 1);
    if StopsAt(stack, s, n + 1) {
      forall k | 0 < k < n
        ensures Running(Run(next, s[1..][..k]))
      {
        PrefixStep(stack, s, k + 1);
        assert Running(Run(stack, s[..k + 1]));
      }
    }
    if StopsAt(next, s[1..], n) {
      forall k | 0 < k < n + 1
        ensures Running(Run(stack, s[..k]))
      {
        PrefixStep(stack, s, k);
        assert k > 1 ==> Running(Run(next, s[1..][..k - 1]));
      }
    }
  }

  /** The scan stops where the stack first becomes empty. */
  lemma {:induction false} ScanStops(stack: string, s: string, n: nat)
    ensures ScanForward(stack, s) == Closed(n) <==> StopsAt(stack, s, n)
    decreases |s|
  {
    if s == [] || n == 0 {
      NeverZero(stack, s);
    } else {
      var next := Step(stack, s[0]);
      PrefixStep(stack, s, 1);
      if n <= |s| {
        PrefixStep(stack, s, n);
      }
      if Running(next) {
        ScanStops(next.value, s[1..], n - 1);
        if 1 < n <= |s| {
          StopsLater(stack, next.value, s, n - 1);
        }
      } else if 1 < n <= |s| {
        assert !Running(Run(stack, s[..1]));
      }
    }
  }

  lemma NeverZero(stack: string, s: string)
    ensures ScanForward(stack, s) != Closed(0) && ScanBackward(stack, s) != Closed(0)
  {}

  function Suffix(s: string, k: nat): (t: string)
    requires k <= |s|
    ensures |t| == k && (k > 0 ==> t[k - 1] == s[|s| - 1])
  {
    s[|s| - k..]
  }

  /** The same from the right. */
  ghost predicate StopsBackAt(stack: string, s: string, n: nat) {
    && 0 < n <= |s| && RunBack(stack, Suffix(s, n)) == Some([])
    && forall k :: 0 < k < n ==> Running(RunBack(stack, Suffix(s, k)))
  }

  lemma SuffixStep(stack: string, s: string, k: nat)
    requires 0 < k <= |s|
    ensures RunBack(stack, Suffix(s, k)) ==
      match StepBack(stack, s[|s| - 1]) case None => None case Some(next) => RunBack(next, Suffix(s[..|s| - 1], k - 1))
  {
    var last := Suffix(s, k);
    assert last[..|last| - 1] == Suffix(s[..|s| - 1], k - 1) && last[|last| - 1] == s[|s| - 1];
  }

  lemma StopsBackLater(stack: string, next: string, s: string, n: nat)
    requires 0 < n < |s| && StepBack(stack, s[|s| - 1]) == Some(next) && next != []
    ensures StopsBackAt(stack, s, n + 1) <==> StopsBackAt(next, s[..|s| - 1], n)
  {
    hide Suffix, RunBack;
    var init := s[..|s| - 1];
    SuffixStep(stack, s, n + 1);
    if StopsBackAt(stack, s, n + 1) {
      forall k | 0 < k < n
        ensures Running(RunBack(next, Suffix(init, k)))
      {
        SuffixStep(stack, s, k + 1);
        assert Running(RunBack(stack, Suffix(s, k + 1)));
      }
    }
    if StopsBackAt(next, init, n) {
      forall k | 0 < k < n + 1
        ensures Running(RunBack(stack, Suffix(s, k)))
      {
        SuffixStep(stack, s, k);
        if k > 1 {
          assert Running(RunBack(next, Suffix(init, k - 1)));
        } else {
          NothingRun(next, init);
        }
      }
    }
  }

  lemma NothingRun(stack: string, s: string)
    ensures RunBack(stack, Suffix(s, 0)) == Some(stack)
  {}

  lemma {:induction false} ScanBackStops(stack: string, s: string, n: nat)
    ensures ScanBackward(stack, s) == Closed(n) <==> StopsBackAt(stack, s, n)
    decreases |s|
  {
    hide Suffix;
    if s == [] || n == 0 {
      NeverZero(stack, s);
    } else {
      var next := StepBack(stack, s[|s| - 1]);
      SuffixStep(stack, s, 1);
      if n <= |s| {
        SuffixStep(stack, s, n);
      }
      if next.Some? {
        NothingRun(next.value, s[..|s| - 1]);
      }
      if Running(next) {
        ScanBackStops(next.value, s[..|s| - 1], n - 1);
        if 1 < n <= |s| {
          StopsBackLater(stack, next.value, s, n - 1);
        }
      } else if 1 < n <= |s| {
        assert !Running(RunBack(stack, Suffix(s, 1)));
      }
    }
  }

  // ---- The scans find the matching bracket ----

  /** From an opening bracket, the forward scan stops just past its match. */
  lemma ForwardFindsMatch(s: string, n: nat)
    requires s != [] && IsOpen(s[0])
    ensures ScanForward([], s) == Closed(n) <==> n <= |s| && Matches(s, 0, n)
  {
    ScanStops([], s, n);
    if 1 < n <= |s| && Matches(s, 0, n) {
      BalancedKeeps([s[0]], s[1..n - 1]);
      MatchStops(s, n);
    }
    if StopsAt([], s, n) {
      StopMatches(s, n);
    }
  }

  lemma MatchStops(s: string, n: nat)
    requires 1 < n <= |s| && Matches(s, 0, n) && Keeps([s[0]], s[1..n - 1])
    ensures StopsAt([], s, n)
  {
    var c := s[0];
    assert [] + [c] == [c];
    OneStep([c], s[n - 1]);
    CloserCloses(c);
    assert s[1..n] == s[1..n - 1] + [s[n - 1]];
    RunSplit([c], s[1..n - 1], [s[n - 1]]);
    PrefixStep([], s, n);
    assert s[1..][..n - 1] == s[1..n];
    forall k | 0 < k < n
      ensures Running(Run([], s[..k]))
    {
      PrefixStep([], s, k);
      assert s[1..][..k - 1] == s[1..n - 1][..k - 1];
      assert Above([c], Run([c], s[1..n - 1][..k - 1]));
    }
  }

  lemma StopMatches(s: string, n: nat)
    requires s != [] && IsOpen(s[0]) && StopsAt([], s, n)
    ensures Matches(s, 0, n)
  {
    var c := s[0];
    assert [] + [c] == [c] + [];
    PrefixStep([], s, n);
    var inner := s[1..][..n - 1];
    var k := FirstReturn(c, [], inner);
    assert inner[..k] == s[1..k + 1] && inner[k] == s[k + 1];
    BalancedIffRun(s[1..k + 1]);
    if k + 2 < n {
      BalancedKeeps([c], s[1..k + 1]);
      MatchStops(s, k + 2);
      assert false;
    }
  }

  /** From a closing bracket, the backward scan stops at its match. */
  lemma BackwardFindsMatch(s: string, n: nat)
    requires s != [] && IsClose(s[|s| - 1])
    ensures ScanBackward([], s) == Closed(n) <==> n <= |s| && Matches(s, |s| - n, |s|)
  {
    hide ScanForward, ScanBackward, Matches, StopsAt, IsOpen, IsClose;
    ScanBackStops([], s, n);
    if 0 < n <= |s| {
      var t := Suffix(s, n);
      SuffixMatch(s, n);
      ForwardStopsBack(s, n);
      BackStopsForward(s, n);
      MatchOpens(t);
      if IsOpen(t[0]) {
        ScanStops([], t, n);
        ForwardFindsMatch(t, n);
      }
    } else {
      NoMatchHere(s);
    }
  }

  lemma NoMatchHere(s: string)
    ensures !Matches(s, |s|, |s|) && !StopsBackAt([], s, 0)
    ensures forall n :: n > |s| ==> !StopsBackAt([], s, n)
  {}

  lemma MatchOpens(t: string)
    requires t != []
    ensures Matches(t, 0, |t|) ==> IsOpen(t[0])
  {}

  lemma SuffixMatch(s: string, n: nat)
    requires 0 < n <= |s|
    ensures Matches(s, |s| - n, |s|) <==> Matches(Suffix(s, n), 0, n)
  {
    if n > 1 {
      assert Suffix(s, n)[1..n - 1] == s[|s| - n + 1..|s| - 1];
    }
  }

  /** Splitting a unit of n characters k characters before its end. */
  lemma DualAt(s: string, n: nat, k: nat)
    requires 0 < k < n <= |s| && Run([], Suffix(s, n)) == Some([])
    ensures Run([], Suffix(s, n)[..n - k]).Some?
    ensures RunBack([], Suffix(s, k)) == Some(Closers(Run([], Suffix(s, n)[..n - k]).value))
  {
    var u := Suffix(s, n)[..n - k];
    assert Suffix(s, n) == u + Suffix(s, k);
    RunSplit([], u, Suffix(s, k));
    RunKeepsOpen([], u);
    Dual(Run([], u).value, Suffix(s, k));
  }

  lemma ForwardStopsBack(s: string, n: nat)
    requires 0 < n <= |s|
    ensures StopsAt([], Suffix(s, n), n) ==> StopsBackAt([], s, n)
  {
    hide Suffix, Run, RunBack;
    var t := Suffix(s, n);
    if StopsAt([], t, n) {
      assert t[..n] == t;
      Dual([], t);
      forall k | 0 < k < n
        ensures Running(RunBack([], Suffix(s, k)))
      {
        DualAt(s, n, k);
        assert Running(Run([], t[..n - k]));
      }
    }
  }

  lemma BackStopsForward(s: string, n: nat)
    requires 0 < n <= |s| && IsClose(s[|s| - 1])
    ensures StopsBackAt([], s, n) ==> StopsAt([], Suffix(s, n), n) && IsOpen(Suffix(s, n)[0])
  {
    hide Suffix, Run, RunBack;
    var t := Suffix(s, n);
    if StopsBackAt([], s, n) {
      assert t[..n] == t;
      Dual([], t);
      forall k | 0 < k < n
        ensures Running(Run([], t[..k]))
      {
        DualAt(s, n, n - k);
        assert Running(RunBack([], Suffix(s, n - k)));
      }
      FirstOpens(t, n);
    }
  }

  lemma FirstOpens(t: string, n: nat)
    requires |t| == n && n > 0 && IsClose(t[n - 1]) && StopsAt([], t, n)
    ensures IsOpen(t[0])
  {
    PrefixStep([], t, 1);
  }
}
