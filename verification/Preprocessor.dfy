/** NestingState.UpdatePreprocessor of cpplint.py: the stack of #if blocks, and what it does to
    the nesting stack. The nesting stack is a list of blocks of any type T; a line that is not one of
    these directives changes it in an arbitrary way. */
module Preprocessor {

  datatype Line<!T> = If | Else | Endif | Code(effect: seq<T> -> seq<T>)

  /** One open #if block, as a value. */
  datatype Frame<T> = Frame(beforeIf: seq<T>, seenElse: bool, beforeElse: seq<T>)

  datatype State<T> = State(stack: seq<T>, frames: seq<Frame<T>>)

  /** What one line does. A stray #else or #endif does nothing. */
  function Next<T>(s: State<T>, line: Line<T>): State<T> {
    var n := |s.frames|;
    match line
    case Code(f) => s.(stack := f(s.stack))
    case If => s.(frames := s.frames + [Frame(s.stack, false, [])])
    case Else =>
      if n == 0 then s
      else
        var top := s.frames[n - 1];
        State(top.beforeIf, s.frames[..n - 1] + [if top.seenElse then top else top.(seenElse := true, beforeElse := s.stack)])
    case Endif =>
      if n == 0 then s
      else
        var top := s.frames[n - 1];
        State(if top.seenElse then top.beforeElse else s.stack, s.frames[..n - 1])
  }

  function RunAll<T>(s: State<T>, lines: seq<Line<T>>): State<T>
    decreases |lines|
  {
    if lines == [] then s else RunAll(Next(s, lines[0]), lines[1..])
  }

  // ---- The object ----

  class PreprocessorInfo<T> {
    const stackBeforeIf: seq<T>
    var stackBeforeElse: seq<T>
    var seenElse: bool

    constructor (stackBeforeIf: seq<T>)
      ensures this.stackBeforeIf == stackBeforeIf && !seenElse && stackBeforeElse == []
    {
      this.stackBeforeIf, stackBeforeElse, seenElse := stackBeforeIf, [], false;
    }

    ghost function Value(): Frame<T>
      reads this
    {
      Frame(stackBeforeIf, seenElse, stackBeforeElse)
    }
  }

  class NestingState<T> {
    var stack: seq<T>
    var ppStack: seq<PreprocessorInfo<T>>

    ghost predicate Valid()
      reads this
    {
      forall i, j :: 0 <= i < j < |ppStack| ==> ppStack[i] != ppStack[j]
    }

    ghost function Abstract(): State<T>
      reads this, ppStack
    {
      State(stack, seq(|ppStack|, i requires 0 <= i < |ppStack| reads this, ppStack => ppStack[i].Value()))
    }

    constructor ()
      ensures Valid() && Abstract() == State([], [])
    {
      stack, ppStack := [], [];
    }

    method UpdatePreprocessor(line: Line<T>)
      requires Valid() && !line.Code?
      modifies this, ppStack
      ensures Valid() && Abstract() == Next(old(Abstract()), line)
      ensures fresh(set i | i in ppStack && i !in old(ppStack))
      ensures var n := |old(ppStack)|;
        match line
        case If =>
          && stack == old(stack) && |ppStack| == n + 1 && ppStack[..n] == old(ppStack)
          && ppStack[n].stackBeforeIf == stack && !ppStack[n].seenElse
        case Else =>
          && ppStack == old(ppStack) && stack == (if n == 0 then old(stack) else old(ppStack)[n - 1].stackBeforeIf)
          && (n > 0 ==> ppStack[n - 1].seenElse)
          && (n > 0 && old(ppStack[n - 1].seenElse) ==> ppStack[n - 1].stackBeforeElse == old(ppStack[n - 1].stackBeforeElse))
          && (n > 0 && !old(ppStack[n - 1].seenElse) ==> ppStack[n - 1].stackBeforeElse == old(stack))
        case Endif =>
          && ppStack == (if n == 0 then [] else old(ppStack)[..n - 1])
          && stack == (if n > 0 && old(ppStack[n - 1].seenElse) then old(ppStack[n - 1].stackBeforeElse) else old(stack))
        case Code(_) => true
    {
      match line
      case If =>
        var info := new PreprocessorInfo(stack);
        ppStack := ppStack + [info];
      case Else =>
        if ppStack != [] {
          var top := ppStack[|ppStack| - 1];
          if !top.seenElse {
            top.seenElse := true;
            top.stackBeforeElse := stack;
          }
          stack := top.stackBeforeIf;
        }
      case Endif =>
        if ppStack != [] {
          var top := ppStack[|ppStack| - 1];
          if top.seenElse {
            stack := top.stackBeforeElse;
          }
          ppStack := ppStack[..|ppStack| - 1];
        }
    }

    /** Update, whose other work is the effect of the line on the nesting stack. */
    method Update(line: Line<T>)
      requires Valid()
      modifies this, ppStack
      ensures Valid() && Abstract() == Next(old(Abstract()), line)
      ensures fresh(set i | i in ppStack && i !in old(ppStack))
    {
      match line
      case Code(f) => stack := f(stack);
      case other => UpdatePreprocessor(line);
    }

    /** Every line of a file. */
    method ProcessFile(lines: seq<Line<T>>)
      requires Valid()
      modifies this, ppStack
      ensures Valid() && Abstract() == RunAll(old(Abstract()), lines)
    {
      var i := 0;
      assert lines[0..] == lines;
      while i < |lines|
        invariant i <= |lines| && Valid()
        invariant fresh(set k | k in ppStack && k !in old(ppStack))
        invariant RunAll(Abstract(), lines[i..]) == RunAll(old(Abstract()), lines)
      {
        assert lines[i..][1..] == lines[i + 1..];
        Update(lines[i]);
        i := i + 1;
      }
    }
  }

  // ---- Well-nested files ----

  /** A file whose directives nest: code lines and conditionals with any number of #else and
      #elif branches. */
  datatype Program<!T> = End | Plain(effect: seq<T> -> seq<T>, rest: Program<T>)
    | Cond(kept: Program<T>, others: Branches<T>, rest: Program<T>)

  datatype Branches<!T> = NoMore | Branch(body: Program<T>, more: Branches<T>)

  function Lines<T>(p: Program<T>): seq<Line<T>> {
    match p
    case End => []
    case Plain(f, rest) => [Code(f)] + Lines(rest)
    case Cond(kept, others, rest) => [If] + Lines(kept) + BranchLines(others) + [Endif] + Lines(rest)
  }

  function BranchLines<T>(b: Branches<T>): seq<Line<T>> {
    match b
    case NoMore => []
    case Branch(body, more) => [Else] + Lines(body) + BranchLines(more)
  }

  /** The file without its #else and #elif branches. */
  function Pruned<T>(p: Program<T>): Program<T> {
    match p
    case End => End
    case Plain(f, rest) => Plain(f, Pruned(rest))
    case Cond(kept, others, rest) => Cond(Pruned(kept), NoMore, Pruned(rest))
  }

  /** What the lines outside #else and #elif branches do to the nesting stack. */
  function Effect<T>(p: Program<T>, stack: seq<T>): seq<T> {
    match p
    case End => stack
    case Plain(f, rest) => Effect(rest, f(stack))
    case Cond(kept, others, rest) => Effect(rest, Effect(kept, stack))
  }

  lemma {:induction false} RunSplit<T>(s: State<T>, a: seq<Line<T>>, b: seq<Line<T>>)
    ensures RunAll(s, a + b) == RunAll(RunAll(s, a), b)
    decreases |a|
  {
    if a == [] {
      assert a + b == b;
    } else {
      assert (a + b)[1..] == a[1..] + b;
      RunSplit(Next(s, a[0]), a[1..], b);
    }
  }

  lemma OneLine<T>(s: State<T>, line: Line<T>)
    ensures RunAll(s, [line]) == Next(s, line)
  {}

  /** After a well-nested file the nesting stack is what the lines outside the other branches
      made it, and every block that was open before is as it was. */
  lemma {:induction false} NestedRun<T>(p: Program<T>, s: State<T>)
    ensures RunAll(s, Lines(p)) == State(Effect(p, s.stack), s.frames)
    decreases p
  {
    match p
    case End =>
    case Plain(f, rest) =>
      RunSplit(s, [Code(f)], Lines(rest));
      OneLine(s, Code(f));
      NestedRun(rest, Next(s, Code(f)));
    case Cond(kept, others, rest) =>
      var inside := Next(s, If);
      RunSplit(s, [If] + Lines(kept) + BranchLines(others) + [Endif], Lines(rest));
      RunSplit(s, [If] + Lines(kept) + BranchLines(others), [Endif]);
      RunSplit(s, [If] + Lines(kept), BranchLines(others));
      RunSplit(s, [If], Lines(kept));
      OneLine(s, If);
      NestedRun(kept, inside);
      var after := State(Effect(kept, s.stack), inside.frames);
      BranchesRun(others, after);
      OneLine(RunAll(after, BranchLines(others)), Endif);
      assert inside.frames[..|s.frames|] == s.frames;
      NestedRun(rest, State(Effect(kept, s.stack), s.frames));
  }

  /** The branches leave behind the stack from before the first of them, for #endif to restore. */
  lemma {:induction false} BranchesRun<T>(b: Branches<T>, s: State<T>)
    requires s.frames != []
    ensures var r, n := RunAll(s, BranchLines(b)), |s.frames|;
      && |r.frames| == n && r.frames[..n - 1] == s.frames[..n - 1]
      && Next(r, Endif) == Next(s, Endif)
    decreases b
  {
    match b
    case NoMore =>
    case Branch(body, more) =>
      var t := Next(s, Else);
      RunSplit(s, [Else] + Lines(body), BranchLines(more));
      RunSplit(s, [Else], Lines(body));
      OneLine(s, Else);
      NestedRun(body, t);
      BranchesRun(more, State(Effect(body, t.stack), t.frames));
  }

  lemma {:induction false} PrunedEffect<T>(p: Program<T>, stack: seq<T>)
    ensures Effect(Pruned(p), stack) == Effect(p, stack)
    decreases p
  {
    match p
    case End =>
    case Plain(f, rest) => PrunedEffect(rest, f(stack));
    case Cond(kept, others, rest) =>
      PrunedEffect(kept, stack);
      PrunedEffect(rest, Effect(kept, stack));
  }

  /** Deleting every #else and #elif branch changes nothing. */
  lemma BranchesDoNotMatter<T>(p: Program<T>, s: State<T>)
    ensures RunAll(s, Lines(p)) == RunAll(s, Lines(Pruned(p)))
  {
    NestedRun(p, s);
    NestedRun(Pruned(p), s);
    PrunedEffect(p, s.stack);
  }

  // ---- Inside a block that is still open ----

  /** A block as it is after some of its branches. */
  function Entered<T>(top: Frame<T>, stack: seq<T>, b: Branches<T>): Frame<T> {
    if b.NoMore? || top.seenElse then top else Frame(top.beforeIf, true, stack)
  }

  lemma {:induction false} BranchesOpen<T>(b: Branches<T>, below: seq<Frame<T>>, top: Frame<T>, stack: seq<T>)
    ensures RunAll(State(stack, below + [top]), BranchLines(b)).frames == below + [Entered(top, stack, b)]
    decreases b
  {
    match b
    case NoMore =>
    case Branch(body, more) =>
      var s := State(stack, below + [top]);
      var t := Next(s, Else);
      assert s.frames[..|s.frames| - 1] == below;
      RunSplit(s, [Else] + Lines(body), BranchLines(more));
      RunSplit(s, [Else], Lines(body));
      OneLine(s, Else);
      NestedRun(body, t);
      BranchesOpen(more, below, Entered(top, stack, b), Effect(body, t.stack));
  }

  lemma NoBranches<T>(s: State<T>)
    ensures RunAll(s, BranchLines(NoMore)) == s
  {}

  /** Inside an #else or #elif branch the lines before it in the branch, and nothing else of the block,
      have had their effect, on the stack from before the block. The blocks around it are as they were,
      and the effect of the first part of the block is kept for its end. */
  lemma OpenBranch<T>(kept: Program<T>, earlier: Branches<T>, body: Program<T>, s: State<T>)
    ensures RunAll(s, [If] + Lines(kept) + BranchLines(earlier) + [Else] + Lines(body)) ==
      State(Effect(body, s.stack), s.frames + [Frame(s.stack, true, Effect(kept, s.stack))])
  {
    hide RunAll, Lines, BranchLines, Effect;
    var before := [If] + Lines(kept) + BranchLines(earlier);
    var top, stack := Frame(s.stack, false, []), Effect(kept, s.stack);
    RunSplit(s, before + [Else], Lines(body));
    RunSplit(s, before, [Else]);
    RunSplit(s, [If] + Lines(kept), BranchLines(earlier));
    OpenBlock(kept, s);
    BranchesOpen(earlier, s.frames, top, stack);
    NoBranches(State(stack, s.frames + [top]));
    var r := RunAll(s, before);
    OneLine(r, Else);
    assert r.frames[..|r.frames| - 1] == s.frames;
    NestedRun(body, RunAll(s, before + [Else]));
  }

  /** Inside the first part of a block. */
  lemma OpenBlock<T>(kept: Program<T>, s: State<T>)
    ensures RunAll(s, [If] + Lines(kept)) == State(Effect(kept, s.stack), s.frames + [Frame(s.stack, false, [])])
  {
    RunSplit(s, [If], Lines(kept));
    OneLine(s, If);
    NestedRun(kept, Next(s, If));
  }

  /** Outside all blocks, #else, #elif and #endif lines do nothing, however many there are. */
  lemma {:induction false} StrayDirectives<T>(stack: seq<T>, lines: seq<Line<T>>)
    requires forall i :: 0 <= i < |lines| ==> lines[i].Else? || lines[i].Endif?
    ensures RunAll(State(stack, []), lines) == State(stack, [])
    decreases |lines|
  {
    if lines != [] {
      StrayDirectives(stack, lines[1..]);
    }
  }

  /** Any file at all: the number of open blocks is that of a counter that stops at zero. */
  function Depth<T>(d: nat, lines: seq<Line<T>>): nat
    decreases |lines|
  {
    if lines == [] then d
    else match lines[0]
      case If => Depth(d + 1, lines[1..])
      case Endif => Depth(if d == 0 then 0 else d - 1, lines[1..])
      case _ => Depth(d, lines[1..])
  }

  lemma {:induction false} BlocksAreCounted<T>(s: State<T>, lines: seq<Line<T>>)
    ensures |RunAll(s, lines).frames| == Depth(|s.frames|, lines)
    decreases |lines|
  {
    if lines != [] {
      BlocksAreCounted(Next(s, lines[0]), lines[1..]);
    }
  }
}
