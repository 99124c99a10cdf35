/** The file browser's back and forward history (file-browser/src/main.cpp): two stacks of at most 32 paths
    and the folder shown between them. */
module History {
  import opened Sequences

  const LIMIT := 32
  const PATH_SIZE := 256

  /** The paths Back and Forward would open, nearest last, and the one shown. */
  datatype Trail = Trail(back: seq<string>, current: string, forward: seq<string>)

  /** A path as the stacks keep it. */
  function Stored(path: string): string {
    if |path| < PATH_SIZE then path else path[..PATH_SIZE - 1]
  }

  function Pushed(stack: seq<string>, path: string): (r: seq<string>)
    requires |stack| <= LIMIT
  {
    (if |stack| == LIMIT then stack[1..] else stack) + [path]
  }

  lemma PushedBelowLimit(stack: seq<string>, path: string)
    requires |stack| < LIMIT
    ensures Pushed(stack, path) == stack + [path]
  {
  }

  datatype Step = Navigate(path: string) | Back | Forward

  function After(t: Trail, step: Step): Trail
    requires |t.back| <= LIMIT && |t.forward| <= LIMIT
  {
    match step
    case Navigate(path) => if path == t.current then t else Trail(Pushed(t.back, t.current), Stored(path), [])
    case Back =>
      if t.back == [] then t else Trail(t.back[..|t.back| - 1], t.back[|t.back| - 1], Pushed(t.forward, t.current))
    case Forward =>
      if t.forward == [] then t else Trail(Pushed(t.back, t.current), t.forward[|t.forward| - 1],
        t.forward[..|t.forward| - 1])
  }

  /** Both stacks together never hold more than one of them could. */
  ghost predicate Bounded(t: Trail) {
    |t.back| + |t.forward| <= LIMIT
  }

  function Reversed(s: seq<string>): seq<string> {
    if s == [] then [] else [s[|s| - 1]] + Reversed(s[..|s| - 1])
  }

  /** The folders in the order they were visited. */
  function Line(t: Trail): seq<string> {
    t.back + [t.current] + Reversed(t.forward)
  }

  function AfterAll(t: Trail, steps: seq<Step>): (r: Trail)
    requires Bounded(t)
    ensures Bounded(r)
    decreases |steps|
  {
    if steps == [] then t else After(AfterAll(t, steps[..|steps| - 1]), steps[|steps| - 1])
  }

  /** Going back and forward only moves along the line of folders, by one place, and each undoes the other:
      neither ever drops a folder. */
  lemma MovesAlongLine(t: Trail)
    requires Bounded(t)
    ensures Line(After(t, Back)) == Line(t) && Line(After(t, Forward)) == Line(t)
    ensures t.back != [] ==> |After(t, Back).back| == |t.back| - 1 && After(After(t, Back), Forward) == t
    ensures t.forward != [] ==> |After(t, Forward).back| == |t.back| + 1 && After(After(t, Forward), Back) == t
  {
    if t.back != [] {
      BackMoves(t);
    }
    if t.forward != [] {
      ForwardMoves(t);
    }
  }

  lemma BackMoves(t: Trail)
    requires Bounded(t) && t.back != []
    ensures var b := After(t, Back); Line(b) == Line(t) && |b.back| == |t.back| - 1 && After(b, Forward) == t
  {
    hide Line, Reversed;
    var b := After(t, Back);
    SplitLast(t.back);
    InitAndLast(t.forward, t.current);
    OneStepLeft(b.back, b.current, t.current, t.forward);
  }

  lemma ForwardMoves(t: Trail)
    requires Bounded(t) && t.forward != []
    ensures var f := After(t, Forward); Line(f) == Line(t) && |f.back| == |t.back| + 1 && After(f, Back) == t
  {
    hide Line, Reversed;
    var f := After(t, Forward);
    SplitLast(t.forward);
    InitAndLast(t.back, t.current);
    OneStepLeft(t.back, t.current, f.current, f.forward);
  }

  /** The same line, seen from one folder and from the next. */
  lemma OneStepLeft(back: seq<string>, here: string, next: string, forward: seq<string>)
    ensures Line(Trail(back, here, forward + [next])) == Line(Trail(back + [here], next, forward))
  {
    InitAndLast(forward, next);
    AppendAssociates(back + [here], [next], Reversed(forward));
  }

  /** Opening another folder forgets what was ahead, and of what was behind at most the oldest: the line
      becomes the folders up to the one shown and the new one, without the first when there were 32 before it.
      Back returns to the folder left. */
  lemma NavigatingKeepsTheRecent(t: Trail, path: string)
    requires Bounded(t) && path != t.current
    ensures var n := After(t, Navigate(path)); var line := t.back + [t.current];
            n.current == Stored(path) && n.forward == [] &&
            Line(n) == (if |t.back| < LIMIT then line else line[1..]) + [Stored(path)] &&
              After(n, Back).current == t.current
  {
    var n, line := After(t, Navigate(path)), t.back + [t.current];
    assert n.back == if |t.back| < LIMIT then line else line[1..];
    assert Line(n) == n.back + [n.current] + [];
  }

  /** Any walk back and forth over a line shows one of its folders and leaves the line alone. */
  lemma {:induction false} WalkingKeepsLine(t: Trail, steps: seq<Step>)
    requires Bounded(t) && forall i :: 0 <= i < |steps| ==> steps[i] == Back || steps[i] == Forward
    ensures Line(AfterAll(t, steps)) == Line(t) && AfterAll(t, steps).current == Line(t)[|AfterAll(t, steps).back|]
    decreases |steps|
  {
    hide After, Line;
    if steps != [] {
      WalkingKeepsLine(t, steps[..|steps| - 1]);
      MovesAlongLine(AfterAll(t, steps[..|steps| - 1]));
    }
    CurrentOnLine(AfterAll(t, steps));
  }

  lemma CurrentOnLine(t: Trail)
    ensures |Line(t)| > |t.back| && Line(t)[|t.back|] == t.current
  {
    assert Line(t) == t.back + ([t.current] + Reversed(t.forward));
  }

  class History {
    var currentPath: string
    const backStack: array<string>
    var backCount: nat
    const forwardStack: array<string>
    var forwardCount: nat

    constructor ()
      ensures Valid() && fresh(backStack) && fresh(forwardStack) && View() == Trail([], "/bin", [])
    {
      currentPath := "/bin";
      backStack := new string[LIMIT](_ => "");
      forwardStack := new string[LIMIT](_ => "");
      backCount, forwardCount := 0, 0;
    }

    ghost predicate Shaped()
      reads this
    {
      backStack != forwardStack && backStack.Length == LIMIT && forwardStack.Length == LIMIT &&
      backCount <= LIMIT && forwardCount <= LIMIT
    }

    ghost function View(): Trail
      requires Shaped()
      reads this, backStack, forwardStack
    {
      Trail(backStack[..backCount], currentPath, forwardStack[..forwardCount])
    }

    /** Every path is stored whole. */
    ghost predicate Valid()
      reads this, backStack, forwardStack
    {
      Shaped() && Bounded(View()) && |currentPath| < PATH_SIZE &&
      AllWhole(backStack[..backCount]) && AllWhole(forwardStack[..forwardCount])
    }

    static ghost predicate AllWhole(paths: seq<string>) {
      forall i :: 0 <= i < |paths| ==> |paths[i]| < PATH_SIZE
    }

    static method Push(stack: array<string>, count: nat, path: string) returns (newCount: nat)
      requires stack.Length == LIMIT && count <= LIMIT && |path| < PATH_SIZE && AllWhole(stack[..count])
      modifies stack
      ensures newCount <= LIMIT && stack[..newCount] == Pushed(old(stack[..count]), path) && AllWhole(stack[..newCount])
    {
      newCount := count;
      if newCount == LIMIT {
        for i := 1 to LIMIT
          invariant forall k :: 0 <= k < LIMIT ==> stack[k] == if k + 1 < i then old(stack[k + 1]) else old(stack[k])
        {
          stack[i - 1] := Stored(stack[i]);
        }
        newCount := newCount - 1;
      }
      stack[newCount] := Stored(path);
      newCount := newCount + 1;
      assert stack[..newCount] == stack[..newCount - 1] + [path];
    }

    method Navigate(path: string)
      requires Valid()
      modifies this, backStack
      ensures Valid() && View() == After(old(View()), Step.Navigate(path))
    {
      if path == currentPath {
        return;
      }
      backCount := Push(backStack, backCount, currentPath);
      forwardCount := 0;
      assert forwardStack[..forwardCount] == [];
      currentPath := Stored(path);
    }

    method GoBack()
      requires Valid()
      modifies this, forwardStack
      ensures Valid() && View() == After(old(View()), Back)
    {
      hide Pushed;
      if backCount == 0 {
        return;
      }
      PushedBelowLimit(old(View()).forward, currentPath);
      forwardCount := Push(forwardStack, forwardCount, currentPath);
      backCount := backCount - 1;
      InitAndLast(backStack[..backCount], backStack[backCount]);
      currentPath := Stored(backStack[backCount]);
    }

    method GoForward()
      requires Valid()
      modifies this, backStack
      ensures Valid() && View() == After(old(View()), Forward)
    {
      hide Pushed;
      if forwardCount == 0 {
        return;
      }
      PushedBelowLimit(old(View()).back, currentPath);
      backCount := Push(backStack, backCount, currentPath);
      forwardCount := forwardCount - 1;
      InitAndLast(forwardStack[..forwardCount], forwardStack[forwardCount]);
      currentPath := Stored(forwardStack[forwardCount]);
    }
  }
}
