/** The process's file descriptors over kernel handles (outside/mlibc-sysdeps/instantos/sysdeps.cpp): which
    descriptor an allocation gets, and that no kernel handle is lost or kept twice. */
module FdTable {
  import opened Wrappers

  const MAX_FD := 256
  const FIRST_FD := 3

  datatype Errno = EBADF | EMFILE | EINVAL | Kernel(code: int)

  /** A kernel answer in the error range, as an errno; 0 when the call succeeded. */
  function ScError(ret: int): int {
    if -4096 < ret < 0 then -ret else 0
  }

  // ---- the table as a value ------------------------------------------------------------------

  /** The table, and the kernel handles this process holds open beyond the standard streams. */
  datatype Fds = Fds(table: seq<int>, held: set<int>)

  ghost predicate Sized(s: Fds) { |s.table| == MAX_FD }

  /** The handles held open are exactly the table's nonzero entries past the standard streams, one
      descriptor per handle. */
  ghost predicate Balanced(s: Fds) {
    Sized(s) && 0 !in s.held &&
    (forall fd :: FIRST_FD <= fd < MAX_FD && s.table[fd] != 0 ==> s.table[fd] in s.held) &&
    (forall a, b :: FIRST_FD <= a < b < MAX_FD && s.table[a] != 0 ==> s.table[a] != s.table[b]) &&
    (forall h :: h in s.held ==> exists fd :: FIRST_FD <= fd < MAX_FD && s.table[fd] == h)
  }

  /** The lowest free descriptor at or above `min`, or -1. */
  function LowestFree(table: seq<int>, min: int): (fd: int)
    ensures -1 <= fd < |table|
    ensures fd >= 0 ==> fd >= min && table[fd] == 0 && forall k :: 0 <= k < fd && min <= k ==> table[k] != 0
    ensures fd < 0 ==> forall k :: 0 <= k < |table| && min <= k ==> table[k] != 0
    decreases |table| - min
  {
    if min < 0 then LowestFree(table, 0)
    else if min >= |table| then -1
    else if table[min] == 0 then min
    else LowestFree(table, min + 1)
  }

  /** What a handle the kernel just gave may be. */
  predicate FreshHandle(s: Fds, handle: int) {
    handle > 0 && handle !in s.held
  }

  /** The kernel's answers to the calls that make descriptors. */
  datatype Call =
    | Make(min: int, ret: int)                       // Open, Openat, Dup, Socket, Accept, and F_DUPFD with its minimum
    | MakePair(ret: int, first: int, second: int)    // Socketpair
    | MakePipe(ret: int, first: int, second: int)    // Pipe
    | Release(fd: int, ret: int)                     // Close

  datatype Outcome = Failed(errno: Errno) | Made(fd: int) | MadeTwo(first: int, second: int) | Released

  function Assign(s: Fds, fd: int, handle: int): Fds
    requires 0 <= fd < |s.table|
  {
    Fds(s.table[fd := handle], s.held + {handle})
  }

  /** What a call leaves behind. */
  function Step(s: Fds, call: Call): (Fds, Outcome)
    requires |s.table| == MAX_FD
  {
    match call
    case Make(min, ret) =>
      if ScError(ret) != 0 then (s, Failed(Kernel(ScError(ret))))
      else
        var fd := LowestFree(s.table, min);
        if fd < 0 then (s, Failed(EMFILE)) else (Assign(s, fd, ret), Made(fd))
    case MakePair(ret, first, second) =>
      if ScError(ret) != 0 then (s, Failed(Kernel(ScError(ret))))
      else
        var a := LowestFree(s.table, FIRST_FD);
        var b := if a < 0 then -1 else LowestFree(s.table[a := first], FIRST_FD);
        if b < 0 then (s, Failed(EMFILE)) else (Assign(Assign(s, a, first), b, second), MadeTwo(a, b))
    case MakePipe(ret, first, second) =>
      if ScError(ret) != 0 then (s, Failed(Kernel(ScError(ret))))
      else
        var r := LowestFree(s.table, FIRST_FD);
        var w := if r < 0 then -1 else LowestFree(s.table[r := first], FIRST_FD);
        if r < 0 then (s.(held := s.held + {first, second}), Failed(EMFILE))
        else if w < 0 then (s.(held := s.held + {second}), Failed(EMFILE))
        else (Assign(Assign(s, r, first), w, second), MadeTwo(r, w))
    case Release(fd, ret) =>
      if fd < 0 || fd >= MAX_FD then (s, Failed(EBADF))
      else if fd < FIRST_FD then (s, Released)
      else if ScError(ret) != 0 then (s, Failed(Kernel(ScError(ret))))
      else (Fds(s.table[fd := 0], s.held - {s.table[fd]}), Released)
  }

  /** The kernel gives handles the process does not hold. */
  predicate KernelFresh(s: Fds, call: Call) {
    match call
    case Make(_, ret) => ScError(ret) == 0 ==> FreshHandle(s, ret)
    case MakePair(ret, first, second) =>
      ScError(ret) == 0 ==> FreshHandle(s, first) && FreshHandle(s, second) && first != second
    case MakePipe(ret, first, second) =>
      ScError(ret) == 0 ==> FreshHandle(s, first) && FreshHandle(s, second) && first != second
    case Release(_, _) => true
  }

  lemma AssignKeepsBalance(s: Fds, fd: int, handle: int)
    requires Balanced(s) && FIRST_FD <= fd < MAX_FD && s.table[fd] == 0 && FreshHandle(s, handle)
    ensures Balanced(Assign(s, fd, handle))
  {
    var after := Assign(s, fd, handle);
    forall h | h in after.held
      ensures exists k :: FIRST_FD <= k < MAX_FD && after.table[k] == h
    {
      if h == handle {
        assert after.table[fd] == h;
      } else {
        var k :| FIRST_FD <= k < MAX_FD && s.table[k] == h;
        assert after.table[k] == h;
      }
    }
  }

  lemma ReleaseKeepsBalance(s: Fds, fd: int)
    requires Balanced(s) && FIRST_FD <= fd < MAX_FD
    ensures Balanced(Fds(s.table[fd := 0], s.held - {s.table[fd]}))
  {
    var after := Fds(s.table[fd := 0], s.held - {s.table[fd]});
    forall h | h in after.held
      ensures exists k :: FIRST_FD <= k < MAX_FD && after.table[k] == h
    {
      var k :| FIRST_FD <= k < MAX_FD && s.table[k] == h;
      assert after.table[k] == h;
    }
  }

  /** Two free descriptors past the standard streams. */
  ghost predicate RoomForTwo(s: Fds)
    requires Sized(s)
  {
    exists a, b :: FIRST_FD <= a < b < MAX_FD && s.table[a] == 0 && s.table[b] == 0
  }

  /** Which calls keep the balance: all that succeed, all that fail, but an F_DUPFD that lands on a
      standard stream and a pipe that finds less than two free descriptors. */
  ghost predicate KeepsBalance(s: Fds, call: Call)
    requires Sized(s)
  {
    match call
    case Make(min, ret) => ScError(ret) != 0 || LowestFree(s.table, min) < 0 || LowestFree(s.table, min) >= FIRST_FD
    case MakePair(_, _, _) => true
    case MakePipe(ret, _, _) => ScError(ret) != 0 || RoomForTwo(s)
    case Release(_, _) => true
  }

  lemma PairFits(s: Fds, first: int)
    requires Sized(s) && first != 0
    ensures RoomForTwo(s) <==>
              LowestFree(s.table, FIRST_FD) >= 0 &&
              LowestFree(s.table[LowestFree(s.table, FIRST_FD) := first], FIRST_FD) >= 0
  {
    var a := LowestFree(s.table, FIRST_FD);
    if a >= 0 {
      var rest := s.table[a := first];
      if RoomForTwo(s) {
        var x, y :| FIRST_FD <= x < y < MAX_FD && s.table[x] == 0 && s.table[y] == 0;
        assert rest[y] == 0;
      }
      var b := LowestFree(rest, FIRST_FD);
      if b >= 0 {
        assert s.table[b] == 0 && b != a && a < b;
      }
    }
  }

  /** A call keeps every held handle at exactly one descriptor, exactly when it is not one of the two that
      lose a handle. */
  lemma StepBalanceExactly(s: Fds, call: Call)
    requires Balanced(s) && KernelFresh(s, call)
    ensures Balanced(Step(s, call).0) <==> KeepsBalance(s, call)
  {
    match call {
      case Make(min, ret) =>
        MakeBalance(s, min, ret);
      case MakePair(ret, first, second) =>
        if ScError(ret) == 0 {
          PairBalance(s, first, second);
        }
      case MakePipe(ret, first, second) =>
        if ScError(ret) == 0 {
          PairFits(s, first);
          PairBalance(s, first, second);
          LostHandle(s, Step(s, call).0, second);
        }
      case Release(fd, ret) =>
        if FIRST_FD <= fd < MAX_FD {
          ReleaseKeepsBalance(s, fd);
        }
    }
  }

  /** A handle with no descriptor unbalances. */
  lemma LostHandle(s: Fds, after: Fds, handle: int)
    requires Balanced(s) && FreshHandle(s, handle)
    ensures after.table == s.table && handle in after.held ==> !Balanced(after)
  {
  }

  lemma MakeBalance(s: Fds, min: int, ret: int)
    requires Balanced(s) && KernelFresh(s, Make(min, ret))
    ensures Balanced(Step(s, Make(min, ret)).0) <==> KeepsBalance(s, Make(min, ret))
  {
    var fd := LowestFree(s.table, min);
    if ScError(ret) == 0 && fd >= FIRST_FD {
      AssignKeepsBalance(s, fd, ret);
    } else if ScError(ret) == 0 && fd >= 0 {
      var after := Assign(s, fd, ret);
      assert ret in after.held && forall k :: FIRST_FD <= k < MAX_FD ==> after.table[k] == s.table[k];
    }
  }

  lemma PairBalance(s: Fds, first: int, second: int)
    requires Balanced(s) && FreshHandle(s, first) && FreshHandle(s, second) && first != second
    ensures var a := LowestFree(s.table, FIRST_FD);
            var b := if a < 0 then -1 else LowestFree(s.table[a := first], FIRST_FD);
            b >= 0 ==> Balanced(Assign(Assign(s, a, first), b, second))
  {
    var a := LowestFree(s.table, FIRST_FD);
    if a >= 0 {
      AssignKeepsBalance(s, a, first);
      var b := LowestFree(s.table[a := first], FIRST_FD);
      if b >= 0 {
        AssignKeepsBalance(Assign(s, a, first), b, second);
      }
    }
  }

  /** With the standard streams in place, F_DUPFD keeps the balance exactly when its minimum is not zero
      or less: descriptor 0 holds handle 0 and so looks free. */
  lemma DupFdMinimum(s: Fds, min: int, ret: int)
    requires Balanced(s) && KernelFresh(s, Make(min, ret)) && ScError(ret) == 0
    requires s.table[0] == 0 && s.table[1] != 0 && s.table[2] != 0
    ensures Balanced(Step(s, Make(min, ret)).0) <==> min >= 1
    ensures min <= 0 ==> Step(s, Make(min, ret)).1 == Made(0)
  {
    MakeBalance(s, min, ret);
  }

  /** A failed call leaves the table as it was; one refused for want of a descriptor, other than a pipe,
      leaves the handles too. */
  lemma FailureChangesNothing(s: Fds, call: Call)
    requires Sized(s) && Step(s, call).1.Failed?
    ensures Step(s, call).0.table == s.table
    ensures !call.MakePipe? ==> Step(s, call).0 == s
  {
  }

  // ---- what the outcomes mean ----------------------------------------------------------------

  /** The handle is now at this descriptor, which was the lowest free one from the minimum on; every other
      descriptor and every other handle is as before. */
  ghost predicate Gained(before: Fds, after: Fds, fd: int, handle: int, min: int) {
    |before.table| == |after.table| == 256 && 0 <= fd < 256 && min <= fd &&
    before.table[fd] == 0 && after.table[fd] == handle && after.held == before.held + {handle} &&
    (forall k :: 0 <= k < 256 && k != fd ==> after.table[k] == before.table[k]) &&
    (forall k :: 0 <= k < fd && min <= k ==> before.table[k] != 0)
  }

  /** The same for two handles, in this order, in the two lowest descriptors from 3 on. */
  ghost predicate GainedTwo(before: Fds, after: Fds, a: int, first: int, b: int, second: int) {
    |before.table| == |after.table| == 256 && 3 <= a < b < 256 &&
    before.table[a] == 0 && before.table[b] == 0 && after.table[a] == first && after.table[b] == second &&
    after.held == before.held + {first, second} &&
    (forall k :: 0 <= k < 256 && k != a && k != b ==> after.table[k] == before.table[k]) &&
    (forall k :: 3 <= k < b && k != a ==> before.table[k] != 0)
  }

  /** The descriptor is free and its handle is closed; every other descriptor and every other handle is as
      before. */
  ghost predicate Lost(before: Fds, after: Fds, fd: int) {
    |before.table| == |after.table| == 256 && 3 <= fd < 256 && after.table[fd] == 0 &&
    (forall k :: 0 <= k < 256 && k != fd ==> after.table[k] == before.table[k]) &&
    (forall h :: h in after.held <==> h in before.held && h != before.table[fd])
  }

  /** Each outcome says what became of the table, whatever the call. */
  lemma OutcomeTells(s: Fds, call: Call)
    requires Sized(s) && KernelFresh(s, call)
    ensures var (after, outcome) := Step(s, call);
            match outcome
            case Made(fd) => call.Make? && Gained(s, after, fd, call.ret, call.min)
            case MadeTwo(a, b) =>
              (call.MakePair? && GainedTwo(s, after, a, call.first, b, call.second)) ||
              (call.MakePipe? && GainedTwo(s, after, a, call.first, b, call.second))
            case Released => call.Release? && if call.fd < 3 then after == s else Lost(s, after, call.fd)
            case Failed(_) => after.table == s.table
  {
    if (call.MakePair? || call.MakePipe?) && Step(s, call).1.MadeTwo? {
      TwoGained(s, call.first, call.second);
    }
  }

  lemma TwoGained(s: Fds, first: int, second: int)
    requires Sized(s) && first != 0 && LowestFree(s.table, FIRST_FD) >= 0
    requires LowestFree(s.table[LowestFree(s.table, FIRST_FD) := first], FIRST_FD) >= 0
    ensures var a := LowestFree(s.table, FIRST_FD); var b := LowestFree(s.table[a := first], FIRST_FD);
            GainedTwo(s, Assign(Assign(s, a, first), b, second), a, first, b, second)
  {
    var a := LowestFree(s.table, FIRST_FD);
    var rest := s.table[a := first];
    var b := LowestFree(rest, FIRST_FD);
    assert forall k :: FIRST_FD <= k < b ==> rest[k] != 0;
    assert s.held + {first} + {second} == s.held + {first, second};
  }

  /** When each error comes: the kernel's own, no free descriptor or fewer than two, a descriptor out of range. */
  lemma FailsExactly(s: Fds, call: Call)
    requires Sized(s) && KernelFresh(s, call)
    ensures var outcome := Step(s, call).1;
            match call
            case Make(min, ret) =>
              (outcome == Failed(Kernel(-ret)) <==> -4096 < ret < 0) &&
              (outcome == Failed(EMFILE) <==>
                 !(-4096 < ret < 0) && forall k :: 0 <= k < 256 && min <= k ==> s.table[k] != 0) &&
              (outcome.Failed? ==> outcome.errno == EMFILE || outcome.errno == Kernel(-ret))
            case Release(fd, ret) =>
              (outcome == Failed(EBADF) <==> !(0 <= fd < 256)) &&
              (outcome == Failed(Kernel(-ret)) <==> 3 <= fd < 256 && -4096 < ret < 0) &&
              (outcome.Failed? ==> outcome.errno == EBADF || outcome.errno == Kernel(-ret))
            case _ =>
              (outcome == Failed(Kernel(-call.ret)) <==> -4096 < call.ret < 0) &&
              (outcome == Failed(EMFILE) <==>
                 !(-4096 < call.ret < 0) &&
                 !exists a, b :: 3 <= a < b < 256 && s.table[a] == 0 && s.table[b] == 0) &&
              (outcome.Failed? ==> outcome.errno == EMFILE || outcome.errno == Kernel(-call.ret))
  {
    if (call.MakePair? || call.MakePipe?) && ScError(call.ret) == 0 {
      PairFits(s, call.first);
    }
  }

  /** Closing a descriptor past the standard streams, if the kernel agrees: its handle is no longer held, and
      the table is as balanced as before. */
  lemma ClosedIsFree(s: Fds, fd: int, ret: int)
    requires Balanced(s) && 3 <= fd < 256 && ScError(ret) == 0
    ensures var (after, outcome) := Step(s, Release(fd, ret));
            outcome == Released && Balanced(after) && Lost(s, after, fd) && s.table[fd] !in after.held &&
            forall k :: 3 <= k < 256 && k != fd && s.table[k] != 0 ==> after.table[k] in after.held
  {
    StepBalanceExactly(s, Release(fd, ret));
  }

  /** Closing what an allocation just made gives the state before it back. */
  lemma CloseUndoesMake(s: Fds, min: int, ret: int, closed: int)
    requires Balanced(s) && KernelFresh(s, Make(min, ret)) && ScError(ret) == 0 && ScError(closed) == 0
    requires min >= 3 && Step(s, Make(min, ret)).1.Made?
    ensures var (after, made) := Step(s, Make(min, ret)); Step(after, Release(made.fd, closed)) == (s, Released)
  {
    var fd := LowestFree(s.table, min);
    assert s.table[fd := ret][fd := 0] == s.table;
    assert s.held + {ret} - {ret} == s.held;
  }

  /** The same for both ends of a socket pair or a pipe, closed in either order. */
  lemma CloseUndoesPair(s: Fds, call: Call, closed: int, readFirst: bool)
    requires Balanced(s) && KernelFresh(s, call) && (call.MakePair? || call.MakePipe?) && ScError(closed) == 0
    requires Step(s, call).1.MadeTwo?
    ensures var (both, made) := Step(s, call);
            var (one, other) := if readFirst then (made.first, made.second) else (made.second, made.first);
            Step(Step(both, Release(one, closed)).0, Release(other, closed)) == (s, Released)
  {
    OutcomeTells(s, call);
    var (both, made) := Step(s, call);
    var (one, other) := if readFirst then (made.first, made.second) else (made.second, made.first);
    var after := Step(Step(both, Release(one, closed)).0, Release(other, closed)).0;
    forall k | 0 <= k < 256 ensures after.table[k] == s.table[k] {
    }
    assert after.table == s.table && after.held == s.held;
  }

  /** After a close the next allocation from there down gets that descriptor or a lower one. */
  lemma ClosedIsReused(s: Fds, fd: int, ret: int, min: int, handle: int)
    requires Sized(s) && 3 <= fd < 256 && ScError(ret) == 0 && min <= fd
    requires var after := Step(s, Release(fd, ret)).0; KernelFresh(after, Make(min, handle)) && ScError(handle) == 0
    ensures var made := Step(Step(s, Release(fd, ret)).0, Make(min, handle)).1; made.Made? && made.fd <= fd
  {
    assert Step(s, Release(fd, ret)).0.table[fd] == 0;
  }

  function Run(s: Fds, calls: seq<Call>): (r: Fds)
    requires |s.table| == MAX_FD
    ensures |r.table| == MAX_FD
    decreases |calls|
  {
    if calls == [] then s else Step(Run(s, calls[..|calls| - 1]), calls[|calls| - 1]).0
  }

  ghost predicate GoodRun(s: Fds, calls: seq<Call>)
    requires Sized(s)
    decreases |calls|
  {
    calls == [] ||
    var init, last := calls[..|calls| - 1], calls[|calls| - 1];
    GoodRun(s, init) && KernelFresh(Run(s, init), last) &&
    (last.Make? ==> last.min >= FIRST_FD) && (last.MakePipe? && ScError(last.ret) == 0 ==> RoomForTwo(Run(s, init)))
  }

  /** Over every run, handles and descriptors stay balanced. */
  lemma {:induction false} RunsStayBalanced(s: Fds, calls: seq<Call>)
    requires Balanced(s) && GoodRun(s, calls)
    ensures Balanced(Run(s, calls))
    decreases |calls|
  {
    if calls != [] {
      var init, last := calls[..|calls| - 1], calls[|calls| - 1];
      RunsStayBalanced(s, init);
      StepBalanceExactly(Run(s, init), last);
    }
  }

  // ---- the table in place --------------------------------------------------------------------

  class DescriptorTable {
    const table: array<int>
    /** The kernel handles this process holds, beyond the standard streams. */
    ghost var held: set<int>

    constructor ()
      ensures Valid() && fresh(table)
      ensures State() == Fds(seq(MAX_FD, fd => if fd < FIRST_FD then fd else 0), {}) && Balanced(State())
    {
      table := new int[MAX_FD](fd => if fd < FIRST_FD then fd else 0);
      held := {};
      new;
      assert table[..] == seq(MAX_FD, fd => if fd < FIRST_FD then fd else 0);
    }

    ghost predicate Valid() {
      table.Length == MAX_FD
    }

    ghost function State(): Fds
      reads this, table
    {
      Fds(table[..], held)
    }

    method RegisterFdMin(handle: int, min: int) returns (fd: int)
      requires Valid()
      modifies table
      ensures fd == LowestFree(old(table[..]), min)
      ensures table[..] == if fd < 0 then old(table[..]) else old(table[..])[fd := handle]
    {
      var at := if min < 0 then 0 else min;
      while at < MAX_FD
        invariant 0 <= at && LowestFree(table[..], min) == LowestFree(table[..], at)
        invariant table[..] == old(table[..])
        decreases MAX_FD - at
      {
        if table[at] == 0 {
          table[at] := handle;
          return at;
        }
        at := at + 1;
      }
      return -1;
    }

    /** A handle the kernel gave gets a descriptor, or is closed again (Open, Openat, Dup, Socket, Accept
        with the minimum 3; F_DUPFD with the caller's). */
    method Adopt(ret: int, min: int) returns (r: Result<int, Errno>)
      requires Valid() && KernelFresh(State(), Make(min, ret))
      modifies this`held, table
      ensures (State(), match r case Ok(fd) => Made(fd) case Err(e) => Failed(e)) == Step(old(State()), Make(min, ret))
      ensures r.Ok? ==> Gained(old(State()), State(), r.value, ret, min)
    {
      if ScError(ret) != 0 {
        return Err(Kernel(ScError(ret)));
      }
      held := held + {ret};
      var fd := RegisterFdMin(ret, min);
      if fd < 0 {
        held := held - {ret};
        return Err(EMFILE);
      }
      return Ok(fd);
    }

    /** Dup, Accept and F_DUPFD start from an open descriptor of the caller's. */
    method AdoptFrom(fd: int, ret: int, min: int) returns (r: Result<int, Errno>)
      requires Valid() && KernelFresh(State(), Make(min, ret))
      modifies this`held, table
      ensures fd < 0 || fd >= MAX_FD || old(table[fd]) < 0 ==> r == Err(EBADF) && State() == old(State())
      ensures !(fd < 0 || fd >= MAX_FD || old(table[fd]) < 0) ==>
                (State(), match r case Ok(fd) => Made(fd) case Err(e) => Failed(e)) == Step(old(State()),
                  Make(min, ret))
      ensures r.Ok? ==> Gained(old(State()), State(), r.value, ret, min)
    {
      if fd < 0 || fd >= MAX_FD || table[fd] < 0 {
        return Err(EBADF);
      }
      r := Adopt(ret, min);
    }

    method Socketpair(ret: int, first: int, second: int) returns (r: Result<(int, int), Errno>)
      requires Valid() && KernelFresh(State(), MakePair(ret, first, second))
      modifies this`held, table
      ensures (State(), match r case Ok(pair) => MadeTwo(pair.0, pair.1) case Err(e) => Failed(e))
              == Step(old(State()), MakePair(ret, first, second))
      ensures r.Ok? ==> GainedTwo(old(State()), State(), r.value.0, first, r.value.1, second)
    {
      OutcomeTells(State(), MakePair(ret, first, second));
      if ScError(ret) != 0 {
        return Err(Kernel(ScError(ret)));
      }
      held := held + {first, second};
      ghost var was := table[..];
      var a := RegisterFdMin(first, FIRST_FD);
      var b := -1;
      if a >= 0 {
        b := RegisterFdMin(second, FIRST_FD);
      }
      if a < 0 || b < 0 {
        if a >= 0 {
          table[a] := 0;
          assert table[..] == was[a := first][a := 0] == was;
        }
        held := held - {first, second};
        return Err(EMFILE);
      }
      assert old(held) + {first, second} == old(held) + {first} + {second};
      return Ok((a, b));
    }

    method Pipe(ret: int, first: int, second: int) returns (r: Result<(int, int), Errno>)
      requires Valid() && KernelFresh(State(), MakePipe(ret, first, second))
      modifies this`held, table
      ensures (State(), match r case Ok(pair) => MadeTwo(pair.0, pair.1) case Err(e) => Failed(e))
              == Step(old(State()), MakePipe(ret, first, second))
      ensures r.Ok? ==> GainedTwo(old(State()), State(), r.value.0, first, r.value.1, second)
    {
      OutcomeTells(State(), MakePipe(ret, first, second));
      if ScError(ret) != 0 {
        return Err(Kernel(ScError(ret)));
      }
      held := held + {first, second};
      ghost var was := table[..];
      var read := RegisterFdMin(first, FIRST_FD);
      var write := RegisterFdMin(second, FIRST_FD);
      if read < 0 || write < 0 {
        if read >= 0 {
          held := held - {first};
          table[read] := 0;
          assert table[..] == was[read := first][read := 0] == was;
          assert held == old(held) + {second};
        }
        // The second descriptor is never the only one found, so its clean-up has nothing to do.
        assert write < 0;
        return Err(EMFILE);
      }
      assert old(held) + {first, second} == old(held) + {first} + {second};
      return Ok((read, write));
    }

    /** `ret` is the kernel's answer to closing the handle. */
    method Close(fd: int, ret: int) returns (r: Option<Errno>)
      requires Valid()
      modifies this`held, table
      ensures (State(), match r case None => Released case Some(e) => Failed(e)) == Step(old(State()), Release(fd, ret))
      ensures r == None && fd >= 3 ==> Lost(old(State()), State(), fd)
      ensures fd < 3 || r != None ==> State() == old(State())
      ensures r == if fd < 0 || fd >= 256 then Some(EBADF) else if fd >= 3 && -4096 < ret < 0 then Some(Kernel(-ret))
              else None
    {
      if fd < 0 || fd >= MAX_FD {
        return Some(EBADF);
      }
      if fd < FIRST_FD {
        return None;
      }
      if ScError(ret) != 0 {
        return Some(Kernel(ScError(ret)));
      }
      held := held - {table[fd]};
      table[fd] := 0;
      return None;
    }
  }
}
