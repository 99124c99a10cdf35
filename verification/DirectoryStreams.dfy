/** The open directories of a process (outside/mlibc-sysdeps/instantos/sysdeps.cpp): a table of streams, each
    opened by path under a handle of its own or found by the descriptor it belongs to. */
module DirectoryStreams {
  import opened Bytes
  import opened Directories
  import opened FdTable
  import opened Sequences
  import opened Wrappers

  const MAX_DIRS := 32
  const HANDLE_BASE := 0x4000_0000
  const PATH_SIZE := 256

  datatype Stream = Stream(inUse: bool, loaded: bool, fromFd: bool, owner: int, cursor: nat, path: string,
                           entries: seq<DirEntry>)

  const UNUSED := Stream(false, false, false, 0, 0, "", [])

  // ---- the table as a value ------------------------------------------------------------------

  ghost predicate Formed(streams: seq<Stream>) {
    |streams| == MAX_DIRS &&
    forall i :: 0 <= i < MAX_DIRS ==> streams[i].cursor <= |streams[i].entries| && GoodEntries(streams[i].entries)
  }

  /** The first stream not in use, or -1. */
  function FirstUnused(streams: seq<Stream>, from: nat): (at: int)
    requires from <= |streams|
    ensures -1 <= at < |streams| && (at >= 0 ==> at >= from && !streams[at].inUse)
    ensures forall i :: from <= i < (if at < 0 then |streams| else at) ==> streams[i].inUse
    decreases |streams| - from
  {
    if from == |streams| then -1 else if !streams[from].inUse then from else FirstUnused(streams, from + 1)
  }

  predicate Owns(s: Stream, fd: int) { s.inUse && s.fromFd && s.owner == fd }

  /** The first stream that belongs to the descriptor, or -1. */
  function OwnedBy(streams: seq<Stream>, fd: int, from: nat): (at: int)
    requires from <= |streams|
    ensures -1 <= at < |streams| && (at >= 0 ==> at >= from && Owns(streams[at], fd))
    ensures forall i :: from <= i < (if at < 0 then |streams| else at) ==> !Owns(streams[i], fd)
    decreases |streams| - from
  {
    if from == |streams| then -1 else if Owns(streams[from], fd) then from else OwnedBy(streams, fd, from + 1)
  }

  /** A stream just opened. */
  function Opened(path: string): Stream {
    Stream(true, false, false, 0, 0, if |path| < PATH_SIZE then path else path[..PATH_SIZE - 1], [])
  }

  /** The kernel's answers to a read: the descriptor's path, and the directory's listing. */
  datatype Answer = Answer(pathRet: int, path: string, ret: int, listing: seq<DirEntry>)

  /** The slot a handle names, or -1. */
  function SlotOf(streams: seq<Stream>, handle: int): (slot: int)
    requires |streams| == MAX_DIRS
    ensures -1 <= slot < MAX_DIRS && (slot >= 0 ==> streams[slot].inUse)
  {
    if handle >= HANDLE_BASE then
      if handle - HANDLE_BASE < MAX_DIRS && streams[handle - HANDLE_BASE].inUse then handle - HANDLE_BASE else -1
    else OwnedBy(streams, handle, 0)
  }

  /** The table and the slot to read from: a descriptor without a stream gets one. */
  function Located(streams: seq<Stream>, handle: int, kernelHandle: int, a: Answer): Result<(seq<Stream>, nat), Errno>
    requires |streams| == MAX_DIRS
  {
    var slot := SlotOf(streams, handle);
    if slot >= 0 then Ok((streams, slot))
    else if handle >= HANDLE_BASE || kernelHandle < 0 then Err(EBADF)
    else if ScError(a.pathRet) != 0 then Err(Kernel(ScError(a.pathRet)))
    else if a.pathRet <= 0 || a.pathRet >= PATH_SIZE then Err(EINVAL)
    else
      var free := FirstUnused(streams, 0);
      if free < 0 then Err(EMFILE) else Ok((streams[free := Opened(a.path).(fromFd := true, owner := handle)], free))
  }

  /** The stream with its snapshot: the listing is asked for on the first read only. */
  function Filled(s: Stream, a: Answer): Result<Stream, Errno> {
    if s.loaded then Ok(s)
    else if ScError(a.ret) != 0 then Err(Kernel(ScError(a.ret)))
    else Ok(s.(entries := a.listing, cursor := 0, loaded := true))
  }

  /** What a read leaves, and what it delivers. */
  function AfterRead(streams: seq<Stream>, handle: int, kernelHandle: int, size: nat, a: Answer)
    : (r: (seq<Stream>, Result<seq<Byte>, Errno>))
    requires Formed(streams) && GoodEntries(a.listing)
    ensures Formed(r.0)
  {
    match Located(streams, handle, kernelHandle, a)
    case Err(e) => (streams, Err(e))
    case Ok((found, slot)) =>
      match Filled(found[slot], a)
      case Err(e) => (found, Err(e))
      case Ok(s) =>
        var end := Reach(s.entries, s.cursor, size);
        (found[slot := s.(cursor := end)], Ok(Records(s.entries, s.cursor, end)))
  }

  /** What closing does to the streams, before the descriptor itself is closed. */
  function AfterClose(streams: seq<Stream>, fd: int): (r: seq<Stream>)
    requires Formed(streams)
    ensures Formed(r)
  {
    var slot := SlotOf(streams, fd);
    if slot < 0 then streams
    else
      var keepsFd := fd >= HANDLE_BASE && streams[slot].fromFd;
      streams[slot := streams[slot].(inUse := false, loaded := false, fromFd := keepsFd)]
  }

  function AfterOpen(streams: seq<Stream>, path: string): (r: seq<Stream>)
    requires Formed(streams)
    ensures Formed(r)
  {
    var free := FirstUnused(streams, 0);
    if free < 0 then streams else streams[free := Opened(path)]
  }

  /** A stream opened by path is the first unused one: it keeps as much of the path as fits, has no listing yet and
      belongs to no descriptor; every other stream is as before. */
  lemma OpenTakesPath(streams: seq<Stream>, path: string, slot: nat)
    requires Formed(streams) && slot < 32 && !streams[slot].inUse && forall i :: 0 <= i < slot ==> streams[i].inUse
    ensures var after := AfterOpen(streams, path);
            after[slot].inUse && !after[slot].loaded && !after[slot].fromFd &&
            after[slot].path == (if |path| <= 255 then path else path[..255]) &&
            forall i :: 0 <= i < 32 && i != slot ==> after[i] == streams[i]
  {
  }

  datatype Op =
    | OpenDir(path: string)
    | Read(handle: int, kernelHandle: int, size: nat, answer: Answer)
    | Close(fd: int)

  ghost predicate GoodOp(op: Op) {
    op.Read? ==> GoodEntries(op.answer.listing)
  }

  ghost function After(streams: seq<Stream>, op: Op): (r: seq<Stream>)
    requires Formed(streams) && GoodOp(op)
    ensures Formed(r)
  {
    match op
    case OpenDir(path) => AfterOpen(streams, path)
    case Read(handle, kernelHandle, size, answer) => AfterRead(streams, handle, kernelHandle, size, answer).0
    case Close(fd) => AfterClose(streams, fd)
  }

  // ---- streams do not meet -------------------------------------------------------------------

  predicate HasOwner(s: Stream) { s.inUse && s.fromFd }

  /** No descriptor has two streams, and none of them is a stream's own handle. */
  ghost predicate OnePerFd(streams: seq<Stream>) {
    (forall i, j :: 0 <= i < j < |streams| && HasOwner(streams[i]) && HasOwner(streams[j]) ==>
       streams[i].owner != streams[j].owner) &&
    forall i :: 0 <= i < |streams| && HasOwner(streams[i]) ==> streams[i].owner < HANDLE_BASE
  }

  /** A descriptor gets a stream of its own only when it has none. */
  lemma LocatedKeepsOnePerFd(streams: seq<Stream>, handle: int, kernelHandle: int, a: Answer)
    requires |streams| == MAX_DIRS && OnePerFd(streams)
    requires Located(streams, handle, kernelHandle, a).Ok?
    ensures OnePerFd(Located(streams, handle, kernelHandle, a).value.0)
  {
    hide ScError, Opened;
    var (found, slot) := Located(streams, handle, kernelHandle, a).value;
    if SlotOf(streams, handle) < 0 {
      forall i | 0 <= i < MAX_DIRS && i != slot && HasOwner(found[i]) ensures found[i].owner != handle {
        assert !Owns(streams[i], handle);
      }
    }
  }

  /** Every stream has the owner it had, or none. */
  lemma FewerOwners(before: seq<Stream>, after: seq<Stream>)
    requires OnePerFd(before) && |after| == |before|
    requires forall i :: 0 <= i < |after| && HasOwner(after[i]) ==>
               HasOwner(before[i]) && after[i].owner == before[i].owner
    ensures OnePerFd(after)
  {
  }

  lemma OpKeepsOnePerFd(streams: seq<Stream>, op: Op)
    requires Formed(streams) && GoodOp(op) && OnePerFd(streams)
    ensures OnePerFd(After(streams, op))
  {
    hide OnePerFd, Reach, Records, GoodEntries, Located;
    match op
    case OpenDir(path) => FewerOwners(streams, After(streams, op));
    case Close(fd) => FewerOwners(streams, After(streams, op));
    case Read(handle, kernelHandle, size, answer) =>
      var located := Located(streams, handle, kernelHandle, answer);
      if located.Ok? {
        LocatedKeepsOnePerFd(streams, handle, kernelHandle, answer);
        LocatedCount(streams, handle, kernelHandle, answer);
        FewerOwners(located.value.0, After(streams, op));
      }
  }

  lemma LocatedCount(streams: seq<Stream>, handle: int, kernelHandle: int, a: Answer)
    requires |streams| == MAX_DIRS && Located(streams, handle, kernelHandle, a).Ok?
    ensures |Located(streams, handle, kernelHandle, a).value.0| == MAX_DIRS
  {
  }

  /** Closing leaves the descriptor, or the handle, without a stream. */
  lemma ClosedIsGone(streams: seq<Stream>, fd: int)
    requires Formed(streams) && OnePerFd(streams)
    ensures SlotOf(AfterClose(streams, fd), fd) < 0
  {
  }

  /** An operation on another handle leaves an open stream alone. */
  lemma OthersLeaveAlone(streams: seq<Stream>, op: Op, slot: nat)
    requires Formed(streams) && GoodOp(op) && slot < MAX_DIRS && streams[slot].inUse
    requires op.Read? ==> SlotOf(streams, op.handle) != slot
    requires op.Close? ==> SlotOf(streams, op.fd) != slot
    ensures After(streams, op)[slot] == streams[slot]
  {
    hide Reach, Records;
  }

  /** Reading a stream that has its snapshot delivers the next records and moves its cursor. */
  lemma ReadDelivers(streams: seq<Stream>, handle: int, kernelHandle: int, size: nat, a: Answer, slot: nat)
    requires Formed(streams) && GoodEntries(a.listing) && SlotOf(streams, handle) == slot && streams[slot].loaded
    ensures var s := streams[slot]; var end := Reach(s.entries, s.cursor, size);
            AfterRead(streams, handle, kernelHandle, size, a) ==
            (streams[slot := s.(cursor := end)], Ok(Records(s.entries, s.cursor, end)))
  {
  }

  /** The stream in this slot has taken a listing. */
  function WithListing(streams: seq<Stream>, slot: nat, listing: seq<DirEntry>): (loaded: seq<Stream>)
    requires slot < |streams|
    ensures |loaded| == |streams|
  {
    streams[slot := streams[slot].(entries := listing, cursor := 0, loaded := true)]
  }

  /** The first read is a read of the snapshot it takes. */
  lemma FirstReadLoads(streams: seq<Stream>, handle: int, kernelHandle: int, size: nat, a: Answer, slot: nat)
    requires Formed(streams) && GoodEntries(a.listing) && SlotOf(streams, handle) == slot
    requires !streams[slot].loaded && ScError(a.ret) == 0
    ensures var loaded := WithListing(streams, slot, a.listing);
            Formed(loaded) && SlotOf(loaded, handle) == slot &&
            AfterRead(streams, handle, kernelHandle, size, a) == AfterRead(loaded, handle, kernelHandle, size, a)
  {
    hide Reach, Records;
    var loaded := WithListing(streams, slot, a.listing);
    SameSlots(streams, loaded, handle);
    assert forall end :: 0 <= end <= |a.listing| ==>
             streams[slot := loaded[slot].(cursor := end)] == loaded[slot := loaded[slot].(cursor := end)];
  }

  /** Whether a handle names an open directory: its own slot, or one that belongs to the descriptor. */
  ghost predicate IsOpen(streams: seq<Stream>, handle: int)
    requires |streams| == 32
  {
    if handle >= 0x4000_0000 then handle < 0x4000_0020 && streams[handle - 0x4000_0000].inUse
    else exists i :: 0 <= i < 32 && streams[i].inUse && streams[i].fromFd && streams[i].owner == handle
  }

  /** When each error of a read comes. */
  lemma ReadFailsExactly(streams: seq<Stream>, handle: int, kernelHandle: int, size: nat, a: Answer)
    requires Formed(streams) && GoodEntries(a.listing)
    ensures var r := AfterRead(streams, handle, kernelHandle, size, a).1;
            var opens := !IsOpen(streams, handle) && handle < 0x4000_0000 && kernelHandle >= 0;
            var refused := -4096 < a.pathRet < 0;
            (r == Err(EBADF) <==> !IsOpen(streams, handle) && (handle >= 0x4000_0000 || kernelHandle < 0)) &&
            (r == Err(EINVAL) <==> opens && !refused && (a.pathRet <= 0 || a.pathRet >= 256)) &&
            (r == Err(EMFILE) <==>
               opens && 0 < a.pathRet < 256 && forall i :: 0 <= i < 32 ==> streams[i].inUse) &&
            (opens && refused ==> r == Err(Kernel(-a.pathRet))) &&
            (r.Err? && r.error.Kernel? && !(opens && refused) ==> -4096 < a.ret < 0 && r.error.code == -a.ret)
  {
    hide Reach, Records, GoodEntries;
    var slot := SlotOf(streams, handle);
    assert IsOpen(streams, handle) <==> slot >= 0 by {
      if slot >= 0 && handle < HANDLE_BASE {
        assert Owns(streams[slot], handle);
      }
      if slot < 0 && handle < HANDLE_BASE {
        assert forall i :: 0 <= i < 32 ==> !Owns(streams[i], handle);
      }
    }
  }

  lemma {:induction false} SameOwners(a: seq<Stream>, b: seq<Stream>, fd: int, from: nat)
    requires |a| == |b| && from <= |a| && forall i :: 0 <= i < |a| ==> (Owns(a[i], fd) <==> Owns(b[i], fd))
    ensures OwnedBy(a, fd, from) == OwnedBy(b, fd, from)
    decreases |a| - from
  {
    if from < |a| {
      SameOwners(a, b, fd, from + 1);
    }
  }

  lemma SameSlots(a: seq<Stream>, b: seq<Stream>, handle: int)
    requires |a| == |b| == MAX_DIRS
    requires forall i :: 0 <= i < |a| ==>
               a[i].inUse == b[i].inUse && a[i].fromFd == b[i].fromFd && a[i].owner == b[i].owner
    ensures SlotOf(a, handle) == SlotOf(b, handle)
  {
    SameOwners(a, b, handle, 0);
  }

  // ---- every run -----------------------------------------------------------------------------

  ghost function AfterAll(streams: seq<Stream>, ops: seq<Op>): (r: seq<Stream>)
    requires Formed(streams) && forall i :: 0 <= i < |ops| ==> GoodOp(ops[i])
    ensures Formed(r)
    decreases |ops|
  {
    if ops == [] then streams else After(AfterAll(streams, ops[..|ops| - 1]), ops[|ops| - 1])
  }

  /** The reads of one handle that find a snapshot: all of them if the stream has one, else those from the first
      on that the kernel gives a listing. */
  function Counted(loaded: bool, ops: seq<Op>, handle: int): (counted: seq<Op>)
    ensures forall i :: 0 <= i < |counted| ==> counted[i] in ops && counted[i].Read? && counted[i].handle == handle
    ensures !loaded && counted != [] ==> ScError(counted[0].answer.ret) == 0
  {
    if ops == [] then []
    else
      var before, last := Counted(loaded, ops[..|ops| - 1], handle), ops[|ops| - 1];
      assert forall op :: op in ops[..|ops| - 1] ==> op in ops;
      if last.Read? && last.handle == handle && (loaded || |before| > 0 || ScError(last.answer.ret) == 0)
      then before + [last] else before
  }

  function Sizes(ops: seq<Op>): (sizes: seq<nat>)
    requires forall i :: 0 <= i < |ops| ==> ops[i].Read?
    ensures |sizes| == |ops| && forall i :: 0 <= i < |ops| ==> sizes[i] == ops[i].size
  {
    seq(|ops|, i requires 0 <= i < |ops| => ops[i].size)
  }

  /** What a handle's reads are of: the snapshot its stream has, else the listing the first of them is given. */
  function Snapshot(s: Stream, counted: seq<Op>): seq<DirEntry>
    requires forall i :: 0 <= i < |counted| ==> counted[i].Read?
  {
    if s.loaded || counted == [] then s.entries else counted[0].answer.listing
  }

  /** What one operation delivers to a handle's reader. */
  ghost function Gives(streams: seq<Stream>, op: Op, handle: int): seq<Byte>
    requires Formed(streams) && GoodOp(op)
  {
    if !(op.Read? && op.handle == handle) then []
    else
      match AfterRead(streams, handle, op.kernelHandle, op.size, op.answer).1
      case Ok(bytes) => bytes
      case Err(_) => []
  }

  /** All that the reads of one handle delivered. */
  ghost function Delivered(streams: seq<Stream>, ops: seq<Op>, handle: int): seq<Byte>
    requires Formed(streams) && forall i :: 0 <= i < |ops| ==> GoodOp(ops[i])
    decreases |ops|
  {
    if ops == [] then []
    else
      var init, last := ops[..|ops| - 1], ops[|ops| - 1];
      Delivered(streams, init, handle) + Gives(AfterAll(streams, init), last, handle)
  }

  /** The stream is the handle's, and nobody else's. */
  ghost predicate Belongs(streams: seq<Stream>, handle: int, slot: nat) {
    |streams| == MAX_DIRS && OnePerFd(streams) && slot < MAX_DIRS && streams[slot].inUse &&
    (streams[slot].loaded || streams[slot].cursor == 0) &&
    if handle >= HANDLE_BASE then handle == slot + HANDLE_BASE && !streams[slot].fromFd else Owns(streams[slot], handle)
  }

  /** The operation neither closes the handle nor, if it is a descriptor, names its slot as a handle. */
  predicate Leaves(op: Op, handle: int, slot: nat) {
    match op
    case OpenDir(_) => true
    case Read(other, _, _, _) => handle >= HANDLE_BASE || other != slot + HANDLE_BASE
    case Close(other) => other != handle && (handle >= HANDLE_BASE || other != slot + HANDLE_BASE)
  }

  lemma HandleNamesSlot(streams: seq<Stream>, handle: int, slot: nat)
    requires Belongs(streams, handle, slot)
    ensures SlotOf(streams, handle) == slot
    ensures forall other :: other != handle && (handle >= HANDLE_BASE || other != slot + HANDLE_BASE) ==>
              SlotOf(streams, other) != slot
  {
  }

  /** One operation as the reader of one handle sees it: a read of its own goes on in the snapshot, which the
      first one takes, and delivers what it passes; nothing else matters. */
  lemma StepDelivers(streams: seq<Stream>, op: Op, handle: int, slot: nat)
    requires Formed(streams) && GoodOp(op) && Belongs(streams, handle, slot) && Leaves(op, handle, slot)
    ensures Belongs(After(streams, op), handle, slot)
    ensures var s, after := streams[slot], After(streams, op)[slot];
            if op.Read? && op.handle == handle && (s.loaded || ScError(op.answer.ret) == 0) then
              var es := if s.loaded then s.entries else op.answer.listing;
              s.cursor <= |es| && after.loaded && after.entries == es &&
              after.cursor == Reach(es, s.cursor, op.size) &&
              Gives(streams, op, handle) == Records(es, s.cursor, after.cursor)
            else after == s && Gives(streams, op, handle) == []
  {
    hide OnePerFd, Formed, Reach, SlotOf, Records;
    OpKeepsOnePerFd(streams, op);
    HandleNamesSlot(streams, handle, slot);
    if op.Read? && op.handle == handle {
      if streams[slot].loaded {
        ReadDelivers(streams, handle, op.kernelHandle, op.size, op.answer, slot);
      } else if ScError(op.answer.ret) == 0 {
        FirstReadLoads(streams, handle, op.kernelHandle, op.size, op.answer, slot);
        ReadDelivers(WithListing(streams, slot, op.answer.listing), handle, op.kernelHandle, op.size, op.answer, slot);
      }
    } else {
      OthersLeaveAlone(streams, op, slot);
    }
  }

  /** Over every run in which other handles are opened, read and closed at will, the reads of one handle
      deliver its snapshot just as if they were alone. */
  lemma {:induction false} RunDelivers(streams: seq<Stream>, ops: seq<Op>, handle: int, slot: nat)
    requires Formed(streams) && Belongs(streams, handle, slot)
    requires forall i :: 0 <= i < |ops| ==> GoodOp(ops[i]) && Leaves(ops[i], handle, slot)
    ensures Belongs(AfterAll(streams, ops), handle, slot)
    ensures var s, after, counted := streams[slot], AfterAll(streams, ops)[slot],
              Counted(streams[slot].loaded, ops, handle);
            after.entries == Snapshot(s, counted) && (after.loaded <==> s.loaded || counted != []) &&
            s.cursor <= |after.entries| &&
            Calls(after.entries, s.cursor, Sizes(counted)) == (after.cursor, Delivered(streams, ops, handle))
    decreases |ops|
  {
    var s := streams[slot];
    hide After, GoodOp, Leaves, Gives, Reach, Records, Belongs, Formed, Calls, Sizes;
    CallsOfNone(s.entries, s.cursor);
    if ops != [] {
      var init, last := ops[..|ops| - 1], ops[|ops| - 1];
      RunDelivers(streams, init, handle, slot);
      var before := AfterAll(streams, init);
      StepDelivers(before, last, handle, slot);
      var counted, es := Counted(s.loaded, init, handle), Snapshot(s, Counted(s.loaded, ops, handle));
      if s.cursor <= |es| {
        CallsOfNone(es, s.cursor);
        CallsNext(es, s.cursor, counted, last);
      }
      AppendNothing(Delivered(streams, init, handle));
    }
  }

  lemma CallsOfNone(es: seq<DirEntry>, cursor: nat)
    requires cursor <= |es|
    ensures Calls(es, cursor, Sizes([])) == (cursor, [])
  {
  }

  /** One more read. */
  lemma CallsNext(es: seq<DirEntry>, cursor: nat, ops: seq<Op>, last: Op)
    requires cursor <= |es| && forall i :: 0 <= i < |ops| ==> ops[i].Read?
    ensures last.Read? ==>
              var (at, bytes) := Calls(es, cursor, Sizes(ops)); var end := Reach(es, at, last.size);
              Calls(es, cursor, Sizes(ops + [last])) == (end, bytes + Records(es, at, end))
  {
    if last.Read? {
      assert Sizes(ops + [last])[..|ops|] == Sizes(ops);
    }
  }

  /** What a reader was given, walked, is the entries of the snapshot up to where its stream is, each once and in
      order; and enough reads with large enough buffers got to the end. */
  ghost predicate Served(es: seq<DirEntry>, ops: seq<Op>, bytes: seq<Byte>, at: nat)
    requires forall i :: 0 <= i < |ops| ==> ops[i].Read?
  {
    at <= |es| && Walk(bytes) == Some(Items(es, 0, at)) &&
    ((forall i :: 0 <= i < |ops| ==> ops[i].size >= ENOUGH) && |ops| >= |es| ==> at == |es|)
  }

  lemma RunDeliversSnapshot(streams: seq<Stream>, ops: seq<Op>, handle: int, slot: nat)
    requires Formed(streams) && Belongs(streams, handle, slot) && streams[slot].cursor == 0
    requires forall i :: 0 <= i < |ops| ==> GoodOp(ops[i]) && Leaves(ops[i], handle, slot)
    ensures var counted := Counted(streams[slot].loaded, ops, handle);
            Served(Snapshot(streams[slot], counted), counted, Delivered(streams, ops, handle),
              AfterAll(streams, ops)[slot].cursor)
  {
    var after, counted := AfterAll(streams, ops)[slot], Counted(streams[slot].loaded, ops, handle);
    RunDelivers(streams, ops, handle, slot);
    CallsDeliverSnapshot(after.entries, Sizes(counted));
  }

  /** Of an opened directory, in any run until its handle is closed: the reads give the listing that the first
      successful one takes. */
  lemma OpenedDelivers(streams: seq<Stream>, path: string, ops: seq<Op>)
    requires Formed(streams) && OnePerFd(streams) && FirstUnused(streams, 0) >= 0
    requires var slot := FirstUnused(streams, 0);
             forall i :: 0 <= i < |ops| ==> GoodOp(ops[i]) && Leaves(ops[i], slot + HANDLE_BASE, slot)
    ensures var slot, grown := FirstUnused(streams, 0), AfterOpen(streams, path);
            var counted := Counted(false, ops, slot + HANDLE_BASE);
            Served(if counted == [] then [] else counted[0].answer.listing, counted,
              Delivered(grown, ops, slot + HANDLE_BASE), AfterAll(grown, ops)[slot].cursor)
  {
    hide OnePerFd, Formed, Served, Belongs, AfterOpen, FirstUnused, AfterAll, Delivered, Counted, Leaves, GoodOp;
    var slot := FirstUnused(streams, 0);
    OpenGives(streams, path);
    RunDeliversSnapshot(AfterOpen(streams, path), ops, slot + HANDLE_BASE, slot);
  }

  /** Opening gives a handle a stream of its own, with nothing read yet. */
  lemma OpenGives(streams: seq<Stream>, path: string)
    requires Formed(streams) && OnePerFd(streams) && FirstUnused(streams, 0) >= 0
    ensures var slot, s := FirstUnused(streams, 0), AfterOpen(streams, path)[FirstUnused(streams, 0)];
            Belongs(AfterOpen(streams, path), slot + HANDLE_BASE, slot) &&
            !s.loaded && s.cursor == 0 && s.entries == []
  {
    FewerOwners(streams, AfterOpen(streams, path));
  }

  /** The same of a descriptor, from its first read on: that read opens the stream, and may be the one that
      takes the listing. */
  lemma DescriptorDelivers(streams: seq<Stream>, ops: seq<Op>, slot: nat)
    requires Formed(streams) && OnePerFd(streams) && ops != [] && ops[0].Read? && SlotOf(streams, ops[0].handle) < 0
    requires var located := Located(streams, ops[0].handle, ops[0].kernelHandle, ops[0].answer);
             located.Ok? && located.value.1 == slot
    requires forall i :: 0 <= i < |ops| ==> GoodOp(ops[i]) && Leaves(ops[i], ops[0].handle, slot)
    ensures var handle := ops[0].handle; var counted := Counted(false, ops, handle);
            Served(if counted == [] then [] else counted[0].answer.listing, counted,
              Delivered(streams, ops, handle), AfterAll(streams, ops)[slot].cursor)
  {
    var first := ops[0];
    var found := Located(streams, first.handle, first.kernelHandle, first.answer).value.0;
    FirstReadOpens(streams, first);
    LocatedKeepsOnePerFd(streams, first.handle, first.kernelHandle, first.answer);
    hide OnePerFd, Formed, Served, After, Gives, GoodOp, Leaves;
    SameFromFirst(streams, found, ops, first.handle);
    RunDeliversSnapshot(found, ops, first.handle, slot);
  }

  /** The first read of a descriptor is a read of the stream it opens. */
  lemma FirstReadOpens(streams: seq<Stream>, op: Op)
    requires Formed(streams) && GoodOp(op) && op.Read? && SlotOf(streams, op.handle) < 0
    requires Located(streams, op.handle, op.kernelHandle, op.answer).Ok?
    ensures var (found, slot) := Located(streams, op.handle, op.kernelHandle, op.answer).value;
            Formed(found) && SlotOf(found, op.handle) == slot && op.handle < HANDLE_BASE &&
            Owns(found[slot], op.handle) && !found[slot].loaded && found[slot].cursor == 0 &&
            found[slot].entries == [] && After(found, op) == After(streams, op) &&
            Gives(found, op, op.handle) == Gives(streams, op, op.handle)
  {
    hide Reach, Records;
    var (found, slot) := Located(streams, op.handle, op.kernelHandle, op.answer).value;
    assert Owns(found[slot], op.handle);
    forall i | 0 <= i < MAX_DIRS && i != slot ensures !Owns(found[i], op.handle) {
      assert !Owns(streams[i], op.handle);
    }
    assert SlotOf(found, op.handle) == slot;
    assert Located(found, op.handle, op.kernelHandle, op.answer) == Ok((found, slot));
  }

  lemma {:induction false} SameFromFirst(a: seq<Stream>, b: seq<Stream>, ops: seq<Op>, handle: int)
    requires Formed(a) && Formed(b) && ops != [] && forall i :: 0 <= i < |ops| ==> GoodOp(ops[i])
    requires After(a, ops[0]) == After(b, ops[0]) && Gives(a, ops[0], handle) == Gives(b, ops[0], handle)
    ensures AfterAll(a, ops) == AfterAll(b, ops) && Delivered(a, ops, handle) == Delivered(b, ops, handle)
    decreases |ops|
  {
    hide After, Gives, GoodOp, Formed;
    if |ops| > 1 {
      SameFromFirst(a, b, ops[..|ops| - 1], handle);
    } else {
      assert ops[..0] == [];
    }
  }

  // ---- the table in place --------------------------------------------------------------------

  class DirTable {
    const fds: DescriptorTable
    const streams: array<Stream>

    constructor (fds: DescriptorTable)
      requires fds.Valid()
      ensures this.fds == fds && Valid() && fresh(streams) && forall i :: 0 <= i < MAX_DIRS ==> streams[i] == UNUSED
    {
      this.fds := fds;
      streams := new Stream[MAX_DIRS](_ => UNUSED);
    }

    ghost predicate Valid()
      reads streams
    {
      fds.Valid() && streams.Length == MAX_DIRS && Formed(streams[..])
    }

    /** The handle behind a descriptor, negative for none. */
    function HandleForFd(fd: int): int
      requires fds.Valid()
      reads fds.table
    {
      if fd < 0 || fd >= MAX_FD then -1 else fds.table[fd]
    }

    method FindDirStreamByFd(fd: int) returns (slot: int)
      requires Valid()
      ensures slot == OwnedBy(streams[..], fd, 0)
    {
      for i := 0 to MAX_DIRS
        invariant OwnedBy(streams[..], fd, 0) == OwnedBy(streams[..], fd, i)
      {
        if streams[i].inUse && streams[i].fromFd && streams[i].owner == fd {
          return i;
        }
      }
      return -1;
    }

    method AllocDirStream(path: string) returns (slot: int)
      requires Valid()
      modifies streams
      ensures Valid() && slot == FirstUnused(old(streams[..]), 0)
      ensures streams[..] == AfterOpen(old(streams[..]), path)
    {
      for i := 0 to MAX_DIRS
        invariant FirstUnused(streams[..], 0) == FirstUnused(streams[..], i) && streams[..] == old(streams[..])
      {
        if !streams[i].inUse {
          streams[i] := Opened(path);
          assert streams[..] == old(streams[..])[i := Opened(path)];
          return i;
        }
      }
      return -1;
    }

    method OpenDir(path: string) returns (r: Result<int, Errno>)
      requires Valid()
      modifies streams
      ensures Valid() && streams[..] == AfterOpen(old(streams[..]), path)
      ensures var slot := FirstUnused(old(streams[..]), 0); r == if slot < 0 then Err(EMFILE)
              else Ok(slot + HANDLE_BASE)
    {
      var slot := AllocDirStream(path);
      if slot < 0 {
        return Err(EMFILE);
      }
      return Ok(slot + HANDLE_BASE);
    }

    /** The slot to read from. */
    method Locate(handle: int, a: Answer) returns (r: Result<int, Errno>)
      requires Valid()
      modifies streams
      ensures Valid()
      ensures match Located(old(streams[..]), handle, old(HandleForFd(handle)), a)
              case Err(e) => r == Err(e) && streams[..] == old(streams[..])
              case Ok((found, slot)) => r == Ok(slot) && streams[..] == found
    {
      if handle >= HANDLE_BASE {
        var slot := handle - HANDLE_BASE;
        if slot < 0 || slot >= MAX_DIRS || !streams[slot].inUse {
          return Err(EBADF);
        }
        return Ok(slot);
      }
      var slot := FindDirStreamByFd(handle);
      if slot < 0 {
        if HandleForFd(handle) < 0 {
          return Err(EBADF);
        }
        if ScError(a.pathRet) != 0 {
          return Err(Kernel(ScError(a.pathRet)));
        }
        if a.pathRet <= 0 || a.pathRet >= PATH_SIZE {
          return Err(EINVAL);
        }
        slot := AllocDirStream(a.path);
        if slot < 0 {
          return Err(EMFILE);
        }
        ghost var grown := streams[..];
        streams[slot] := streams[slot].(fromFd := true, owner := handle);
        assert streams[..] == grown[slot := grown[slot].(fromFd := true, owner := handle)];
        assert streams[..] == old(streams[..])[slot := Opened(a.path).(fromFd := true, owner := handle)];
      }
      return Ok(slot);
    }

    /** Fills the buffer with whole records of the stream's next entries; the answers are the kernel's. */
    method ReadEntries(handle: int, buffer: array<Byte>, maxSize: nat, a: Answer)
      returns (error: Option<Errno>, bytesRead: nat)
      requires Valid() && maxSize <= buffer.Length && GoodEntries(a.listing)
      modifies streams, buffer
      ensures Valid()
      ensures var (after, r) := AfterRead(old(streams[..]), handle, old(HandleForFd(handle)), maxSize, a);
              streams[..] == after && (error == match r case Err(e) => Some(e) case Ok(_) => None) &&
              (r.Ok? ==> bytesRead <= maxSize && buffer[..bytesRead] == r.value)
      ensures error != None ==> bytesRead == 0
      ensures forall k :: bytesRead <= k < buffer.Length ==> buffer[k] == old(buffer[k])
    {
      hide Reach, Records, GoodEntry;
      bytesRead := 0;
      var located := Locate(handle, a);
      if located.Err? {
        return Some(located.error), 0;
      }
      var slot := located.value;
      ghost var found := streams[..];
      if !streams[slot].loaded {
        if ScError(a.ret) != 0 {
          return Some(Kernel(ScError(a.ret))), 0;
        }
        streams[slot] := streams[slot].(entries := a.listing, cursor := 0, loaded := true);
      }
      ghost var s := streams[slot];
      var cursor, written := FillBuffer(streams[slot].entries, streams[slot].cursor, buffer, maxSize);
      streams[slot] := streams[slot].(cursor := cursor);
      assert streams[..] == found[slot := s.(cursor := cursor)];
      return None, written;
    }

    /** `ret` is the kernel's answer to closing the handle behind the descriptor. */
    method Close(fd: int, ret: int) returns (error: Option<Errno>)
      requires Valid()
      modifies streams, fds`held, fds.table
      ensures Valid() && streams[..] == AfterClose(old(streams[..]), fd)
      ensures fd >= HANDLE_BASE ==>
                fds.State() == old(fds.State()) && error == if SlotOf(old(streams[..]), fd) < 0 then Some(EBADF)
                  else None
      ensures fd < HANDLE_BASE ==>
                (fds.State(), match error case None => Released case Some(e) => Failed(e))
                == Step(old(fds.State()), Release(fd, ret))
      ensures 3 <= fd < HANDLE_BASE && error == None ==> Lost(old(fds.State()), fds.State(), fd)
    {
      if fd >= HANDLE_BASE {
        var slot := fd - HANDLE_BASE;
        if slot < 0 || slot >= MAX_DIRS || !streams[slot].inUse {
          return Some(EBADF);
        }
        streams[slot] := streams[slot].(inUse := false, loaded := false);
        assert streams[..] == old(streams[..])[slot := old(streams[slot]).(inUse := false, loaded := false)];
        return None;
      }
      var slot := FindDirStreamByFd(fd);
      if slot >= 0 {
        streams[slot] := streams[slot].(inUse := false, loaded := false, fromFd := false);
        assert streams[..] == old(streams[..])[slot := old(streams[slot]).(inUse := false, loaded := false,
               fromFd := false)];
      }
      error := fds.Close(fd, ret);
    }
  }
}
