/** Reading a directory in pieces (outside/mlibc-sysdeps/instantos/sysdeps.cpp): one snapshot of the kernel's
    listing, handed out as variable-length records in buffers of the caller's size. */
module Directories {
  import opened Bytes
  import opened Sequences
  import opened Wrappers

  const NAME_PREFIX := 19
  const MAX_NAME := 255
  const MAX_ENTRIES := 256
  const ENOUGH := 280

  datatype DirEntry = DirEntry(name: seq<Byte>, inode: nat, kind: nat)

  /** A kernel entry: a zero-terminated name in 256 bytes, a 64-bit inode. */
  ghost predicate GoodEntry(e: DirEntry) {
    |e.name| <= MAX_NAME && 0 !in e.name && e.inode < Power(8)
  }

  ghost predicate GoodEntries(es: seq<DirEntry>) {
    |es| <= MAX_ENTRIES && forall i :: 0 <= i < |es| ==> GoodEntry(es[i])
  }

  /** The record's type byte for a kernel file type. */
  function TypeByte(kind: nat): Byte {
    if kind == 1 then 4 else if kind == 0 then 8 else if kind == 2 then 2 else if kind == 3 then 6
    else if kind == 4 then 10 else if kind == 5 then 1 else if kind == 6 then 12 else 0
  }

  /** Prefix, name and its zero, rounded up to a multiple of eight. */
  function RecordLength(nameLength: nat): (len: nat)
    ensures len % 8 == 0 && NAME_PREFIX + nameLength + 1 <= len < NAME_PREFIX + nameLength + 9
  {
    (NAME_PREFIX + nameLength + 1 + 7) / 8 * 8
  }

  function Zeros(n: nat): (zeros: seq<Byte>)
    ensures |zeros| == n && forall i :: 0 <= i < n ==> zeros[i] == 0
  {
    seq(n, _ => 0)
  }

  /** inode, position of the next entry, record length, type, name and zeros. */
  function Record(e: DirEntry, index: nat): (record: seq<Byte>)
    ensures |record| == RecordLength(|e.name|)
  {
    var len := RecordLength(|e.name|);
    Prefix(e, index) + (e.name + Zeros(len - NAME_PREFIX - |e.name|))
  }

  /** The records of the entries from `from` up to `to`. */
  function Records(es: seq<DirEntry>, from: nat, end: nat): seq<Byte>
    requires from <= end <= |es|
    decreases end - from
  {
    if from == end then [] else Records(es, from, end - 1) + Record(es[end - 1], end - 1)
  }

  // ---- what a reader sees --------------------------------------------------------------------

  datatype Item = Item(inode: nat, next: nat, kind: Byte, name: seq<Byte>)

  /** Up to the first zero. */
  function Terminated(bytes: seq<Byte>): seq<Byte> {
    if bytes == [] || bytes[0] == 0 then [] else [bytes[0]] + Terminated(bytes[1..])
  }

  /** Walks a buffer by the records' own lengths. */
  function Walk(bytes: seq<Byte>): Option<seq<Item>>
    decreases |bytes|
  {
    if bytes == [] then Some([])
    else if |bytes| < NAME_PREFIX then None
    else
      var len := FromLittle(bytes[16..18]);
      if len < NAME_PREFIX || len > |bytes| then None
      else
        match Walk(bytes[len..])
        case None => None
        case Some(rest) =>
          Some([Item(FromLittle(bytes[..8]), FromLittle(bytes[8..16]), bytes[18],
            Terminated(bytes[NAME_PREFIX..len]))] + rest)
  }

  function ItemOf(e: DirEntry, index: nat): Item {
    Item(e.inode, index + 1, TypeByte(e.kind), e.name)
  }

  function Items(es: seq<DirEntry>, from: nat, end: nat): (items: seq<Item>)
    requires from <= end <= |es|
    ensures |items| == end - from && forall i :: 0 <= i < end - from ==> items[i] == ItemOf(es[from + i], from + i)
  {
    seq(end - from, i requires 0 <= i < end - from => ItemOf(es[from + i], from + i))
  }

  lemma {:induction false} TerminatedName(name: seq<Byte>, zeros: seq<Byte>)
    requires 0 !in name && zeros != [] && zeros[0] == 0
    ensures Terminated(name + zeros) == name
  {
    if name == [] {
      assert name + zeros == zeros;
    } else {
      assert (name + zeros)[1..] == name[1..] + zeros;
      TerminatedName(name[1..], zeros);
    }
  }

  lemma Middle(a: seq<Byte>, b: seq<Byte>, c: seq<Byte>)
    ensures (a + b + c)[|a|..|a| + |b|] == b && (a + b + c)[|a| + |b|..] == c
  {
  }

  /** A record's fixed part. */
  function Prefix(e: DirEntry, index: nat): (prefix: seq<Byte>)
    ensures |prefix| == NAME_PREFIX
  {
    Little(e.inode, 8) + Little(index + 1, 8) + Little(RecordLength(|e.name|), 2) + [TypeByte(e.kind)]
  }

  lemma PrefixParts(e: DirEntry, index: nat, rest: seq<Byte>)
    ensures var bytes := Prefix(e, index) + rest;
            bytes[..8] == Little(e.inode, 8) && bytes[8..16] == Little(index + 1, 8) &&
            bytes[16..18] == Little(RecordLength(|e.name|), 2) && bytes[18] == TypeByte(e.kind) &&
            bytes[NAME_PREFIX..] == rest
  {
    hide Little, RecordLength, TypeByte;
  }

  /** Where the parts of a record are, whatever follows it. */
  lemma RecordParts(e: DirEntry, index: nat, rest: seq<Byte>)
    requires GoodEntry(e) && index < MAX_ENTRIES
    ensures var bytes := Record(e, index) + rest; var len := RecordLength(|e.name|);
            bytes[..8] == Little(e.inode, 8) && bytes[8..16] == Little(index + 1, 8) &&
              bytes[16..18] == Little(len, 2) &&
            bytes[18] == TypeByte(e.kind) &&
            bytes[NAME_PREFIX..len] == e.name + Zeros(len - NAME_PREFIX - |e.name|) && bytes[len..] == rest
  {
    hide Little, Zeros, RecordLength, TypeByte, Prefix;
    var len := RecordLength(|e.name|);
    var body := e.name + Zeros(len - NAME_PREFIX - |e.name|);
    AppendAssociates(Prefix(e, index), body, rest);
    PrefixParts(e, index, body + rest);
    Middle(Prefix(e, index), body, rest);
  }

  lemma NumbersFit(e: DirEntry, index: nat)
    requires GoodEntry(e) && index < MAX_ENTRIES
    ensures FromLittle(Little(e.inode, 8)) == e.inode && FromLittle(Little(index + 1, 8)) == index + 1
    ensures FromLittle(Little(RecordLength(|e.name|), 2)) == RecordLength(|e.name|)
  {
    assert Power(2) == 256 * (256 * Power(0));
    LittleRoundTrip(e.inode, 8);
    PowerGrows(2, 8);
    LittleRoundTrip(index + 1, 8);
    LittleRoundTrip(RecordLength(|e.name|), 2);
  }

  lemma {:induction false} PowerGrows(a: nat, b: nat)
    requires a <= b
    ensures Power(a) <= Power(b)
    decreases b
  {
    if a < b {
      PowerGrows(a, b - 1);
    }
  }

  lemma WalkRecord(e: DirEntry, index: nat, rest: seq<Byte>)
    requires GoodEntry(e) && index < MAX_ENTRIES && Walk(rest).Some?
    ensures Walk(Record(e, index) + rest) == Some([ItemOf(e, index)] + Walk(rest).value)
  {
    hide Record, RecordLength, Little, FromLittle, Zeros, TypeByte;
    var bytes, len := Record(e, index) + rest, RecordLength(|e.name|);
    RecordParts(e, index, rest);
    NumbersFit(e, index);
    TerminatedName(e.name, Zeros(len - NAME_PREFIX - |e.name|));
  }

  /** A reader tells the kernel's seven file types apart, by the numbers of the Linux ABI: regular file, directory,
      character and block device, symbolic link, pipe and socket, in the kernel's order; anything else is unknown. */
  lemma ReaderSees(e: DirEntry, index: nat, rest: seq<Byte>)
    requires GoodEntry(e) && index < MAX_ENTRIES && Walk(rest).Some?
    ensures var items := Walk(Record(e, index) + rest);
            items.Some? && items.value != [] &&
            items.value[0] == Item(e.inode, index + 1,
              if e.kind <= 6 then [8, 4, 2, 6, 10, 1, 12][e.kind] else 0, e.name)
  {
    hide Walk, Record;
    WalkRecord(e, index, rest);
  }

  lemma ByteIn(bytes: seq<Byte>, lo: nat, hi: nat, part: seq<Byte>, i: nat)
    requires lo <= i < hi <= |bytes| && bytes[lo..hi] == part
    ensures bytes[i] == part[i - lo]
  {
    assert bytes[i] == bytes[lo..hi][i - lo];
  }

  lemma LittlePair(n: nat)
    ensures Little(n, 2)[0] == n % 256 && Little(n, 2)[1] == n / 256 % 256
  {
    LittleByte(n, 2, 0);
    LittleByte(n, 2, 1);
    assert Shifted(n, 0) == n && Shifted(n, 1) == n / 256;
  }

  lemma LengthInEights(nameLength: nat)
    ensures RecordLength(nameLength) == (nameLength + 27) / 8 * 8 > nameLength + NAME_PREFIX
  {
  }

  /** The record's bytes, place by place: inode and position of eight bytes each and the length of two, least
      significant byte first; the type; the name; and zeros, at least one. */
  lemma RecordLayout(e: DirEntry, index: nat, i: nat)
    requires GoodEntry(e) && index < MAX_ENTRIES && i < (|e.name| + 27) / 8 * 8
    ensures var len := (|e.name| + 27) / 8 * 8;
            |Record(e, index)| == len &&
            Record(e, index)[i] ==
              if i < 8 then Shifted(e.inode, i) % 256
              else if i < 16 then Shifted(index + 1, i - 8) % 256
              else if i == 16 then len % 256
              else if i == 17 then len / 256 % 256
              else if i == 18 then TypeByte(e.kind)
              else if i < 19 + |e.name| then e.name[i - 19]
              else 0
  {
    hide Record, Little, Zeros, TypeByte, RecordLength, Prefix, Shifted;
    var record, len := Record(e, index), RecordLength(|e.name|);
    LengthInEights(|e.name|);
    AppendNothing(record);
    RecordParts(e, index, []);
    if i < 8 {
      LittleByte(e.inode, 8, i);
      ByteIn(record, 0, 8, Little(e.inode, 8), i);
    } else if i < 16 {
      LittleByte(index + 1, 8, i - 8);
      ByteIn(record, 8, 16, Little(index + 1, 8), i);
    } else if i < 18 {
      LittlePair(len);
      ByteIn(record, 16, 18, Little(len, 2), i);
    } else if i > 18 {
      ByteIn(record, NAME_PREFIX, len, e.name + Zeros(len - NAME_PREFIX - |e.name|), i);
    }
  }

  /** Records split anywhere between entries. */
  lemma {:induction false} RecordsSplit(es: seq<DirEntry>, from: nat, mid: nat, end: nat)
    requires from <= mid <= end <= |es|
    ensures Records(es, from, end) == Records(es, from, mid) + Records(es, mid, end)
    decreases end
  {
    hide Record;
    if mid < end {
      RecordsSplit(es, from, mid, end - 1);
      AppendAssociates(Records(es, from, mid), Records(es, mid, end - 1), Record(es[end - 1], end - 1));
    } else {
      assert Records(es, from, end) + [] == Records(es, from, end);
    }
  }

  lemma RecordsFirst(es: seq<DirEntry>, from: nat, end: nat)
    requires from < end <= |es|
    ensures Records(es, from, end) == Record(es[from], from) + Records(es, from + 1, end)
  {
    RecordsSplit(es, from, from + 1, end);
    assert [] + Record(es[from], from) == Record(es[from], from);
  }

  lemma ItemsFirst(es: seq<DirEntry>, from: nat, end: nat)
    requires from < end <= |es|
    ensures Items(es, from, end) == [ItemOf(es[from], from)] + Items(es, from + 1, end)
  {
  }

  /** Walking records gives back exactly their entries, each once and in order. */
  lemma {:induction false} WalkRecords(es: seq<DirEntry>, from: nat, end: nat)
    requires GoodEntries(es) && from <= end <= |es|
    ensures Walk(Records(es, from, end)) == Some(Items(es, from, end))
    decreases end - from
  {
    hide Record, RecordLength, ItemOf;
    if from < end {
      hide Walk, Records, Items;
      WalkRecords(es, from + 1, end);
      RecordsFirst(es, from, end);
      ItemsFirst(es, from, end);
      assert GoodEntry(es[from]);
      WalkRecord(es[from], from, Records(es, from + 1, end));
    }
  }

  lemma SumAligned(a: nat, b: nat)
    requires a % 8 == 0 && b % 8 == 0
    ensures (a + b) % 8 == 0
  {
  }

  /** Every record starts on a multiple of eight. */
  lemma {:induction false} RecordsAligned(es: seq<DirEntry>, from: nat, end: nat)
    requires from <= end <= |es|
    ensures |Records(es, from, end)| % 8 == 0
    decreases end - from
  {
    hide Record, RecordLength;
    if from < end {
      RecordsAligned(es, from, end - 1);
      var before, last := Records(es, from, end - 1), Record(es[end - 1], end - 1);
      assert Records(es, from, end) == before + last;
      SumAligned(|before|, |last|);
    }
  }

  // ---- one call and many ---------------------------------------------------------------------

  /** How far a buffer of this size gets from a position: as far as whole records fit. */
  function Reach(es: seq<DirEntry>, cursor: nat, size: int): (end: nat)
    requires cursor <= |es|
    ensures cursor <= end <= |es|
    decreases |es| - cursor
  {
    if cursor == |es| || RecordLength(|es[cursor].name|) > size then cursor
    else Reach(es, cursor + 1, size - RecordLength(|es[cursor].name|))
  }

  /** A call delivers as many whole records as fit: what it delivers fits the buffer, and one more would not. */
  lemma {:induction false} ReachIsMost(es: seq<DirEntry>, cursor: nat, size: int)
    requires cursor <= |es|
    ensures var end := Reach(es, cursor, size);
            (end > cursor ==> |Records(es, cursor, end)| <= size) &&
            (end < |es| ==> |Records(es, cursor, end)| + (|es[end].name| + 27) / 8 * 8 > size)
    decreases |es| - cursor
  {
    hide Record;
    var end := Reach(es, cursor, size);
    if cursor < |es| && RecordLength(|es[cursor].name|) <= size {
      ReachIsMost(es, cursor + 1, size - RecordLength(|es[cursor].name|));
      RecordsFirst(es, cursor, end);
    }
  }

  /** A sequence of calls: the position they end at, and all they delivered. */
  function Calls(es: seq<DirEntry>, cursor: nat, sizes: seq<nat>): (r: (nat, seq<Byte>))
    requires cursor <= |es|
    ensures cursor <= r.0 <= |es|
    decreases |sizes|
  {
    if sizes == [] then (cursor, [])
    else
      var (at, bytes) := Calls(es, cursor, sizes[..|sizes| - 1]);
      var end := Reach(es, at, sizes[|sizes| - 1]);
      (end, bytes + Records(es, at, end))
  }

  /** A buffer large enough for any record makes progress until everything is delivered: nothing comes
      exactly when all entries have been. */
  lemma ProgressUntilDone(es: seq<DirEntry>, cursor: nat, size: nat)
    requires GoodEntries(es) && cursor <= |es| && size >= ENOUGH
    ensures Records(es, cursor, Reach(es, cursor, size)) == [] <==> cursor == |es|
    ensures cursor < |es| ==> Reach(es, cursor, size) > cursor
  {
    if cursor < |es| {
      assert GoodEntry(es[cursor]);
      RecordsSplit(es, cursor, cursor + 1, Reach(es, cursor, size));
      assert Records(es, cursor, cursor + 1) == Record(es[cursor], cursor);
    }
  }

  /** Over any sequence of calls, walking everything delivered gives exactly the snapshot's entries up to
      where the calls got, each once and in order; with buffers that fit any record, as many calls as there
      are entries get to the end. */
  lemma {:induction false} CallsDeliverSnapshot(es: seq<DirEntry>, sizes: seq<nat>)
    requires GoodEntries(es)
    ensures Calls(es, 0, sizes).1 == Records(es, 0, Calls(es, 0, sizes).0)
    ensures Walk(Calls(es, 0, sizes).1) == Some(Items(es, 0, Calls(es, 0, sizes).0))
    ensures |Calls(es, 0, sizes).1| % 8 == 0
    ensures (forall i :: 0 <= i < |sizes| ==> sizes[i] >= ENOUGH) ==>
              Calls(es, 0, sizes).0 >= (if |sizes| < |es| then |sizes| else |es|)
    decreases |sizes|
  {
    if sizes != [] {
      var init, last := sizes[..|sizes| - 1], sizes[|sizes| - 1];
      CallsDeliverSnapshot(es, init);
      var at := Calls(es, 0, init).0;
      RecordsSplit(es, 0, at, Reach(es, at, last));
      if last >= ENOUGH {
        ProgressUntilDone(es, at, last);
      }
    }
    WalkRecords(es, 0, Calls(es, 0, sizes).0);
    RecordsAligned(es, 0, Calls(es, 0, sizes).0);
  }

  // ---- records in place ----------------------------------------------------------------------

  /** As many whole records as fit the buffer, from this entry on. */
  method FillBuffer(entries: seq<DirEntry>, from: nat, buffer: array<Byte>, maxSize: nat)
    returns (cursor: nat, written: nat)
    requires from <= |entries| && GoodEntries(entries) && maxSize <= buffer.Length
    modifies buffer
    ensures cursor == Reach(entries, from, maxSize) && written <= maxSize
    ensures buffer[..written] == Records(entries, from, cursor)
    ensures forall k :: written <= k < buffer.Length ==> buffer[k] == old(buffer[k])
  {
    hide Record, RecordLength;
    cursor, written := from, 0;
    while cursor < |entries|
      invariant from <= cursor <= |entries| && 0 <= written <= maxSize
      invariant Reach(entries, from, maxSize) == Reach(entries, cursor, maxSize - written)
      invariant buffer[..written] == Records(entries, from, cursor)
      invariant forall k :: written <= k < buffer.Length ==> buffer[k] == old(buffer[k])
      decreases |entries| - cursor
    {
      var len := RecordLength(|entries[cursor].name|);
      if written + len > maxSize {
        break;
      }
      assert GoodEntry(entries[cursor]);
      WriteRecord(buffer, written, entries[cursor], cursor);
      written := written + len;
      cursor := cursor + 1;
    }
  }

  /** One record into the buffer, field by field. */
  method WriteRecord(buffer: array<Byte>, at: nat, e: DirEntry, index: nat)
    requires GoodEntry(e) && at + RecordLength(|e.name|) <= buffer.Length
    modifies buffer
    ensures buffer[..at + RecordLength(|e.name|)] == old(buffer[..at]) + Record(e, index)
    ensures forall k :: at + RecordLength(|e.name|) <= k < buffer.Length ==> buffer[k] == old(buffer[k])
  {
    hide Little, RecordLength, Zeros, TypeByte, Prefix;
    var len := RecordLength(|e.name|);
    ghost var before := buffer[..at];
    WritePrefix(buffer, at, e, index);
    CopyBytes(buffer, at + NAME_PREFIX, e.name);
    CopyBytes(buffer, at + NAME_PREFIX + |e.name|, Zeros(len - NAME_PREFIX - |e.name|));
    AppendAssociates(before + Prefix(e, index), e.name, Zeros(len - NAME_PREFIX - |e.name|));
    AppendAssociates(before, Prefix(e, index), e.name + Zeros(len - NAME_PREFIX - |e.name|));
  }

  method WritePrefix(buffer: array<Byte>, at: nat, e: DirEntry, index: nat)
    requires at + NAME_PREFIX <= buffer.Length
    modifies buffer
    ensures buffer[..at + NAME_PREFIX] == old(buffer[..at]) + Prefix(e, index)
    ensures forall k :: at + NAME_PREFIX <= k < buffer.Length ==> buffer[k] == old(buffer[k])
  {
    hide Little, RecordLength, TypeByte;
    CopyBytes(buffer, at, Little(e.inode, 8));
    CopyBytes(buffer, at + 8, Little(index + 1, 8));
    CopyBytes(buffer, at + 16, Little(RecordLength(|e.name|), 2));
    CopyBytes(buffer, at + 18, [TypeByte(e.kind)]);
  }

  method CopyBytes(buffer: array<Byte>, at: nat, bytes: seq<Byte>)
    requires at + |bytes| <= buffer.Length
    modifies buffer
    ensures buffer[..at + |bytes|] == old(buffer[..at]) + bytes
    ensures forall k :: at + |bytes| <= k < buffer.Length ==> buffer[k] == old(buffer[k])
  {
    for i := 0 to |bytes|
      invariant buffer[..at + i] == old(buffer[..at]) + bytes[..i]
      invariant forall k :: at + |bytes| <= k < buffer.Length ==> buffer[k] == old(buffer[k])
    {
      buffer[at + i] := bytes[i];
      assert buffer[..at + i + 1] == buffer[..at + i] + [bytes[i]];
    }
  }
}
