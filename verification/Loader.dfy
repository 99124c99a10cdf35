/** The dynamic loader's dependency closure (ld-instantos/src/main.cpp): the growing list of loaded objects,
    each found by name or read from /lib, mapped at the next free library address, and asked in turn for what
    it needs. Addresses are 64-bit words and wrap around; a fatal error is a Failure. */
module Loader {
  import opened Sequences
  import opened Wrappers

  const PAGE_SIZE := 0x1000
  const WORD := 0x1_0000_0000_0000_0000
  const LIBRARY_BASE := 0x5800_0000_0000
  const LIBRARY_STRIDE := 0x400_0000
  const MAX_OBJECTS := 16
  const MAX_SEGMENTS := 16
  const MAX_NEEDED := 16
  const NAME_SIZE := 64
  const PATH_SIZE := 128
  const MAIN := "<main>"
  const LIB := "/lib/"
  const RUNTIME := "libinstant.so"

  /** A program header: a segment to load, or something else. */
  datatype Header = Load(address: nat, memorySize: nat, fileSize: nat, offset: nat) | Other

  /** What the loader reads out of an ELF file: whether its header is one it accepts, whether it is position
      independent, and whether its dynamic tables are usable; the names are its DT_NEEDED entries in order. */
  datatype Image = Image(valid: bool, dynamic: bool, size: nat, headers: seq<Header>, tables: bool, needed: seq<string>)

  datatype Segment = Segment(address: nat, size: nat)

  datatype Object = Object(name: string, base: nat, dynamic: bool, needed: seq<string>, segments: seq<Segment>)

  datatype Error =
    Unreadable | NotElf | TooManyObjects | BadSegment | MapRefused | TooManySegments | BadTables | TooManyNeeded

  // ---- addresses -----------------------------------------------------------------------------

  function Add(a: nat, b: nat): nat { (a + b) % WORD }

  function AlignDown(value: nat, alignment: nat): nat
    requires alignment > 0
  {
    value - value % alignment
  }

  function AlignUp(value: nat, alignment: nat): nat
    requires alignment > 0
  {
    AlignDown(Add(value, alignment - 1), alignment)
  }

  /** Where a segment of an object loaded at `base` is mapped. */
  function Placed(base: nat, h: Header): Segment
    requires h.Load?
  {
    var start := Add(base, h.address);
    var mapStart := AlignDown(start, PAGE_SIZE);
    Segment(mapStart, AlignUp(Add(start - mapStart, h.memorySize), PAGE_SIZE))
  }

  function End(s: Segment): nat { Add(s.address, s.size) }

  function MaxAddress(base: nat, segments: seq<Segment>): nat {
    if segments == [] then base
    else
      var before, end := MaxAddress(base, segments[..|segments| - 1]), End(segments[|segments| - 1]);
      if end > before then end else before
  }

  /** The next library goes past the end of this one, a stride further on. */
  function NextBase(base: nat, segments: seq<Segment>): nat {
    AlignUp(Add(MaxAddress(base, segments), LIBRARY_STRIDE), LIBRARY_STRIDE)
  }

  lemma Wraps(a: nat, b: nat)
    requires a < WORD && b < WORD
    ensures Add(a, b) == if a + b < WORD then a + b else a + b - WORD
  {
  }

  /** Rounding down to a page is above an address on a page border exactly when it was. */
  lemma OnPage(value: nat, border: nat)
    requires border % PAGE_SIZE == 0
    ensures AlignDown(value, PAGE_SIZE) >= border <==> value >= border
  {
  }

  lemma RoundsDown(value: nat, alignment: nat)
    requires alignment == PAGE_SIZE || alignment == LIBRARY_STRIDE
    ensures AlignDown(value, alignment) % alignment == 0 &&
            AlignDown(value, alignment) <= value < AlignDown(value, alignment) + alignment
  {
  }

  lemma RoundsUp(value: nat, alignment: nat)
    requires (alignment == PAGE_SIZE || alignment == LIBRARY_STRIDE) && value + alignment <= WORD
    ensures AlignUp(value, alignment) % alignment == 0 && value <= AlignUp(value, alignment) < value + alignment
  {
    hide Add, AlignDown;
    Wraps(value, alignment - 1);
    RoundsDown(value + alignment - 1, alignment);
  }

  /** A segment whose addresses do not wrap is mapped on whole pages, from the page it starts on to the page
      it ends on. */
  lemma PagesCoverSegment(base: nat, h: Header)
    requires h.Load? && base % PAGE_SIZE == 0 && base + h.address + h.memorySize + PAGE_SIZE <= WORD
    ensures var s := Placed(base, h); var start := base + h.address;
            s.address % PAGE_SIZE == 0 && s.size % PAGE_SIZE == 0 &&
              base <= s.address <= start < s.address + PAGE_SIZE &&
            start + h.memorySize <= s.address + s.size < start + h.memorySize + PAGE_SIZE &&
              End(s) == s.address + s.size
  {
    hide Add, AlignDown, AlignUp;
    var start := base + h.address;
    Wraps(base, h.address);
    RoundsDown(start, PAGE_SIZE);
    OnPage(start, base);
    var offset := start - AlignDown(start, PAGE_SIZE);
    Wraps(offset, h.memorySize);
    RoundsUp(offset + h.memorySize, PAGE_SIZE);
    Wraps(start - offset, AlignUp(offset + h.memorySize, PAGE_SIZE));
  }

  /** A segment lies above the base of its object exactly when its address does not wrap. */
  lemma AboveBaseExactly(base: nat, h: Header)
    requires h.Load? && h.address < WORD && 0 < base < WORD && base % PAGE_SIZE == 0
    ensures Placed(base, h).address >= base <==> base + h.address < WORD
  {
    hide Add, AlignDown, AlignUp;
    Wraps(base, h.address);
    OnPage(Add(base, h.address), base);
  }

  // ---- one file ------------------------------------------------------------------------------

  predicate Overruns(image: Image, h: Header)
    requires h.Load?
  {
    h.memorySize < h.fileSize || Add(h.offset, h.fileSize) > image.size
  }

  /** The segments mapped for the first n program headers, or the first error. */
  function Mapped(image: Image, base: nat, accepts: (nat, nat) -> bool, n: nat): Result<seq<Segment>, Error>
    requires n <= |image.headers|
  {
    if n == 0 then Ok([])
    else
      match Mapped(image, base, accepts, n - 1)
      case Err(e) => Err(e)
      case Ok(segments) =>
        var h := image.headers[n - 1];
        if h.Other? then Ok(segments)
        else if Overruns(image, h) then Err(BadSegment)
        else if !accepts(Placed(base, h).address, Placed(base, h).size) then Err(MapRefused)
        else if |segments| >= MAX_SEGMENTS then Err(TooManySegments)
        else Ok(segments + [Placed(base, h)])
  }

  function ShortName(name: string): string {
    if |name| < NAME_SIZE then name else name[..NAME_SIZE - 1]
  }

  /** The file a name is looked up as. */
  function Path(name: string): string {
    var path := LIB + name;
    if |path| < PATH_SIZE then path else path[..PATH_SIZE - 1]
  }

  function Loaded(image: Image, name: string, next: nat, accepts: (nat, nat) -> bool, full: bool)
    : Result<Object, Error>
  {
    var base := if image.dynamic then next else 0;
    if !image.valid then Err(NotElf)
    else if full then Err(TooManyObjects)
    else
      match Mapped(image, base, accepts, |image.headers|)
      case Err(e) => Err(e)
      case Ok(segments) =>
        if !image.tables then Err(BadTables)
        else if |image.needed| > MAX_NEEDED then Err(TooManyNeeded)
        else Ok(Object(ShortName(name), base, image.dynamic, image.needed, segments))
  }

  /** Component libraries of the C runtime are provided by one shared object. */
  function Resolved(needed: string): string {
    if needed == "libm.so.6" || needed == "libc.so.6" || needed == "libc.so" || needed == "libpthread.so.0" ||
       needed == "libdl.so.2" || needed == "librt.so.1"
    then RUNTIME
    else needed
  }

  type FileSystem = map<string, Image>

  // ---- the list of loaded objects ------------------------------------------------------------

  datatype Process = Process(objects: seq<Object>, next: nat)

  function Names(objects: seq<Object>): (names: seq<string>)
    ensures |names| == |objects| && forall k :: 0 <= k < |objects| ==> names[k] == objects[k].name
  {
    seq(|objects|, k requires 0 <= k < |objects| => objects[k].name)
  }

  /** What asking for a library does to the list. */
  function Requested(p: Process, needed: string, files: FileSystem, accepts: (nat, nat) -> bool)
    : Result<Process, Error>
  {
    var name := Resolved(needed);
    if name in Names(p.objects) then Ok(p)
    else if Path(name) !in files then Err(Unreadable)
    else
      match Loaded(files[Path(name)], name, p.next, accepts, |p.objects| >= MAX_OBJECTS)
      case Err(e) => Err(e)
      case Ok(loaded) =>
        Ok(Process(p.objects + [loaded], if loaded.dynamic then NextBase(loaded.base, loaded.segments) else p.next))
  }

  /** What stops the loader before it maps anything: a name that is not listed and has no file, a file that is no good
      ELF file, a seventeenth object. */
  lemma RefusedExactly(p: Process, needed: string, files: FileSystem, accepts: (nat, nat) -> bool)
    ensures var r, name := Requested(p, needed, files, accepts), Resolved(needed);
            var listed := exists k :: 0 <= k < |p.objects| && p.objects[k].name == name;
            var good := Path(name) in files && files[Path(name)].valid;
            (r == Err(Unreadable) <==> !listed && Path(name) !in files) &&
            (r == Err(NotElf) <==> !listed && Path(name) in files && !good) &&
            (r == Err(TooManyObjects) <==> !listed && good && |p.objects| >= 16) &&
            (listed ==> r == Ok(p))
  {
    hide Resolved, Path;
    var name := Resolved(needed);
    if name in Names(p.objects) {
      var k :| 0 <= k < |p.objects| && Names(p.objects)[k] == name;
    }
    assert forall k :: 0 <= k < |p.objects| && p.objects[k].name == name ==> Names(p.objects)[k] == name;
    if Path(name) in files {
      var image := files[Path(name)];
      MapErrors(image, if image.dynamic then p.next else 0, accepts, |image.headers|);
    }
  }

  lemma {:induction false} MapErrors(image: Image, base: nat, accepts: (nat, nat) -> bool, n: nat)
    requires n <= |image.headers|
    ensures var r := Mapped(image, base, accepts, n);
            r.Err? ==> r.error == BadSegment || r.error == MapRefused || r.error == TooManySegments
  {
    if n > 0 {
      MapErrors(image, base, accepts, n - 1);
    }
  }

  // ---- what the list must be -----------------------------------------------------------------

  function ResolvedAll(needed: seq<string>): (names: seq<string>)
    ensures |names| == |needed| && forall k :: 0 <= k < |needed| ==> names[k] == Resolved(needed[k])
  {
    seq(|needed|, k requires 0 <= k < |needed| => Resolved(needed[k]))
  }

  /** Everything the objects ask for, in order. */
  function Wanted(objects: seq<Object>): seq<string> {
    if objects == [] then [] else Wanted(objects[..|objects| - 1]) + ResolvedAll(objects[|objects| - 1].needed)
  }

  /** The first occurrence of every name. */
  function Distinct(names: seq<string>): (d: seq<string>)
    ensures forall n :: n in d <==> n in names
    ensures forall i, j :: 0 <= i < j < |d| ==> d[i] != d[j]
  {
    if names == [] then []
    else
      var before, last := Distinct(names[..|names| - 1]), names[|names| - 1];
      assert names == names[..|names| - 1] + [last];
      if last in before then before else before + [last]
  }

  function Loads(headers: seq<Header>): (loads: seq<Header>)
    ensures forall k :: 0 <= k < |loads| ==> loads[k].Load? && loads[k] in headers
  {
    if headers == [] then []
    else if headers[|headers| - 1].Other? then Loads(headers[..|headers| - 1])
    else Loads(headers[..|headers| - 1]) + [headers[|headers| - 1]]
  }

  function Placements(base: nat, headers: seq<Header>): (segments: seq<Segment>)
    ensures |segments| == |Loads(headers)| && forall k :: 0 <= k < |segments| ==>
            segments[k] == Placed(base, Loads(headers)[k])
  {
    seq(|Loads(headers)|, k requires 0 <= k < |Loads(headers)| => Placed(base, Loads(headers)[k]))
  }

  /** A file the loader can load wherever it is mapped. */
  ghost predicate Good(image: Image) {
    image.valid && image.tables && |image.needed| <= MAX_NEEDED && |Loads(image.headers)| <= MAX_SEGMENTS &&
    forall h :: h in image.headers && h.Load? ==> !Overruns(image, h)
  }

  /** The kernel accepts every mapping the file asks for when it is loaded at this base. */
  ghost predicate Accepted(image: Image, base: nat, accepts: (nat, nat) -> bool) {
    forall s :: s in Placements(base, image.headers) ==> accepts(s.address, s.size)
  }

  lemma {:induction false} MappedExactly(image: Image, base: nat, accepts: (nat, nat) -> bool, n: nat)
    requires n <= |image.headers|
    ensures var loads, r := Loads(image.headers[..n]), Mapped(image, base, accepts, n);
            r.Ok? <==>
              |loads| <= MAX_SEGMENTS &&
              forall h :: h in loads ==> !Overruns(image, h) && accepts(Placed(base, h).address, Placed(base, h).size)
    ensures var r := Mapped(image, base, accepts, n); r.Ok? ==> r.value == Placements(base, image.headers[..n])
  {
    if n > 0 {
      MappedExactly(image, base, accepts, n - 1);
      assert image.headers[..n][..n - 1] == image.headers[..n - 1];
      var before, h := Loads(image.headers[..n - 1]), image.headers[n - 1];
      if h.Load? {
        assert Loads(image.headers[..n])[|before|] == h;
        assert forall k :: 0 <= k < |before| ==> Loads(image.headers[..n])[k] == before[k];
      }
    }
  }

  lemma {:induction false} LoadsAreAll(headers: seq<Header>, h: Header)
    requires h in headers && h.Load?
    ensures h in Loads(headers)
  {
    if h != headers[|headers| - 1] {
      LoadsAreAll(headers[..|headers| - 1], h);
    }
  }

  /** What a file has to be, in numbers: every segment's part of the file lies in the file, as far as its sum of two
      64-bit numbers shows, and in the segment; there are at most sixteen segments and sixteen dependencies. */
  lemma GoodExactly(image: Image)
    ensures Good(image) <==>
              image.valid && image.tables && |image.needed| <= 16 && |Loads(image.headers)| <= 16 &&
              forall h :: h in image.headers && h.Load? ==>
                h.fileSize <= h.memorySize && (h.offset + h.fileSize) % 0x1_0000_0000_0000_0000 <= image.size
  {
    assert forall h: Header :: h.Load? ==>
      (Overruns(image, h) <==>
       !(h.fileSize <= h.memorySize && (h.offset + h.fileSize) % 0x1_0000_0000_0000_0000 <= image.size));
  }

  /** A file loads exactly when it is good, the list has room and the kernel accepts every mapping; then its
      segments are placed at the base it was given. */
  lemma LoadedExactly(image: Image, name: string, next: nat, accepts: (nat, nat) -> bool, full: bool)
    ensures var base, r := if image.dynamic then next else 0, Loaded(image, name, next, accepts, full);
            (r.Ok? <==> Good(image) && !full && Accepted(image, base, accepts)) &&
            (r.Ok? ==>
               r.value.name == ShortName(name) && r.value.dynamic == image.dynamic && r.value.needed == image.needed &&
               r.value.base == base && r.value.segments == Placements(base, image.headers))
  {
    hide Placed, Overruns;
    var base := if image.dynamic then next else 0;
    var loads, segments := Loads(image.headers), Placements(base, image.headers);
    MappedExactly(image, base, accepts, |image.headers|);
    assert image.headers[..|image.headers|] == image.headers;
    forall h | h in image.headers && h.Load? ensures h in loads {
      LoadsAreAll(image.headers, h);
    }
    if Accepted(image, base, accepts) {
      forall h | h in loads ensures accepts(Placed(base, h).address, Placed(base, h).size) {
        var k :| 0 <= k < |loads| && loads[k] == h;
        assert segments[k] in segments;
      }
    }
  }

  // ---- the objects a program requires --------------------------------------------------------

  function NeededBy(files: FileSystem, main: seq<string>, name: string): seq<string> {
    if name == MAIN then main else if Path(name) in files then files[Path(name)].needed else []
  }

  /** The program needs this library by a chain of at most k DT_NEEDED entries. */
  ghost predicate Within(files: FileSystem, main: seq<string>, name: string, k: nat)
    decreases k
  {
    if k == 0 then name == MAIN
    else
      Within(files, main, name, k - 1) ||
      exists user :: Within(files, main, user, k - 1) && name in ResolvedAll(NeededBy(files, main, user))
  }

  ghost predicate Required(files: FileSystem, main: seq<string>, name: string) {
    exists k :: Within(files, main, name, k)
  }

  /** Every required library has a good file, and there are at most sixteen objects. */
  ghost predicate Loadable(files: FileSystem, main: seq<string>) {
    (forall n :: Required(files, main, n) && n != MAIN ==> Path(n) in files && Good(files[Path(n)])) &&
    exists all: seq<string> :: |all| <= MAX_OBJECTS && forall n :: Required(files, main, n) ==> n in all
  }

  /** The list can hold the name of every required object whole. */
  ghost predicate ShortNames(files: FileSystem, main: seq<string>) {
    forall n :: Required(files, main, n) ==> |n| < NAME_SIZE
  }

  /** The base the next library would get. */
  function NextAfter(objects: seq<Object>): nat {
    if |objects| <= 1 then LIBRARY_BASE
    else
      var last := objects[|objects| - 1];
      if last.dynamic then NextBase(last.base, last.segments) else NextAfter(objects[..|objects| - 1])
  }

  /** Object k was read from the file of its name, and placed after the ones before it. */
  ghost predicate FromFile(objects: seq<Object>, files: FileSystem, k: int) {
    0 <= k < |objects| && Path(objects[k].name) in files &&
    var o, image := objects[k], files[Path(objects[k].name)];
    Good(image) && o.dynamic == image.dynamic && o.needed == image.needed &&
    o.base == (if image.dynamic then NextAfter(objects[..k]) else 0) && o.segments == Placements(o.base, image.headers)
  }

  /** The program itself first, and then nothing but files. */
  ghost predicate Grown(objects: seq<Object>, files: FileSystem, main: seq<string>) {
    0 < |objects| <= MAX_OBJECTS && objects[0].name == MAIN && objects[0].needed == main &&
    forall k :: 0 < k < |objects| ==> FromFile(objects, files, k)
  }

  /** Some earlier object asked for object k. */
  ghost predicate AskedFor(objects: seq<Object>, k: int) {
    exists i :: 0 <= i < k < |objects| && objects[k].name in ResolvedAll(objects[i].needed)
  }

  /** What the loader has to end with: the program and, once each and in the order they are first asked for,
      all libraries that objects on the list ask for, each placed after the ones before it. */
  ghost predicate Finished(objects: seq<Object>, files: FileSystem, main: seq<string>) {
    Grown(objects, files, main) && (forall k :: 0 < k < |objects| ==> AskedFor(objects, k)) &&
    Names(objects) == Distinct([MAIN] + Wanted(objects))
  }

  /** The kernel accepts every mapping of the libraries on the list. */
  ghost predicate Granted(objects: seq<Object>, accepts: (nat, nat) -> bool) {
    forall k, s :: 0 < k < |objects| && s in objects[k].segments ==> accepts(s.address, s.size)
  }

  /** There is such a list, and the kernel accepts its mappings. */
  ghost predicate Linkable(files: FileSystem, main: seq<string>, accepts: (nat, nat) -> bool) {
    exists objects :: Finished(objects, files, main) && Granted(objects, accepts)
  }

  function DepsOf(objects: seq<Object>, i: nat): nat {
    if i < |objects| then |objects[i].needed| else 0
  }

  /** The program's name and what was asked for up to dependency `dep` of object i. */
  function AskedSoFar(objects: seq<Object>, i: nat, dep: nat): seq<string>
    requires i <= |objects| && dep <= DepsOf(objects, i)
  {
    [MAIN] + Wanted(objects[..i]) + if i < |objects| then ResolvedAll(objects[i].needed)[..dep] else []
  }

  lemma AskedNext(objects: seq<Object>, i: nat, dep: nat)
    requires i < |objects| && dep < |objects[i].needed|
    ensures AskedSoFar(objects, i, dep + 1) == AskedSoFar(objects, i, dep) + [Resolved(objects[i].needed[dep])]
  {
    var names := ResolvedAll(objects[i].needed);
    assert names[..dep + 1] == names[..dep] + [names[dep]];
  }

  lemma AskedDone(objects: seq<Object>, i: nat)
    requires i < |objects|
    ensures AskedSoFar(objects, i, |objects[i].needed|) == AskedSoFar(objects, i + 1, 0)
  {
    var names := ResolvedAll(objects[i].needed);
    assert objects[..i + 1][..i] == objects[..i];
    assert names[..|objects[i].needed|] == names;
    assert Wanted(objects[..i + 1]) == Wanted(objects[..i]) + names;
  }

  lemma AskedAll(objects: seq<Object>)
    ensures AskedSoFar(objects, |objects|, 0) == [MAIN] + Wanted(objects)
  {
    assert objects[..|objects|] == objects;
  }

  lemma AskedBefore(objects: seq<Object>, o: Object, i: nat, dep: nat)
    requires i < |objects| && dep <= |objects[i].needed|
    ensures AskedSoFar(objects + [o], i, dep) == AskedSoFar(objects, i, dep)
  {
    assert (objects + [o])[..i] == objects[..i];
  }

  /** The loop has reached dependency `dep` of object i: the list is the program and, once each and in the
      order they were first asked for, all libraries asked for so far. */
  ghost predicate Reached(p: Process, files: FileSystem, main: seq<string>, i: nat, dep: nat) {
    var objects := p.objects;
    Grown(objects, files, main) && p.next == NextAfter(objects) &&
      (forall k :: 0 < k < |objects| ==> AskedFor(objects, k)) &&
    i <= |objects| && dep <= DepsOf(objects, i) && Names(objects) == Distinct(AskedSoFar(objects, i, dep))
  }

  // ---- the loop ------------------------------------------------------------------------------

  /** Names that appear once each. */
  predicate Once(names: seq<string>) {
    forall i, j :: 0 <= i < j < |names| ==> names[i] != names[j]
  }

  lemma {:induction false} WithinMore(files: FileSystem, main: seq<string>, name: string, j: nat, k: nat)
    requires j <= k && Within(files, main, name, j)
    ensures Within(files, main, name, k)
  {
    if j < k {
      WithinMore(files, main, name, j, k - 1);
    }
  }

  lemma ItsNeeds(objects: seq<Object>, files: FileSystem, main: seq<string>, i: nat)
    requires Grown(objects, files, main) && Once(Names(objects)) && i < |objects|
    ensures NeededBy(files, main, objects[i].name) == objects[i].needed
  {
    if i > 0 {
      assert FromFile(objects, files, i);
      assert Names(objects)[0] != Names(objects)[i];
    }
  }

  /** Every object on the list is required. */
  lemma {:induction false} ListedIsRequired(objects: seq<Object>, files: FileSystem, main: seq<string>, k: nat)
    requires Grown(objects, files, main) && Once(Names(objects)) && k < |objects|
    requires forall j :: 0 < j < |objects| ==> AskedFor(objects, j)
    ensures Within(files, main, objects[k].name, k) && Required(files, main, objects[k].name)
  {
    if k > 0 {
      assert AskedFor(objects, k);
      var i :| 0 <= i < k && objects[k].name in ResolvedAll(objects[i].needed);
      ListedIsRequired(objects, files, main, i);
      ItsNeeds(objects, files, main, i);
      WithinMore(files, main, objects[i].name, i, k - 1);
      WithinMore(files, main, objects[k].name, k, k);
    } else {
      assert Within(files, main, objects[0].name, 0);
    }
  }

  lemma RequestedName(objects: seq<Object>, i: nat, n: string)
    requires i < |objects| && n in objects[i].needed
    ensures Resolved(n) in ResolvedAll(objects[i].needed)
  {
    var k :| 0 <= k < |objects[i].needed| && objects[i].needed[k] == n;
    assert ResolvedAll(objects[i].needed)[k] == Resolved(n);
  }

  lemma RequestedIsRequired(objects: seq<Object>, files: FileSystem, main: seq<string>, i: nat, n: string)
    requires Grown(objects, files, main) && Once(Names(objects))
    requires forall j :: 0 < j < |objects| ==> AskedFor(objects, j)
    requires i < |objects| && n in objects[i].needed
    ensures Required(files, main, Resolved(n))
  {
    RequestedName(objects, i, n);
    ListedIsRequired(objects, files, main, i);
    ItsNeeds(objects, files, main, i);
    assert Within(files, main, Resolved(n), i + 1);
  }

  /** A freshly loaded object extends the list. */
  lemma GrownBy(objects: seq<Object>, files: FileSystem, main: seq<string>, o: Object)
    requires Grown(objects, files, main) && |objects| < MAX_OBJECTS && FromFile(objects + [o], files, |objects|)
    ensures Grown(objects + [o], files, main)
  {
    forall k | 0 < k < |objects + [o]| ensures FromFile(objects + [o], files, k) {
      if k < |objects| {
        assert FromFile(objects, files, k);
        assert (objects + [o])[..k] == objects[..k];
      }
    }
  }

  lemma DistinctNext(names: seq<string>, n: string)
    ensures Distinct(names + [n]) == if n in names then Distinct(names) else Distinct(names) + [n]
  {
    assert (names + [n])[..|names + [n]| - 1] == names;
  }

  /** A request that succeeds moves the loop on by one dependency. */
  lemma RequestReaches(p: Process, q: Process, files: FileSystem, accepts: (nat, nat) -> bool, main: seq<string>,
                       i: nat, dep: nat)
    requires ShortNames(files, main) && Reached(p, files, main, i, dep) && i < |p.objects| &&
             dep < |p.objects[i].needed|
    requires Requested(p, p.objects[i].needed[dep], files, accepts) == Ok(q)
    ensures p.objects <= q.objects && Reached(q, files, main, i, dep + 1)
  {
    hide Grown, FromFile, Loaded, AskedSoFar, Distinct, NextAfter, NextBase, AskedFor, ShortNames, Reached;
    var name := Resolved(p.objects[i].needed[dep]);
    NextAsked(p, files, main, i, dep);
    if name in Names(p.objects) {
      FoundReaches(p, files, main, i, dep);
    } else {
      LoadedReaches(p, files, accepts, main, i, dep);
    }
  }

  lemma NextAsked(p: Process, files: FileSystem, main: seq<string>, i: nat, dep: nat)
    requires Reached(p, files, main, i, dep) && i < |p.objects| && dep < |p.objects[i].needed|
    ensures var name := Resolved(p.objects[i].needed[dep]);
            Distinct(AskedSoFar(p.objects, i, dep + 1)) == if name in Names(p.objects) then Names(p.objects)
              else Names(p.objects) + [name]
  {
    hide Grown, FromFile, AskedSoFar, NextAfter, AskedFor;
    AskedNext(p.objects, i, dep);
    DistinctNext(AskedSoFar(p.objects, i, dep), Resolved(p.objects[i].needed[dep]));
  }

  lemma FoundReaches(p: Process, files: FileSystem, main: seq<string>, i: nat, dep: nat)
    requires Reached(p, files, main, i, dep) && i < |p.objects| && dep < |p.objects[i].needed|
    requires Names(p.objects) == Distinct(AskedSoFar(p.objects, i, dep + 1))
    ensures Reached(p, files, main, i, dep + 1)
  {
    hide Grown, FromFile, AskedSoFar, NextAfter, AskedFor, Distinct, Names;
  }

  lemma LoadedReaches(p: Process, files: FileSystem, accepts: (nat, nat) -> bool, main: seq<string>, i: nat, dep: nat)
    requires ShortNames(files, main) && Reached(p, files, main, i, dep) && i < |p.objects| &&
             dep < |p.objects[i].needed|
    requires var name := Resolved(p.objects[i].needed[dep]);
             name !in Names(p.objects) && Path(name) in files &&
               Distinct(AskedSoFar(p.objects, i, dep + 1)) == Names(p.objects) + [name] &&
             Loaded(files[Path(name)], name, p.next, accepts, |p.objects| >= MAX_OBJECTS).Ok?
    ensures var name := Resolved(p.objects[i].needed[dep]);
            var o := Loaded(files[Path(name)], name, p.next, accepts, |p.objects| >= MAX_OBJECTS).value;
            Reached(Process(p.objects + [o], if o.dynamic then NextBase(o.base, o.segments) else p.next), files, main,
              i, dep + 1)
  {
    hide Grown, FromFile, Loaded, AskedSoFar, Distinct, NextAfter, NextBase, AskedFor, Required;
    var objects := p.objects;
    var name := Resolved(objects[i].needed[dep]);
    ReachedOnce(p, files, main, i, dep);
    RequestedIsRequired(objects, files, main, i, objects[i].needed[dep]);
    RequestedName(objects, i, objects[i].needed[dep]);
    GrownCount(objects, files, main);
    LoadedObject(p, name, files, accepts);
    var o := Loaded(files[Path(name)], name, p.next, accepts, |objects| >= MAX_OBJECTS).value;
    GrownBy(objects, files, main, o);
    NamesSnoc(objects, o);
    StillAskedFor(objects, o, i);
    AskedBefore(objects, o, i, dep + 1);
  }

  lemma ReachedOnce(p: Process, files: FileSystem, main: seq<string>, i: nat, dep: nat)
    requires Reached(p, files, main, i, dep)
    ensures Once(Names(p.objects))
  {
  }

  lemma NamesSnoc(objects: seq<Object>, o: Object)
    ensures Names(objects + [o]) == Names(objects) + [o.name]
  {
  }

  /** What a request adds, the kernel has accepted. */
  lemma RequestGranted(p: Process, q: Process, needed: string, files: FileSystem, accepts: (nat, nat) -> bool)
    requires Granted(p.objects, accepts) && Requested(p, needed, files, accepts) == Ok(q)
    ensures Granted(q.objects, accepts)
  {
    hide Loaded, NextBase, Good, Placements;
    var name := Resolved(needed);
    if name !in Names(p.objects) {
      LoadedExactly(files[Path(name)], name, p.next, accepts, |p.objects| >= MAX_OBJECTS);
      assert q.objects[..|p.objects|] == p.objects;
    }
  }

  lemma GrownCount(objects: seq<Object>, files: FileSystem, main: seq<string>)
    requires Grown(objects, files, main)
    ensures 0 < |objects| <= MAX_OBJECTS
  {
  }

  lemma StillAskedFor(objects: seq<Object>, o: Object, i: nat)
    requires forall k :: 0 < k < |objects| ==> AskedFor(objects, k)
    requires i < |objects| && o.name in ResolvedAll(objects[i].needed)
    ensures forall k :: 0 < k < |objects + [o]| ==> AskedFor(objects + [o], k)
  {
    forall k | 0 < k < |objects + [o]| ensures AskedFor(objects + [o], k) {
      if k < |objects| {
        assert AskedFor(objects, k);
        var j :| 0 <= j < k && objects[k].name in ResolvedAll(objects[j].needed);
        assert (objects + [o])[j] == objects[j] && (objects + [o])[k] == objects[k];
      } else {
        assert (objects + [o])[i] == objects[i] && (objects + [o])[k] == o;
      }
    }
  }

  /** What a request that loads appends. */
  lemma LoadedObject(p: Process, name: string, files: FileSystem, accepts: (nat, nat) -> bool)
    requires p.next == NextAfter(p.objects) && |name| < NAME_SIZE && 0 < |p.objects| && Path(name) in files
    requires Loaded(files[Path(name)], name, p.next, accepts, |p.objects| >= MAX_OBJECTS).Ok?
    ensures var o := Loaded(files[Path(name)], name, p.next, accepts, |p.objects| >= MAX_OBJECTS).value;
            o.name == name && |p.objects| < MAX_OBJECTS && FromFile(p.objects + [o], files, |p.objects|) &&
            NextAfter(p.objects + [o]) == if o.dynamic then NextBase(o.base, o.segments) else p.next
  {
    hide Loaded;
    LoadedExactly(files[Path(name)], name, p.next, accepts, |p.objects| >= MAX_OBJECTS);
    var o := Loaded(files[Path(name)], name, p.next, accepts, |p.objects| >= MAX_OBJECTS).value;
    assert (p.objects + [o])[..|p.objects|] == p.objects;
  }

  /** With all its dependencies requested, an object is done. */
  lemma ObjectDone(p: Process, files: FileSystem, main: seq<string>, i: nat)
    requires i < |p.objects| && Reached(p, files, main, i, |p.objects[i].needed|)
    ensures Reached(p, files, main, i + 1, 0)
  {
    hide Grown, AskedSoFar, Distinct, NextAfter, AskedFor;
    AskedDone(p.objects, i);
  }

  // ---- exactly the required objects ----------------------------------------------------------

  lemma {:induction false} WantedHas(objects: seq<Object>, i: nat, n: string)
    requires i < |objects| && n in ResolvedAll(objects[i].needed)
    ensures n in Wanted(objects)
  {
    if i < |objects| - 1 {
      WantedHas(objects[..|objects| - 1], i, n);
    }
  }

  /** On a finished list every required object is there. */
  lemma {:induction false} RequiredIsListed(objects: seq<Object>, files: FileSystem, main: seq<string>, n: string,
                                            k: nat)
    requires Finished(objects, files, main) && Within(files, main, n, k)
    ensures n in Names(objects)
    decreases k
  {
    hide Grown, FromFile, NextAfter, AskedFor, NeededBy, Wanted;
    if k == 0 {
      assert ([MAIN] + Wanted(objects))[0] == MAIN;
    } else if Within(files, main, n, k - 1) {
      RequiredIsListed(objects, files, main, n, k - 1);
    } else {
      var user :| Within(files, main, user, k - 1) && n in ResolvedAll(NeededBy(files, main, user));
      RequiredIsListed(objects, files, main, user, k - 1);
      var i :| 0 <= i < |objects| && Names(objects)[i] == user;
      ItsNeeds(objects, files, main, i);
      WantedHas(objects, i, n);
    }
  }

  /** A finished list holds the program and, once each, exactly the libraries it requires; so it is closed
      under DT_NEEDED, and all of them have good files. */
  lemma FinishedList(objects: seq<Object>, files: FileSystem, main: seq<string>)
    requires Finished(objects, files, main)
    ensures Once(Names(objects)) && forall n :: n in Names(objects) <==> Required(files, main, n)
    ensures forall i, n :: 0 <= i < |objects| && n in objects[i].needed ==> Resolved(n) in Names(objects)
    ensures Loadable(files, main)
  {
    forall n | n in Names(objects)
      ensures Required(files, main, n) && (n != MAIN ==> Path(n) in files && Good(files[Path(n)]))
    {
      var k :| 0 <= k < |objects| && Names(objects)[k] == n;
      ListedIsRequired(objects, files, main, k);
      if k > 0 {
        assert FromFile(objects, files, k);
      }
    }
    forall n | Required(files, main, n) ensures n in Names(objects) {
      var k :| Within(files, main, n, k);
      RequiredIsListed(objects, files, main, n, k);
    }
    forall i, n | 0 <= i < |objects| && n in objects[i].needed ensures Resolved(n) in Names(objects) {
      RequestedName(objects, i, n);
      WantedHas(objects, i, Resolved(n));
    }
    assert |Names(objects)| <= MAX_OBJECTS;
  }

  /** Some listed object has this name among its DT_NEEDED entries. */
  ghost predicate Needs(objects: seq<Object>, n: string) {
    exists i :: 0 <= i < |objects| && n in objects[i].needed
  }

  /** The listed names against the DT_NEEDED entries as they stand in the files: every library is listed under a
      name that is needed literally, and every needed name is listed literally, but the six parts of the C
      runtime, which the one runtime library stands for. */
  ghost predicate NamedAsNeeded(objects: seq<Object>) {
    NamedBy(objects, {"libm.so.6", "libc.so.6", "libc.so", "libpthread.so.0", "libdl.so.2", "librt.so.1"},
            "libinstant.so")
  }

  ghost predicate NamedBy(objects: seq<Object>, parts: set<string>, runtime: string) {
    var names := Names(objects);
    (forall k :: 0 < k < |names| && names[k] != runtime ==> Needs(objects, names[k])) &&
    (forall i, n :: 0 <= i < |objects| && n in objects[i].needed && n !in parts ==> n in names) &&
    (runtime in names <==> Needs(objects, runtime) || exists n :: n in parts && Needs(objects, n)) &&
    (forall n :: n in parts ==> n !in names)
  }

  /** Every library on the list was read from the file of its whole name under /lib and placed as that file's
      headers say: the first at the start of the libraries' addresses. */
  ghost predicate ReadFromLib(objects: seq<Object>, files: FileSystem) {
    forall k :: 0 < k < |objects| ==>
      "/lib/" + objects[k].name in files &&
      var image := files["/lib/" + objects[k].name];
      objects[k].needed == image.needed && objects[k].segments == Placements(objects[k].base, image.headers) &&
      (!image.dynamic ==> objects[k].base == 0) &&
      (image.dynamic && (forall j :: 0 < j < k ==> !objects[j].dynamic) ==> objects[k].base == 0x5800_0000_0000)
  }

  lemma WantedFrom(objects: seq<Object>, n: string) returns (i: nat, needed: string)
    requires n in Wanted(objects)
    ensures i < |objects| && needed in objects[i].needed && Resolved(needed) == n
    decreases |objects|
  {
    var init, last := objects[..|objects| - 1], objects[|objects| - 1];
    if n in Wanted(init) {
      i, needed := WantedFrom(init, n);
    } else {
      i := |objects| - 1;
      var k :| 0 <= k < |last.needed| && ResolvedAll(last.needed)[k] == n;
      needed := last.needed[k];
    }
  }

  lemma FinishedNames(objects: seq<Object>, files: FileSystem, main: seq<string>)
    requires Finished(objects, files, main)
    ensures NamedAsNeeded(objects)
  {
    hide Finished, NamedBy, Resolved;
    var parts := {"libm.so.6", "libc.so.6", "libc.so", "libpthread.so.0", "libdl.so.2", "librt.so.1"};
    forall n ensures Resolved(n) == if n in parts then "libinstant.so" else n {
      Alias(n);
    }
    FirstIsProgram(objects, files, main);
    ListedBy(objects, files, main, parts, "libinstant.so");
  }

  lemma Alias(n: string)
    ensures Resolved(n) ==
            if n in {"libm.so.6", "libc.so.6", "libc.so", "libpthread.so.0", "libdl.so.2", "librt.so.1"}
            then "libinstant.so" else n
  {
  }

  lemma ListedBy(objects: seq<Object>, files: FileSystem, main: seq<string>, parts: set<string>, runtime: string)
    requires Finished(objects, files, main) && Names(objects)[0] !in parts && Names(objects)[0] != runtime
    requires (forall n :: Resolved(n) == if n in parts then runtime else n) && runtime !in parts
    ensures NamedBy(objects, parts, runtime)
  {
    hide Wanted, Distinct, Grown, AskedFor, Resolved;
    var names := Names(objects);
    FinishedList(objects, files, main);
    forall k | 0 < k < |names|
      ensures names[k] !in parts
      ensures names[k] != runtime ==> Needs(objects, names[k])
      ensures names[k] == runtime ==> Needs(objects, runtime) || exists n :: n in parts && Needs(objects, n)
    {
      FirstIsProgram(objects, files, main);
      assert names[0] != names[k];
      assert names[k] in names && names[k] in [MAIN] + Wanted(objects);
      var i, needed := WantedFrom(objects, names[k]);
      assert Needs(objects, needed);
    }
    forall n | Needs(objects, n) ensures Resolved(n) in names {
      var i :| 0 <= i < |objects| && n in objects[i].needed;
    }
  }

  lemma FirstIsProgram(objects: seq<Object>, files: FileSystem, main: seq<string>)
    requires Finished(objects, files, main)
    ensures |objects| > 0 && Names(objects)[0] == "<main>" == MAIN
  {
  }

  lemma {:induction false} FirstBase(objects: seq<Object>, k: nat)
    requires 0 < k <= |objects| && forall j :: 0 < j < k ==> !objects[j].dynamic
    ensures NextAfter(objects[..k]) == 0x5800_0000_0000
  {
    if k > 1 {
      FirstBase(objects, k - 1);
      assert objects[..k][..k - 1] == objects[..k - 1];
    }
  }

  lemma FinishedFiles(objects: seq<Object>, files: FileSystem, main: seq<string>)
    requires Finished(objects, files, main) && ShortNames(files, main)
    ensures ReadFromLib(objects, files)
  {
    hide Placements, Wanted, Distinct;
    FinishedList(objects, files, main);
    forall k | 0 < k < |objects|
      ensures "/lib/" + objects[k].name in files
      ensures var image := files["/lib/" + objects[k].name];
              objects[k].needed == image.needed && objects[k].segments == Placements(objects[k].base, image.headers) &&
              (!image.dynamic ==> objects[k].base == 0) &&
              (image.dynamic && (forall j :: 0 < j < k ==> !objects[j].dynamic) ==> objects[k].base == 0x5800_0000_0000)
    {
      assert FromFile(objects, files, k);
      assert Names(objects)[k] in Names(objects);
      assert Path(objects[k].name) == "/lib/" + objects[k].name;
      if forall j :: 0 < j < k ==> !objects[j].dynamic {
        FirstBase(objects, k);
      }
    }
  }

  lemma {:induction false} OnceCounts(names: seq<string>)
    requires Once(names)
    ensures |set n | n in names| == |names|
  {
    if names != [] {
      var init, last := names[..|names| - 1], names[|names| - 1];
      OnceCounts(init);
      assert names == init + [last];
      assert last !in init;
      assert (set n | n in names) == (set n | n in init) + {last};
    }
  }

  lemma {:induction false} AtMostLength(names: seq<string>)
    ensures |set n | n in names| <= |names|
  {
    if names != [] {
      var init, last := names[..|names| - 1], names[|names| - 1];
      AtMostLength(init);
      assert names == init + [last];
      assert (set n | n in names) == (set n | n in init) + {last};
    }
  }

  /** Names that appear once each and are all in a list are no more than the list. */
  lemma NoMoreThan(names: seq<string>, all: seq<string>)
    requires Once(names) && forall n :: n in names ==> n in all
    ensures |names| <= |all|
  {
    OnceCounts(names);
    AtMostLength(all);
    var some, every := set n | n in names, set n | n in all;
    assert some <= every;
    SubsetCounts(some, every);
  }

  lemma {:induction false} SubsetCounts(a: set<string>, b: set<string>)
    requires a <= b
    ensures |a| <= |b|
  {
    if a != {} {
      var x :| x in a;
      SubsetCounts(a - {x}, b - {x});
    }
  }

  /** If all required libraries can be loaded, a request fails only when the kernel refuses one of the mappings
      that this very request asks for. */
  lemma LoadableRequest(p: Process, files: FileSystem, accepts: (nat, nat) -> bool, main: seq<string>, i: nat, dep: nat)
    requires Loadable(files, main) && Reached(p, files, main, i, dep) && i < |p.objects| &&
             dep < |p.objects[i].needed|
    ensures var name := Resolved(p.objects[i].needed[dep]);
            Requested(p, p.objects[i].needed[dep], files, accepts).Err? <==>
              name !in Names(p.objects) && Path(name) in files &&
              var image := files[Path(name)]; !Accepted(image, if image.dynamic then p.next else 0, accepts)
  {
    hide Good, Loaded, NextAfter, NextBase, NeededBy, AskedFor, AskedSoFar, Within, Required, Accepted;
    var objects := p.objects;
    var name := Resolved(objects[i].needed[dep]);
    GrownCount(objects, files, main);
    assert Once(Names(objects)) && Names(objects)[0] == MAIN;
    RequestedIsRequired(objects, files, main, i, objects[i].needed[dep]);
    if name !in Names(objects) {
      LoadedExactly(files[Path(name)], name, p.next, accepts, |objects| >= MAX_OBJECTS);
      if |objects| >= MAX_OBJECTS {
        NoRoomFor(objects, files, main, name);
      }
    }
  }

  /** Seventeen required objects do not fit the list. */
  lemma NoRoomFor(objects: seq<Object>, files: FileSystem, main: seq<string>, name: string)
    requires Grown(objects, files, main) && Once(Names(objects)) && forall j :: 0 < j < |objects| ==>
             AskedFor(objects, j)
    requires |objects| >= MAX_OBJECTS && name !in Names(objects) && Required(files, main, name)
    ensures !Loadable(files, main)
  {
    hide Required, Grown, AskedFor, Good;
    var names := Names(objects) + [name];
    forall m | m in names ensures Required(files, main, m) {
      if m != name {
        var k :| 0 <= k < |objects| && Names(objects)[k] == m;
        ListedIsRequired(objects, files, main, k);
      }
    }
    if all: seq<string> :| |all| <= MAX_OBJECTS && forall m :: Required(files, main, m) ==> m in all {
      NoMoreThan(names, all);
      assert false;
    }
  }

  // ---- one list only ---------------------------------------------------------------------------

  /** The same first k objects; of the program itself, only what the loader needs. */
  ghost predicate Alike(a: seq<Object>, b: seq<Object>, k: nat) {
    k <= |a| && k <= |b| &&
    forall j :: 0 <= j < k ==>
      a[j].name == b[j].name && a[j].needed == b[j].needed && (j > 0 ==> a[j] == b[j])
  }

  lemma {:induction false} WantedAlike(a: seq<Object>, b: seq<Object>, k: nat)
    requires Alike(a, b, k)
    ensures Wanted(a[..k]) == Wanted(b[..k]) && NextAfter(a[..k]) == NextAfter(b[..k])
  {
    if k > 0 {
      WantedAlike(a, b, k - 1);
      assert a[..k][..k - 1] == a[..k - 1] && b[..k][..k - 1] == b[..k - 1];
    }
  }

  lemma {:induction false} WantedGrows(objects: seq<Object>, j: nat, k: nat)
    requires j <= k <= |objects|
    ensures Wanted(objects[..j]) <= Wanted(objects[..k])
  {
    if j < k {
      WantedGrows(objects, j, k - 1);
      assert objects[..k][..k - 1] == objects[..k - 1];
    }
  }

  lemma {:induction false} DistinctGrows(a: seq<string>, b: seq<string>)
    requires a <= b
    ensures Distinct(a) <= Distinct(b)
  {
    if |a| < |b| {
      DistinctGrows(a, b[..|b| - 1]);
    } else {
      assert a == b;
    }
  }

  lemma AskedIsPart(objects: seq<Object>, i: nat, dep: nat)
    requires i < |objects| && dep <= |objects[i].needed|
    ensures AskedSoFar(objects, i, dep) <= [MAIN] + Wanted(objects[..i + 1])
  {
    assert objects[..i + 1][..i] == objects[..i];
    var before, names := [MAIN] + Wanted(objects[..i]), ResolvedAll(objects[i].needed);
    AppendAssociates([MAIN], Wanted(objects[..i]), names);
    assert [MAIN] + Wanted(objects[..i + 1]) == before + names;
    assert names == names[..dep] + names[dep..];
    AppendAssociates(before, names[..dep], names[dep..]);
  }

  /** What was asked for so far is asked for in every list that starts like this one. */
  lemma AskedInBoth(objects: seq<Object>, all: seq<Object>, i: nat, dep: nat)
    requires i < |objects| && dep <= |objects[i].needed| && Alike(objects, all, i + 1)
    ensures Distinct(AskedSoFar(objects, i, dep)) <= Distinct([MAIN] + Wanted(all))
  {
    hide Distinct, NextAfter, Wanted, AskedSoFar, ResolvedAll;
    AskedIsPart(objects, i, dep);
    WantedAlike(objects, all, i + 1);
    WantedGrows(all, i + 1, |all|);
    assert all[..|all|] == all;
    DistinctGrows(AskedSoFar(objects, i, dep), [MAIN] + Wanted(all));
  }

  /** Objects asked for by the first j of a list come among the names those ask for. */
  lemma AskedByFirst(objects: seq<Object>, j: nat, names: seq<string>)
    requires AskedFor(objects, j) && Distinct([MAIN] + Wanted(objects[..j])) <= names
    requires Once(names) && j < |names| && names[j] == objects[j].name
    ensures j < |Distinct([MAIN] + Wanted(objects[..j]))|
  {
    hide Distinct;
    var first := Distinct([MAIN] + Wanted(objects[..j]));
    var i :| 0 <= i < j && objects[j].name in ResolvedAll(objects[i].needed);
    WantedHas(objects[..j], i, objects[j].name);
    assert objects[j].name in [MAIN] + Wanted(objects[..j]);
    var d :| 0 <= d < |first| && first[d] == objects[j].name;
    assert names[d] == names[j];
  }

  /** The loop's list and a finished list that starts with the same j objects have the same next one. */
  lemma SameNextName(p: Process, all: seq<Object>, files: FileSystem, main: seq<string>, i: nat, dep: nat, j: nat)
    requires Reached(p, files, main, i, dep) && Finished(all, files, main)
    requires 0 < j < |p.objects| && Alike(p.objects, all, j)
    ensures j < |all| && p.objects[j].name == all[j].name
  {
    hide Grown, NextAfter, Distinct, AskedFor, Wanted;
    var objects := p.objects;
    if i < j {
      AskedInBoth(objects, all, i, dep);
      assert Names(objects)[j] == Names(all)[j];
    } else {
      WantedAlike(objects, all, j);
      WantedGrows(all, j, |all|);
      WantedGrows(objects, j, i);
      assert all[..|all|] == all;
      DistinctGrows([MAIN] + Wanted(objects[..j]), [MAIN] + Wanted(all));
      DistinctGrows([MAIN] + Wanted(objects[..j]), AskedSoFar(objects, i, dep));
      assert AskedFor(objects, j);
      AskedByFirst(objects, j, Names(objects));
      assert Names(objects)[j] == Names(all)[j];
    }
  }

  /** The loop's list is the beginning of every finished list. */
  lemma {:induction false} SameStart(p: Process, all: seq<Object>, files: FileSystem, main: seq<string>, i: nat,
                                     dep: nat, k: nat)
    requires Reached(p, files, main, i, dep) && Finished(all, files, main) && k <= |p.objects|
    ensures Alike(p.objects, all, k)
  {
    hide Distinct, AskedFor, Wanted, Good, NextAfter, Placements, AskedSoFar;
    if k > 1 {
      SameStart(p, all, files, main, i, dep, k - 1);
      SameNextName(p, all, files, main, i, dep, k - 1);
      WantedAlike(p.objects, all, k - 1);
      assert FromFile(p.objects, files, k - 1) && FromFile(all, files, k - 1);
    }
  }

  /** A library that has to be loaded next is the next one on every finished list, and has its place there. */
  lemma NextIsListed(p: Process, all: seq<Object>, files: FileSystem, main: seq<string>, i: nat, dep: nat)
    requires Reached(p, files, main, i, dep) && i < |p.objects| && dep < |p.objects[i].needed|
    requires Finished(all, files, main) && Resolved(p.objects[i].needed[dep]) !in Names(p.objects)
    ensures |p.objects| < |all| && all[|p.objects|].name == Resolved(p.objects[i].needed[dep])
    ensures FromFile(all, files, |p.objects|) && NextAfter(all[..|p.objects|]) == p.next
  {
    hide Distinct, AskedFor, Wanted, NextAfter, AskedSoFar, FromFile;
    var n := |p.objects|;
    assert p.objects[..n] == p.objects;
    SameStart(p, all, files, main, i, dep, n);
    NextAsked(p, files, main, i, dep);
    AskedInBoth(p.objects, all, i, dep + 1);
    assert Names(all)[n] == Resolved(p.objects[i].needed[dep]);
    WantedAlike(p.objects, all, n);
  }

  /** A request fails only when no finished list has all its mappings accepted. */
  lemma FailedRequest(p: Process, files: FileSystem, accepts: (nat, nat) -> bool, main: seq<string>, i: nat, dep: nat)
    requires Reached(p, files, main, i, dep) && i < |p.objects| && dep < |p.objects[i].needed|
    requires Requested(p, p.objects[i].needed[dep], files, accepts).Err?
    ensures !Linkable(files, main, accepts)
  {
    hide Finished, Reached, NextAfter, Good, Loaded, Placements, Loadable, Requested;
    if all: seq<Object> :| Finished(all, files, main) && Granted(all, accepts) {
      FinishedList(all, files, main);
      LoadableRequest(p, files, accepts, main, i, dep);
      NextIsListed(p, all, files, main, i, dep);
      assert false;
    }
  }

  function OnlyProgram(base: nat, main: seq<string>): Process {
    Process([Object(MAIN, base, false, main, [])], LIBRARY_BASE)
  }

  lemma StartsReached(files: FileSystem, main: seq<string>, base: nat)
    ensures Reached(OnlyProgram(base, main), files, main, 0, 0)
  {
    assert ResolvedAll(main)[..0] == [] && [MAIN] + [] + [] == [MAIN] && [MAIN][..|[MAIN]| - 1] == [];
  }

  /** If all required libraries can be loaded, the loop's list can be finished. */
  lemma {:induction false} CanFinish(p: Process, files: FileSystem, main: seq<string>, i: nat, dep: nat)
    requires ShortNames(files, main) && Loadable(files, main) && Reached(p, files, main, i, dep)
    ensures exists objects :: Finished(objects, files, main)
    decreases MAX_OBJECTS - i, DepsOf(p.objects, i) - dep
  {
    hide Grown, Distinct, AskedFor, Wanted, NextAfter, Requested, ShortNames, Loadable, AskedSoFar;
    GrownCount(p.objects, files, main);
    if i == |p.objects| {
      AskedAll(p.objects);
      assert Finished(p.objects, files, main);
    } else if dep == |p.objects[i].needed| {
      ObjectDone(p, files, main, i);
      CanFinish(p, files, main, i + 1, 0);
    } else {
      var accepts := (address, size) => true;
      LoadableRequest(p, files, accepts, main, i, dep);
      var q := Requested(p, p.objects[i].needed[dep], files, accepts).value;
      RequestReaches(p, q, files, accepts, main, i, dep);
      CanFinish(q, files, main, i, dep + 1);
    }
  }

  /** The program can be linked exactly when all required libraries have good files, there is room for them,
      and the kernel accepts every mapping of the finished list; there is only one such list. */
  lemma LinkableExactly(files: FileSystem, main: seq<string>, accepts: (nat, nat) -> bool)
    requires ShortNames(files, main)
    ensures Linkable(files, main, accepts) <==>
              Loadable(files, main) && forall all :: Finished(all, files, main) ==> Granted(all, accepts)
    ensures forall a, b :: Finished(a, files, main) && Finished(b, files, main) ==> |a| == |b| && Alike(a, b, |a|)
  {
    hide Finished, Loadable, Granted, Alike;
    forall a, b | Finished(a, files, main) && Finished(b, files, main)
      ensures |a| == |b| && Alike(a, b, |a|)
      ensures Granted(a, accepts) ==> Granted(b, accepts)
    {
      OneFinished(a, b, files, main);
      OneFinished(b, a, files, main);
      if Granted(a, accepts) {
        GrantedAlike(a, b, accepts);
      }
    }
    if a: seq<Object> :| Finished(a, files, main) && Granted(a, accepts) {
      FinishedList(a, files, main);
    }
    if Loadable(files, main) {
      StartsReached(files, main, 0);
      CanFinish(OnlyProgram(0, main), files, main, 0, 0);
    }
  }

  lemma GrantedAlike(a: seq<Object>, b: seq<Object>, accepts: (nat, nat) -> bool)
    requires |a| == |b| && Alike(a, b, |a|) && Granted(a, accepts)
    ensures Granted(b, accepts)
  {
  }

  lemma OneFinished(a: seq<Object>, b: seq<Object>, files: FileSystem, main: seq<string>)
    requires Finished(a, files, main) && Finished(b, files, main)
    ensures |a| <= |b| && Alike(a, b, |a|)
  {
    AskedAll(a);
    SameStart(Process(a, NextAfter(a)), b, files, main, |a|, 0, |a|);
  }

  // ---- libraries do not overlap --------------------------------------------------------------

  /** No address of a library loaded at this base wraps around, and the next base still fits a word. */
  ghost predicate Fits(base: nat, image: Image) {
    base + 2 * LIBRARY_STRIDE <= WORD &&
    forall h :: h in image.headers && h.Load? ==> base + h.address + h.memorySize + 2 * LIBRARY_STRIDE <= WORD
  }

  /** The segments seen so far lie between the base and their highest end. */
  lemma {:induction false} SegmentsBelowMax(base: nat, segments: seq<Segment>, limit: nat)
    requires limit < WORD && base <= limit
    requires forall k :: 0 <= k < |segments| ==> segments[k].address + segments[k].size <= limit
    ensures base <= MaxAddress(base, segments) <= limit
    ensures forall k :: 0 <= k < |segments| ==> segments[k].address + segments[k].size <= MaxAddress(base, segments)
  {
    if segments != [] {
      var init, last := segments[..|segments| - 1], segments[|segments| - 1];
      SegmentsBelowMax(base, init, limit);
      Wraps(last.address, last.size);
      assert forall k :: 0 <= k < |init| ==> segments[k] == init[k];
    }
  }

  lemma NextBaseBounds(base: nat, segments: seq<Segment>)
    requires base <= MaxAddress(base, segments) && MaxAddress(base, segments) + 2 * LIBRARY_STRIDE <= WORD
    ensures var next, end := NextBase(base, segments), MaxAddress(base, segments);
            end + LIBRARY_STRIDE <= next < end + 2 * LIBRARY_STRIDE
  {
    hide Add, AlignUp, MaxAddress;
    var end := MaxAddress(base, segments);
    Wraps(end, LIBRARY_STRIDE);
    RoundsUp(end + LIBRARY_STRIDE, LIBRARY_STRIDE);
  }

  /** Whatever wraps, the next base is a multiple of the stride and leaves a stride below the end of memory. */
  lemma NextBaseAligned(base: nat, segments: seq<Segment>)
    ensures NextBase(base, segments) % LIBRARY_STRIDE == 0 && NextBase(base, segments) + LIBRARY_STRIDE <= WORD
  {
    hide AlignDown, MaxAddress;
    var value := Add(Add(MaxAddress(base, segments), LIBRARY_STRIDE), LIBRARY_STRIDE - 1);
    RoundsDown(value, LIBRARY_STRIDE);
    MultiplesApart(AlignDown(value, LIBRARY_STRIDE), WORD);
  }

  /** The next library goes to the first multiple of 64 megabytes that lies at least as much past the highest end of
      this one's pages, or past its base if it has none. */
  lemma NextBaseExactly(base: nat, segments: seq<Segment>, end: nat)
    requires base <= end && end + 0x800_0000 <= 0x1_0000_0000_0000_0000
    requires forall k :: 0 <= k < |segments| ==> segments[k].address + segments[k].size <= end
    requires end == base || exists k :: 0 <= k < |segments| && segments[k].address + segments[k].size == end
    ensures var next := NextBase(base, segments);
            next % 0x400_0000 == 0 && end + 0x400_0000 <= next < end + 0x800_0000
  {
    hide NextBase, MaxAddress;
    SegmentsBelowMax(base, segments, end);
    NextBaseBounds(base, segments);
    NextBaseAligned(base, segments);
  }

  lemma MultiplesApart(a: nat, b: nat)
    requires a % LIBRARY_STRIDE == 0 && b % LIBRARY_STRIDE == 0 && a < b
    ensures a + LIBRARY_STRIDE <= b
  {
  }

  lemma StrideIsPages(a: nat)
    requires a % LIBRARY_STRIDE == 0
    ensures a % PAGE_SIZE == 0
  {
    assert a == a / LIBRARY_STRIDE * (LIBRARY_STRIDE / PAGE_SIZE) * PAGE_SIZE;
  }

  lemma PagesEndBelow(end: nat, limit: nat)
    requires end % PAGE_SIZE == 0 && limit % PAGE_SIZE == 0 && end < limit + PAGE_SIZE
    ensures end <= limit
  {
  }

  /** A segment of a library that fits lies on whole pages between its base and the last two strides. */
  lemma SegmentFits(base: nat, image: Image, h: Header)
    requires Fits(base, image) && base % LIBRARY_STRIDE == 0 && h in image.headers && h.Load?
    ensures var s := Placed(base, h);
            base <= s.address <= base + h.address && base + h.address + h.memorySize <= s.address + s.size &&
            s.address + s.size + 2 * LIBRARY_STRIDE <= WORD
  {
    hide Placed;
    StrideIsPages(base);
    PagesCoverSegment(base, h);
    var s := Placed(base, h);
    PagesEndBelow(s.address + s.size, WORD - 2 * LIBRARY_STRIDE);
  }

  /** All pages of a library lie above its base, cover its segments, and end a stride below the next base. */
  ghost predicate PlacedWell(base: nat, image: Image) {
    var next := NextBase(base, Placements(base, image.headers));
    base + LIBRARY_STRIDE <= next &&
    forall h :: h in image.headers && h.Load? ==>
      var s := Placed(base, h);
      base <= s.address <= base + h.address && base + h.address + h.memorySize <= s.address + s.size &&
      s.address + s.size + LIBRARY_STRIDE <= next
  }

  /** A library is placed well exactly when no address wraps around. */
  lemma PlacedWellExactly(base: nat, image: Image)
    requires base % LIBRARY_STRIDE == 0
    ensures PlacedWell(base, image) <==> Fits(base, image)
  {
    var segments := Placements(base, image.headers);
    NextBaseAligned(base, segments);
    hide Placed, NextBase, MaxAddress;
    if Fits(base, image) {
      forall k | 0 <= k < |segments|
        ensures segments[k].address + segments[k].size + 2 * LIBRARY_STRIDE <= WORD
      {
        SegmentFits(base, image, Loads(image.headers)[k]);
      }
      SegmentsBelowMax(base, segments, WORD - 2 * LIBRARY_STRIDE);
      NextBaseBounds(base, segments);
      forall h | h in image.headers && h.Load?
        ensures var s := Placed(base, h);
                base <= s.address <= base + h.address && base + h.address + h.memorySize <= s.address + s.size &&
                s.address + s.size + LIBRARY_STRIDE <= NextBase(base, segments)
      {
        SegmentFits(base, image, h);
        LoadsAreAll(image.headers, h);
        var k :| 0 <= k < |segments| && Loads(image.headers)[k] == h;
        assert segments[k] == Placed(base, h);
      }
    }
  }

  /** No library on the list wraps. */
  ghost predicate AllFit(objects: seq<Object>, files: FileSystem) {
    forall k :: 0 < k < |objects| && objects[k].dynamic && Path(objects[k].name) in files ==>
      Fits(objects[k].base, files[Path(objects[k].name)])
  }

  /** Library bases are multiples of the stride. */
  lemma {:induction false} BasesAligned(objects: seq<Object>)
    ensures NextAfter(objects) % LIBRARY_STRIDE == 0
  {
    if |objects| > 1 {
      var last := objects[|objects| - 1];
      NextBaseAligned(last.base, last.segments);
      BasesAligned(objects[..|objects| - 1]);
    }
  }

  /** An object's place among the bases: the next base is no lower than the one before it, and if it is a
      library its base is the one before it and it is placed well. */
  lemma ItsPlace(objects: seq<Object>, files: FileSystem, main: seq<string>, k: nat)
    requires Grown(objects, files, main) && AllFit(objects, files) && 0 < k < |objects|
    ensures NextAfter(objects[..k]) <= NextAfter(objects[..k + 1])
    ensures objects[k].dynamic ==>
              objects[k].base == NextAfter(objects[..k]) &&
              forall a :: 0 <= a < |objects[k].segments| ==>
                var s := objects[k].segments[a];
                objects[k].base <= s.address && s.address + s.size + LIBRARY_STRIDE <= NextAfter(objects[..k + 1])
  {
    hide NextBase, Placed, Good;
    assert FromFile(objects, files, k);
    assert objects[..k + 1][..k] == objects[..k];
    var o, image := objects[k], files[Path(objects[k].name)];
    BasesAligned(objects[..k]);
    if o.dynamic {
      PlacedWellExactly(o.base, image);
      forall a | 0 <= a < |o.segments|
        ensures o.base <= o.segments[a].address
        ensures o.segments[a].address + o.segments[a].size + LIBRARY_STRIDE <= NextAfter(objects[..k + 1])
      {
        assert o.segments[a] == Placed(o.base, Loads(image.headers)[a]);
      }
    }
  }

  lemma {:induction false} BasesOrdered(objects: seq<Object>, files: FileSystem, main: seq<string>, j: nat, k: nat)
    requires Grown(objects, files, main) && AllFit(objects, files) && 1 <= j <= k <= |objects|
    ensures NextAfter(objects[..j]) <= NextAfter(objects[..k])
  {
    if j < k {
      BasesOrdered(objects, files, main, j, k - 1);
      ItsPlace(objects, files, main, k - 1);
    }
  }

  /** The pages of two position independent libraries are disjoint, a whole stride apart, and all below the
      base of the next library, whenever no address wraps. */
  lemma LibrariesApart(objects: seq<Object>, files: FileSystem, main: seq<string>, j: nat, a: nat, k: nat, b: nat)
    requires Grown(objects, files, main) && AllFit(objects, files)
    requires 0 < j < k < |objects| && objects[j].dynamic && objects[k].dynamic
    requires a < |objects[j].segments| && b < |objects[k].segments|
    ensures var s, t := objects[j].segments[a], objects[k].segments[b];
            s.address + s.size + LIBRARY_STRIDE <= t.address &&
              t.address + t.size + LIBRARY_STRIDE <= NextAfter(objects)
  {
    hide Grown, NextAfter, AllFit;
    ItsPlace(objects, files, main, j);
    ItsPlace(objects, files, main, k);
    BasesOrdered(objects, files, main, j + 1, k);
    BasesOrdered(objects, files, main, k + 1, |objects|);
    assert objects[..|objects|] == objects;
  }

  const IMAGE_LIMIT := 0x8000_0000_0000

  /** Every position independent image ends within half of user space. */
  ghost predicate Modest(files: FileSystem) {
    forall path, h :: path in files && files[path].dynamic && h in files[path].headers && h.Load? ==>
      h.address + h.memorySize <= IMAGE_LIMIT
  }

  /** With modest images no address ever wraps, in whatever order they are loaded. */
  lemma {:induction false} ModestFit(objects: seq<Object>, files: FileSystem, main: seq<string>, k: nat)
    requires Grown(objects, files, main) && Modest(files) && 1 <= k <= |objects|
    ensures NextAfter(objects[..k]) <= LIBRARY_BASE + (k - 1) * (IMAGE_LIMIT + 3 * LIBRARY_STRIDE)
    ensures AllFit(objects[..k], files)
  {
    hide NextBase, Placed, Good;
    if k > 1 {
      ModestFit(objects, files, main, k - 1);
      assert FromFile(objects, files, k - 1);
      assert objects[..k][..k - 1] == objects[..k - 1];
      BasesAligned(objects[..k - 1]);
      var o := objects[k - 1];
      if o.dynamic {
        ModestNext(o.base, files[Path(o.name)], files, Path(o.name));
      }
    }
  }

  lemma ModestSegment(base: nat, h: Header)
    requires h.Load? && h.address + h.memorySize <= IMAGE_LIMIT
    requires base % LIBRARY_STRIDE == 0 && base + IMAGE_LIMIT + 2 * LIBRARY_STRIDE <= WORD
    ensures Placed(base, h).address + Placed(base, h).size <= base + IMAGE_LIMIT
  {
    hide Placed;
    StrideIsPages(base);
    PagesCoverSegment(base, h);
    LimitIsPages(base);
    PagesEndBelow(Placed(base, h).address + Placed(base, h).size, base + IMAGE_LIMIT);
  }

  lemma LimitIsPages(base: nat)
    requires base % PAGE_SIZE == 0
    ensures (base + IMAGE_LIMIT) % PAGE_SIZE == 0
  {
    assert base + IMAGE_LIMIT == (base / PAGE_SIZE + IMAGE_LIMIT / PAGE_SIZE) * PAGE_SIZE;
  }

  lemma ModestNext(base: nat, image: Image, files: FileSystem, path: string)
    requires Modest(files) && path in files && files[path] == image && image.dynamic
    requires base % LIBRARY_STRIDE == 0 && base + IMAGE_LIMIT + 2 * LIBRARY_STRIDE <= WORD
    ensures Fits(base, image)
    ensures NextBase(base, Placements(base, image.headers)) <= base + IMAGE_LIMIT + 3 * LIBRARY_STRIDE
  {
    hide Placed, NextBase, MaxAddress;
    var segments := Placements(base, image.headers);
    forall k | 0 <= k < |segments|
      ensures segments[k].address + segments[k].size <= base + IMAGE_LIMIT
    {
      ModestSegment(base, Loads(image.headers)[k]);
    }
    SegmentsBelowMax(base, segments, base + IMAGE_LIMIT);
    NextBaseBounds(base, segments);
  }

  /** Asking for a library that has just been loaded finds it, exactly when its name fits the list's names;
      a longer name is read from its file again. */
  lemma FoundAgainExactly(p: Process, q: Process, needed: string, files: FileSystem, accepts: (nat, nat) -> bool)
    requires Requested(p, needed, files, accepts) == Ok(q) && forall k :: 0 <= k < |p.objects| ==>
             |p.objects[k].name| < NAME_SIZE
    ensures Requested(q, needed, files, accepts) == Ok(q) <==> |Resolved(needed)| < NAME_SIZE
  {
    var name := Resolved(needed);
    if name in Names(p.objects) {
      var k :| 0 <= k < |p.objects| && Names(p.objects)[k] == name;
    } else {
      var last := |p.objects|;
      LoadedExactly(files[Path(name)], name, p.next, accepts, |p.objects| >= MAX_OBJECTS);
      assert Names(q.objects)[last] == ShortName(name);
      forall k | 0 <= k <= last ensures |Names(q.objects)[k]| < NAME_SIZE {
      }
    }
  }

  class Loader {
    const files: FileSystem
    const accepts: (nat, nat) -> bool
    const objects: array<Object>
    var objectCount: nat
    var nextLibraryBase: nat

    constructor (files: FileSystem, accepts: (nat, nat) -> bool)
      ensures Valid() && fresh(objects) && this.files == files && this.accepts == accepts
      ensures View() == Process([], LIBRARY_BASE)
    {
      this.files, this.accepts := files, accepts;
      objects := new Object[MAX_OBJECTS](_ => Object("", 0, false, [], []));
      objectCount, nextLibraryBase := 0, LIBRARY_BASE;
    }

    ghost predicate Valid()
      reads this
    {
      objects.Length == MAX_OBJECTS && objectCount <= MAX_OBJECTS
    }

    ghost function View(): Process
      requires Valid()
      reads this, objects
    {
      Process(objects[..objectCount], nextLibraryBase)
    }

    method FindObject(name: string) returns (found: bool)
      requires Valid()
      ensures found <==> name in Names(objects[..objectCount])
    {
      for i := 0 to objectCount
        invariant forall k :: 0 <= k < i ==> objects[k].name != name
      {
        if objects[i].name == name {
          assert Names(objects[..objectCount])[i] == name;
          return true;
        }
      }
      return false;
    }

    method MapSegments(image: Image, base: nat) returns (r: Result<seq<Segment>, Error>, maxAddress: nat)
      ensures r == Mapped(image, base, accepts, |image.headers|)
      ensures r.Ok? ==> maxAddress == MaxAddress(base, r.value)
    {
      hide Add, AlignUp;
      var segments: seq<Segment> := [];
      maxAddress := base;
      for i := 0 to |image.headers|
        invariant Mapped(image, base, accepts, i) == Ok(segments)
        invariant maxAddress == MaxAddress(base, segments)
      {
        var h := image.headers[i];
        if h.Load? {
          if h.memorySize < h.fileSize || Add(h.offset, h.fileSize) > image.size {
            FirstErrorStays(image, base, accepts, i + 1, |image.headers|);
            return Err(BadSegment), maxAddress;
          }
          var segmentStart := Add(base, h.address);
          var mapStart := AlignDown(segmentStart, PAGE_SIZE);
          var pageOffset := segmentStart - mapStart;
          var mapSize := AlignUp(Add(pageOffset, h.memorySize), PAGE_SIZE);
          if !accepts(mapStart, mapSize) {
            FirstErrorStays(image, base, accepts, i + 1, |image.headers|);
            return Err(MapRefused), maxAddress;
          }
          if |segments| >= MAX_SEGMENTS {
            FirstErrorStays(image, base, accepts, i + 1, |image.headers|);
            return Err(TooManySegments), maxAddress;
          }
          segments := segments + [Segment(mapStart, mapSize)];
          if Add(mapStart, mapSize) > maxAddress {
            maxAddress := Add(mapStart, mapSize);
          }
        }
      }
      return Ok(segments), maxAddress;
    }

    static lemma {:induction false} FirstErrorStays(image: Image, base: nat, accepts: (nat, nat) -> bool, i: nat,
                                                    n: nat)
      requires i <= n <= |image.headers| && Mapped(image, base, accepts, i).Err?
      ensures Mapped(image, base, accepts, n) == Mapped(image, base, accepts, i)
    {
      if i < n {
        FirstErrorStays(image, base, accepts, i, n - 1);
      }
    }

    method LoadObjectFromMemory(name: string, image: Image, preferredBase: nat) returns (r: Result<Object, Error>)
      requires Valid()
      modifies this, objects
      ensures Valid() && r == Loaded(image, name, preferredBase, accepts, old(objectCount) >= MAX_OBJECTS)
      ensures r.Ok? ==>
                View() == Process(old(View()).objects + [r.value],
                                  if image.dynamic then NextBase(r.value.base, r.value.segments)
                                    else old(nextLibraryBase))
    {
      if !image.valid {
        return Err(NotElf);
      }
      var base := if image.dynamic then preferredBase else 0;
      if objectCount >= MAX_OBJECTS {
        return Err(TooManyObjects);
      }
      var mapped, maxAddress := MapSegments(image, base);
      if mapped.Err? {
        return Err(mapped.error);
      }
      var segments := mapped.value;
      if image.dynamic {
        nextLibraryBase := AlignUp(Add(maxAddress, LIBRARY_STRIDE), LIBRARY_STRIDE);
      }
      if !image.tables {
        return Err(BadTables);
      }
      if |image.needed| > MAX_NEEDED {
        return Err(TooManyNeeded);
      }
      var loaded := Object(ShortName(name), base, image.dynamic, image.needed, segments);
      objects[objectCount] := loaded;
      objectCount := objectCount + 1;
      return Ok(loaded);
    }

    method LoadDependency(needed: string) returns (error: Option<Error>)
      requires Valid()
      modifies this, objects
      ensures Valid()
      ensures match Requested(old(View()), needed, files, accepts)
              case Ok(p) => error == None && View() == p
              case Err(e) => error == Some(e)
    {
      var name := Resolved(needed);
      var found := FindObject(name);
      if found {
        return None;
      }
      var path := Path(name);
      if path !in files {
        return Some(Unreadable);
      }
      var r := LoadObjectFromMemory(name, files[path], nextLibraryBase);
      if r.Err? {
        return Some(r.error);
      }
      return None;
    }

    method RegisterMain(base: nat, needed: seq<string>, tables: bool) returns (error: Option<Error>)
      requires Valid() && objectCount == 0
      modifies this`objectCount, objects
      ensures Valid() && (error == None <==> tables && |needed| <= MAX_NEEDED)
      ensures error == None ==> View().objects == [Object(MAIN, base, false, needed, [])]
    {
      objects[objectCount] := Object(MAIN, base, false, needed, []);
      objectCount := objectCount + 1;
      if !tables {
        return Some(BadTables);
      }
      if |needed| > MAX_NEEDED {
        return Some(TooManyNeeded);
      }
      return None;
    }

    /** Loads everything the program needs. It succeeds exactly when the program can be linked with the mappings
        the kernel accepts, and ends with the finished list. */
    method LinkProgram(base: nat, main: seq<string>, tables: bool) returns (error: Option<Error>)
      requires Valid() && View() == Process([], LIBRARY_BASE) && ShortNames(files, main)
      modifies this, objects
      ensures Valid()
      ensures error == None <==> tables && |main| <= MAX_NEEDED && Linkable(files, main, accepts)
      ensures error == None ==>
                Finished(View().objects, files, main) && Granted(View().objects, accepts) &&
                nextLibraryBase == NextAfter(View().objects) &&
                (forall n :: n in Names(View().objects) <==> Required(files, main, n))
      ensures error == None ==> NamedAsNeeded(View().objects) && ReadFromLib(View().objects, files)
    {
      error := RegisterMain(base, main, tables);
      if error != None {
        return;
      }
      StartsReached(files, main, base);
      hide Reached, Grown, NextAfter, Distinct, Wanted, Names, Required, ShortNames, Loadable;
      error := LoadAll(main);
      if error == None {
        FinishedList(View().objects, files, main);
        FinishedNames(View().objects, files, main);
        FinishedFiles(View().objects, files, main);
      }
    }

    /** The list grows while it is walked. */
    method LoadAll(ghost main: seq<string>) returns (error: Option<Error>)
      requires Valid() && ShortNames(files, main) && Reached(View(), files, main, 0, 0)
      requires Granted(View().objects, accepts)
      modifies this, objects
      ensures Valid() && (error == None <==> Linkable(files, main, accepts))
      ensures error == None ==>
                Finished(View().objects, files, main) && Granted(View().objects, accepts) &&
                nextLibraryBase == NextAfter(View().objects)
    {
      hide Reached, ShortNames, Granted, Finished, NextAfter;
      var i := 0;
      while i < objectCount
        invariant Valid() && i <= objectCount && Reached(View(), files, main, i, 0)
        invariant Granted(View().objects, accepts)
        decreases MAX_OBJECTS - i
      {
        error := LoadNeeded(i, main);
        if error != None {
          return;
        }
        i := i + 1;
        ReachedCount(View(), files, main, i);
      }
      ReachedEnd(View(), files, main);
      return None;
    }

    static lemma ReachedCount(p: Process, files: FileSystem, main: seq<string>, i: nat)
      requires Reached(p, files, main, i, 0)
      ensures i <= |p.objects|
    {
    }

    static lemma ReachedEnd(p: Process, files: FileSystem, main: seq<string>)
      requires Reached(p, files, main, |p.objects|, 0)
      ensures Finished(p.objects, files, main) && p.next == NextAfter(p.objects)
    {
      AskedAll(p.objects);
    }

    /** Requests everything object i needs. */
    method LoadNeeded(i: nat, ghost main: seq<string>) returns (error: Option<Error>)
      requires Valid() && i < objectCount && ShortNames(files, main) && Reached(View(), files, main, i, 0)
      requires Granted(View().objects, accepts)
      modifies this, objects
      ensures Valid()
      ensures error == None ==> Reached(View(), files, main, i + 1, 0) && Granted(View().objects, accepts)
      ensures error != None ==> !Linkable(files, main, accepts)
    {
      hide Reached, Requested, ShortNames, Granted, Linkable;
      var dep := 0;
      while dep < |objects[i].needed|
        invariant Valid() && i < objectCount && old(View()).objects <= View().objects
        invariant dep <= |objects[i].needed| && Reached(View(), files, main, i, dep)
        invariant Granted(View().objects, accepts)
        decreases |old(objects[i]).needed| - dep
      {
        ghost var before := View();
        error := LoadDependency(objects[i].needed[dep]);
        if error != None {
          FailedRequest(before, files, accepts, main, i, dep);
          return;
        }
        RequestReaches(before, View(), files, accepts, main, i, dep);
        RequestGranted(before, View(), before.objects[i].needed[dep], files, accepts);
        dep := dep + 1;
      }
      ObjectDone(View(), files, main, i);
      return None;
    }
  }
}
