/** The compositor's event loop (graphics-compositor/src/main.cpp): each pass takes what clients, the
    pointer and the window list brought, redraws the whole scene, a part of it or nothing, and hands the
    change to the backend.  After every pass the scene is the whole picture of the current state, and
    after every commit the screen shows it with the pointer over it. */
module Compositor {
  import opened Geometry
  import opened Presentation
  import opened Backend
  import opened Windows
  import opened SurfaceCache
  import opened Taskbar
  import opened Scene
  import opened Damage

  const SCENE_BUFFERS := 3

  /** One queued message.  What a press does to windows and drags is a parameter: whether it asks for a
      full redraw, and the rectangle a dragged window adds. */
  datatype Message =
    | PointerMoved(x: int, y: int, dragging: bool, redrawAll: bool, dragDirt: Rect)
    | BackgroundSet(background: Background)
    | Other

  /** The kernel's window list, and its answers should a window of it be moved or resized. */
  datatype Listing = Listing(windows: seq<Window>, moves: nat -> bool, resizes: nat -> bool)

  /** What the outside world gives one pass of the event loop, in the order it is asked. */
  datatype Pass = Pass(first: seq<SurfaceCommit>, waited: seq<Message>, queued: seq<Message>, online: bool,
                       second: seq<SurfaceCommit>, list: Listing, third: seq<SurfaceCommit>, relist: Listing)

  const TOP_MARGIN := 8
  const LEAST_ROOM := 48

  /** A window listed for the first time with its lower edge below `bottom`: raised, but not above the top margin,
      and cut to the room from there, as far as the kernel consents to each. */
  function KeptAbove(w: Window, bottom: int, l: Listing): Window {
    if w.y + w.FrameHeight() <= bottom then w
    else
      var y := Max(bottom - w.FrameHeight(), TOP_MARGIN);
      var moved := if y != w.y && l.moves(w.id) then w.(y := y) else w;
      var room := bottom - moved.y - TITLE_BAR_HEIGHT - BORDER;
      if moved.height > room > LEAST_ROOM && l.resizes(w.id) then moved.(height := room) else moved
  }

  /** With the kernel's consent a window ends above the taskbar exactly when it did, or its frame fits below
      the top margin, or enough room is left there to shrink it to. */
  lemma KeptAboveExactly(w: Window, bottom: int, l: Listing)
    requires l.moves(w.id) && l.resizes(w.id)
    ensures var kept := KeptAbove(w, bottom, l);
            kept.y + kept.FrameHeight() <= bottom <==>
            w.y + w.FrameHeight() <= bottom || TOP_MARGIN + w.FrameHeight() <= bottom ||
            bottom - TOP_MARGIN - TITLE_BAR_HEIGHT - BORDER > LEAST_ROOM
  {
  }

  /** What the move and the shrinking come to, by what the kernel consents to. */
  lemma KeptAbovePlace(w: Window, bottom: int, l: Listing)
    requires w.y + w.height + 41 > bottom
    ensures var kept, above := KeptAbove(w, bottom, l), bottom - w.height - 41;
            kept == w.(y := kept.y, height := kept.height) &&
            kept.y == (if !l.moves(w.id) then w.y else if above < 8 then 8 else above) &&
            var room := bottom - kept.y - 41;
            kept.height == if w.height > room > 48 && l.resizes(w.id) then room else w.height
  {
  }

  predicate Knows(windows: seq<Window>, id: nat) {
    exists i :: 0 <= i < |windows| && windows[i].id == id
  }

  /** Windows that were not there before, and open on the screen, are kept above the taskbar. */
  function Placed(w: Window, known: seq<Window>, l: Listing, height: nat): (r: Window)
    ensures r == w.(y := r.y, height := r.height)
  {
    if Knows(known, w.id) || w.x < 0 || w.y < 0 then w else KeptAbove(w, WorkAreaBottom(height), l)
  }

  function AllPlaced(known: seq<Window>, l: Listing, height: nat): (r: seq<Window>)
    ensures |r| == |l.windows| && forall i :: 0 <= i < |r| ==> r[i] == Placed(l.windows[i], known, l, height)
  {
    seq(|l.windows|, i requires 0 <= i < |l.windows| => Placed(l.windows[i], known, l, height))
  }

  /** The windows as the compositor keeps them, once it has the list. */
  function Snapshot(windows: seq<Window>, ready: bool, l: Listing, height: nat): seq<Window> {
    if ready && l.windows == windows then l.windows else AllPlaced(windows, l, height)
  }

  lemma SnapshotDistinct(windows: seq<Window>, ready: bool, l: Listing, height: nat)
    requires DistinctWindows(l.windows)
    ensures DistinctWindows(Snapshot(windows, ready, l, height))
  {
  }

  /** A window that the snapshot had, or that lies left of the screen or above it, is taken over as listed, whatever the
      kernel answers; any other window that ends above the work area's bottom too. */
  lemma OthersStay(known: seq<Window>, ready: bool, l: Listing, height: nat, i: nat)
    requires i < |l.windows|
    requires (exists j :: 0 <= j < |known| && known[j].id == l.windows[i].id) || l.windows[i].x < 0 ||
             l.windows[i].y < 0 || l.windows[i].y + l.windows[i].height + 41 <= height - 76
    ensures |Snapshot(known, ready, l, height)| == |l.windows| && Snapshot(known, ready, l, height)[i] == l.windows[i]
  {
  }

  /** A window that is new and too low is kept above the work area's bottom. */
  lemma NewIsPlaced(known: seq<Window>, ready: bool, l: Listing, height: nat, i: nat)
    requires i < |l.windows| && forall j :: 0 <= j < |known| ==> known[j].id != l.windows[i].id
    requires l.windows[i].x >= 0 && l.windows[i].y >= 0
    ensures |Snapshot(known, ready, l, height)| == |l.windows|
    ensures Snapshot(known, ready, l, height)[i] == KeptAbove(l.windows[i], height - 76, l)
  {
    assert i < |known| ==> known[i].id != l.windows[i].id;
  }

  function Messages(pass: Pass): seq<Message> {
    if pass.first == [] then pass.waited + pass.queued else pass.queued
  }

  /** No queued message is lost or taken out of turn; the one that was waited for, because nothing had been committed,
      comes before them. */
  lemma MessagesInTurn(pass: Pass)
    ensures var taken, before := Messages(pass), if pass.first == [] then |pass.waited| else 0;
            |taken| == before + |pass.queued| && taken[before..] == pass.queued &&
            (pass.first == [] ==> taken[..before] == pass.waited)
  {
  }

  predicate AsksForAll(m: Message) {
    m.BackgroundSet? || (m.PointerMoved? && m.redrawAll)
  }

  predicate AnyAsks(messages: seq<Message>) {
    exists i :: 0 <= i < |messages| && AsksForAll(messages[i])
  }

  lemma AnyAsksNext(messages: seq<Message>, i: nat)
    requires i < |messages|
    ensures AnyAsks(messages[..i + 1]) <==> AnyAsks(messages[..i]) || AsksForAll(messages[i])
  {
    var next := messages[..i + 1];
    assert forall j :: 0 <= j < i ==> next[j] == messages[..i][j];
    assert next[i] == messages[i];
  }

  /** What messages change: the pointer, what is hovered, the wallpaper. */
  datatype Desk = Desk(cursor: Cursor, hover: Hover, tileHover: int, background: Background)

  function AfterMessage(p: Painters, windows: seq<Window>, width: nat, height: nat, desk: Desk, m: Message): Desk {
    match m
    case PointerMoved(x, y, dragging, _, _) =>
      var layout := LayoutOf(width, height, windows);
      Desk(Cursor(OnAxis(x, width), OnAxis(y, height)), HoveredControl(p, layout, windows, dragging, x, y),
           HoveredTile(layout, dragging, x, y), desk.background)
    case BackgroundSet(background) => desk.(background := background)
    case Other => desk
  }

  /** A point on the screen becomes the pointer's place unchanged; off the screen each coordinate goes to the nearest
      edge. The hover follows the point itself, and the wallpaper stays. */
  lemma PointerFollows(p: Painters, windows: seq<Window>, width: nat, height: nat, desk: Desk, m: Message)
    requires m.PointerMoved? && width > 0 && height > 0
    ensures var after := AfterMessage(p, windows, width, height, desk, m);
            (0 <= m.x < width && 0 <= m.y < height ==> after.cursor == Cursor(m.x, m.y)) &&
            after.cursor.x == (if m.x < 0 then 0 else if m.x >= width then width - 1 else m.x) &&
            after.cursor.y == (if m.y < 0 then 0 else if m.y >= height then height - 1 else m.y) &&
            after.hover == HoveredControl(p, LayoutOf(width, height, windows), windows, m.dragging, m.x, m.y) &&
            after.tileHover == HoveredTile(LayoutOf(width, height, windows), m.dragging, m.x, m.y) &&
            after.background == desk.background
  {
  }

  /** Any other message changes the wallpaper or nothing. */
  lemma OthersKeepPointer(p: Painters, windows: seq<Window>, width: nat, height: nat, desk: Desk, m: Message)
    requires !m.PointerMoved?
    ensures AfterMessage(p, windows, width, height, desk, m) ==
            if m.BackgroundSet? then Desk(desk.cursor, desk.hover, desk.tileHover, m.background) else desk
  {
  }

  function AfterMessages(p: Painters, windows: seq<Window>, width: nat, height: nat, desk: Desk,
                         messages: seq<Message>): Desk {
    if messages == [] then desk
    else
      AfterMessage(p, windows, width, height,
                   AfterMessages(p, windows, width, height, desk, messages[..|messages| - 1]),
                   messages[|messages| - 1])
  }

  lemma NoMessages(p: Painters, windows: seq<Window>, width: nat, height: nat, desk: Desk)
    ensures AfterMessages(p, windows, width, height, desk, []) == desk && !AnyAsks([])
  {
  }

  lemma MessageAfter(p: Painters, windows: seq<Window>, width: nat, height: nat, desk: Desk, messages: seq<Message>,
                     i: nat)
    requires i < |messages|
    ensures AfterMessages(p, windows, width, height, desk, messages[..i + 1]) ==
            AfterMessage(p, windows, width, height, AfterMessages(p, windows, width, height, desk, messages[..i]),
              messages[i])
  {
    hide AfterMessage;
    assert messages[..i + 1][..i] == messages[..i];
  }

  /** Whether the pass has to draw everything again. */
  predicate RedrawsAll(pass: Pass, windows: seq<Window>, ready: bool, online: bool) {
    AnyAsks(Messages(pass)) || pass.online != online ||
    !(ready && pass.list.windows == windows)
  }

  /** The cache once a pass has polled everything. */
  function PolledCache(es: seq<Entry>, windows: seq<Window>, ready: bool, pass: Pass): seq<Entry>
    requires |es| > 0
  {
    Pumped(Listed(Pumped(Pumped(es, pass.first), pass.second), windows, ready, pass.list.windows), pass.third)
  }

  /** The windows and the cache a pass ends with. */
  function AfterPass(es: seq<Entry>, windows: seq<Window>, ready: bool, online: bool, height: nat, pass: Pass)
    : (seq<Window>, seq<Entry>)
    requires |es| > 0
  {
    var polled, now := PolledCache(es, windows, ready, pass), Snapshot(windows, ready, pass.list, height);
    if RedrawsAll(pass, windows, ready, online) then
      (Snapshot(now, true, pass.relist, height), Cleaned(Listed(polled, now, true, pass.relist.windows)))
    else if pass.first != [] || pass.second != [] || pass.third != [] then (now, Cleaned(polled))
    else (now, polled)
  }

  function PolledMemory(memory: Memory, pass: Pass): Memory {
    MemoryAfter(MemoryAfter(MemoryAfter(memory, pass.first), pass.second), pass.third)
  }

  /** The cache once the pass has its window list. */
  function Listed(es: seq<Entry>, windows: seq<Window>, ready: bool, list: seq<Window>): (r: seq<Entry>)
    ensures |r| == |es|
  {
    if ready && list == windows then es else Forgotten(es, list)
  }

  ghost predicate GoodPass(es: seq<Entry>, memory: Memory, windows: seq<Window>, ready: bool, pass: Pass)
    requires |es| > 0
  {
    var es1, memory1 := Pumped(es, pass.first), MemoryAfter(memory, pass.first);
    var es2, memory2 := Pumped(es1, pass.second), MemoryAfter(memory1, pass.second);
    var es3 := Listed(es2, windows, ready, pass.list.windows);
    |pass.waited| <= 1 && DistinctWindows(pass.list.windows) && DistinctWindows(pass.relist.windows) &&
    FewSurfaces(es, pass.first) && Honest(es, memory, pass.first, windows) &&
    FewSurfaces(es1, pass.second) && Honest(es1, memory1, pass.second, windows) &&
    FewSurfaces(es3, pass.third) && Honest(es3, memory2, pass.third, pass.list.windows)
  }

  /** What one turn of the event loop hands on to the next, apart from the pictures. */
  datatype Inner = Inner(entries: seq<Entry>, memory: Memory, windows: seq<Window>, ready: bool, online: bool,
                         desk: Desk)

  /** A pass, and what the display answers at its end. */
  datatype Turn = Turn(pass: Pass, idle: bool, flipped: bool)

  function AfterTurn(p: Painters, width: nat, height: nat, s: Inner, pass: Pass): (r: Inner)
    requires |s.entries| > 0
    ensures |r.entries| == |s.entries|
  {
    var (windows, entries) := AfterPass(s.entries, s.windows, s.ready, s.online, height, pass);
    Inner(entries, PolledMemory(s.memory, pass), windows, true, pass.online,
          AfterMessages(p, s.windows, width, height, s.desk, Messages(pass)))
  }

  /** What a pass takes over: the network's state; the memory as the last commit of any of its polls found it; the
      windows of its list, or of the one it asks for again when it draws everything, but for where new ones are put.
      It draws everything exactly when a message asks for that or the network, or any window, is not as it was. After
      that, and after any commit, no damage waits. */
  lemma TurnTakesTheLatest(p: Painters, width: nat, height: nat, s: Inner, pass: Pass)
    requires |s.entries| > 0
    ensures var after, commits := AfterTurn(p, width, height, s, pass), pass.first + pass.second + pass.third;
            var whole := pass.online != s.online || !s.ready || pass.list.windows != s.windows ||
                         exists m :: m in Messages(pass) && (m.BackgroundSet? || (m.PointerMoved? && m.redrawAll));
            var latest := if whole then pass.relist.windows else pass.list.windows;
            after.online == pass.online && after.ready &&
            after.memory == (if commits == [] then s.memory else commits[|commits| - 1].memory) &&
            |after.windows| == |latest| &&
            (forall i :: 0 <= i < |latest| ==>
               after.windows[i] == latest[i].(y := after.windows[i].y, height := after.windows[i].height)) &&
            (whole || commits != [] ==> forall i :: 0 <= i < |after.entries| ==> !after.entries[i].dirty)
  {
    hide AfterMessages, PolledCache, Listed, KeptAbove, Placed;
    assert AnyAsks(Messages(pass)) <==>
           exists m :: m in Messages(pass) && (m.BackgroundSet? || (m.PointerMoved? && m.redrawAll));
  }

  function AfterTurns(p: Painters, width: nat, height: nat, s: Inner, turns: seq<Turn>): (r: Inner)
    requires |s.entries| > 0
    ensures |r.entries| == |s.entries|
    decreases |turns|
  {
    if turns == [] then s
    else
      AfterTurn(p, width, height, AfterTurns(p, width, height, s, turns[..|turns| - 1]), turns[|turns| - 1].pass)
  }

  /** Every pass is good where it comes. */
  ghost predicate GoodTurns(p: Painters, width: nat, height: nat, s: Inner, turns: seq<Turn>)
    requires |s.entries| > 0
  {
    forall i :: 0 <= i < |turns| ==>
      var before := AfterTurns(p, width, height, s, turns[..i]);
      GoodPass(before.entries, before.memory, before.windows, before.ready, turns[i].pass)
  }

  /** Outside `dirt` it makes no difference whether the old or the new hover is drawn. */
  ghost predicate HoverTracked(p: Painters, windows: seq<Window>, layout: Layout, h: Hover, t: int, h': Hover, t': int,
                               dirt: Rect)
  {
    forall x, y :: !dirt.Contains(x, y) ==> HoverAgrees(p, windows, layout, h, t, h', t', x, y)
  }

  ghost predicate Within(r: Rect, all: Rect) {
    forall x, y :: r.Contains(x, y) ==> all.Contains(x, y)
  }

  lemma HoverTrackedStep(p: Painters, windows: seq<Window>, layout: Layout, h: Hover, t: int, h1: Hover, t1: int,
                         h2: Hover, t2: int, dirt: Rect, dirt': Rect)
    requires HoverTracked(p, windows, layout, h, t, h1, t1, dirt)
    requires HoverTracked(p, windows, layout, h1, t1, h2, t2, dirt')
    requires Within(dirt, dirt')
    ensures HoverTracked(p, windows, layout, h, t, h2, t2, dirt')
  {
    forall x, y | !dirt'.Contains(x, y) ensures HoverAgrees(p, windows, layout, h, t, h2, t2, x, y) {
      HoverAgreesTransitive(p, windows, layout, h, t, h1, t1, h2, t2, x, y);
    }
  }

  /** A buffer holds the whole picture of a state, but for controls that escape their window's rectangle. */
  ghost predicate Holds(canvas: PixelBuffer, p: Painters, s: State)
    requires canvas.Valid()
    reads canvas.pixels
  {
    forall x, y :: canvas.In(x, y) && !Escapes(s.windows, x, y) ==>
      canvas.At(x, y) == SceneAt(p, s, canvas.width, canvas.height, x, y)
  }

  ghost predicate Clean(es: seq<Entry>) {
    forall i :: 0 <= i < |es| ==> !es[i].dirty
  }

  /** Keeps a coordinate on a screen of this extent. */
  function OnAxis(v: int, extent: nat): int {
    var last := if extent == 0 then 0 else extent - 1;
    if v < 0 then 0 else if v > last then last else v
  }

  class GraphicsCompositor {
    const p: Painters
    const image: CursorImage
    const width: nat
    const height: nat
    const clock: nat
    const backend: FlipBackend
    const scenes: seq<PixelBuffer>
    const cache: Cache
    var nextIndex: nat
    var current: nat
    var cursor: Cursor
    var windows: seq<Window>
    var ready: bool
    var memory: Memory
    var background: Background
    var hover: Hover
    var tileHover: int
    var online: bool

    constructor (p: Painters, image: CursorImage, clock: nat, backend: FlipBackend, scenes: seq<PixelBuffer>)
      requires Contained(p) && image.Valid() && |scenes| == SCENE_BUFFERS
      requires forall i :: 0 <= i < SCENE_BUFFERS ==>
                 scenes[i].Valid() && scenes[i].width == backend.target.width &&
                   scenes[i].height == backend.target.height &&
                 scenes[i].pixels !in backend.Memory()
      requires scenes[0].pixels != scenes[1].pixels && scenes[0].pixels != scenes[2].pixels &&
               scenes[1].pixels != scenes[2].pixels
      ensures Wired() && this.backend == backend && this.scenes == scenes && fresh(cache) && fresh(cache.entries)
      ensures forall i :: 0 <= i < MAX_SURFACES ==> cache.entries[i] == NO_ENTRY
      ensures nextIndex == 0 && !ready && windows == [] && hover == NO_HOVER && tileHover == -1
    {
      this.p, this.image, this.clock, this.backend, this.scenes := p, image, clock, backend, scenes;
      width, height := backend.target.width, backend.target.height;
      cache := new Cache();
      nextIndex, current := 0, 0;
      cursor := Cursor(backend.target.width / 2, backend.target.height / 2);
      windows, ready := [], false;
      memory := (a, k) => 0;
      background := NO_BACKGROUND;
      hover, tileHover, online := NO_HOVER, -1, false;
    }

    ghost predicate Wired() {
      Contained(p) && image.Valid() && cache.entries.Length == MAX_SURFACES && |scenes| == SCENE_BUFFERS &&
      (forall i :: 0 <= i < SCENE_BUFFERS ==>
         scenes[i].Valid() && scenes[i].width == width && scenes[i].height == height &&
         scenes[i].pixels !in backend.Memory()) &&
      scenes[0].pixels != scenes[1].pixels && scenes[0].pixels != scenes[2].pixels &&
        scenes[1].pixels != scenes[2].pixels &&
      backend.target.width == width && backend.target.height == height &&
      cache.entries as object !in backend.Memory() && cache.entries as object !in SceneMemory()
    }

    ghost function SceneMemory(): set<object> {
      if |scenes| == SCENE_BUFFERS then {scenes[0].pixels, scenes[1].pixels, scenes[2].pixels} else {}
    }

    function CurrentState(): State
      reads this, cache.entries
    {
      State(windows, cache.entries[..], memory, background, hover, tileHover, online, clock)
    }

    ghost function InnerState(): Inner
      reads this, cache.entries
    {
      Inner(cache.entries[..], memory, windows, ready, online, CurrentDesk())
    }

    ghost function CurrentDesk(): Desk
      reads this`cursor, this`hover, this`tileHover, this`background
    {
      Desk(cursor, hover, tileHover, background)
    }

    ghost function ScreenLayout(): Layout
      reads this`windows
    {
      LayoutOf(width, height, windows)
    }

    /** The backend has the current scene as it last was. */
    ghost predicate Linked()
      requires Wired()
      reads this`current, this`nextIndex, backend, backend.Memory(), SceneMemory()
    {
      current < SCENE_BUFFERS && nextIndex < SCENE_BUFFERS && backend.Valid() && backend.image == image &&
      backend.noted == scenes[current].ToPicture() && (backend.pending ==> backend.scene == scenes[current])
    }

    ghost predicate Steady()
      reads this`windows, cache.entries
    {
      DistinctWindows(windows) && Damage.Sound(cache.entries[..])
    }

    /** Between passes: the scene is the whole picture of the current state, no damage waits, and the
        backend knows the scene and the pointer. */
    ghost predicate Settled()
      reads this, cache.entries, backend, backend.Memory(), SceneMemory()
    {
      Wired() && Linked() && Steady() && backend.pointer == cursor && Clean(cache.entries[..]) &&
      Holds(scenes[current], p, CurrentState())
    }

    lemma CacheApart()
      requires Wired()
      ensures cache.entries as object !in backend.Memory() && cache.entries as object !in SceneMemory()
      ensures this as object !in backend.Memory() && this as object !in SceneMemory()
      ensures cache.entries as object != backend.target.pixels && cache.entries.Length == MAX_SURFACES
    {
    }

    // ---- the pointer -------------------------------------------------------------------------

    /** Sets both hovers from the point; what comes back also holds the pixels where either change matters. */
    method UpdateControlHover(x: int, y: int, dragging: bool, windowDirty: Rect) returns (dirt: Rect)
      requires Wired() && DistinctWindows(windows)
      modifies this`hover, this`tileHover
      ensures tileHover == HoveredTile(ScreenLayout(), dragging, x, y)
      ensures hover == HoveredControl(p, ScreenLayout(), windows, dragging, x, y)
      ensures Within(windowDirty, dirt)
      ensures HoverTracked(p, windows, ScreenLayout(), old(hover), old(tileHover), hover, tileHover, dirt)
    {
      var layout := TaskbarLayout(width, height, windows);
      var tile := HoveredTile(layout, dragging, x, y);
      dirt := windowDirty;
      if tile != tileHover {
        dirt := dirt.Unite(TileDirt(p, layout, windows, tileHover, tile));
      }
      ghost var dirt1 := dirt;
      forall px, py | !dirt.Contains(px, py)
        ensures HoverAgrees(p, windows, layout, hover, tileHover, hover, tile, px, py)
      {
        TileChangeCovered(p, windows, layout, hover, tileHover, tile, px, py);
      }
      tileHover := tile;
      var next := HoveredControl(p, layout, windows, dragging, x, y);
      if next != hover {
        dirt := dirt.Unite(HoverRect(windows, hover).Unite(HoverRect(windows, next)));
      }
      ControlStep(layout, next, dirt);
      HoverTrackedStep(p, windows, layout, old(hover), old(tileHover), hover, tile, next, tile, dirt1, dirt);
      hover := next;
    }

    lemma ControlStep(layout: Layout, next: Hover, dirt: Rect)
      requires DistinctWindows(windows)
      requires next != hover ==>
                 forall x, y :: HoverRect(windows, hover).Contains(x, y) || HoverRect(windows, next).Contains(x, y) ==>
                   dirt.Contains(x, y)
      ensures HoverTracked(p, windows, layout, hover, tileHover, next, tileHover, dirt)
    {
      forall x, y | !dirt.Contains(x, y)
        ensures HoverAgrees(p, windows, layout, hover, tileHover, next, tileHover, x, y)
      {
        ControlChangeCovered(p, windows, layout, hover, next, tileHover, x, y);
      }
    }

    /** Moves the pointer; where no full redraw is coming, tells the backend at once. */
    method HandlePointer(m: Message, fullDirty: bool, windowDirty: Rect) returns (full: bool, dirt: Rect)
      requires m.PointerMoved? && Wired() && Linked() && DistinctWindows(windows)
      requires !fullDirty ==> backend.pointer == cursor
      modifies this`hover, this`tileHover, this`cursor, backend, backend.target.pixels
      ensures backend.failed == old(backend.failed) && backend.front == old(backend.front)
      ensures Linked() && (full <==> fullDirty || m.redrawAll)
      ensures !full ==> backend.pointer == cursor
      ensures CurrentDesk() == AfterMessage(p, windows, width, height, old(CurrentDesk()), m)
      ensures Within(windowDirty, dirt)
      ensures HoverTracked(p, windows, ScreenLayout(), old(hover), old(tileHover), hover, tileHover, dirt)
    {
      hide HoverTracked, LayoutOf, Within, DistinctWindows, HoveredControl, HoveredTile,
           FlipBackend.Valid, Contained, OnAxis;
      var previous := cursor;
      cursor := Cursor(OnAxis(m.x, width), OnAxis(m.y, height));
      dirt := UpdateControlHover(m.x, m.y, m.dragging, windowDirty);
      UniteIsWider(windowDirty, dirt, m.dragDirt);
      WiderTracked(old(hover), old(tileHover), dirt, dirt.Unite(m.dragDirt));
      dirt := dirt.Unite(m.dragDirt);
      full := fullDirty || m.redrawAll;
      if !full && previous != cursor {
        TellBackend(previous);
      }
    }

    static lemma UniteIsWider(inner: Rect, r: Rect, more: Rect)
      requires Within(inner, r)
      ensures Within(r, r.Unite(more)) && Within(inner, r.Unite(more))
    {
    }

    method TellBackend(previous: Cursor)
      requires Wired() && Linked() && backend.pointer == previous
      modifies backend, backend.target.pixels
      ensures backend.failed == old(backend.failed) && backend.front == old(backend.front)
      ensures Linked() && backend.pointer == cursor
    {
      backend.PresentCursorMoved(scenes[current], previous, cursor, image);
    }

    lemma WiderTracked(h: Hover, t: int, dirt: Rect, dirt': Rect)
      requires HoverTracked(p, windows, ScreenLayout(), h, t, hover, tileHover, dirt)
      requires Within(dirt, dirt')
      ensures HoverTracked(p, windows, ScreenLayout(), h, t, hover, tileHover, dirt')
    {
    }

    method HandleMessage(m: Message, fullDirty: bool, windowDirty: Rect) returns (full: bool, dirt: Rect)
      requires Wired() && Linked() && DistinctWindows(windows)
      requires !fullDirty ==> backend.pointer == cursor
      modifies this`hover, this`tileHover, this`cursor, this`background, backend, backend.target.pixels
      ensures backend.failed == old(backend.failed) && backend.front == old(backend.front)
      ensures Linked() && (full <==> fullDirty || AsksForAll(m))
      ensures !full ==> backend.pointer == cursor
      ensures CurrentDesk() == AfterMessage(p, windows, width, height, old(CurrentDesk()), m)
      ensures Within(windowDirty, dirt)
      ensures HoverTracked(p, windows, ScreenLayout(), old(hover), old(tileHover), hover, tileHover, dirt)
    {
      match m {
        case PointerMoved(_, _, _, _, _) =>
          full, dirt := HandlePointer(m, fullDirty, windowDirty);
        case BackgroundSet(next) =>
          background := next;
          full, dirt := true, windowDirty;
        case Other =>
          full, dirt := fullDirty, windowDirty;
      }
    }

    /** The messages one after the other. */
    method DrainMessages(messages: seq<Message>) returns (full: bool, dirt: Rect)
      requires Wired() && Linked() && DistinctWindows(windows) && backend.pointer == cursor
      modifies this`hover, this`tileHover, this`cursor, this`background, backend, backend.target.pixels
      ensures backend.failed == old(backend.failed) && backend.front == old(backend.front)
      ensures Linked() && (full <==> AnyAsks(messages))
      ensures !full ==> backend.pointer == cursor && background == old(background)
      ensures CurrentDesk() == AfterMessages(p, windows, width, height, old(CurrentDesk()), messages)
      ensures HoverTracked(p, windows, ScreenLayout(), old(hover), old(tileHover), hover, tileHover, dirt)
    {
      hide Linked, HoverTracked, AfterMessage, LayoutOf, Contained, Wired, DistinctWindows, AsksForAll,
           FlipBackend.Memory, AfterMessages, ScreenLayout, SceneMemory, AnyAsks, Within;
      HoverStays();
      NoMessages(p, windows, width, height, CurrentDesk());
      assert messages[..0] == [];
      full, dirt := false, NOTHING;
      ghost var desk := CurrentDesk();
      for i := 0 to |messages|
        invariant backend.failed == old(backend.failed) && backend.front == old(backend.front)
        invariant Linked() && (full <==> AnyAsks(messages[..i]))
        invariant !full ==> backend.pointer == cursor
        invariant CurrentDesk() == AfterMessages(p, windows, width, height, desk, messages[..i])
        invariant HoverTracked(p, windows, ScreenLayout(), desk.hover, desk.tileHover, hover, tileHover, dirt)
      {
        ghost var h, t, before := hover, tileHover, dirt;
        MessageAfter(p, windows, width, height, desk, messages, i);
        AnyAsksNext(messages, i);
        full, dirt := HandleMessage(messages[i], full, dirt);
        HoverTrackedStep(p, windows, ScreenLayout(), desk.hover, desk.tileHover, h, t, hover, tileHover, before, dirt);
      }
      assert messages[..|messages|] == messages;
      if !full {
        BackgroundStays(desk, messages);
      }
    }

    lemma HoverStays()
      ensures HoverTracked(p, windows, ScreenLayout(), hover, tileHover, hover, tileHover, NOTHING)
    {
    }

    /** Without a new wallpaper the wallpaper stays. */
    lemma {:induction false} BackgroundStays(desk: Desk, messages: seq<Message>)
      requires !AnyAsks(messages)
      ensures AfterMessages(p, windows, width, height, desk, messages).background == desk.background
    {
      if messages != [] {
        BackgroundStays(desk, messages[..|messages| - 1]);
      }
    }

    // ---- surfaces and windows ----------------------------------------------------------------

    /** Polls every commit that waits. */
    method PumpSurfaceUpdates(commits: seq<SurfaceCommit>) returns (changed: bool)
      requires Wired() && Damage.Sound(cache.entries[..]) && FewSurfaces(cache.entries[..], commits)
      modifies this`memory, cache.entries
      ensures cache.entries[..] == Pumped(old(cache.entries[..]), commits)
      ensures Damage.Sound(cache.entries[..])
      ensures memory == MemoryAfter(old(memory), commits)
      ensures changed <==> commits != []
    {
      PumpKeepsSound(cache.entries[..], commits);
      PollCommits(commits);
      changed := commits != [];
    }

    method PollCommits(commits: seq<SurfaceCommit>)
      requires cache.entries.Length == MAX_SURFACES
      modifies this`memory, cache.entries
      ensures cache.entries[..] == Pumped(old(cache.entries[..]), commits)
      ensures memory == MemoryAfter(old(memory), commits)
    {
      ghost var es := cache.entries[..];
      for i := 0 to |commits|
        invariant cache.entries[..] == Pumped(es, commits[..i])
        invariant memory == MemoryAfter(old(memory), commits[..i])
      {
        assert commits[..i + 1][..i] == commits[..i];
        PumpStep(es, commits[..i + 1]);
        cache.Remember(commits[i].info);
        memory := commits[i].memory;
      }
      assert commits[..|commits|] == commits;
    }

    /** Takes the window list; says whether anything about a window changed. */
    method UpdateWindowSnapshot(l: Listing) returns (changed: bool)
      requires Wired() && Damage.Sound(cache.entries[..])
      modifies this`windows, this`ready, cache.entries
      ensures changed <==> !(old(ready) && l.windows == old(windows))
      ensures windows == Snapshot(old(windows), old(ready), l, height) && ready
      ensures cache.entries[..] == Listed(old(cache.entries[..]), old(windows), old(ready), l.windows)
      ensures Damage.Sound(cache.entries[..])
      ensures Clean(old(cache.entries[..])) ==> Clean(cache.entries[..])
    {
      var list := l.windows;
      changed := !ready || |list| != |windows|;
      if !changed {
        var i := 0;
        while i < |list| && !changed
          invariant 0 <= i <= |list|
          invariant !changed ==> forall j :: 0 <= j < i ==> list[j] == windows[j]
          invariant changed ==> list != windows
        {
          changed := list[i] != windows[i];
          i := i + 1;
        }
      }
      if changed {
        list := LogNewWindows(l);
        ForgetKeepsSound(cache.entries[..], list);
        PlacingKeepsShown(cache.entries[..], windows, l, height);
        cache.ForgetUnshown(list);
      }
      windows, ready := list, true;
    }

    /** The list with its new windows kept above the taskbar. */
    method LogNewWindows(l: Listing) returns (list: seq<Window>)
      ensures list == AllPlaced(windows, l, height)
    {
      list := l.windows;
      for i := 0 to |list|
        invariant |list| == |l.windows| && forall j :: i <= j < |list| ==> list[j] == l.windows[j]
        invariant forall j :: 0 <= j < i ==> list[j] == Placed(l.windows[j], windows, l, height)
      {
        var known := false;
        for j := 0 to |windows|
          invariant known <==> exists k :: 0 <= k < j && windows[k].id == list[i].id
        {
          known := known || windows[j].id == list[i].id;
        }
        if !known && list[i].x >= 0 && list[i].y >= 0 {
          var kept := KeepAboveTaskbar(list[i], l);
          list := list[i := kept];
        }
      }
    }

    method KeepAboveTaskbar(window: Window, l: Listing) returns (kept: Window)
      ensures kept == KeptAbove(window, WorkAreaBottom(height), l)
    {
      kept := window;
      var bottom := WorkAreaBottom(height);
      if window.y + window.FrameHeight() <= bottom {
        return;
      }
      var y := bottom - window.FrameHeight();
      if y < TOP_MARGIN {
        y := TOP_MARGIN;
      }
      if y != window.y && l.moves(window.id) {
        kept := kept.(y := y);
      }
      var room := bottom - kept.y - TITLE_BAR_HEIGHT - BORDER;
      if kept.height > room && room > LEAST_ROOM && l.resizes(window.id) {
        kept := kept.(height := room);
      }
    }

    /** Moving windows up does not change which surfaces are shown. */
    static lemma PlacingKeepsShown(es: seq<Entry>, known: seq<Window>, l: Listing, height: nat)
      ensures Forgotten(es, AllPlaced(known, l, height)) == Forgotten(es, l.windows)
    {
      var placed := AllPlaced(known, l, height);
      forall id ensures Shown(placed, id) <==> Shown(l.windows, id) {
        if Shown(l.windows, id) {
          var i :| 0 <= i < |l.windows| && l.windows[i].surfaceId == id;
          assert placed[i].surfaceId == id;
        }
        if Shown(placed, id) {
          var i :| 0 <= i < |placed| && placed[i].surfaceId == id;
          assert l.windows[i].surfaceId == id;
        }
      }
      forall i | 0 <= i < |es| ensures Aged(es[i], placed) == Aged(es[i], l.windows) {
      }
    }

    static lemma ForgetKeepsSound(es: seq<Entry>, list: seq<Window>)
      requires Damage.Sound(es)
      ensures Damage.Sound(Forgotten(es, list)) && (Clean(es) ==> Clean(Forgotten(es, list)))
    {
      var after := Forgotten(es, list);
      assert forall i :: 0 <= i < |es| ==> after[i].dirty ==> es[i].dirty && after[i].area == es[i].area;
      assert forall i :: 0 <= i < |es| && after[i].valid ==> es[i].valid && after[i].id == es[i].id;
    }

    // ---- redrawing ---------------------------------------------------------------------------

    /** The whole scene into the next buffer. */
    method RedrawFullScene(relist: Listing)
      requires Wired() && backend.Valid() && nextIndex < SCENE_BUFFERS && Damage.Sound(cache.entries[..]) &&
               DistinctWindows(relist.windows)
      modifies this`nextIndex, this`current, this`windows, this`ready, cache.entries, backend, backend.target.pixels,
               SceneMemory()
      ensures backend.failed == old(backend.failed) && backend.front == old(backend.front)
      ensures Settled() && windows == Snapshot(old(windows), old(ready), relist, height) && ready
      ensures !backend.failed ==> backend.pending
      ensures cache.entries[..] == Cleaned(Listed(old(cache.entries[..]), old(windows), old(ready), relist.windows))
    {
      hide FlipBackend.Valid, Linked, Steady, Damage.Sound, DistinctWindows, Contained, Listed, Cleaned, Holds, Wired,
           Settled, Clean, Snapshot;
      var at := nextIndex;
      CacheApart();
      SceneApart(at);
      nextIndex := (nextIndex + 1) % SCENE_BUFFERS;
      DrawWhole(at, relist);
      ClearDamage(scenes[at]);
      PresentWhole(at);
      AllSettled();
    }

    lemma SceneApart(at: nat)
      requires Wired() && at < SCENE_BUFFERS
      ensures |scenes| == SCENE_BUFFERS && scenes[at].Valid()
      ensures scenes[at].width == width && scenes[at].height == height
      ensures scenes[at].pixels in SceneMemory() && scenes[at].pixels !in backend.Memory()
      ensures scenes[at].pixels != backend.target.pixels && scenes[at].pixels as object != cache.entries
      ensures cache.entries as object !in backend.Memory() && cache.entries as object != backend.target.pixels
    {
    }

    lemma AllSettled()
      requires Wired() && Linked() && Steady() && backend.pointer == cursor && Clean(cache.entries[..])
      requires Holds(scenes[current], p, CurrentState())
      ensures Settled()
    {
    }

    /** Draws everything into one scene buffer, from a fresh window list. */
    method DrawWhole(at: nat, relist: Listing)
      requires Wired() && at < SCENE_BUFFERS && Damage.Sound(cache.entries[..]) && DistinctWindows(relist.windows)
      modifies this`windows, this`ready, cache.entries, scenes[at].pixels
      ensures windows == Snapshot(old(windows), old(ready), relist, height)
      ensures Steady() && ready && Holds(scenes[at], p, CurrentState())
      ensures cache.entries[..] == Listed(old(cache.entries[..]), old(windows), old(ready), relist.windows)
    {
      SnapshotDistinct(windows, ready, relist, height);
      var _ := UpdateWindowSnapshot(relist);
      RedrawScene(scenes[at], p, CurrentState());
    }

    /** Shows a freshly drawn buffer. */
    method PresentWhole(at: nat)
      requires Wired() && at < SCENE_BUFFERS && nextIndex < SCENE_BUFFERS && backend.Valid()
      modifies this`current, backend, backend.target.pixels
      ensures backend.failed == old(backend.failed) && backend.front == old(backend.front)
      ensures Linked() && backend.pointer == cursor && current == at && (!backend.failed ==> backend.pending)
    {
      current := at;
      backend.PresentFull(scenes[at], cursor, image);
    }

    /** The damage flags go; a buffer that holds the picture still does. */
    method ClearDamage(canvas: PixelBuffer)
      requires Wired() && Steady() && canvas.Valid() && canvas.width == width && canvas.height == height
      modifies cache.entries
      ensures Steady() && Clean(cache.entries[..]) && cache.entries[..] == Cleaned(old(cache.entries[..]))
      ensures old(Holds(canvas, p, CurrentState())) ==> Holds(canvas, p, CurrentState())
    {
      ghost var s := CurrentState();
      StateCleaned(s);
      CleanedIsClean(cache.entries[..]);
      cache.ClearDirtyFlags();
      assert CurrentState() == s.(surfaces := Cleaned(s.surfaces));
    }

    static lemma CleanedIsClean(es: seq<Entry>)
      requires Damage.Sound(es)
      ensures Clean(Cleaned(es)) && Damage.Sound(Cleaned(es))
    {
      assert forall i :: 0 <= i < |es| ==> Cleaned(es)[i].valid == es[i].valid && Cleaned(es)[i].id == es[i].id;
    }

    /** Clearing the damage flags does not change the picture. */
    lemma StateCleaned(s: State)
      requires Contained(p) && DistinctIds(s.surfaces)
      ensures DistinctIds(Cleaned(s.surfaces))
      ensures forall x, y :: SceneAt(p, s.(surfaces := Cleaned(s.surfaces)), width, height, x, y) == SceneAt(p, s,
              width, height, x, y)
    {
      var s' := s.(surfaces := Cleaned(s.surfaces));
      CleanedLooksTheSame(s.surfaces, s.memory, 0, 0, 0);
      forall x, y ensures SceneAt(p, s', width, height, x, y) == SceneAt(p, s, width, height, x, y) {
        forall w: Window | w in s.windows && w.Visible() && ContentRect(w).Contains(x, y)
          ensures ViewAt(s, w, x, y) == ViewAt(s', w, x, y)
        {
          CleanedLooksTheSame(s.surfaces, s.memory, w.surfaceId, x - (w.x + BORDER), y - (w.y + TITLE_BAR_HEIGHT));
        }
        SamePixel(p, s, s', width, height, x, y);
      }
    }

    /** The current scene is the whole picture but in a rectangle. */
    ghost predicate HoldsOutside(dirt: Rect)
      requires Wired() && current < SCENE_BUFFERS
      reads this, cache.entries, SceneMemory()
    {
      forall x, y :: scenes[current].In(x, y) && !Escapes(windows, x, y) && !dirt.Contains(x, y) ==>
        scenes[current].At(x, y) == SceneAt(p, CurrentState(), width, height, x, y)
    }

    lemma CurrentApart()
      requires Wired() && Linked()
      ensures current < SCENE_BUFFERS == |scenes| && scenes[current].pixels in SceneMemory()
      ensures backend.Takes(scenes[current]) && scenes[current].width == width && scenes[current].height == height
      ensures backend.target.width == width && backend.target.height == height
      ensures scenes[current].pixels !in backend.Memory() && scenes[current].pixels != backend.target.pixels
      ensures scenes[current].pixels as object != cache.entries && scenes[current].Valid()
    {
    }

    /** A scene that is right outside an empty rectangle is right. */
    lemma NothingLeft(dirt: Rect)
      requires Wired() && Linked() && Steady() && backend.pointer == cursor && Clean(cache.entries[..])
      requires HoldsOutside(dirt) && dirt.Empty()
      ensures Settled()
    {
      EmptyHoldsNothing(dirt);
    }

    lemma ClampedIsEnough(dirt: Rect)
      requires Wired() && current < SCENE_BUFFERS && HoldsOutside(dirt)
      ensures HoldsOutside(ClampRect(dirt, width, height))
    {
    }

    /** Paints the part; the backend still has the scene as it was outside. */
    method PaintPart(dirt: Rect)
      requires Wired() && Linked() && Steady() && backend.pointer == cursor && Clean(cache.entries[..])
      requires HoldsOutside(dirt)
      modifies scenes[current].pixels
      ensures Steady() && Clean(cache.entries[..]) && Holds(scenes[current], p, CurrentState())
      ensures nextIndex < SCENE_BUFFERS && backend.Valid() && backend.image == image
      ensures IsPicture(backend.noted, width, height)
      ensures SameOutside(backend.noted, scenes[current].ToPicture(), dirt, width, height)
    {
      hide FlipBackend.Valid;
      RedrawSceneRect(scenes[current], p, CurrentState(), dirt);
    }

    lemma PresentedIsSettled()
      requires Wired() && current < SCENE_BUFFERS && nextIndex < SCENE_BUFFERS && backend.Valid() && Steady()
      requires backend.image == image && backend.pointer == cursor && Clean(cache.entries[..])
      requires backend.noted == scenes[current].ToPicture() && (!backend.failed ==> backend.scene == scenes[current])
      requires Holds(scenes[current], p, CurrentState())
      ensures Settled()
    {
    }

    /** A part of the scene in place. */
    method RedrawDirtyRect(windowDirty: Rect)
      requires Wired() && Linked() && Steady() && backend.pointer == cursor && Clean(cache.entries[..])
      requires HoldsOutside(windowDirty)
      modifies scenes[current].pixels, backend, backend.target.pixels
      ensures backend.failed == old(backend.failed) && backend.front == old(backend.front)
      ensures Settled()
    {
      hide Linked, Wired, Steady, Clean, Holds, HoldsOutside, Settled, FlipBackend.Memory, SceneMemory;
      CurrentApart();
      var dirt := ClampRect(windowDirty, width, height);
      ClampedIsEnough(windowDirty);
      if dirt.Empty() {
        NothingLeft(dirt);
        return;
      }
      PaintPart(dirt);
      backend.PresentRect(scenes[current], dirt, cursor, image);
      PresentedIsSettled();
    }

    // ---- one pass ----------------------------------------------------------------------------

    /** What the pass starts from, as far as hover, surfaces and setting are concerned, is what there is
        now, but for the hover inside `dirt` and the surfaces where the cache notes damage. */
    ghost predicate FollowsFrom(s: State, dirt: Rect)
      reads this, cache.entries
    {
      SameSetting(s, CurrentState()) && HoverTracked(p, windows, ScreenLayout(), s.hover, s.tileHover, hover,
        tileHover, dirt) &&
      forall w: Window :: w in windows && w.Visible() ==>
        Tracked(s.surfaces, s.memory, cache.entries[..], memory, w.surfaceId)
    }

    /** When the window list stays the same, three polls of honest clients leave every shown surface
        looking as before but where damage is noted. */
    static lemma PassTracked(es: seq<Entry>, memory: Memory, windows: seq<Window>, pass: Pass, w: Window)
      requires Damage.Sound(es) && GoodPass(es, memory, windows, true, pass) && pass.list.windows == windows
      requires w in windows && w.Visible()
      ensures var es1, memory1 := Pumped(es, pass.first), MemoryAfter(memory, pass.first);
              var es2, memory2 := Pumped(es1, pass.second), MemoryAfter(memory1, pass.second);
              Tracked(es, memory, Pumped(es2, pass.third), MemoryAfter(memory2, pass.third), w.surfaceId)
    {
      var es1, memory1 := Pumped(es, pass.first), MemoryAfter(memory, pass.first);
      var es2, memory2 := Pumped(es1, pass.second), MemoryAfter(memory1, pass.second);
      PumpKeepsSound(es, pass.first);
      PumpKeepsSound(es1, pass.second);
      PumpKeepsTracked(es, memory, es, memory, pass.first, windows, w);
      PumpKeepsTracked(es, memory, es1, memory1, pass.second, windows, w);
      PumpKeepsTracked(es, memory, es2, memory2, pass.third, windows, w);
    }

    static lemma AllTracked(es: seq<Entry>, memory: Memory, windows: seq<Window>, pass: Pass)
      requires Damage.Sound(es) && GoodPass(es, memory, windows, true, pass) && pass.list.windows == windows
      ensures forall w: Window :: w in windows && w.Visible() ==>
                Tracked(es, memory, PolledCache(es, windows, true, pass), PolledMemory(memory, pass), w.surfaceId)
    {
      assert |es| > 0;
      hide Tracked, Pumped, MemoryAfter, Damage.Sound, GoodPass;
      forall w: Window | w in windows && w.Visible()
        ensures Tracked(es, memory, PolledCache(es, windows, true, pass), PolledMemory(memory, pass), w.surfaceId)
      {
        PassTracked(es, memory, windows, pass, w);
      }
    }

    /** The window list, and the commits around it. */
    method TakeWindows(second: seq<SurfaceCommit>, list: Listing, third: seq<SurfaceCommit>)
      returns (changed: bool, surfaceDirty: bool)
      requires Wired() && Linked() && Damage.Sound(cache.entries[..])
      requires FewSurfaces(cache.entries[..], second)
      requires FewSurfaces(Listed(Pumped(cache.entries[..], second), windows, ready, list.windows), third)
      modifies this`memory, this`windows, this`ready, cache.entries
      ensures Linked() && (changed <==> !(old(ready) && list.windows == old(windows)))
      ensures surfaceDirty <==> second != [] || third != []
      ensures windows == Snapshot(old(windows), old(ready), list, height) && ready
      ensures memory == MemoryAfter(MemoryAfter(old(memory), second), third)
      ensures cache.entries[..] == Pumped(Listed(Pumped(old(cache.entries[..]), second), old(windows), old(ready),
              list.windows), third)
      ensures Damage.Sound(cache.entries[..])
    {
      hide Linked, Pumped, Listed, Snapshot, FewSurfaces, Damage.Sound, MemoryAfter;
      surfaceDirty := PumpSurfaceUpdates(second);
      changed := UpdateWindowSnapshot(list);
      var more := PumpSurfaceUpdates(third);
      surfaceDirty := surfaceDirty || more;
    }

    /** Commits and queued messages, before the window list is looked at. */
    method TakeMessages(pass: Pass) returns (full: bool, surfaceDirty: bool, dirt: Rect)
      requires Wired() && Linked() && Steady() && backend.pointer == cursor
      requires FewSurfaces(cache.entries[..], pass.first)
      modifies this`hover, this`tileHover, this`cursor, this`background, this`online, this`memory,
        cache.entries, backend, backend.target.pixels
      ensures backend.failed == old(backend.failed) && backend.front == old(backend.front)
      ensures Linked() && Damage.Sound(cache.entries[..])
      ensures cache.entries[..] == Pumped(old(cache.entries[..]), pass.first)
      ensures memory == MemoryAfter(old(memory), pass.first)
      ensures surfaceDirty <==> pass.first != []
      ensures full <==> pass.online != old(online) || AnyAsks(Messages(pass))
      ensures !full ==> backend.pointer == cursor && background == old(background) && online == old(online)
      ensures online == pass.online
      ensures CurrentDesk() == AfterMessages(p, windows, width, height, old(CurrentDesk()), Messages(pass))
      ensures HoverTracked(p, windows, ScreenLayout(), old(hover), old(tileHover), hover, tileHover, dirt)
    {
      hide Linked, HoverTracked, FewSurfaces, Pumped, MemoryAfter, Contained, Damage.Sound, Messages, LayoutOf,
           ScreenLayout, AfterMessages, AsksForAll, FlipBackend.Valid;
      surfaceDirty := PumpSurfaceUpdates(pass.first);
      full, dirt := DrainMessages(Messages(pass));
      if pass.online != online {
        online := pass.online;
        full := true;
      }
    }

    /** Takes in all that a pass brings, and finds whether everything has to be redrawn and, if not, where. */
    method Collect(pass: Pass) returns (full: bool, surfaceDirty: bool, dirt: Rect)
      requires Settled() && GoodPass(cache.entries[..], memory, windows, ready, pass)
      modifies this`hover, this`tileHover, this`cursor, this`background, this`online, this`memory
      modifies this`windows, this`ready, cache.entries, backend, backend.target.pixels
      ensures backend.failed == old(backend.failed) && backend.front == old(backend.front)
      ensures Linked() && Steady() && (full <==> RedrawsAll(pass, old(windows), old(ready), old(online)))
      ensures !full ==> backend.pointer == cursor && FollowsFrom(old(CurrentState()), dirt)
      ensures !full && !surfaceDirty ==> Clean(cache.entries[..])
      ensures surfaceDirty <==> pass.first != [] || pass.second != [] || pass.third != []
      ensures cache.entries[..] == PolledCache(old(cache.entries[..]), old(windows), old(ready), pass)
      ensures memory == PolledMemory(old(memory), pass) && online == pass.online && ready
      ensures windows == Snapshot(old(windows), old(ready), pass.list, height)
      ensures CurrentDesk() == AfterMessages(p, old(windows), width, height, old(CurrentDesk()), Messages(pass))
    {
      hide Linked, HoverTracked, FewSurfaces, Honest, MemoryAfter, Contained, Damage.Sound, LayoutOf,
           ScreenLayout, Tracked, Forgotten, AfterMessages, AsksForAll, Messages, FlipBackend.Valid, Wired, Snapshot,
           Holds, DistinctWindows, Pumped, Listed, FollowsFrom, SceneMemory, FlipBackend.Memory;
      ghost var s := CurrentState();
      CacheApart();
      full, surfaceDirty, dirt := TakeMessages(pass);
      SnapshotDistinct(windows, ready, pass.list, height);
      var changed, more := TakeWindows(pass.second, pass.list, pass.third);
      full, surfaceDirty := full || changed, surfaceDirty || more;
      if !full {
        NothingNew(s.surfaces, s.windows, pass, height);
        hide GoodPass;
        StillFollows(s, pass, dirt);
      }
    }

    /** With the list as it was the snapshot is, and without a commit the cache is too. */
    static lemma NothingNew(es: seq<Entry>, windows: seq<Window>, pass: Pass, height: nat)
      requires |es| > 0 && pass.list.windows == windows
      ensures Snapshot(windows, true, pass.list, height) == windows
      ensures pass.first == [] && pass.second == [] && pass.third == [] ==> PolledCache(es, windows, true, pass) == es
    {
    }

    lemma StillFollows(s: State, pass: Pass, dirt: Rect)
      requires SameSetting(s, CurrentState()) && Damage.Sound(s.surfaces) && pass.list.windows == windows
      requires GoodPass(s.surfaces, s.memory, windows, true, pass)
      requires cache.entries[..] == PolledCache(s.surfaces, windows, true, pass) &&
               memory == PolledMemory(s.memory, pass)
      requires HoverTracked(p, windows, ScreenLayout(), s.hover, s.tileHover, hover, tileHover, dirt)
      ensures FollowsFrom(s, dirt)
    {
      AllTracked(s.surfaces, s.memory, windows, pass);
    }

    /** Outside the damage of hover and surfaces the current picture is the one the pass started from. */
    lemma OutsideDamageNothingChanged(s: State, dirt: Rect, x: int, y: int)
      requires Contained(p) && FollowsFrom(s, dirt) && Damage.Sound(cache.entries[..])
      requires !dirt.Contains(x, y) && !SceneDirt(windows, cache.entries[..]).Contains(x, y)
      ensures SceneAt(p, s, width, height, x, y) == SceneAt(p, CurrentState(), width, height, x, y)
    {
      DirtCoversViews(s, CurrentState(), x, y);
      SamePixel(p, s, CurrentState(), width, height, x, y);
    }

    /** Redraws no more than what hover and surfaces damaged. */
    method RedrawChanges(ghost s: State, surfaceDirty: bool, windowDirty: Rect)
      requires Wired() && Linked() && Steady() && backend.pointer == cursor && FollowsFrom(s, windowDirty)
      requires Holds(scenes[current], p, s)
      requires !surfaceDirty ==> Clean(cache.entries[..])
      modifies cache.entries, scenes[current].pixels, backend, backend.target.pixels
      ensures backend.failed == old(backend.failed) && backend.front == old(backend.front)
      ensures Settled()
      ensures cache.entries[..] == if surfaceDirty then Cleaned(old(cache.entries[..])) else old(cache.entries[..])
    {
      hide Linked, Wired, Steady, FollowsFrom, Holds, HoldsOutside, Settled, Clean, Cleaned, FlipBackend.Memory,
           SceneMemory;
      CacheApart();
      CurrentApart();
      var dirt := windowDirty;
      if surfaceDirty {
        dirt := TakeSurfaceDirt(s, windowDirty);
      } else {
        HoverDamageOnly(s, dirt);
      }
      if !dirt.Empty() {
        RedrawDirtyRect(dirt);
      } else {
        NothingLeft(dirt);
      }
    }

    /** Without surface damage the scene is right outside the hover's. */
    lemma HoverDamageOnly(s: State, dirt: Rect)
      requires Wired() && Linked() && Steady() && FollowsFrom(s, dirt) && Clean(cache.entries[..])
      requires Holds(scenes[current], p, s)
      ensures HoldsOutside(dirt)
    {
      NoDirtWhenClean(windows, cache.entries[..]);
      forall x, y | scenes[current].In(x, y) && !Escapes(windows, x, y) && !dirt.Contains(x, y)
        ensures scenes[current].At(x, y) == SceneAt(p, CurrentState(), width, height, x, y)
      {
        OutsideDamageNothingChanged(s, dirt, x, y);
      }
    }

    static lemma {:induction false} NoDirtWhenClean(windows: seq<Window>, es: seq<Entry>)
      requires Clean(es)
      ensures SceneDirt(windows, es) == NOTHING
    {
      if windows != [] {
        NoDirtWhenClean(windows[..|windows| - 1], es);
      }
    }

    /** The scene is right outside the hover's damage and what the shown surfaces note. */
    lemma SurfaceDamageOnly(s: State, windowDirty: Rect)
      requires Wired() && Linked() && Steady() && FollowsFrom(s, windowDirty)
      requires Holds(scenes[current], p, s)
      ensures forall x, y ::
                (scenes[current].In(x, y) && !Escapes(windows, x, y) && !windowDirty.Contains(x, y) &&
                 !ClampRect(SceneDirt(windows, cache.entries[..]), width, height).Contains(x, y)) ==>
                  scenes[current].At(x, y) == SceneAt(p, CurrentState(), width, height, x, y)
    {
      forall x, y | scenes[current].In(x, y) && !Escapes(windows, x, y) && !windowDirty.Contains(x, y) &&
                    !ClampRect(SceneDirt(windows, cache.entries[..]), width, height).Contains(x, y)
        ensures scenes[current].At(x, y) == SceneAt(p, CurrentState(), width, height, x, y)
      {
        OutsideDamageNothingChanged(s, windowDirty, x, y);
      }
    }

    method TakeSurfaceDirt(ghost s: State, windowDirty: Rect) returns (dirt: Rect)
      requires Wired() && Linked() && Steady() && FollowsFrom(s, windowDirty)
      requires Holds(scenes[current], p, s)
      modifies cache.entries
      ensures Linked() && Steady() && Clean(cache.entries[..]) && HoldsOutside(dirt)
      ensures cache.entries[..] == Cleaned(old(cache.entries[..]))
    {
      hide Contained, FollowsFrom, Holds, FlipBackend.Valid, SceneAt, SceneDirt;
      ghost var damaged := CurrentState();
      SurfaceDamageOnly(s, windowDirty);
      StateCleaned(damaged);
      CleanedIsClean(cache.entries[..]);
      var r := cache.ConsumeDirtyRect(windows, width, height);
      dirt := windowDirty.Unite(r);
      assert CurrentState() == damaged.(surfaces := Cleaned(damaged.surfaces));
    }

    lemma SettledParts()
      requires Settled()
      ensures Wired() && current < SCENE_BUFFERS && Holds(scenes[current], p, CurrentState())
      ensures scenes[current].pixels !in backend.Memory() && scenes[current].pixels as object != cache.entries
      ensures scenes[current].pixels in SceneMemory() && scenes[current].pixels != backend.target.pixels
    {
    }

    lemma StateParts()
      requires Settled()
      ensures CurrentState().windows == windows && CurrentState().surfaces == cache.entries[..]
      ensures cache.entries.Length > 0 && this as object !in SceneMemory()
    {
    }

    lemma GoodRelist(pass: Pass)
      requires cache.entries.Length > 0 && GoodPass(cache.entries[..], memory, windows, ready, pass)
      ensures DistinctWindows(pass.relist.windows)
    {
    }

    /** One pass of the event loop: whichever way it redraws, the scene is then the whole picture of what
        there is now. */
    method RunOnce(pass: Pass)
      requires Settled() && GoodPass(cache.entries[..], memory, windows, ready, pass)
      modifies this, cache.entries, backend, backend.target.pixels, SceneMemory()
      ensures backend.failed == old(backend.failed) && backend.front == old(backend.front)
      ensures Settled() && ready
      ensures memory == PolledMemory(old(memory), pass) && online == pass.online
      ensures CurrentDesk() == AfterMessages(p, old(windows), width, height, old(CurrentDesk()), Messages(pass))
      ensures (windows, cache.entries[..]) == AfterPass(old(cache.entries[..]), old(windows), old(ready), old(online),
              height, pass)
    {
      hide *;
      SettledParts();
      StateParts();
      GoodRelist(pass);
      ghost var s := CurrentState();
      ghost var wasReady, wasOnline := ready, online;
      var full, surfaceDirty, dirt := Collect(pass);
      ShowPass(s, wasReady, wasOnline, full, surfaceDirty, dirt, pass);
    }

    /** The redraw a pass ends with, and what it leaves. */
    method ShowPass(ghost s: State, ghost wasReady: bool, ghost wasOnline: bool, full: bool, surfaceDirty: bool,
                    dirt: Rect, pass: Pass)
      requires Wired() && Linked() && Steady() && DistinctWindows(pass.relist.windows) && ready
      requires !full ==> backend.pointer == cursor && FollowsFrom(s, dirt) && Holds(scenes[current], p, s)
      requires !full && !surfaceDirty ==> Clean(cache.entries[..])
      requires |s.surfaces| > 0 && windows == Snapshot(s.windows, wasReady, pass.list, height)
      requires cache.entries[..] == PolledCache(s.surfaces, s.windows, wasReady, pass)
      requires full <==> RedrawsAll(pass, s.windows, wasReady, wasOnline)
      requires surfaceDirty <==> pass.first != [] || pass.second != [] || pass.third != []
      modifies this`nextIndex, this`current, this`windows, this`ready, cache.entries, backend, backend.target.pixels,
               SceneMemory()
      ensures backend.failed == old(backend.failed) && backend.front == old(backend.front)
      ensures Settled() && ready
      ensures (windows, cache.entries[..]) == AfterPass(s.surfaces, s.windows, wasReady, wasOnline, height, pass)
    {
      hide Settled, Linked, Wired, Steady, FollowsFrom, DistinctWindows, PolledCache, Listed, Cleaned, Holds,
           RedrawsAll, Snapshot, Clean, AfterPass;
      PassOutcome(s.surfaces, s.windows, wasReady, wasOnline, height, pass);
      Redraw(s, full, surfaceDirty, dirt, pass.relist);
    }

    /** What a pass ends with, branch by branch. */
    static lemma PassOutcome(es: seq<Entry>, windows: seq<Window>, ready: bool, online: bool, height: nat, pass: Pass)
      requires |es| > 0
      ensures var polled, now := PolledCache(es, windows, ready, pass), Snapshot(windows, ready, pass.list, height);
              var committed := pass.first != [] || pass.second != [] || pass.third != [];
              AfterPass(es, windows, ready, online, height, pass) ==
              if RedrawsAll(pass, windows, ready, online) then
                (Snapshot(now, true, pass.relist, height), Cleaned(Listed(polled, now, true, pass.relist.windows)))
              else (now, if committed then Cleaned(polled) else polled)
    {
      hide Snapshot, PolledCache, RedrawsAll, Cleaned, Listed;
    }

    /** The whole scene, what changed of it, or nothing. */
    method Redraw(ghost s: State, full: bool, surfaceDirty: bool, dirt: Rect, relist: Listing)
      requires Wired() && Linked() && Steady() && DistinctWindows(relist.windows)
      requires !full ==> backend.pointer == cursor && FollowsFrom(s, dirt) && Holds(scenes[current], p, s)
      requires !full && !surfaceDirty ==> Clean(cache.entries[..])
      modifies this`nextIndex, this`current, this`windows, this`ready, cache.entries, backend, backend.target.pixels,
               SceneMemory()
      ensures backend.failed == old(backend.failed) && backend.front == old(backend.front)
      ensures Settled() && (old(ready) ==> ready)
      ensures if full then windows == Snapshot(old(windows), old(ready), relist, height) &&
              cache.entries[..] == Cleaned(Listed(old(cache.entries[..]), old(windows), old(ready), relist.windows))
              else windows == old(windows) &&
                   cache.entries[..] == if surfaceDirty then Cleaned(old(cache.entries[..])) else old(cache.entries[..])
    {
      assert current < SCENE_BUFFERS && nextIndex < SCENE_BUFFERS && backend.Valid();
      hide Linked, FlipBackend.Valid, FollowsFrom, Damage.Sound, DistinctWindows, Contained, Listed, Cleaned;
      if full {
        RedrawFullScene(relist);
      } else {
        RedrawChanges(s, surfaceDirty, dirt);
      }
    }

    // ---- the screen --------------------------------------------------------------------------

    /** What the first turn starts from, with this window list. */
    ghost function Started(list: Listing): (s: Inner)
      reads this, cache.entries
      ensures |s.entries| == cache.entries.Length
    {
      InnerState().(entries := Cleaned(Listed(cache.entries[..], windows, ready, list.windows)),
                    windows := Snapshot(windows, ready, list, height), ready := true)
    }

    /** The first picture, before the event loop: a full redraw, with no damage to clear yet. */
    method RenderInitialScene(list: Listing, idle: bool, flipped: bool)
      requires Wired() && backend.Valid() && nextIndex < SCENE_BUFFERS && DistinctWindows(list.windows)
      requires forall i :: 0 <= i < MAX_SURFACES ==> cache.entries[i] == NO_ENTRY
      modifies this`nextIndex, this`current, this`windows, this`ready, cache.entries, backend, backend.Memory(),
               SceneMemory()
      ensures Settled() && Presenting() && OnScreen()
      ensures InnerState() == old(Started(list))
    {
      hide Settled, OnScreen, Presenting, Wired, FlipBackend.Valid, Listed, Cleaned, Snapshot, Damage.Sound;
      CacheApart();
      FreshCacheIsSound(cache.entries[..]);
      RedrawFullScene(list);
      CommitPass(idle, flipped);
    }

    static lemma FreshCacheIsSound(es: seq<Entry>)
      requires |es| > 0 && forall i :: 0 <= i < |es| ==> es[i] == NO_ENTRY
      ensures Damage.Sound(es)
    {
    }

    /** The backend waits for nothing and shows a picture of ours. */
    ghost predicate Presenting()
      reads backend
    {
      !backend.pending && (backend.failed || backend.front < 2)
    }

    /** What the user sees, at every pixel where no control escapes its window's rectangle, is the whole
        picture of the current state with the pointer blended at its current place.  None escapes from a
        window of a hundred and three pixels or more. */
    ghost predicate OnScreen()
      requires Wired() && backend.Shape() && (backend.failed || backend.front < 2)
      reads this, cache.entries, backend, backend.Memory()
    {
      var shown := if backend.failed then backend.target else backend.buffers[backend.front];
      forall x, y :: shown.In(x, y) && !Escapes(windows, x, y) ==>
        shown.At(x, y) == Composed(SceneAt(p, CurrentState(), width, height, x, y), cursor, image, x, y)
    }

    /** The end of a pass: the backend shows what it collected. */
    method CommitPass(idle: bool, flipped: bool)
      requires Settled() && (backend.pending || backend.failed || backend.front < 2)
      modifies backend, backend.Memory()
      ensures Settled() && Presenting()
      ensures OnScreen()
    {
      CommitBackend(idle, flipped);
      ShownIsCurrent();
    }

    method CommitBackend(idle: bool, flipped: bool)
      requires Settled() && (backend.pending || backend.failed || backend.front < 2)
      modifies backend, backend.Memory()
      ensures Settled() && Presenting() && backend.OnScreen()
    {
      hide FlipBackend.Valid, FlipBackend.OnScreen, FlipBackend.Seen;
      backend.Commit(idle, flipped);
    }

    lemma ShownIsCurrent()
      requires Settled() && Presenting() && backend.OnScreen()
      ensures OnScreen()
    {
      var shown := if backend.failed then backend.target else backend.buffers[backend.front];
      forall x, y | shown.In(x, y) && !Escapes(windows, x, y)
        ensures shown.At(x, y) == Composed(SceneAt(p, CurrentState(), width, height, x, y), cursor, image, x, y)
      {
        assert scenes[current].In(x, y);
        assert backend.noted[y][x] == SceneAt(p, CurrentState(), width, height, x, y);
      }
    }

    /** One turn of the event loop.  Whatever happened and whatever the display answered, the user sees
        the whole current picture; at every pixel, unless a narrow window's control escapes. */
    method EventLoopTurn(pass: Pass, idle: bool, flipped: bool)
      requires Settled() && Presenting() && GoodPass(cache.entries[..], memory, windows, ready, pass)
      modifies this, cache.entries, backend, backend.Memory(), SceneMemory()
      ensures Settled() && Presenting() && ready
      ensures OnScreen()
      ensures memory == PolledMemory(old(memory), pass) && online == pass.online
      ensures CurrentDesk() == AfterMessages(p, old(windows), width, height, old(CurrentDesk()), Messages(pass))
      ensures (windows, cache.entries[..]) == AfterPass(old(cache.entries[..]), old(windows), old(ready), old(online),
              height, pass)
    {
      hide Settled, Wired, OnScreen, GoodPass, AfterMessages, AfterPass, PolledMemory;
      RunOnce(pass);
      CommitPass(idle, flipped);
    }

    /** The state between turns: everything is drawn, and seen. */
    ghost predicate Shows()
      reads this, cache.entries, backend, backend.Memory(), SceneMemory()
    {
      Settled() && Presenting() && OnScreen() && PicturedOnScreen()
    }

    /** The compositor's whole run, from the first picture: after it, and so after each of its turns, the user
        sees the whole current picture with the pointer, and what the turns hand on depends on no picture. */
    method EventLoop(list: Listing, idle: bool, flipped: bool, turns: seq<Turn>)
      requires Wired() && backend.Valid() && nextIndex < SCENE_BUFFERS && DistinctWindows(list.windows)
      requires forall i :: 0 <= i < MAX_SURFACES ==> cache.entries[i] == NO_ENTRY
      requires GoodTurns(p, width, height, Started(list), turns)
      modifies this, cache.entries, backend, backend.Memory(), SceneMemory()
      ensures Shows() && InnerState() == AfterTurns(p, width, height, old(Started(list)), turns)
    {
      hide Shows, GoodTurns, AfterTurn, Settled, Presenting, OnScreen, Wired, FlipBackend.Valid, Listed, Cleaned,
           Snapshot;
      ghost var s := Started(list);
      CacheApart();
      RenderInitialScene(list, idle, flipped);
      NowShows();
      for i := 0 to |turns|
        invariant Shows()
        invariant InnerState() == AfterTurns(p, width, height, s, turns[..i])
      {
        TakeTurn(turns[i], s, turns, i);
      }
      assert turns[..|turns|] == turns;
    }

    /** The screen, word for word: what has to be at each place, under the pointer. */
    ghost predicate PicturedOnScreen()
      requires Wired() && backend.Shape() && (backend.failed || backend.front < 2)
      reads this, cache.entries, backend, backend.Memory()
    {
      var shown := if backend.failed then backend.target else backend.buffers[backend.front];
      forall x, y :: shown.In(x, y) && !Escapes(windows, x, y) ==>
        var under := SceneAt(p, CurrentState(), width, height, x, y);
        Pictured(p, CurrentState(), width, height, x, y, under) && Over(under, cursor, image, x, y, shown.At(x, y))
    }

    lemma ScreenIsPictured()
      requires Wired() && backend.Shape() && (backend.failed || backend.front < 2) && OnScreen()
      ensures PicturedOnScreen()
    {
      hide Pictured, Over, Composed, SceneAt, Contained, Escapes;
      var shown := if backend.failed then backend.target else backend.buffers[backend.front];
      forall x, y | shown.In(x, y) && !Escapes(windows, x, y)
        ensures Pictured(p, CurrentState(), width, height, x, y, SceneAt(p, CurrentState(), width, height, x, y))
        ensures Over(SceneAt(p, CurrentState(), width, height, x, y), cursor, image, x, y, shown.At(x, y))
      {
        ScenePictured(p, CurrentState(), width, height, x, y);
        ComposedIsOver(SceneAt(p, CurrentState(), width, height, x, y), cursor, image, x, y);
      }
    }

    lemma NowShows()
      requires Settled() && Presenting() && OnScreen()
      ensures Shows()
    {
      ScreenIsPictured();
    }

    method TakeTurn(turn: Turn, ghost s: Inner, ghost turns: seq<Turn>, ghost i: nat)
      requires Shows() && |s.entries| > 0 && i < |turns| && turns[i] == turn
      requires InnerState() == AfterTurns(p, width, height, s, turns[..i])
      requires GoodTurns(p, width, height, s, turns)
      modifies this, cache.entries, backend, backend.Memory(), SceneMemory()
      ensures Shows() && InnerState() == AfterTurns(p, width, height, s, turns[..i + 1])
    {
      hide Settled, OnScreen, GoodPass, AfterMessages, AfterPass, PolledMemory, Presenting, PicturedOnScreen;
      assert turns[..i + 1][..i] == turns[..i];
      EventLoopTurn(turn.pass, turn.idle, turn.flipped);
      NowShows();
    }
  }
}
