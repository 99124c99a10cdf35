/** What can change a pixel of the scene between two redraws, and the rectangle that covers it
    (graphics-compositor/src/input.cpp, surface.cpp, main.cpp). */
module Damage {
  import opened Geometry
  import opened Presentation
  import opened Windows
  import opened SurfaceCache
  import opened Taskbar
  import opened Scene

  // ---- what is hovered -----------------------------------------------------------------------

  const NO_HOVER := Hover(0, Close)

  /** The topmost visible window at a point, or -1. */
  function TopWindowAt(p: Painters, windows: seq<Window>, x: int, y: int): (at: int)
    ensures -1 <= at < |windows|
    decreases |windows|
  {
    if windows == [] then -1
    else
      var last := windows[|windows| - 1];
      if last.Visible() && p.inRounded(last.FrameRect(), CORNER_RADIUS, x, y) then |windows| - 1
      else TopWindowAt(p, windows[..|windows| - 1], x, y)
  }

  /** A visible window's frame reaches a pixel around its content and forty above it, with rounded corners. */
  predicate OnFrame(p: Painters, w: Window, x: int, y: int) {
    w.Visible() && p.inRounded(Rect(w.x, w.y, w.width + 2, w.height + 41), 12, x, y)
  }

  /** It is a visible window whose rounded frame holds the point, and no later one of the list is. */
  lemma {:induction false} TopIsLast(p: Painters, windows: seq<Window>, x: int, y: int)
    ensures var at := TopWindowAt(p, windows, x, y);
            (at >= 0 ==> OnFrame(p, windows[at], x, y)) &&
            forall j :: at < j < |windows| ==> !OnFrame(p, windows[j], x, y)
    decreases |windows|
  {
    if windows != [] {
      TopIsLast(p, windows[..|windows| - 1], x, y);
    }
  }

  /** The first window with this id, or -1. */
  function WindowById(windows: seq<Window>, id: nat): (at: int)
    ensures -1 <= at < |windows|
    ensures at >= 0 ==> windows[at].id == id
    ensures at < 0 ==> forall i :: 0 <= i < |windows| ==> windows[i].id != id
    decreases |windows|
  {
    if windows == [] then -1
    else if windows[0].id == id then 0
    else
      var rest := WindowById(windows[1..], id);
      if rest < 0 then -1 else rest + 1
  }

  function HoveredTile(layout: Layout, dragging: bool, x: int, y: int): int {
    match HitAt(layout, x, y)
    case OnTile(tile) => if dragging then -1 else tile
    case _ => -1
  }

  function HoveredControl(p: Painters, layout: Layout, windows: seq<Window>, dragging: bool, x: int, y: int): Hover {
    if dragging || HitAt(layout, x, y) != Nothing then NO_HOVER
    else
      var top := TopWindowAt(p, windows, x, y);
      if top < 0 then NO_HOVER
      else if windows[top].ControlRect(Close).Contains(x, y) then Hover(windows[top].id, Close)
      else if windows[top].ControlRect(Maximize).Contains(x, y) then Hover(windows[top].id, Maximize)
      else if windows[top].ControlRect(Minimize).Contains(x, y) then Hover(windows[top].id, Minimize)
      else NO_HOVER
  }

  /** A control is hovered exactly when nothing is dragged, the point is off the bar, and it lies in that control of
      the topmost window there; no window has the id 0, which stands for none. */
  lemma ControlHoveredExactly(p: Painters, layout: Layout, windows: seq<Window>, dragging: bool, x: int, y: int,
                              h: Hover)
    requires h.windowId != 0
    ensures var top := TopWindowAt(p, windows, x, y);
            HoveredControl(p, layout, windows, dragging, x, y) == h <==>
            !dragging && !layout.bar.Contains(x, y) && top >= 0 && windows[top].id == h.windowId &&
            windows[top].ControlRect(h.control).Contains(x, y)
  {
    hide TopWindowAt;
  }

  /** A tile is hovered exactly when nothing is dragged and the point is on the bar, off the start button and in it. */
  lemma TileHoveredExactly(width: nat, height: nat, windows: seq<Window>, dragging: bool, x: int, y: int, i: nat)
    requires i < |LayoutOf(width, height, windows).tiles|
    ensures var layout := LayoutOf(width, height, windows);
            HoveredTile(layout, dragging, x, y) == i <==>
            (!dragging && layout.bar.Contains(x, y) && !layout.start.Contains(x, y) &&
             layout.tiles[i].rect.Contains(x, y))
  {
    HitNamesTheTile(width, height, windows, x, y, i);
  }

  /** At this pixel it makes no difference which of the two hovers is drawn. */
  ghost predicate HoverAgrees(p: Painters, windows: seq<Window>, layout: Layout, h: Hover, t: int, h': Hover, t': int,
                              x: int, y: int)
  {
    (forall w: Window, k :: w in windows && w.ControlRect(k).Contains(x, y) ==>
      (Hovers(h, w, k) <==> Hovers(h', w, k))) &&
    (forall i :: 0 <= i < |layout.tiles| && layout.tiles[i].rect.Contains(x, y) ==> (i == t <==> i == t')) &&
    (TooltipRect(p, layout, windows, t).Contains(x, y) || TooltipRect(p, layout, windows, t').Contains(x, y) ==>
      t == t')
  }

  lemma HoverAgreesTransitive(p: Painters, windows: seq<Window>, layout: Layout, h: Hover, t: int, h': Hover, t': int,
                              h'': Hover, t'': int, x: int, y: int)
    requires HoverAgrees(p, windows, layout, h, t, h', t', x, y)
    requires HoverAgrees(p, windows, layout, h', t', h'', t'', x, y)
    ensures HoverAgrees(p, windows, layout, h, t, h'', t'', x, y)
  {
  }

  /** The rectangle a change of the hovered tile repaints: both tooltips and both tiles. */
  function TileDirt(p: Painters, layout: Layout, windows: seq<Window>, before: int, after: int): (r: Rect)
    ensures forall x, y ::
              (TooltipRect(p, layout, windows, before).Contains(x, y) ||
               TooltipRect(p, layout, windows, after).Contains(x, y)) ==> r.Contains(x, y)
    ensures forall i, x, y {:trigger layout.tiles[i].rect.Contains(x, y)} ::
              0 <= i < |layout.tiles| && (i == before || i == after) && layout.tiles[i].rect.Contains(x, y) ==>
                r.Contains(x, y)
  {
    var r0 := TooltipRect(p, layout, windows, before).Unite(TooltipRect(p, layout, windows, after));
    var r1 := if 0 <= before < |layout.tiles| then r0.Unite(layout.tiles[before].rect) else r0;
    if 0 <= after < |layout.tiles| then r1.Unite(layout.tiles[after].rect) else r1
  }

  /** A changed tile hover, repainted in its tooltips and tiles, agrees everywhere else. */
  lemma TileChangeCovered(p: Painters, windows: seq<Window>, layout: Layout, h: Hover, t: int, t': int, x: int, y: int)
    requires t != t' ==> !TileDirt(p, layout, windows, t, t').Contains(x, y)
    ensures HoverAgrees(p, windows, layout, h, t, h, t', x, y)
  {
  }

  /** The hovered control's rectangle, where its window is in the list. */
  function HoverRect(windows: seq<Window>, hover: Hover): Rect {
    var at := WindowById(windows, hover.windowId);
    if at < 0 then NOTHING else windows[at].ControlRect(hover.control)
  }

  lemma HoverRectHolds(windows: seq<Window>, hover: Hover, w: Window, k: Control)
    requires DistinctWindows(windows) && w in windows && Hovers(hover, w, k)
    ensures HoverRect(windows, hover) == w.ControlRect(k)
  {
    var i :| 0 <= i < |windows| && windows[i] == w;
    var at := WindowById(windows, hover.windowId);
    assert at >= 0 && windows[at].id == windows[i].id;
  }

  /** A changed control hover, repainted in both controls' rectangles, agrees everywhere else. */
  lemma ControlChangeCovered(p: Painters, windows: seq<Window>, layout: Layout, h: Hover, h': Hover, t: int, x: int,
                             y: int)
    requires DistinctWindows(windows)
    requires h != h' ==> !HoverRect(windows, h).Contains(x, y) && !HoverRect(windows, h').Contains(x, y)
    ensures HoverAgrees(p, windows, layout, h, t, h', t, x, y)
  {
    forall w: Window, k | w in windows && w.ControlRect(k).Contains(x, y)
      ensures Hovers(h, w, k) <==> Hovers(h', w, k)
    {
      if Hovers(h, w, k) {
        HoverRectHolds(windows, h, w, k);
      }
      if Hovers(h', w, k) {
        HoverRectHolds(windows, h', w, k);
      }
    }
  }

  // ---- what decides a pixel ------------------------------------------------------------------

  /** Where a visible window shows this pixel as content, its surface looks the same. */
  ghost predicate ViewsAgree(s: State, s': State, x: int, y: int) {
    forall w: Window :: w in s.windows && w.Visible() && ContentRect(w).Contains(x, y) ==>
      ViewAt(s, w, x, y) == ViewAt(s', w, x, y)
  }

  function ContentRect(w: Window): Rect {
    Rect(w.x + BORDER, w.y + TITLE_BAR_HEIGHT, w.width, w.height)
  }

  function ViewAt(s: State, w: Window, x: int, y: int): View {
    ViewOf(s.surfaces, s.memory, w.surfaceId, x - (w.x + BORDER), y - (w.y + TITLE_BAR_HEIGHT))
  }

  ghost predicate SameSetting(s: State, s': State) {
    s.windows == s'.windows && s.background == s'.background && s.online == s'.online && s.clock == s'.clock
  }

  lemma SameWindow(p: Painters, s: State, s': State, layout: Layout, w: Window, x: int, y: int, c: Word)
    requires Contained(p) && SameSetting(s, s') && w in s.windows
    requires HoverAgrees(p, s.windows, layout, s.hover, s.tileHover, s'.hover, s'.tileHover, x, y)
    requires ViewsAgree(s, s', x, y)
    ensures WindowAt(p, s, w, x, y, c) == WindowAt(p, s', w, x, y, c)
  {
    if w.Visible() {
      var c1 := ShadowAt(p, w.FrameRect(), w.state.focused, x, y, c);
      var c2 := p.frame(w, x, y, c1);
      SameControls(p, s, s', layout, w, x, y, c2);
      assert ContentRect(w).Contains(x, y) ==> ViewAt(s, w, x, y) == ViewAt(s', w, x, y);
    }
  }

  lemma SameControls(p: Painters, s: State, s': State, layout: Layout, w: Window, x: int, y: int, c: Word)
    requires Contained(p) && w in s.windows
    requires HoverAgrees(p, s.windows, layout, s.hover, s.tileHover, s'.hover, s'.tileHover, x, y)
    ensures ControlsAt(p, w, s.hover, x, y, c) == ControlsAt(p, w, s'.hover, x, y, c)
  {
    assert forall k :: w.ControlRect(k).Contains(x, y) ==> (Hovers(s.hover, w, k) <==> Hovers(s'.hover, w, k));
  }

  lemma {:induction false} SameWindows(p: Painters, s: State, s': State, layout: Layout, count: nat, x: int, y: int,
                                       c: Word)
    requires Contained(p) && SameSetting(s, s') && count <= |s.windows|
    requires HoverAgrees(p, s.windows, layout, s.hover, s.tileHover, s'.hover, s'.tileHover, x, y)
    requires ViewsAgree(s, s', x, y)
    ensures WindowsAt(p, s, count, x, y, c) == WindowsAt(p, s', count, x, y, c)
  {
    if count > 0 {
      SameWindows(p, s, s', layout, count - 1, x, y, c);
      SameWindow(p, s, s', layout, s.windows[count - 1], x, y, WindowsAt(p, s, count - 1, x, y, c));
    }
  }

  lemma {:induction false} SameTiles(p: Painters, s: State, s': State, layout: Layout, count: nat, x: int, y: int,
                                     c: Word)
    requires Contained(p) && SameSetting(s, s') && count <= |layout.tiles|
    requires HoverAgrees(p, s.windows, layout, s.hover, s.tileHover, s'.hover, s'.tileHover, x, y)
    ensures TilesAt(p, s, layout, count, x, y, c) == TilesAt(p, s', layout, count, x, y, c)
  {
    if count > 0 {
      SameTiles(p, s, s', layout, count - 1, x, y, c);
    }
  }

  /** Two states with the same windows, background and flags draw the same pixel wherever hover and
      surfaces agree. */
  lemma SamePixel(p: Painters, s: State, s': State, width: nat, height: nat, x: int, y: int)
    requires Contained(p) && SameSetting(s, s')
    requires HoverAgrees(p, s.windows, LayoutOf(width, height, s.windows), s.hover, s.tileHover, s'.hover,
             s'.tileHover, x, y)
    requires ViewsAgree(s, s', x, y)
    ensures SceneAt(p, s, width, height, x, y) == SceneAt(p, s', width, height, x, y)
  {
    var layout := LayoutOf(width, height, s.windows);
    var c0 := DesktopAt(p, s.background, width, height, x, y);
    SameWindows(p, s, s', layout, |s.windows|, x, y, c0);
    var c1 := p.bar(layout, x, y, BackdropAt(p, s.background, layout.bar, x, y,
      WindowsAt(p, s, |s.windows|, x, y, c0)));
    SameTiles(p, s, s', layout, |layout.tiles|, x, y, c1);
  }

  // ---- what clients may change ---------------------------------------------------------------

  /** A commit as it is polled: what the kernel says of it, and the shared memory then. */
  datatype SurfaceCommit = SurfaceCommit(info: SurfaceInfo, memory: Memory)

  function Infos(commits: seq<SurfaceCommit>): (infos: seq<SurfaceInfo>)
    ensures |infos| == |commits|
  {
    if commits == [] then [] else Infos(commits[..|commits| - 1]) + [commits[|commits| - 1].info]
  }

  function Pumped(es: seq<Entry>, commits: seq<SurfaceCommit>): (r: seq<Entry>)
    requires |es| > 0
    ensures |r| == |es|
  {
    Committed(es, Infos(commits))
  }

  lemma PumpStep(es: seq<Entry>, commits: seq<SurfaceCommit>)
    requires |es| > 0 && commits != []
    ensures Pumped(es, commits) == Remembered(Pumped(es, commits[..|commits| - 1]), commits[|commits| - 1].info)
  {
    assert Infos(commits)[..|commits| - 1] == Infos(commits[..|commits| - 1]);
  }

  function MemoryAfter(memory: Memory, commits: seq<SurfaceCommit>): Memory {
    if commits == [] then memory else commits[|commits| - 1].memory
  }

  /** No more live surfaces than cache slots, and every commit is of a proper surface. */
  ghost predicate FewSurfaces(es: seq<Entry>, commits: seq<SurfaceCommit>)
    requires |es| > 0
    decreases |commits|
  {
    commits == [] ||
    var init, last := commits[..|commits| - 1], commits[|commits| - 1];
    FewSurfaces(es, init) && GoodInfo(last.info) && |LiveIds(Pumped(es, init)) + {last.info.id}| <= |es|
  }

  /** A surface keeps its size and address as long as it lives. */
  predicate SameStorage(es: seq<Entry>, info: SurfaceInfo) {
    var at := Find(es, info.id);
    at >= 0 ==>
      es[at].info.address == info.address && es[at].info.width == info.width && es[at].info.height == info.height
  }

  /** One commit changes what a shown surface looks like only inside its dirty rectangle. */
  ghost predicate HonestCommit(es: seq<Entry>, memory: Memory, commit: SurfaceCommit, id: nat)
    requires |es| > 0
  {
    SameStorage(es, commit.info) &&
    forall sx, sy :: ViewOf(Remembered(es, commit.info), commit.memory, id, sx, sy) == ViewOf(es, memory, id, sx, sy) ||
                     (id == commit.info.id && commit.info.dirty.Contains(sx, sy))
  }

  /** Clients change the pixels of the surfaces that visible windows show only inside the dirty
      rectangles they commit (and a surface that appears is committed whole). */
  ghost predicate Honest(es: seq<Entry>, memory: Memory, commits: seq<SurfaceCommit>, windows: seq<Window>)
    requires |es| > 0
    decreases |commits|
  {
    commits == [] ||
    var init, last := commits[..|commits| - 1], commits[|commits| - 1];
    Honest(es, memory, init, windows) &&
    forall w: Window :: w in windows && w.Visible() ==>
      HonestCommit(Pumped(es, init), MemoryAfter(memory, init), last, w.surfaceId)
  }

  /** Since `before` the surface looks the same everywhere but where the cache notes damage. */
  ghost predicate Tracked(before: seq<Entry>, memory: Memory, es: seq<Entry>, memory': Memory, id: nat) {
    forall sx, sy :: ViewOf(es, memory', id, sx, sy) == ViewOf(before, memory, id, sx, sy) ||
                     (Damaged(es, id, sx, sy) && ViewOf(es, memory', id, sx, sy) != Blank)
  }

  /** Every entry's damage lies in its surface's storage and ids are distinct. */
  ghost predicate Sound(es: seq<Entry>) {
    |es| > 0 && DistinctIds(es) && TidyAreas(es)
  }

  lemma CommitKeepsTracked(before: seq<Entry>, memory: Memory, es: seq<Entry>, memory': Memory, commit: SurfaceCommit,
                           id: nat)
    requires Sound(es) && GoodInfo(commit.info) && Room(es, commit.info.id)
    requires Tracked(before, memory, es, memory', id) && HonestCommit(es, memory', commit, id)
    ensures Tracked(before, memory, Remembered(es, commit.info), commit.memory, id)
  {
    var after := Remembered(es, commit.info);
    forall sx, sy
      ensures ViewOf(after, commit.memory, id, sx, sy) == ViewOf(before, memory, id, sx, sy) ||
              (Damaged(after, id, sx, sy) && ViewOf(after, commit.memory, id, sx, sy) != Blank)
    {
      if Damaged(es, id, sx, sy) || (id == commit.info.id && commit.info.dirty.Contains(sx, sy)) {
        MergedKeepsDamage(es, commit.info, id, sx, sy);
        StaysDrawn(es, memory', commit, id, sx, sy);
        if id == commit.info.id && ViewOf(es, memory', id, sx, sy) == Blank {
          CommitTouchesOne(es, commit.info, 0);
        }
      }
    }
  }

  /** A commit does not blank a surface pixel that was there. */
  lemma StaysDrawn(es: seq<Entry>, memory: Memory, commit: SurfaceCommit, id: nat, sx: int, sy: int)
    requires Sound(es) && GoodInfo(commit.info) && Room(es, commit.info.id) && SameStorage(es, commit.info)
    ensures ViewOf(es, memory, id, sx, sy) != Blank ==>
            ViewOf(Remembered(es, commit.info), commit.memory, id, sx, sy) != Blank
  {
    CommitTouchesOne(es, commit.info, if id == commit.info.id then 0 else id);
  }

  /** A surface that appears is repainted where it appears exactly as far as its first commit says: a
      first commit that does not cover the surface leaves the rest of it unpainted. */
  lemma FirstCommitMustCover(es: seq<Entry>, memory: Memory, commit: SurfaceCommit, sx: int, sy: int)
    requires Sound(es) && GoodInfo(commit.info) && Room(es, commit.info.id) && Find(es, commit.info.id) < 0
    requires !es[SlotFor(es, commit.info.id)].dirty && commit.info.address != 0
    requires 0 <= sx < commit.info.width && 0 <= sy < commit.info.height
    ensures ViewOf(es, memory, commit.info.id, sx, sy) == Blank
    ensures ViewOf(Remembered(es, commit.info), commit.memory, commit.info.id, sx, sy) != Blank
    ensures Damaged(Remembered(es, commit.info), commit.info.id, sx, sy) <==> commit.info.dirty.Contains(sx, sy)
  {
    CommitTouchesOne(es, commit.info, 0);
    EmptyHoldsNothing(commit.info.dirty);
  }

  lemma {:induction false} PumpKeepsSound(es: seq<Entry>, commits: seq<SurfaceCommit>)
    requires Sound(es) && FewSurfaces(es, commits)
    ensures Sound(Pumped(es, commits))
  {
    if commits != [] {
      var init, last := commits[..|commits| - 1], commits[|commits| - 1];
      PumpKeepsSound(es, init);
      PumpStep(es, commits);
      FewSurfacesLeaveRoom(Pumped(es, init), last.info.id);
      CommitKeepsTidy(Pumped(es, init), last.info);
    }
  }

  lemma {:induction false} PumpKeepsTracked(before: seq<Entry>, memory: Memory, es: seq<Entry>, memory': Memory,
                                            commits: seq<SurfaceCommit>, windows: seq<Window>, w: Window)
    requires Sound(es) && FewSurfaces(es, commits) && Honest(es, memory', commits, windows)
    requires w in windows && w.Visible() && Tracked(before, memory, es, memory', w.surfaceId)
    ensures Tracked(before, memory, Pumped(es, commits), MemoryAfter(memory', commits), w.surfaceId)
  {
    if commits != [] {
      var init, last := commits[..|commits| - 1], commits[|commits| - 1];
      PumpKeepsTracked(before, memory, es, memory', init, windows, w);
      PumpKeepsSound(es, init);
      PumpStep(es, commits);
      FewSurfacesLeaveRoom(Pumped(es, init), last.info.id);
      CommitKeepsTracked(before, memory, Pumped(es, init), MemoryAfter(memory', init), last, w.surfaceId);
    }
  }

  /** What the cache notes of a window's surface is where the window is repainted; everywhere else the
      window shows what it showed. */
  lemma DirtCoversViews(s: State, s': State, x: int, y: int)
    requires Sound(s'.surfaces) && s.windows == s'.windows
    requires forall w: Window :: w in s.windows && w.Visible() ==>
               Tracked(s.surfaces, s.memory, s'.surfaces, s'.memory, w.surfaceId)
    requires !SceneDirt(s'.windows, s'.surfaces).Contains(x, y)
    ensures ViewsAgree(s, s', x, y)
  {
    forall w: Window | w in s.windows && w.Visible() && ContentRect(w).Contains(x, y)
      ensures ViewAt(s, w, x, y) == ViewAt(s', w, x, y)
    {
      var sx, sy := x - (w.x + BORDER), y - (w.y + TITLE_BAR_HEIGHT);
      if ViewAt(s, w, x, y) != ViewAt(s', w, x, y) {
        assert Damaged(s'.surfaces, w.surfaceId, sx, sy) && ViewAt(s', w, x, y) != Blank;
        var i :| 0 <= i < |s.windows| && s.windows[i] == w;
        DirtCoversDamage(s'.windows, s'.surfaces, i, sx, sy);
      }
    }
  }

  lemma CleanedLooksTheSame(es: seq<Entry>, memory: Memory, id: nat, sx: int, sy: int)
    requires DistinctIds(es)
    ensures DistinctIds(Cleaned(es)) && ViewOf(Cleaned(es), memory, id, sx, sy) == ViewOf(es, memory, id, sx, sy)
  {
    var after, at := Cleaned(es), Find(es, id);
    assert forall i :: 0 <= i < |es| ==>
             after[i].valid == es[i].valid && after[i].id == es[i].id && after[i].info == es[i].info;
    if at >= 0 {
      FindIsUnique(after, at);
    }
  }
}
