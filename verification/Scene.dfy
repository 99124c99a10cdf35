/** The desktop scene: what every pixel of it is, and the clipped drawing routines that paint it
    (graphics-compositor/src/scene.cpp, surface.cpp, background.cpp). */
module Scene {
  import opened Geometry
  import opened Presentation
  import opened Windows
  import opened SurfaceCache
  import opened Taskbar
  import opened Wrappers

  const BAR_RADIUS := 14
  const SHADOW_REACH := SHADOW_BLUR + CORNER_RADIUS + 1

  /** The toolkit's drawing, font and theme calls, as painters of single pixels: each says what a pixel
      becomes from what was under it. */
  datatype Painters = Painters(
    gradient: (int, int) -> Word,
    shadowAlpha: (bool, int, int) -> nat,                            // focused, steps past the corner centre
    shade: (Word, nat) -> Word,                                      // black of this alpha over a pixel
    inRounded: (Rect, int, int, int) -> bool,                        // rectangle, radius, point
    frame: (Window, int, int, Word) -> Word,                         // frame, hairline, icon and title
    control: (Window, Control, bool, int, int, Word) -> Word,        // one control, hovered or not
    bar: (Layout, int, int, Word) -> Word,                           // bar over its backdrop, start button
    tile: (seq<Window>, Tile, bool, int, int, Word) -> Word,         // one tile, hovered or not
    tray: (Layout, bool, nat, int, int, Word) -> Word,               // tray icons and clock
    tooltip: (seq<Window>, Tile, Rect, int, int, Word) -> Word,
    labelWidth: (seq<Window>, Tile) -> int)

  /** Where the bar's own drawing goes: the bar, its start button, the wordmark beside that and the tray at its
      right end. */
  predicate BarPart(layout: Layout, x: int, y: int) {
    layout.bar.Contains(x, y) || layout.start.Contains(x, y) ||
    Rect(layout.start.Right() + 10, layout.bar.y, 120, layout.bar.height).Contains(x, y) ||
    Rect(layout.bar.Right() - 168, layout.bar.y, 168, layout.bar.height).Contains(x, y)
  }

  /** The painters stay in the rectangles their calls are given, and a row of a rounded rectangle is one
      stretch. */
  ghost predicate Contained(p: Painters) {
    (forall w: Window, x, y, c {:trigger p.frame(w, x, y, c)} :: !w.DamageRect().Contains(x, y) ==>
      p.frame(w, x, y, c) == c) &&
    (forall w: Window, k, h, x, y, c {:trigger p.control(w, k, h, x, y, c)} ::
       !w.ControlRect(k).Contains(x, y) ==> p.control(w, k, h, x, y, c) == c) &&
    (forall l: Layout, x, y, c {:trigger p.bar(l, x, y, c)} :: !BarPart(l, x, y) ==> p.bar(l, x, y, c) == c) &&
    (forall l: Layout, o, t, x, y, c {:trigger p.tray(l, o, t, x, y, c)} ::
       !BarPart(l, x, y) ==> p.tray(l, o, t, x, y, c) == c) &&
    (forall ws, t: Tile, h, x, y, c {:trigger p.tile(ws, t, h, x, y, c)} ::
       !t.rect.Contains(x, y) ==> p.tile(ws, t, h, x, y, c) == c) &&
    (forall ws, t, r: Rect, x, y, c {:trigger p.tooltip(ws, t, r, x, y, c)} ::
       !r.Contains(x, y) ==> p.tooltip(ws, t, r, x, y, c) == c) &&
    (forall r: Rect, n, x, x', x'', y :: p.inRounded(r, n, x, y) && x <= x' <= x'' && p.inRounded(r, n, x'', y) ==>
       p.inRounded(r, n, x', y))
  }

  /** The wallpaper, and its blurred part under the taskbar where there is one. */
  datatype Background = Background(ready: bool, width: nat, height: nat, pixels: (int, int) -> Word,
    blur: Option<Backdrop>)

  datatype Backdrop = Backdrop(rect: Rect, pixels: (int, int) -> Word)

  const NO_BACKGROUND := Background(false, 0, 0, (x, y) => 0, None)

  /** Which control is highlighted, and of which window: 0 for none. */
  datatype Hover = Hover(windowId: nat, control: Control)

  /** Shared memory: the words from a surface's address on. */
  type Memory = (nat, int) -> Word

  /** The word of a surface's pixel; a pitch of less than a word stands for the width. */
  function PixelOf(memory: Memory, info: SurfaceInfo, sx: int, sy: int): Word {
    memory(info.address, sy * (if info.pitch >= 4 then info.pitch / 4 else info.width) + sx)
  }

  /** Everything the picture depends on. */
  datatype State = State(windows: seq<Window>, surfaces: seq<Entry>, memory: Memory, background: Background,
                         hover: Hover, tileHover: int, online: bool, clock: nat)

  function Opaque(w: Word): Word { w % 0x100_0000 + 0xFF00_0000 }

  // ---- one pixel -----------------------------------------------------------------------------

  function DesktopAt(p: Painters, background: Background, width: nat, height: nat, x: int, y: int): Word {
    if !background.ready || background.width != width || background.height != height then p.gradient(x, y)
    else background.pixels(x, y)
  }

  /** The corner circles' centres of the frame's shape moved down by the shadow's offset. */
  datatype Corners = Corners(left: int, right: int, top: int, bottom: int)

  function ShadowCorners(frame: Rect): Corners {
    var shape := frame.Offset(0, SHADOW_OFFSET_Y);
    Corners(shape.x + CORNER_RADIUS, shape.Right() - 1 - CORNER_RADIUS, shape.y + CORNER_RADIUS,
            shape.Bottom() - 1 - CORNER_RADIUS)
  }

  /** The spans at distance d: a column on each side, a row above and below, outside the frame. */
  function SpanAt(p: Painters, frame: Rect, alpha: nat, d: int, x: int, y: int, c: Word): Word {
    RowsAt(p, frame, alpha, d, x, y, ColumnsAt(p, frame, alpha, d, x, y, c))
  }

  function ColumnsAt(p: Painters, frame: Rect, alpha: nat, d: int, x: int, y: int, c: Word): Word {
    var k := ShadowCorners(frame);
    var left := if Rect(k.left - d, k.top, 1, k.bottom - k.top + 1).Contains(x, y)
                then p.shade(c, if k.left - d < frame.x then alpha else 0) else c;
    if Rect(k.right + d, k.top, 1, k.bottom - k.top + 1).Contains(x, y)
    then p.shade(left, if k.right + d >= frame.Right() then alpha else 0) else left
  }

  function RowsAt(p: Painters, frame: Rect, alpha: nat, d: int, x: int, y: int, c: Word): Word {
    var k := ShadowCorners(frame);
    var upper := if k.top - d < frame.y && Rect(k.left, k.top - d, k.right - k.left + 1, 1).Contains(x, y)
                 then p.shade(c, alpha) else c;
    if k.bottom + d >= frame.Bottom() && Rect(k.left, k.bottom + d, k.right - k.left + 1, 1).Contains(x, y)
    then p.shade(upper, alpha) else upper
  }

  /** The spans at the distances up to d, as far as the shadow reaches. */
  function SpansAt(p: Painters, frame: Rect, focused: bool, d: nat, x: int, y: int, c: Word): Word {
    if d == 0 then c
    else
      var before := SpansAt(p, frame, focused, d - 1, x, y, c);
      if SpansEnd(p, focused, d) then before
      else SpanAt(p, frame, p.shadowAlpha(focused, d, 0), d, x, y, before)
  }

  /** The spans stop at the first distance without shadow. */
  predicate SpansEnd(p: Painters, focused: bool, d: nat) {
    exists e :: 1 <= e <= d && p.shadowAlpha(focused, e, 0) == 0
  }

  /** How far `to` is past `from`, going up or down the axis. */
  function Past(from: int, to: int, up: bool): int { if up then to - from else from - to }

  function CornerAt(p: Painters, frame: Rect, focused: bool, cornerX: int, cornerY: int, right: bool, down: bool,
                    x: int, y: int, c: Word): Word
  {
    var dx, dy := Past(cornerX, x, right), Past(cornerY, y, down);
    if 1 <= dx < SHADOW_REACH && 1 <= dy < SHADOW_REACH &&
      !(frame.Contains(x, y) && p.inRounded(frame, CORNER_RADIUS, x, y))
       && p.shadowAlpha(focused, dx, dy) != 0
    then p.shade(c, p.shadowAlpha(focused, dx, dy)) else c
  }

  function ShadowAt(p: Painters, frame: Rect, focused: bool, x: int, y: int, c: Word): Word {
    var k := ShadowCorners(frame);
    var c0 := SpansAt(p, frame, focused, SHADOW_REACH - 1, x, y, c);
    var c1 := CornerAt(p, frame, focused, k.left, k.top, false, false, x, y, c0);
    var c2 := CornerAt(p, frame, focused, k.right, k.top, true, false, x, y, c1);
    var c3 := CornerAt(p, frame, focused, k.left, k.bottom, false, true, x, y, c2);
    CornerAt(p, frame, focused, k.right, k.bottom, true, true, x, y, c3)
  }

  predicate Hovers(hover: Hover, window: Window, control: Control) {
    hover.windowId == window.id && hover.control == control
  }

  function ControlsAt(p: Painters, window: Window, hover: Hover, x: int, y: int, c: Word): Word {
    var c1 := p.control(window, Close, Hovers(hover, window, Close), x, y, c);
    var c2 := p.control(window, Maximize, Hovers(hover, window, Maximize), x, y, c1);
    p.control(window, Minimize, Hovers(hover, window, Minimize), x, y, c2)
  }

  /** What a surface has at a point: its width (which decides how far a window's bottom corners are
      cut) and its word, or nothing. */
  datatype View = Blank | Pixel(surfaceWidth: nat, word: Word)

  function ViewOf(surfaces: seq<Entry>, memory: Memory, id: nat, sx: int, sy: int): View {
    var at := Find(surfaces, id);
    if at < 0 then Blank
    else
      var info := surfaces[at].info;
      if info.address == 0 || !(0 <= sx < info.width && 0 <= sy < info.height) then Blank
      else Pixel(info.width, PixelOf(memory, info, sx, sy))
  }

  const INNER_RADIUS := CORNER_RADIUS - BORDER

  function InnerRect(window: Window): Rect {
    Rect(window.x + BORDER, window.y + BORDER, window.width, window.FrameHeight() - 2 * BORDER)
  }

  /** The content's column lies inside the rounded corners at this row of the screen. */
  predicate InCorners(p: Painters, window: Window, y: int, sx: int) {
    p.inRounded(InnerRect(window), INNER_RADIUS, window.x + BORDER + sx, y)
  }

  /** The first column at or after `left` inside the rounded corners, or `end`. */
  function LeftEdge(p: Painters, window: Window, y: int, left: nat, end: nat): nat
    decreases end - left
  {
    if left >= end || InCorners(p, window, y, left) then left
    else LeftEdge(p, window, y, left + 1, end)
  }

  /** One past the last column before `right` inside the rounded corners, or `start`. */
  function RightEdge(p: Painters, window: Window, y: int, right: nat, start: nat): nat
    decreases right
  {
    if right <= start || InCorners(p, window, y, right - 1) then right
    else RightEdge(p, window, y, right - 1, start)
  }

  /** Whether a row of the content shows a column: rows level with the rounded corners are cut. */
  predicate RowShows(p: Painters, window: Window, copyWidth: nat, sx: int, sy: int) {
    sy < window.height - INNER_RADIUS ||
    var y := window.y + TITLE_BAR_HEIGHT + sy;
    var left := LeftEdge(p, window, y, 0, copyWidth);
    left <= sx < RightEdge(p, window, y, copyWidth, left)
  }

  function BlitAt(p: Painters, window: Window, view: View, sx: int, sy: int, c: Word): Word {
    if view == Blank || !(0 <= sx < window.width && 0 <= sy < window.height) then c
    else if RowShows(p, window, Min(view.surfaceWidth, window.width), sx, sy) then Opaque(view.word)
    else c
  }

  /** A window's content: its surface, where it has one. */
  function SurfaceAt(p: Painters, window: Window, surfaces: seq<Entry>, memory: Memory, x: int, y: int, c: Word): Word {
    var sx, sy := x - (window.x + BORDER), y - (window.y + TITLE_BAR_HEIGHT);
    BlitAt(p, window, ViewOf(surfaces, memory, window.surfaceId, sx, sy), sx, sy, c)
  }

  function WindowAt(p: Painters, s: State, window: Window, x: int, y: int, c: Word): Word {
    if !window.Visible() then c
    else
      var c1 := ShadowAt(p, window.FrameRect(), window.state.focused, x, y, c);
      var c2 := p.frame(window, x, y, c1);
      var c3 := ControlsAt(p, window, s.hover, x, y, c2);
      SurfaceAt(p, window, s.surfaces, s.memory, x, y, c3)
  }

  function WindowsAt(p: Painters, s: State, count: nat, x: int, y: int, c: Word): Word
    requires count <= |s.windows|
  {
    if count == 0 then c
    else WindowAt(p, s, s.windows[count - 1], x, y, WindowsAt(p, s, count - 1, x, y, c))
  }

  function TooltipRect(p: Painters, layout: Layout, windows: seq<Window>, tile: int): Rect {
    if tile < 0 || tile >= |layout.tiles| then NOTHING
    else
      var t := layout.tiles[tile];
      var width := p.labelWidth(windows, t) + 20;
      var x0 := t.rect.x + t.rect.width / 2 - Halved(width);
      var x1 := if x0 < layout.bar.x then layout.bar.x else x0;
      var x2 := if x1 + width > layout.bar.Right() then layout.bar.Right() - width else x1;
      Rect(x2, layout.bar.y - 8 - TOOLTIP_HEIGHT, width, TOOLTIP_HEIGHT)
  }

  function TilesAt(p: Painters, s: State, layout: Layout, count: nat, x: int, y: int, c: Word): Word
    requires count <= |layout.tiles|
  {
    if count == 0 then c
    else p.tile(s.windows, layout.tiles[count - 1], count - 1 == s.tileHover, x, y,
                TilesAt(p, s, layout, count - 1, x, y, c))
  }

  /** Shown only where a backdrop was made for this very bar, inside its rounded outline. */
  function BackdropAt(p: Painters, background: Background, bar: Rect, x: int, y: int, c: Word): Word {
    match background.blur
    case None => c
    case Some(blurred) =>
      if blurred.rect == bar && bar.Contains(x, y) && p.inRounded(bar, BAR_RADIUS, x, y)
      then blurred.pixels(x - bar.x, y - bar.y) else c
  }

  function TaskbarAt(p: Painters, s: State, layout: Layout, x: int, y: int, c: Word): Word {
    var c1 := p.bar(layout, x, y, BackdropAt(p, s.background, layout.bar, x, y, c));
    var c2 := TilesAt(p, s, layout, |layout.tiles|, x, y, c1);
    var c3 := p.tray(layout, s.online, s.clock, x, y, c2);
    if 0 <= s.tileHover < |layout.tiles|
    then p.tooltip(s.windows, layout.tiles[s.tileHover], TooltipRect(p, layout, s.windows, s.tileHover), x, y, c3)
    else c3
  }

  /** A pixel of the whole picture: wallpaper, every visible window bottom to top, taskbar. */
  function SceneAt(p: Painters, s: State, width: nat, height: nat, x: int, y: int): Word {
    var desktop := DesktopAt(p, s.background, width, height, x, y);
    TaskbarAt(p, s, LayoutOf(width, height, s.windows), x, y, WindowsAt(p, s, |s.windows|, x, y, desktop))
  }

  // ---- where drawing stays -------------------------------------------------------------------

  /** The shape moved down by the shadow's offset, and as far around it as the shadow blurs. */
  function ShadowReachRect(frame: Rect): Rect {
    Rect(frame.x - SHADOW_BLUR, frame.y + SHADOW_OFFSET_Y - SHADOW_BLUR, frame.width + 2 * SHADOW_BLUR,
         frame.height + 2 * SHADOW_BLUR)
  }

  lemma {:induction false} SpansStayInReach(p: Painters, frame: Rect, focused: bool, d: nat, x: int, y: int, c: Word)
    requires d < SHADOW_REACH && !ShadowReachRect(frame).Contains(x, y)
    requires frame.width >= 0 && frame.height >= 0
    ensures SpansAt(p, frame, focused, d, x, y, c) == c
  {
    if d > 0 {
      SpansStayInReach(p, frame, focused, d - 1, x, y, c);
    }
  }

  lemma ShadowStaysInReach(p: Painters, frame: Rect, focused: bool, x: int, y: int, c: Word)
    requires !ShadowReachRect(frame).Contains(x, y) && frame.width >= 0 && frame.height >= 0
    ensures ShadowAt(p, frame, focused, x, y, c) == c
  {
    SpansStayInReach(p, frame, focused, SHADOW_REACH - 1, x, y, c);
  }

  /** Every pixel a window's shadow writes lies inside the window's damage rectangle. */
  lemma ShadowStaysInDamage(p: Painters, window: Window, x: int, y: int, c: Word)
    requires !window.DamageRect().Contains(x, y)
    ensures ShadowAt(p, window.FrameRect(), window.state.focused, x, y, c) == c
  {
    ShadowStaysInReach(p, window.FrameRect(), window.state.focused, x, y, c);
  }

  /** A window at least this wide has its three controls inside its damage rectangle. */
  const CONTROLS_FIT := 3 * CONTROL_WIDTH - BORDER - SHADOW_MARGIN

  lemma ControlsFitExactly(window: Window)
    ensures (forall k, x, y :: window.ControlRect(k).Contains(x, y) ==> window.DamageRect().Contains(x, y))
            <==> window.width >= CONTROLS_FIT
  {
    if window.width < CONTROLS_FIT {
      var r := window.ControlRect(Minimize);
      assert r.Contains(r.x, r.y) && !window.DamageRect().Contains(r.x, r.y);
    }
  }

  /** A window changes nothing outside its damage rectangle and its controls. */
  lemma WindowStaysInDamage(p: Painters, s: State, window: Window, x: int, y: int, c: Word)
    requires Contained(p) && !window.DamageRect().Contains(x, y) && forall k :: !window.ControlRect(k).Contains(x, y)
    ensures WindowAt(p, s, window, x, y, c) == c
  {
    ShadowStaysInDamage(p, window, x, y, c);
    assert !window.FrameRect().Contains(x, y);
  }

  /** Skipping a visible window whose damage rectangle does not hold a pixel is harmless there, whatever the
      painters and the hover, exactly when no control of the window reaches the pixel. */
  lemma SkipIsHarmlessExactly(window: Window, x: int, y: int)
    requires window.Visible() && !window.DamageRect().Contains(x, y)
    ensures (forall p, s, c :: Contained(p) ==> WindowAt(p, s, window, x, y, c) == c)
            <==> forall k :: !window.ControlRect(k).Contains(x, y)
  {
    if forall k :: !window.ControlRect(k).Contains(x, y) {
      forall p, s, c | Contained(p) ensures WindowAt(p, s, window, x, y, c) == c {
        WindowStaysInDamage(p, s, window, x, y, c);
      }
    } else {
      var k :| window.ControlRect(k).Contains(x, y);
      var p := ButtonPainters();
      var s := State([window], [], (a, k) => 0, NO_BACKGROUND, Hover(window.id, Minimize), -1, false, 0);
      ShadowStaysInDamage(p, window, x, y, 0);
      assert !window.FrameRect().Contains(x, y);
      assert WindowAt(p, s, window, x, y, 0) == 1;
    }
  }

  /** Some visible window has a control here, outside the rectangle that stands for the window when it is
      decided whether a redraw reaches it. */
  ghost predicate Escapes(windows: seq<Window>, x: int, y: int) {
    exists i, k :: 0 <= i < |windows| && windows[i].Visible() && windows[i].ControlRect(k).Contains(x, y) &&
                   !windows[i].DamageRect().Contains(x, y)
  }

  /** No control escapes exactly when all visible windows are wide enough. */
  lemma NothingEscapesExactly(windows: seq<Window>)
    ensures (forall x, y :: !Escapes(windows, x, y))
            <==> forall i :: 0 <= i < |windows| && windows[i].Visible() ==> windows[i].width >= CONTROLS_FIT
  {
    forall i | 0 <= i < |windows|
      ensures (forall k, x, y :: windows[i].ControlRect(k).Contains(x, y) ==> windows[i].DamageRect().Contains(x, y))
              <==> windows[i].width >= CONTROLS_FIT
    {
      ControlsFitExactly(windows[i]);
    }
    if i :| 0 <= i < |windows| && windows[i].Visible() && windows[i].width < CONTROLS_FIT {
      var k, x, y :| windows[i].ControlRect(k).Contains(x, y) && !windows[i].DamageRect().Contains(x, y);
      assert Escapes(windows, x, y);
    }
  }

  /** Painters that fill every control with one colour and paint nothing else. */
  function ButtonPainters(): (p: Painters)
    ensures Contained(p)
    ensures forall w: Window, k, h, x, y, c :: w.ControlRect(k).Contains(x, y) ==> p.control(w, k, h, x, y, c) == 1
  {
    Painters((x, y) => 0, (f, a, b) => 0, (c, a) => c, (r, n, x, y) => true, (w, x, y, c) => c,
             (w: Window, k, h, x, y, c) => if w.ControlRect(k).Contains(x, y) then 1 else c,
             (l, x, y, c) => c, (ws, t, h, x, y, c) => c, (l, o, t, x, y, c) => c,
             (ws, t, r, x, y, c) => c, (ws, t) => 0)
  }

  // ---- what is seen where ----------------------------------------------------------------------

  /** A surface's words lie row by row in its memory: the first pixel is the first word, one column on is the
      next word, and one row down is a pitch, in words of four bytes, further; a pitch of less than a word stands
      for the width. */
  lemma SurfaceInRows(surfaces: seq<Entry>, memory: Memory, id: nat, sx: nat, sy: nat)
    requires Find(surfaces, id) >= 0 && surfaces[Find(surfaces, id)].info.address != 0
    ensures var info := surfaces[Find(surfaces, id)].info;
            var stride := if info.pitch >= 4 then info.pitch / 4 else info.width;
            var nextColumn := (address, k) => memory(address, k + 1);
            var nextRow := (address, k) => memory(address, k + stride);
            (info.width > 0 && info.height > 0 ==>
               ViewOf(surfaces, memory, id, 0, 0) == Pixel(info.width, memory(info.address, 0))) &&
            (sx + 1 < info.width && sy < info.height ==>
               ViewOf(surfaces, memory, id, sx + 1, sy) == ViewOf(surfaces, nextColumn, id, sx, sy)) &&
            (sx < info.width && sy + 1 < info.height ==>
               ViewOf(surfaces, memory, id, sx, sy + 1) == ViewOf(surfaces, nextRow, id, sx, sy))
  {
    var info := surfaces[Find(surfaces, id)].info;
    var stride := if info.pitch >= 4 then info.pitch / 4 else info.width;
    assert (sy + 1) * stride + sx == sy * stride + sx + stride;
  }

  /** A row level with the rounded corners shows exactly the columns inside them. */
  lemma RowShowsExactly(p: Painters, window: Window, copyWidth: nat, sx: nat, sy: int)
    requires Contained(p) && sx < copyWidth
    ensures RowShows(p, window, copyWidth, sx, sy) <==>
              sy < window.height - 11 ||
              p.inRounded(Rect(window.x + 1, window.y + 1, window.width, window.height + 39), 11,
                window.x + 1 + sx, window.y + 40 + sy)
  {
    var y := window.y + TITLE_BAR_HEIGHT + sy;
    assert InnerRect(window) == Rect(window.x + 1, window.y + 1, window.width, window.height + 39);
    var left := LeftEdge(p, window, y, 0, copyWidth);
    EdgesFound(p, window, y, 0, copyWidth);
    RightFound(p, window, y, copyWidth, left);
    assert InCorners(p, window, y, sx) <==> p.inRounded(InnerRect(window), INNER_RADIUS, window.x + 1 + sx, y);
  }

  lemma {:induction false} EdgesFound(p: Painters, window: Window, y: int, left: nat, end: nat)
    requires left <= end
    ensures var at := LeftEdge(p, window, y, left, end);
            left <= at <= end && (at < end ==> InCorners(p, window, y, at)) &&
            forall sx :: left <= sx < at ==> !InCorners(p, window, y, sx)
    decreases end - left
  {
    hide InCorners;
    if left < end && !InCorners(p, window, y, left) {
      EdgesFound(p, window, y, left + 1, end);
    }
  }

  lemma {:induction false} RightFound(p: Painters, window: Window, y: int, right: nat, start: nat)
    requires start <= right
    ensures var at := RightEdge(p, window, y, right, start);
            start <= at <= right && (at > start ==> InCorners(p, window, y, at - 1)) &&
            forall sx :: at <= sx < right ==> !InCorners(p, window, y, sx)
    decreases right
  {
    hide InCorners;
    if right > start && !InCorners(p, window, y, right - 1) {
      RightFound(p, window, y, right - 1, start);
    }
  }

  /** Where a window's content covers a pixel, above its corner rows or inside the corners, the pixel is the
      surface's word there, made opaque. */
  ghost predicate ShowsContent(p: Painters, window: Window, surfaces: seq<Entry>, memory: Memory, x: int, y: int,
                               word: Word) {
    var at := Find(surfaces, window.surfaceId);
    at >= 0 && surfaces[at].info.address != 0 ==>
      var info, sx, sy := surfaces[at].info, x - window.x - 1, y - window.y - 40;
      0 <= sx < info.width && sx < window.width && 0 <= sy < info.height && sy < window.height &&
      (sy < window.height - 11 ||
       p.inRounded(Rect(window.x + 1, window.y + 1, window.width, window.height + 39), 11, x, y)) ==>
        word == memory(info.address, sy * (if info.pitch >= 4 then info.pitch / 4 else info.width) + sx) % 0x100_0000
          + 0xFF00_0000
  }

  lemma ContentShown(p: Painters, window: Window, surfaces: seq<Entry>, memory: Memory, x: int, y: int, c: Word)
    requires Contained(p)
    ensures ShowsContent(p, window, surfaces, memory, x, y, SurfaceAt(p, window, surfaces, memory, x, y, c))
  {
    hide Contained, RowShows;
    var at := Find(surfaces, window.surfaceId);
    if at >= 0 {
      var sx, sy := x - window.x - 1, y - window.y - 40;
      if 0 <= sx < Min(surfaces[at].info.width, window.width) {
        RowShowsExactly(p, window, Min(surfaces[at].info.width, window.width), sx, sy);
      }
    }
  }

  /** No visible window from this one on reaches the pixel, with its shadow or a control. */
  ghost predicate ClearFrom(windows: seq<Window>, first: nat, x: int, y: int) {
    forall j :: first <= j < |windows| && windows[j].Visible() ==>
      !windows[j].DamageRect().Contains(x, y) && forall k :: !windows[j].ControlRect(k).Contains(x, y)
  }

  /** No part of the bar, no tile and no tooltip reaches the pixel. */
  ghost predicate ClearOfBar(p: Painters, s: State, layout: Layout, x: int, y: int) {
    !BarPart(layout, x, y) && (forall i :: 0 <= i < |layout.tiles| ==> !layout.tiles[i].rect.Contains(x, y)) &&
    !TooltipRect(p, layout, s.windows, s.tileHover).Contains(x, y)
  }

  lemma {:induction false} NoTileHere(p: Painters, s: State, layout: Layout, count: nat, x: int, y: int, c: Word)
    requires Contained(p) && ClearOfBar(p, s, layout, x, y) && count <= |layout.tiles|
    ensures TilesAt(p, s, layout, count, x, y, c) == c
    decreases count
  {
    if count > 0 {
      NoTileHere(p, s, layout, count - 1, x, y, c);
    }
  }

  lemma NoBarHere(p: Painters, s: State, layout: Layout, x: int, y: int, c: Word)
    requires Contained(p) && ClearOfBar(p, s, layout, x, y)
    ensures TaskbarAt(p, s, layout, x, y, c) == c
  {
    NoTileHere(p, s, layout, |layout.tiles|, x, y, c);
  }

  lemma {:induction false} NoWindowHere(p: Painters, s: State, first: nat, count: nat, x: int, y: int, c: Word)
    requires Contained(p) && ClearFrom(s.windows, first, x, y) && first <= count <= |s.windows|
    ensures WindowsAt(p, s, count, x, y, c) == WindowsAt(p, s, first, x, y, c)
    decreases count
  {
    hide WindowAt, Contained;
    if count > first {
      NoWindowHere(p, s, first, count - 1, x, y, c);
      var window := s.windows[count - 1];
      if window.Visible() {
        WindowStaysInDamage(p, s, window, x, y, WindowsAt(p, s, count - 1, x, y, c));
      } else {
        HiddenDrawsNothing(p, s, window, x, y, WindowsAt(p, s, count - 1, x, y, c));
      }
    }
  }

  lemma HiddenDrawsNothing(p: Painters, s: State, window: Window, x: int, y: int, c: Word)
    requires !window.Visible()
    ensures WindowAt(p, s, window, x, y, c) == c
  {
  }

  /** What a pixel that no bar part reaches has to be: the content of the topmost window there, the control of
      that window, highlighted exactly when it is the hovered one, or, where no window reaches, the wallpaper when
      one of the screen's size is ready and else the gradient. */
  ghost predicate Pictured(p: Painters, s: State, width: nat, height: nat, x: int, y: int, word: Word) {
    ClearOfBar(p, s, LayoutOf(width, height, s.windows), x, y) ==>
      (forall i :: 0 <= i < |s.windows| && s.windows[i].Visible() && ClearFrom(s.windows, i + 1, x, y) ==>
         ShowsContent(p, s.windows[i], s.surfaces, s.memory, x, y, word) &&
         ShowsControl(p, s.windows[i], s.hover, x, y, word)) &&
      (ClearFrom(s.windows, 0, x, y) ==>
         word == if s.background.ready && s.background.width == width && s.background.height == height
                 then s.background.pixels(x, y) else p.gradient(x, y))
  }

  /** Inside a control of the window the pixel is that control's, over the window's frame. */
  ghost predicate ShowsControl(p: Painters, window: Window, hover: Hover, x: int, y: int, word: Word) {
    forall k :: window.ControlRect(k).Contains(x, y) ==>
      exists under :: word == p.control(window, k, hover == Hover(window.id, k), x, y, p.frame(window, x, y, under))
  }

  lemma ControlShown(p: Painters, s: State, window: Window, x: int, y: int, c: Word)
    requires Contained(p) && window.Visible()
    ensures ShowsControl(p, window, s.hover, x, y, WindowAt(p, s, window, x, y, c))
  {
    hide ShadowAt;
    var under := ShadowAt(p, window.FrameRect(), window.state.focused, x, y, c);
    forall k | window.ControlRect(k).Contains(x, y)
      ensures WindowAt(p, s, window, x, y, c) == p.control(window, k, s.hover == Hover(window.id, k), x, y,
              p.frame(window, x, y, under))
    {
      assert forall other :: other != k ==> !window.ControlRect(other).Contains(x, y);
      assert y - (window.y + TITLE_BAR_HEIGHT) < 0;
    }
  }

  lemma ScenePictured(p: Painters, s: State, width: nat, height: nat, x: int, y: int)
    requires Contained(p)
    ensures Pictured(p, s, width, height, x, y, SceneAt(p, s, width, height, x, y))
  {
    hide Contained, TaskbarAt, WindowAt, LayoutOf, ClearOfBar, ClearFrom, ShowsContent, ShowsControl, TilesAt;
    var layout, desktop := LayoutOf(width, height, s.windows), DesktopAt(p, s.background, width, height, x, y);
    if ClearOfBar(p, s, layout, x, y) {
      NoBarHere(p, s, layout, x, y, WindowsAt(p, s, |s.windows|, x, y, desktop));
      forall i | 0 <= i < |s.windows| && s.windows[i].Visible() && ClearFrom(s.windows, i + 1, x, y)
        ensures ShowsContent(p, s.windows[i], s.surfaces, s.memory, x, y, SceneAt(p, s, width, height, x, y))
        ensures ShowsControl(p, s.windows[i], s.hover, x, y, SceneAt(p, s, width, height, x, y))
      {
        NoWindowHere(p, s, i + 1, |s.windows|, x, y, desktop);
        WindowShown(p, s, s.windows[i], x, y, WindowsAt(p, s, i, x, y, desktop));
      }
      if ClearFrom(s.windows, 0, x, y) {
        NoWindowHere(p, s, 0, |s.windows|, x, y, desktop);
      }
    }
  }

  lemma WindowShown(p: Painters, s: State, window: Window, x: int, y: int, c: Word)
    requires Contained(p) && window.Visible()
    ensures ShowsContent(p, window, s.surfaces, s.memory, x, y, WindowAt(p, s, window, x, y, c))
    ensures ShowsControl(p, window, s.hover, x, y, WindowAt(p, s, window, x, y, c))
  {
    hide ShowsContent, ShowsControl, Contained;
    var under := p.frame(window, x, y, ShadowAt(p, window.FrameRect(), window.state.focused, x, y, c));
    ContentShown(p, window, s.surfaces, s.memory, x, y, ControlsAt(p, window, s.hover, x, y, under));
    ControlShown(p, s, window, x, y, c);
  }

  /** A tile is drawn over bar and backdrop and under the tray, highlighted exactly when it is the hovered one;
      no other tile touches its pixels. */
  lemma TileShown(p: Painters, s: State, width: nat, height: nat, i: nat, x: int, y: int, c: Word)
    requires var layout := LayoutOf(width, height, s.windows);
             i < |layout.tiles| && layout.tiles[i].rect.Contains(x, y) &&
             !TooltipRect(p, layout, s.windows, s.tileHover).Contains(x, y)
    requires Contained(p)
    ensures var layout := LayoutOf(width, height, s.windows);
            TaskbarAt(p, s, layout, x, y, c) ==
            p.tray(layout, s.online, s.clock, x, y,
              p.tile(s.windows, layout.tiles[i], i == s.tileHover, x, y,
                p.bar(layout, x, y, BackdropAt(p, s.background, layout.bar, x, y, c))))
  {
    hide BackdropAt, LayoutOf, TooltipRect;
    var layout := LayoutOf(width, height, s.windows);
    OnlyTile(p, s, width, height, |layout.tiles|, i, x, y,
      p.bar(layout, x, y, BackdropAt(p, s.background, layout.bar, x, y, c)));
  }

  lemma {:induction false} OnlyTile(p: Painters, s: State, width: nat, height: nat, count: nat, i: nat, x: int, y: int,
                                    c: Word)
    requires var tiles := LayoutOf(width, height, s.windows).tiles;
             count <= |tiles| && i < |tiles| && tiles[i].rect.Contains(x, y)
    requires Contained(p)
    ensures var layout := LayoutOf(width, height, s.windows);
            TilesAt(p, s, layout, count, x, y, c) ==
            if i < count then p.tile(s.windows, layout.tiles[i], i == s.tileHover, x, y, c) else c
    decreases count
  {
    hide LayoutOf, Contained;
    if count > 0 {
      var last := LayoutOf(width, height, s.windows).tiles[count - 1];
      OnlyTile(p, s, width, height, count - 1, i, x, y, c);
      if last.rect.Contains(x, y) {
        TilesAreDisjoint(width, height, s.windows, i, count - 1, x, y);
      } else {
        var layout := LayoutOf(width, height, s.windows);
        TileElsewhere(p, s, last, count - 1, x, y, TilesAt(p, s, layout, count - 1, x, y, c));
      }
    }
  }

  lemma TileElsewhere(p: Painters, s: State, tile: Tile, at: nat, x: int, y: int, c: Word)
    requires Contained(p) && !tile.rect.Contains(x, y)
    ensures p.tile(s.windows, tile, at == s.tileHover, x, y, c) == c
  {
  }

  /** The hovered tile's tooltip lies eight pixels above the bar, as high as a tooltip is and as wide as its label
      needs, over the tile's middle but for what keeps it from leaving the bar's stretch. */
  lemma TooltipPlace(p: Painters, layout: Layout, windows: seq<Window>, tile: nat)
    requires tile < |layout.tiles| && 0 <= p.labelWidth(windows, layout.tiles[tile]) + 20 <= layout.bar.width
    ensures var r, t := TooltipRect(p, layout, windows, tile), layout.tiles[tile].rect;
            var middle := t.x + t.width / 2 - r.width / 2;
            r.width == p.labelWidth(windows, layout.tiles[tile]) + 20 && r.height == 26 &&
            r.Bottom() == layout.bar.y - 8 && layout.bar.x <= r.x && r.Right() <= layout.bar.Right() &&
            (middle < layout.bar.x ==> r.x == layout.bar.x) &&
            (middle + r.width > layout.bar.Right() ==> r.Right() == layout.bar.Right()) &&
            (layout.bar.x <= middle && middle + r.width <= layout.bar.Right() ==> r.x == middle)
  {
  }

  lemma TooltipShown(p: Painters, s: State, layout: Layout, x: int, y: int, c: Word)
    requires 0 <= s.tileHover < |layout.tiles|
    ensures exists under ::
              TaskbarAt(p, s, layout, x, y, c) ==
              p.tooltip(s.windows, layout.tiles[s.tileHover], TooltipRect(p, layout, s.windows, s.tileHover), x, y,
                        under)
  {
    var bar := p.bar(layout, x, y, BackdropAt(p, s.background, layout.bar, x, y, c));
    var under := p.tray(layout, s.online, s.clock, x, y, TilesAt(p, s, layout, |layout.tiles|, x, y, bar));
    assert TaskbarAt(p, s, layout, x, y, c) == p.tooltip(s.windows, layout.tiles[s.tileHover],
           TooltipRect(p, layout, s.windows, s.tileHover), x, y, under);
  }

  /** How far a coordinate lies outside a stretch. */
  function Outside(v: int, first: int, last: int): nat {
    if v < first then first - v else if v > last then v - last else 0
  }

  /** The shadow, pixel by pixel: its strength depends on how far the pixel lies outside the corner circles'
      centres of the frame moved down by ten, in x and in y; every pixel outside the frame is shaded once, by that
      strength, and no pixel where the two distances give none. */
  lemma ShadowByDistance(p: Painters, frame: Rect, focused: bool, x: int, y: int, c: Word)
    requires frame.width >= 26 && frame.height >= 26 && !frame.Contains(x, y)
    ensures var dx := Outside(x, frame.x + 12, frame.Right() - 13);
            var dy := Outside(y, frame.y + 22, frame.Bottom() - 3);
            ShadowAt(p, frame, focused, x, y, c) ==
            if (dx == 0 && dy == 0) || dx >= 37 || dy >= 37 then c
            else if dx > 0 && dy > 0 then
              if p.shadowAlpha(focused, dx, dy) != 0 then p.shade(c, p.shadowAlpha(focused, dx, dy)) else c
            else if SpansEnd(p, focused, dx + dy) then c
            else if dy == 0 then
              p.shade(c, if x < frame.x || x >= frame.Right() then p.shadowAlpha(focused, dx, 0) else 0)
            else if y < frame.y || y >= frame.Bottom() then p.shade(c, p.shadowAlpha(focused, dy, 0))
            else c
  {
    hide SpansEnd;
    SpansByDistance(p, frame, focused, SHADOW_REACH - 1, x, y, c);
  }

  lemma {:induction false} SpansByDistance(p: Painters, frame: Rect, focused: bool, d: nat, x: int, y: int, c: Word)
    requires frame.width >= 26 && frame.height >= 26
    ensures var dx := Outside(x, frame.x + 12, frame.Right() - 13);
            var dy := Outside(y, frame.y + 22, frame.Bottom() - 3);
            SpansAt(p, frame, focused, d, x, y, c) ==
            if (dx > 0) == (dy > 0) || dx + dy > d || SpansEnd(p, focused, dx + dy) then c
            else if dy == 0 then
              p.shade(c, if x < frame.x || x >= frame.Right() then p.shadowAlpha(focused, dx, 0) else 0)
            else if y < frame.y || y >= frame.Bottom() then p.shade(c, p.shadowAlpha(focused, dy, 0))
            else c
    decreases d
  {
    hide SpansEnd;
    if d > 0 {
      SpansByDistance(p, frame, focused, d - 1, x, y, c);
    }
  }

  // ---- drawing under a clip ------------------------------------------------------------------

  ghost predicate OnCanvas(canvas: PixelBuffer, clip: Rect) {
    canvas.Valid() && forall x, y :: clip.Contains(x, y) ==> canvas.In(x, y)
  }

  /** One draw call: a painter over the part of its rectangle inside the clip. */
  method Paint(canvas: PixelBuffer, clip: Rect, area: Rect, op: (int, int, Word) -> Word)
    requires OnCanvas(canvas, clip)
    modifies canvas.pixels
    ensures forall x, y :: canvas.In(x, y) ==>
              canvas.At(x, y) == if clip.Contains(x, y) && area.Contains(x, y) then op(x, y, old(canvas.At(x, y)))
                                 else old(canvas.At(x, y))
  {
    var r := area.Intersect(clip);
    var y := r.y;
    while y < r.Bottom()
      invariant r.y <= y
      invariant forall px, py :: canvas.In(px, py) ==>
                  canvas.At(px, py) == if r.Contains(px, py) && py < y then op(px, py, old(canvas.At(px, py)))
                                       else old(canvas.At(px, py))
    {
      var x := r.x;
      while x < r.Right()
        invariant r.x <= x
        invariant forall px, py :: canvas.In(px, py) ==>
                    canvas.At(px, py) == if r.Contains(px, py) && (py < y || (py == y && px < x))
                                         then op(px, py, old(canvas.At(px, py))) else old(canvas.At(px, py))
      {
        assert r.Contains(x, y);
        var under := canvas.At(x, y);
        canvas.Set(x, y, op(x, y, under));
        x := x + 1;
      }
      y := y + 1;
    }
  }

  /** The canvas is what it was, with `op` done to every pixel of the clip. */
  twostate predicate Painted(canvas: PixelBuffer, clip: Rect, op: (int, int, Word) -> Word)
    requires canvas.Valid()
    reads canvas.pixels
  {
    forall x, y :: canvas.In(x, y) ==>
      canvas.At(x, y) == if clip.Contains(x, y) then op(x, y, old(canvas.At(x, y))) else old(canvas.At(x, y))
  }

  method DrawSpans(canvas: PixelBuffer, clip: Rect, p: Painters, frame: Rect, alpha: nat, d: int)
    requires OnCanvas(canvas, clip)
    modifies canvas.pixels
    ensures Painted(canvas, clip, (x, y, c) => SpanAt(p, frame, alpha, d, x, y, c))
  {
    hide ColumnsAt, RowsAt;
    DrawColumns(canvas, clip, p, frame, alpha, d);
    DrawRows(canvas, clip, p, frame, alpha, d);
  }

  method DrawColumns(canvas: PixelBuffer, clip: Rect, p: Painters, frame: Rect, alpha: nat, d: int)
    requires OnCanvas(canvas, clip)
    modifies canvas.pixels
    ensures Painted(canvas, clip, (x, y, c) => ColumnsAt(p, frame, alpha, d, x, y, c))
  {
    var k := ShadowCorners(frame);
    var leftAlpha := if k.left - d < frame.x then alpha else 0;
    var rightAlpha := if k.right + d >= frame.Right() then alpha else 0;
    Paint(canvas, clip, Rect(k.left - d, k.top, 1, k.bottom - k.top + 1), (x, y, c) => p.shade(c, leftAlpha));
    Paint(canvas, clip, Rect(k.right + d, k.top, 1, k.bottom - k.top + 1), (x, y, c) => p.shade(c, rightAlpha));
  }

  method DrawRows(canvas: PixelBuffer, clip: Rect, p: Painters, frame: Rect, alpha: nat, d: int)
    requires OnCanvas(canvas, clip)
    modifies canvas.pixels
    ensures Painted(canvas, clip, (x, y, c) => RowsAt(p, frame, alpha, d, x, y, c))
  {
    var k := ShadowCorners(frame);
    if k.top - d < frame.y {
      Paint(canvas, clip, Rect(k.left, k.top - d, k.right - k.left + 1, 1), (x, y, c) => p.shade(c, alpha));
    }
    if k.bottom + d >= frame.Bottom() {
      Paint(canvas, clip, Rect(k.left, k.bottom + d, k.right - k.left + 1, 1), (x, y, c) => p.shade(c, alpha));
    }
  }

  /** One row of a shadow corner, pixel by pixel. */
  method DrawCornerRow(canvas: PixelBuffer, clip: Rect, p: Painters, frame: Rect, focused: bool,
                       cornerX: int, cornerY: int, right: bool, down: bool, dy: int)
    requires OnCanvas(canvas, clip)
    requires 1 <= dy < SHADOW_REACH
    modifies canvas.pixels
    ensures forall px, py :: canvas.In(px, py) ==>
              canvas.At(px, py) ==
              if clip.Contains(px, py) && Past(cornerY, py, down) == dy
              then CornerAt(p, frame, focused, cornerX, cornerY, right, down, px, py, old(canvas.At(px, py)))
              else old(canvas.At(px, py))
  {
    var y := if down then cornerY + dy else cornerY - dy;
    if !(clip.y <= y < clip.Bottom()) {
      return;
    }
    for dx := 1 to SHADOW_REACH
      invariant forall px, py :: canvas.In(px, py) ==>
                  canvas.At(px, py) ==
                  if clip.Contains(px, py) && py == y && Past(cornerX, px, right) < dx
                  then CornerAt(p, frame, focused, cornerX, cornerY, right, down, px, py, old(canvas.At(px, py)))
                  else old(canvas.At(px, py))
    {
      var x := if right then cornerX + dx else cornerX - dx;
      if clip.x <= x < clip.Right() && !(frame.Contains(x, y) && p.inRounded(frame, CORNER_RADIUS, x, y)) {
        var alpha := p.shadowAlpha(focused, dx, dy);
        if alpha != 0 {
          var under := canvas.At(x, y);
          canvas.Set(x, y, p.shade(under, alpha));
        }
      }
    }
  }

  method DrawCorner(canvas: PixelBuffer, clip: Rect, p: Painters, frame: Rect, focused: bool,
                    cornerX: int, cornerY: int, right: bool, down: bool)
    requires OnCanvas(canvas, clip)
    modifies canvas.pixels
    ensures Painted(canvas, clip, (x, y, c) => CornerAt(p, frame, focused, cornerX, cornerY, right, down, x, y, c))
  {
    for dy := 1 to SHADOW_REACH
      invariant forall px, py :: canvas.In(px, py) ==>
                  canvas.At(px, py) ==
                  if clip.Contains(px, py) && Past(cornerY, py, down) < dy
                  then CornerAt(p, frame, focused, cornerX, cornerY, right, down, px, py, old(canvas.At(px, py)))
                  else old(canvas.At(px, py))
    {
      DrawCornerRow(canvas, clip, p, frame, focused, cornerX, cornerY, right, down, dy);
    }
  }

  lemma {:induction false} SpansStop(p: Painters, frame: Rect, focused: bool, d: nat, n: nat, x: int, y: int, c: Word)
    requires 1 <= d && SpansEnd(p, focused, d) && d - 1 <= n
    ensures SpansAt(p, frame, focused, n, x, y, c) == SpansAt(p, frame, focused, d - 1, x, y, c)
  {
    if n >= d {
      SpansStop(p, frame, focused, d, n - 1, x, y, c);
    }
  }

  lemma SpansStopEverywhere(p: Painters, frame: Rect, focused: bool, d: nat, last: nat, n: nat)
    requires SpansEnd(p, focused, d) && last == d - 1 && last <= n
    ensures forall x, y, c :: SpansAt(p, frame, focused, n, x, y, c) == SpansAt(p, frame, focused, last, x, y, c)
  {
    forall x, y, c ensures SpansAt(p, frame, focused, n, x, y, c) == SpansAt(p, frame, focused, last, x, y, c) {
      SpansStop(p, frame, focused, d, n, x, y, c);
    }
  }

  method DrawShadowSpans(canvas: PixelBuffer, clip: Rect, p: Painters, frame: Rect, focused: bool)
    requires OnCanvas(canvas, clip)
    modifies canvas.pixels
    ensures Painted(canvas, clip, (x, y, c) => SpansAt(p, frame, focused, SHADOW_REACH - 1, x, y, c))
  {
    hide SpanAt, ShadowCorners;
    var d := 1;
    while d < SHADOW_REACH
      invariant 1 <= d <= SHADOW_REACH && !SpansEnd(p, focused, d - 1)
      invariant Painted(canvas, clip, (x, y, c) => SpansAt(p, frame, focused, d - 1, x, y, c))
    {
      var alpha := p.shadowAlpha(focused, d, 0);
      if alpha == 0 {
        assert SpansEnd(p, focused, d);
        SpansStopEverywhere(p, frame, focused, d, d - 1, SHADOW_REACH - 1);
        return;
      }
      DrawSpans(canvas, clip, p, frame, alpha, d);
      d := d + 1;
    }
  }

  method DrawWindowShadow(canvas: PixelBuffer, clip: Rect, p: Painters, frame: Rect, focused: bool)
    requires OnCanvas(canvas, clip) && frame.width >= 0 && frame.height >= 0
    modifies canvas.pixels
    ensures Painted(canvas, clip, (x, y, c) => ShadowAt(p, frame, focused, x, y, c))
  {
    var shape := frame.Offset(0, SHADOW_OFFSET_Y);
    var reach := Rect(shape.x - SHADOW_BLUR, shape.y - SHADOW_BLUR, shape.width + 2 * SHADOW_BLUR,
                      shape.height + 2 * SHADOW_BLUR);
    if reach.Intersect(clip).Empty() {
      EmptyHoldsNothing(reach.Intersect(clip));
      forall x, y, c | clip.Contains(x, y) ensures ShadowAt(p, frame, focused, x, y, c) == c {
        assert !reach.Contains(x, y);
        ShadowStaysInReach(p, frame, focused, x, y, c);
      }
      return;
    }
    DrawShadowSpans(canvas, clip, p, frame, focused);
    var k := ShadowCorners(frame);
    DrawCorner(canvas, clip, p, frame, focused, k.left, k.top, false, false);
    DrawCorner(canvas, clip, p, frame, focused, k.right, k.top, true, false);
    DrawCorner(canvas, clip, p, frame, focused, k.left, k.bottom, false, true);
    DrawCorner(canvas, clip, p, frame, focused, k.right, k.bottom, true, true);
  }

  method DrawWindowFrame(canvas: PixelBuffer, clip: Rect, p: Painters, window: Window, hover: Hover)
    requires OnCanvas(canvas, clip)
    modifies canvas.pixels
    ensures Painted(canvas, clip, (x, y, c) =>
              ControlsAt(p, window, hover, x, y,
                         p.frame(window, x, y, ShadowAt(p, window.FrameRect(), window.state.focused, x, y, c))))
  {
    DrawWindowShadow(canvas, clip, p, window.FrameRect(), window.state.focused);
    Paint(canvas, clip, clip, (x, y, c) => p.frame(window, x, y, c));
    DrawControls(canvas, clip, p, window, hover);
  }

  method DrawControls(canvas: PixelBuffer, clip: Rect, p: Painters, window: Window, hover: Hover)
    requires OnCanvas(canvas, clip)
    modifies canvas.pixels
    ensures Painted(canvas, clip, (x, y, c) => ControlsAt(p, window, hover, x, y, c))
  {
    Paint(canvas, clip, clip, (x, y, c) => p.control(window, Close, Hovers(hover, window, Close), x, y, c));
    Paint(canvas, clip, clip, (x, y, c) => p.control(window, Maximize, Hovers(hover, window, Maximize), x, y, c));
    Paint(canvas, clip, clip, (x, y, c) => p.control(window, Minimize, Hovers(hover, window, Minimize), x, y, c));
  }

  /** What of a window's content, row by row, an entry's surface covers. */
  function ContentAt(p: Painters, window: Window, info: SurfaceInfo, memory: Memory, rows: nat, x: int, y: int,
                     c: Word): Word {
    var sx, sy := x - (window.x + BORDER), y - (window.y + TITLE_BAR_HEIGHT);
    if 0 <= sx < Min(info.width, window.width) && 0 <= sy < Min(info.height, window.height) && sy < rows &&
       RowShows(p, window, Min(info.width, window.width), sx, sy)
    then Opaque(PixelOf(memory, info, sx, sy)) else c
  }

  /** A row of the content from its first to its last pixel within the rounded frame. */
  method BlitCornerRow(canvas: PixelBuffer, clip: Rect, p: Painters, window: Window, info: SurfaceInfo, memory: Memory,
                       row: nat)
    requires OnCanvas(canvas, clip)
    requires window.height - INNER_RADIUS <= row < Min(info.height, window.height)
    modifies canvas.pixels
    ensures forall x, y :: canvas.In(x, y) ==>
              canvas.At(x, y) == if clip.Contains(x, y) && y == window.y + TITLE_BAR_HEIGHT + row
                                 then ContentAt(p, window, info, memory, row + 1, x, y, old(canvas.At(x, y)))
                                 else old(canvas.At(x, y))
  {
    var copyWidth := Min(info.width, window.width);
    var destX, destY := window.x + BORDER, window.y + TITLE_BAR_HEIGHT;
    var y := destY + row;
    var left := 0;
    while left < copyWidth && !p.inRounded(InnerRect(window), INNER_RADIUS, destX + left, y)
      invariant 0 <= left <= copyWidth
      invariant LeftEdge(p, window, y, 0, copyWidth) == LeftEdge(p, window, y, left, copyWidth)
    {
      left := left + 1;
    }
    var right := copyWidth;
    while right > left && !p.inRounded(InnerRect(window), INNER_RADIUS, destX + right - 1, y)
      invariant left <= right <= copyWidth
      invariant RightEdge(p, window, y, copyWidth, left) == RightEdge(p, window, y, right, left)
    {
      right := right - 1;
    }
    if right > left {
      Paint(canvas, clip, Rect(destX + left, y, right - left, 1),
            (px, py, c) => Opaque(PixelOf(memory, info, px - destX, py - destY)));
    }
  }

  /** Paints what the window shows of its cached surface, with full alpha. */
  method BlitWindowSurface(canvas: PixelBuffer, clip: Rect, p: Painters, window: Window, surfaces: seq<Entry>,
                           memory: Memory)
    requires OnCanvas(canvas, clip)
    modifies canvas.pixels
    ensures Painted(canvas, clip, (x, y, c) => SurfaceAt(p, window, surfaces, memory, x, y, c))
    ensures Contained(p) ==>
              forall x, y :: canvas.In(x, y) && clip.Contains(x, y) ==>
                ShowsContent(p, window, surfaces, memory, x, y, canvas.At(x, y))
  {
    BlitSurface(canvas, clip, p, window, surfaces, memory);
    forall x, y | Contained(p) && canvas.In(x, y) && clip.Contains(x, y)
      ensures ShowsContent(p, window, surfaces, memory, x, y, canvas.At(x, y))
    {
      ContentShown(p, window, surfaces, memory, x, y, old(canvas.At(x, y)));
    }
  }

  method BlitSurface(canvas: PixelBuffer, clip: Rect, p: Painters, window: Window, surfaces: seq<Entry>,
                     memory: Memory)
    requires OnCanvas(canvas, clip)
    modifies canvas.pixels
    ensures Painted(canvas, clip, (x, y, c) => SurfaceAt(p, window, surfaces, memory, x, y, c))
  {
    var at := Find(surfaces, window.surfaceId);
    ContentIsSurface(p, window, surfaces, memory);
    if at < 0 || surfaces[at].info.address == 0 {
      return;
    }
    var info := surfaces[at].info;
    var copyWidth, copyHeight := Min(info.width, window.width), Min(info.height, window.height);
    if copyWidth <= 0 || copyHeight <= 0 {
      return;
    }
    DrawContent(canvas, clip, p, window, info, memory);
  }

  /** All rows of the content are what the window shows of the surface; without one it shows nothing. */
  lemma ContentIsSurface(p: Painters, window: Window, surfaces: seq<Entry>, memory: Memory)
    ensures var at := Find(surfaces, window.surfaceId);
            if at < 0 || surfaces[at].info.address == 0
            then forall x, y, c :: SurfaceAt(p, window, surfaces, memory, x, y, c) == c
            else
              var info := surfaces[at].info;
              (forall x, y, c :: SurfaceAt(p, window, surfaces, memory, x, y, c) ==
                 ContentAt(p, window, info, memory, Min(info.height, window.height), x, y, c)) &&
              (info.width == 0 || info.height == 0 || window.width == 0 || window.height == 0 ==>
                 forall x, y, c :: SurfaceAt(p, window, surfaces, memory, x, y, c) == c)
  {
  }

  /** The rows above the rounded corners, whole. */
  method CopyRows(canvas: PixelBuffer, clip: Rect, p: Painters, window: Window, info: SurfaceInfo, memory: Memory,
                  rows: nat)
    requires OnCanvas(canvas, clip)
    requires rows <= Min(info.height, window.height) && rows <= window.height - INNER_RADIUS
    modifies canvas.pixels
    ensures Painted(canvas, clip, (x, y, c) => ContentAt(p, window, info, memory, rows, x, y, c))
  {
    var destX, destY := window.x + BORDER, window.y + TITLE_BAR_HEIGHT;
    Paint(canvas, clip, Rect(destX, destY, Min(info.width, window.width), rows),
          (x, y, c) => Opaque(PixelOf(memory, info, x - destX, y - destY)));
  }

  method DrawContent(canvas: PixelBuffer, clip: Rect, p: Painters, window: Window, info: SurfaceInfo, memory: Memory)
    requires OnCanvas(canvas, clip)
    modifies canvas.pixels
    ensures Painted(canvas, clip, (x, y, c) =>
              ContentAt(p, window, info, memory, Min(info.height, window.height), x, y, c))
  {
    var copyHeight := Min(info.height, window.height);
    var bandStart := window.y + window.FrameHeight() - BORDER - INNER_RADIUS;
    var bandRows := bandStart - (window.y + TITLE_BAR_HEIGHT);
    if bandRows >= copyHeight {
      CopyRows(canvas, clip, p, window, info, memory, copyHeight);
      return;
    }
    if bandRows > 0 {
      CopyRows(canvas, clip, p, window, info, memory, bandRows);
    }
    var firstBandRow: nat := if bandRows > 0 then bandRows else 0;
    for row: nat := firstBandRow to copyHeight
      invariant Painted(canvas, clip, (x, y, c) => ContentAt(p, window, info, memory, row, x, y, c))
    {
      BlitCornerRow(canvas, clip, p, window, info, memory, row);
    }
  }

  /** The first column from `left` on inside the rounded bar, or `end`. */
  method BarLeft(p: Painters, bar: Rect, y: int, from: int, end: int) returns (left: int)
    ensures from <= left && (left < end ==> p.inRounded(bar, BAR_RADIUS, left, y))
    ensures forall x :: from <= x < left ==> !p.inRounded(bar, BAR_RADIUS, x, y)
  {
    left := from;
    while left < end && !p.inRounded(bar, BAR_RADIUS, left, y)
      invariant from <= left
      invariant forall x :: from <= x < left ==> !p.inRounded(bar, BAR_RADIUS, x, y)
    {
      left := left + 1;
    }
  }

  /** One past the last column before `end` inside the rounded bar, or `from`. */
  method BarRight(p: Painters, bar: Rect, y: int, from: int, end: int) returns (right: int)
    ensures right <= end && (right > from ==> p.inRounded(bar, BAR_RADIUS, right - 1, y))
    ensures forall x :: right <= x < end ==> !p.inRounded(bar, BAR_RADIUS, x, y)
  {
    right := end;
    while right > from && !p.inRounded(bar, BAR_RADIUS, right - 1, y)
      invariant right <= end
      invariant forall x :: right <= x < end ==> !p.inRounded(bar, BAR_RADIUS, x, y)
    {
      right := right - 1;
    }
  }

  /** The backdrop row by row, each cut from both ends of what the clip shows of it. */
  method DrawBackdrop(canvas: PixelBuffer, clip: Rect, p: Painters, background: Background, bar: Rect)
    requires OnCanvas(canvas, clip) && Contained(p)
    modifies canvas.pixels
    ensures Painted(canvas, clip, (x, y, c) => BackdropAt(p, background, bar, x, y, c))
  {
    if background.blur == None || background.blur.value.rect != bar {
      return;
    }
    var blurred := background.blur.value;
    var area := bar.Intersect(clip);
    var y := area.y;
    while y < area.Bottom()
      invariant area.y <= y
      invariant forall px, py :: canvas.In(px, py) ==>
                  canvas.At(px, py) == if clip.Contains(px, py) && py < y
                                       then BackdropAt(p, background, bar, px, py, old(canvas.At(px, py)))
                                       else old(canvas.At(px, py))
    {
      DrawBackdropRow(canvas, clip, p, background, bar, y);
      y := y + 1;
    }
  }

  method DrawBackdropRow(canvas: PixelBuffer, clip: Rect, p: Painters, background: Background, bar: Rect, y: int)
    requires OnCanvas(canvas, clip) && Contained(p) && background.blur.Some? && background.blur.value.rect == bar
    requires var area := bar.Intersect(clip); area.y <= y < area.Bottom()
    modifies canvas.pixels
    ensures forall px, py :: canvas.In(px, py) ==>
              canvas.At(px, py) == if clip.Contains(px, py) && py == y
                                   then BackdropAt(p, background, bar, px, py, old(canvas.At(px, py)))
                                   else old(canvas.At(px, py))
  {
    var blurred := background.blur.value;
    var area := bar.Intersect(clip);
    var left := BarLeft(p, bar, y, area.x, area.Right());
    var right := BarRight(p, bar, y, left, area.Right());
    if right > left {
      Paint(canvas, clip, Rect(left, y, right - left, 1), (px, py, c) => blurred.pixels(px - bar.x, py - bar.y));
    }
  }

  method DrawTaskbar(canvas: PixelBuffer, clip: Rect, p: Painters, s: State)
    requires OnCanvas(canvas, clip) && Contained(p)
    modifies canvas.pixels
    ensures Painted(canvas, clip, (x, y, c) => TaskbarAt(p, s, LayoutOf(canvas.width, canvas.height, s.windows), x, y,
            c))
  {
    var layout := TaskbarLayout(canvas.width, canvas.height, s.windows);
    DrawBackdrop(canvas, clip, p, s.background, layout.bar);
    Paint(canvas, clip, clip, (x, y, c) => p.bar(layout, x, y, c));
    DrawTiles(canvas, clip, p, s, layout);
    Paint(canvas, clip, clip, (x, y, c) => p.tray(layout, s.online, s.clock, x, y, c));
    if 0 <= s.tileHover < |layout.tiles| {
      var tip := TooltipRect(p, layout, s.windows, s.tileHover);
      Paint(canvas, clip, clip, (x, y, c) => p.tooltip(s.windows, layout.tiles[s.tileHover], tip, x, y, c));
    }
  }

  method DrawTiles(canvas: PixelBuffer, clip: Rect, p: Painters, s: State, layout: Layout)
    requires OnCanvas(canvas, clip)
    modifies canvas.pixels
    ensures Painted(canvas, clip, (x, y, c) => TilesAt(p, s, layout, |layout.tiles|, x, y, c))
  {
    for i := 0 to |layout.tiles|
      invariant Painted(canvas, clip, (x, y, c) => TilesAt(p, s, layout, i, x, y, c))
    {
      Paint(canvas, clip, clip, (x, y, c) => p.tile(s.windows, layout.tiles[i], i == s.tileHover, x, y, c));
    }
  }

  /** Goes up the list; a window whose damage rectangle misses the clip is left out. */
  function WindowsUnder(p: Painters, s: State, clip: Rect, count: nat, x: int, y: int, c: Word): Word
    requires count <= |s.windows|
  {
    if count == 0 then c
    else
      var below := WindowsUnder(p, s, clip, count - 1, x, y, c);
      if s.windows[count - 1].DamageRect().Intersect(clip).Empty() then below
      else WindowAt(p, s, s.windows[count - 1], x, y, below)
  }

  /** A pixel as it is redrawn under a clip. */
  function SceneUnder(p: Painters, s: State, clip: Rect, width: nat, height: nat, x: int, y: int): Word {
    var desktop := DesktopAt(p, s.background, width, height, x, y);
    TaskbarAt(p, s, LayoutOf(width, height, s.windows), x, y, WindowsUnder(p, s, clip, |s.windows|, x, y, desktop))
  }

  /** A window that misses the clip draws nothing there. */
  lemma SkipOne(p: Painters, s: State, clip: Rect, i: nat, x: int, y: int, c: Word)
    requires Contained(p) && clip.Contains(x, y) && !Escapes(s.windows, x, y) && i < |s.windows|
    ensures s.windows[i].DamageRect().Intersect(clip).Empty() ==> WindowAt(p, s, s.windows[i], x, y, c) == c
  {
    var window := s.windows[i];
    if window.Visible() && window.DamageRect().Intersect(clip).Empty() {
      EmptyHoldsNothing(window.DamageRect().Intersect(clip));
      assert !window.DamageRect().Contains(x, y);
      WindowStaysInDamage(p, s, window, x, y, c);
    }
  }

  lemma {:induction false} SkippingIsHarmless(p: Painters, s: State, clip: Rect, count: nat, x: int, y: int, c: Word)
    requires Contained(p) && count <= |s.windows| && clip.Contains(x, y) && !Escapes(s.windows, x, y)
    ensures WindowsUnder(p, s, clip, count, x, y, c) == WindowsAt(p, s, count, x, y, c)
    decreases count
  {
    hide WindowAt, Contained, Escapes;
    if count > 0 {
      SkippingIsHarmless(p, s, clip, count - 1, x, y, c);
      SkipOne(p, s, clip, count - 1, x, y, WindowsUnder(p, s, clip, count - 1, x, y, c));
    }
  }

  /** Where no control escapes, a redraw under any clip that holds the pixel gives the whole picture's. */
  lemma UnderIsWhole(p: Painters, s: State, clip: Rect, width: nat, height: nat, x: int, y: int)
    requires Contained(p) && clip.Contains(x, y) && !Escapes(s.windows, x, y)
    ensures SceneUnder(p, s, clip, width, height, x, y) == SceneAt(p, s, width, height, x, y)
  {
    SkippingIsHarmless(p, s, clip, |s.windows|, x, y, DesktopAt(p, s.background, width, height, x, y));
  }

  lemma NextUnder(p: Painters, s: State, clip: Rect, i: nat)
    requires i < |s.windows|
    ensures var window := s.windows[i];
            forall x, y, c :: WindowsUnder(p, s, clip, i + 1, x, y, c) ==
              if window.Visible() && !window.DamageRect().Intersect(clip).Empty()
              then WindowAt(p, s, window, x, y, WindowsUnder(p, s, clip, i, x, y, c))
              else WindowsUnder(p, s, clip, i, x, y, c)
  {
    hide ShadowAt, ControlsAt, SurfaceAt;
  }

  method DrawWindows(canvas: PixelBuffer, clip: Rect, p: Painters, s: State)
    requires OnCanvas(canvas, clip)
    modifies canvas.pixels
    ensures Painted(canvas, clip, (x, y, c) => WindowsUnder(p, s, clip, |s.windows|, x, y, c))
  {
    hide WindowAt, WindowsUnder;
    NoneUnder(p, s, clip);
    for i := 0 to |s.windows|
      invariant Painted(canvas, clip, (x, y, c) => WindowsUnder(p, s, clip, i, x, y, c))
    {
      var window := s.windows[i];
      NextUnder(p, s, clip, i);
      if window.Visible() && !window.DamageRect().Intersect(clip).Empty() {
        DrawWindow(canvas, clip, p, s, window);
      }
    }
  }

  lemma NoneUnder(p: Painters, s: State, clip: Rect)
    ensures forall x, y, c :: WindowsUnder(p, s, clip, 0, x, y, c) == c
  {
  }

  method DrawWindow(canvas: PixelBuffer, clip: Rect, p: Painters, s: State, window: Window)
    requires OnCanvas(canvas, clip) && window.Visible()
    modifies canvas.pixels
    ensures Painted(canvas, clip, (x, y, c) => WindowAt(p, s, window, x, y, c))
  {
    DrawWindowFrame(canvas, clip, p, window, s.hover);
    BlitWindowSurface(canvas, clip, p, window, s.surfaces, s.memory);
  }

  /** Everything the clip covers, as the whole picture has it but for escaping controls; nothing outside the
      clip changes. */
  method DrawScene(canvas: PixelBuffer, clip: Rect, p: Painters, s: State)
    requires OnCanvas(canvas, clip) && Contained(p)
    modifies canvas.pixels
    ensures forall x, y :: canvas.In(x, y) ==>
              canvas.At(x, y) == if clip.Contains(x, y) then SceneUnder(p, s, clip, canvas.width, canvas.height, x, y)
                                 else old(canvas.At(x, y))
    ensures forall x, y :: canvas.In(x, y) && clip.Contains(x, y) && !Escapes(s.windows, x, y) ==>
              canvas.At(x, y) == SceneAt(p, s, canvas.width, canvas.height, x, y)
  {
    Paint(canvas, clip, clip, (x, y, c) => DesktopAt(p, s.background, canvas.width, canvas.height, x, y));
    DrawWindows(canvas, clip, p, s);
    DrawTaskbar(canvas, clip, p, s);
    forall x, y | canvas.In(x, y) && clip.Contains(x, y) && !Escapes(s.windows, x, y)
      ensures SceneUnder(p, s, clip, canvas.width, canvas.height, x, y) == SceneAt(p, s, canvas.width, canvas.height,
              x, y)
    {
      UnderIsWhole(p, s, clip, canvas.width, canvas.height, x, y);
    }
  }

  method RedrawScene(canvas: PixelBuffer, p: Painters, s: State)
    requires canvas.Valid() && Contained(p)
    modifies canvas.pixels
    ensures forall x, y :: canvas.In(x, y) ==>
              canvas.At(x, y) == SceneUnder(p, s, Rect(0, 0, canvas.width, canvas.height), canvas.width,
                canvas.height, x, y)
    ensures forall x, y :: canvas.In(x, y) && !Escapes(s.windows, x, y) ==>
              canvas.At(x, y) == SceneAt(p, s, canvas.width, canvas.height, x, y)
    ensures forall x, y :: canvas.In(x, y) && !Escapes(s.windows, x, y) ==>
              Pictured(p, s, canvas.width, canvas.height, x, y, canvas.At(x, y))
  {
    DrawScene(canvas, Rect(0, 0, canvas.width, canvas.height), p, s);
    hide Pictured, SceneAt, Contained, Escapes;
    forall x, y | canvas.In(x, y) && !Escapes(s.windows, x, y)
      ensures Pictured(p, s, canvas.width, canvas.height, x, y, canvas.At(x, y))
    {
      ScenePictured(p, s, canvas.width, canvas.height, x, y);
    }
  }

  method RedrawSceneRect(canvas: PixelBuffer, p: Painters, s: State, dirty: Rect)
    requires canvas.Valid() && Contained(p)
    modifies canvas.pixels
    ensures var clip := ClampRect(dirty, canvas.width, canvas.height);
            forall x, y :: canvas.In(x, y) ==>
              canvas.At(x, y) == if dirty.Contains(x, y) then SceneUnder(p, s, clip, canvas.width, canvas.height, x, y)
                                 else old(canvas.At(x, y))
    ensures forall x, y :: canvas.In(x, y) && dirty.Contains(x, y) && !Escapes(s.windows, x, y) ==>
              canvas.At(x, y) == SceneAt(p, s, canvas.width, canvas.height, x, y)
  {
    var clip := ClampRect(dirty, canvas.width, canvas.height);
    if clip.Empty() {
      EmptyHoldsNothing(clip);
      return;
    }
    DrawScene(canvas, clip, p, s);
  }
}
