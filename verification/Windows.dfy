/** Windows as the kernel lists them, and where their parts are
    (graphics-compositor/src/common.hpp, surface.cpp, input.cpp). */
module Windows {
  import opened Geometry

  const BORDER := 1
  const TITLE_BAR_HEIGHT := 40
  const CORNER_RADIUS := 12
  const CONTROL_WIDTH := 46
  const SHADOW_BLUR := 24
  const SHADOW_OFFSET_Y := 10
  const SHADOW_MARGIN := SHADOW_BLUR + SHADOW_OFFSET_Y

  /** The state bits of a window. */
  datatype WindowState = WindowState(minimized: bool, closed: bool, focused: bool, maximized: bool)

  datatype Window = Window(id: nat, ownerPid: nat, flags: nat, state: WindowState, x: int, y: int,
                           width: nat, height: nat, surfaceId: nat, zOrder: nat, title: string)
  {
    predicate Visible() { !state.minimized && !state.closed }

    predicate Open() { !state.closed }

    function FrameWidth(): nat { width + 2 * BORDER }

    function FrameHeight(): nat { height + TITLE_BAR_HEIGHT + BORDER }

    function FrameRect(): Rect { Rect(x, y, FrameWidth(), FrameHeight()) }

    /** The frame with the shadow's margin on every side; it stands for the window wherever damage is counted. */
    function DamageRect(): Rect {
      Rect(x - SHADOW_MARGIN, y - SHADOW_MARGIN, FrameWidth() + 2 * SHADOW_MARGIN, FrameHeight() + 2 * SHADOW_MARGIN)
    }

    /** Equal slots counted from the right edge of the title bar. */
    function ControlRect(control: Control): Rect {
      var slotFromRight := match control case Close => 0 case Maximize => 1 case Minimize => 2;
      Rect(x + FrameWidth() - BORDER - (slotFromRight + 1) * CONTROL_WIDTH, y + BORDER, CONTROL_WIDTH,
           TITLE_BAR_HEIGHT - BORDER)
    }
  }

  datatype Control = Close | Maximize | Minimize

  /** Where a window's parts are, in pixels: the frame a pixel around the content and forty above it, its damage
      thirty-four more on every side, and the controls side by side in the title bar, close at its right end. It is
      drawn unless it is minimized or closed. */
  lemma PartsInPlace(w: Window)
    ensures w.Visible() <==> !w.state.minimized && !w.state.closed
    ensures w.FrameRect() == Rect(w.x, w.y, w.width + 2, w.height + 41)
    ensures w.DamageRect() == Rect(w.x - 34, w.y - 34, w.width + 70, w.height + 109)
    ensures w.ControlRect(Close) == Rect(w.x + w.width - 45, w.y + 1, 46, 39)
    ensures w.ControlRect(Maximize).Right() == w.ControlRect(Close).x && w.ControlRect(Maximize).width == 46
    ensures w.ControlRect(Minimize).Right() == w.ControlRect(Maximize).x && w.ControlRect(Minimize).width == 46
    ensures forall k :: w.ControlRect(k).y == w.y + 1 && w.ControlRect(k).height == 39
  {
  }

  ghost predicate DistinctWindows(windows: seq<Window>) {
    forall i, j :: 0 <= i < j < |windows| ==> windows[i].id != windows[j].id
  }
}
