/** The compositor's cache of committed surfaces: one entry per live surface, merging the damage of
    all commits until it is consumed (graphics-compositor/src/surface.cpp). */
module SurfaceCache {
  import opened Geometry
  import opened Presentation
  import opened Windows

  const MAX_SURFACES := 64
  const FORGET_LISTS := 8

  /** A commit as the kernel reports it; `dirty` is the rectangle the client changed. */
  datatype SurfaceInfo = SurfaceInfo(id: nat, address: nat, width: nat, height: nat, pitch: nat, dirty: Rect)

  predicate GoodInfo(info: SurfaceInfo) {
    info.id != 0 && info.dirty.x >= 0 && info.dirty.y >= 0 && info.dirty.width >= 0 && info.dirty.height >= 0
  }

  datatype Entry = Entry(valid: bool, id: nat, info: SurfaceInfo, dirty: bool, area: Rect,
                         generation: nat, unshownLists: nat)

  const NO_INFO := SurfaceInfo(0, 0, 0, 0, 0, NOTHING)
  const NO_ENTRY := Entry(false, 0, NO_INFO, false, NOTHING, 0, 0)

  // ---- the cache as a value ----------------------------------------------------------------

  ghost predicate DistinctIds(es: seq<Entry>) {
    forall i, j :: 0 <= i < j < |es| && es[i].valid && es[j].valid ==> es[i].id != es[j].id
  }

  /** Damage lies where a surface has pixels. */
  ghost predicate TidyAreas(es: seq<Entry>) {
    forall i :: 0 <= i < |es| && es[i].dirty ==> es[i].area.x >= 0 && es[i].area.y >= 0 && !es[i].area.Empty()
  }

  /** The slot of the surface, or -1. */
  function Find(es: seq<Entry>, id: nat): (at: int)
    ensures -1 <= at < |es|
    ensures at >= 0 ==> id != 0 && es[at].valid && es[at].id == id
    ensures at < 0 && id != 0 ==> forall i :: 0 <= i < |es| && es[i].valid ==> es[i].id != id
  {
    if id == 0 then -1 else FindFrom(es, id, 0)
  }

  function FindFrom(es: seq<Entry>, id: nat, from: nat): (at: int)
    requires from <= |es|
    ensures -1 <= at < |es|
    ensures at >= 0 ==> from <= at && es[at].valid && es[at].id == id
    ensures at < 0 ==> forall i :: from <= i < |es| && es[i].valid ==> es[i].id != id
    decreases |es| - from
  {
    if from == |es| then -1
    else if es[from].valid && es[from].id == id then from
    else FindFrom(es, id, from + 1)
  }

  function FirstFree(es: seq<Entry>, from: nat): (at: int)
    requires from <= |es|
    ensures -1 <= at < |es|
    ensures at >= 0 ==> from <= at && !es[at].valid
    ensures at < 0 ==> forall i :: from <= i < |es| ==> es[i].valid
    decreases |es| - from
  {
    if from == |es| then -1 else if !es[from].valid then from else FirstFree(es, from + 1)
  }

  /** The slot a commit goes to: its surface's, else a free one, else the first. */
  function SlotFor(es: seq<Entry>, id: nat): (at: nat)
    requires |es| > 0
    ensures at < |es|
  {
    if Find(es, id) >= 0 then Find(es, id)
    else if FirstFree(es, 0) >= 0 then FirstFree(es, 0)
    else 0
  }

  function Merged(e: Entry, info: SurfaceInfo): Entry {
    var merged := (if e.dirty then e.area else NOTHING).Unite(info.dirty);
    Entry(true, info.id, info, !merged.Empty(), merged,
          (if !e.valid || e.id != info.id then 0 else e.generation) + 1, 0)
  }

  function Remembered(es: seq<Entry>, info: SurfaceInfo): seq<Entry>
    requires |es| > 0
  {
    var at := SlotFor(es, info.id);
    es[at := Merged(es[at], info)]
  }

  predicate Shown(windows: seq<Window>, id: nat) {
    exists w :: 0 <= w < |windows| && windows[w].surfaceId == id
  }

  function Aged(e: Entry, windows: seq<Window>): Entry {
    if !e.valid then e
    else if Shown(windows, e.id) then e.(unshownLists := 0)
    else if e.unshownLists + 1 > FORGET_LISTS then NO_ENTRY
    else e.(unshownLists := e.unshownLists + 1)
  }

  function Forgotten(es: seq<Entry>, windows: seq<Window>): (r: seq<Entry>)
    ensures |r| == |es| && forall i :: 0 <= i < |es| ==> r[i] == Aged(es[i], windows)
  {
    seq(|es|, i requires 0 <= i < |es| => Aged(es[i], windows))
  }

  function Cleaned(es: seq<Entry>): (r: seq<Entry>)
    ensures |r| == |es| && forall i :: 0 <= i < |es| ==> r[i] == es[i].(dirty := false, area := NOTHING)
  {
    seq(|es|, i requires 0 <= i < |es| => es[i].(dirty := false, area := NOTHING))
  }

  /** The part of a window its surface's damage touches. */
  function WindowDirt(window: Window, es: seq<Entry>): Rect {
    var at := Find(es, window.surfaceId);
    if !window.Visible() || at < 0 || !es[at].dirty then NOTHING
    else
      var e := es[at];
      var right, bottom := Min(e.info.width, window.width), Min(e.info.height, window.height);
      if e.area.width == 0 || e.area.height == 0 || e.area.x >= right || e.area.y >= bottom then NOTHING
      else
        Rect(window.x + BORDER + e.area.x, window.y + TITLE_BAR_HEIGHT + e.area.y,
             Min(e.area.Right(), right) - e.area.x, Min(e.area.Bottom(), bottom) - e.area.y)
  }

  function SceneDirt(windows: seq<Window>, es: seq<Entry>): Rect {
    if windows == [] then NOTHING
    else
      var before := SceneDirt(windows[..|windows| - 1], es);
      var dirt := WindowDirt(windows[|windows| - 1], es);
      if dirt == NOTHING then before else before.Unite(dirt)
  }

  // ---- commits and lookups -----------------------------------------------------------------

  /** A commit finds its entry or a free slot: no live surface is evicted. */
  ghost predicate Room(es: seq<Entry>, id: nat) {
    Find(es, id) >= 0 || exists i :: 0 <= i < |es| && !es[i].valid
  }

  ghost function LiveIds(es: seq<Entry>): set<nat> {
    set i | 0 <= i < |es| && es[i].valid :: es[i].id
  }

  /** With distinct ids, a full cache holds as many surfaces as it has slots. */
  lemma {:induction false} FullCacheCount(es: seq<Entry>)
    requires DistinctIds(es)
    ensures (forall i :: 0 <= i < |es| ==> es[i].valid) ==> |LiveIds(es)| == |es|
  {
    if es != [] && forall i :: 0 <= i < |es| ==> es[i].valid {
      var init, last := es[..|es| - 1], es[|es| - 1];
      FullCacheCount(init);
      assert LiveIds(es) == LiveIds(init) + {last.id} by {
        forall i | 0 <= i < |es| ensures es[i].id in LiveIds(init) + {last.id} {
          if i < |init| {
            assert init[i] == es[i];
          }
        }
      }
      assert last.id !in LiveIds(init);
    }
  }

  /** At most as many live surfaces as slots: every commit finds room. */
  lemma FewSurfacesLeaveRoom(es: seq<Entry>, id: nat)
    requires DistinctIds(es) && id != 0 && |LiveIds(es) + {id}| <= |es|
    ensures Room(es, id)
  {
    FullCacheCount(es);
    if Find(es, id) < 0 {
      assert id !in LiveIds(es);
      assert |LiveIds(es) + {id}| == |LiveIds(es)| + 1;
    }
  }

  /** Distinct ids make the slot of an id unique. */
  lemma FindIsUnique(es: seq<Entry>, i: nat)
    requires DistinctIds(es) && i < |es| && es[i].valid && es[i].id != 0
    ensures Find(es, es[i].id) == i
  {
    var at := Find(es, es[i].id);
    assert at >= 0 && es[at].id == es[i].id;
  }

  /** A commit with room changes the entry of its own surface only, and ids stay distinct. */
  lemma CommitTouchesOne(es: seq<Entry>, info: SurfaceInfo, other: nat)
    requires |es| > 0 && DistinctIds(es) && GoodInfo(info) && Room(es, info.id)
    requires other != info.id
    ensures var after := Remembered(es, info);
            DistinctIds(after) && after[SlotFor(es, info.id)] == Merged(es[SlotFor(es, info.id)], info) &&
            Find(after, info.id) == SlotFor(es, info.id) &&
            Find(after, other) == Find(es, other) &&
              (Find(es, other) >= 0 ==> after[Find(es, other)] == es[Find(es, other)])
  {
    var after, at := Remembered(es, info), SlotFor(es, info.id);
    assert DistinctIds(after);
    FindIsUnique(after, at);
    if other != 0 {
      var was := Find(es, other);
      if was >= 0 {
        assert was != at;
        FindIsUnique(after, was);
      }
    }
  }

  // ---- the cache in place ------------------------------------------------------------------

  class Cache {
    const entries: array<Entry>

    constructor ()
      ensures fresh(entries) && entries.Length == MAX_SURFACES
      ensures forall i :: 0 <= i < MAX_SURFACES ==> entries[i] == NO_ENTRY
    {
      entries := new Entry[MAX_SURFACES](_ => NO_ENTRY);
    }

    method FindSurface(id: nat) returns (at: int)
      ensures at == Find(entries[..], id)
    {
      if id == 0 {
        return -1;
      }
      for i := 0 to entries.Length
        invariant FindFrom(entries[..], id, 0) == FindFrom(entries[..], id, i)
      {
        if entries[i].valid && entries[i].id == id {
          return i;
        }
      }
      return -1;
    }

    method Remember(info: SurfaceInfo)
      requires entries.Length == MAX_SURFACES
      modifies entries
      ensures entries[..] == Remembered(old(entries[..]), info)
    {
      var at := FindSurface(info.id);
      if at < 0 {
        var i := 0;
        while i < entries.Length && entries[i].valid
          invariant 0 <= i <= entries.Length
          invariant FirstFree(entries[..], 0) == FirstFree(entries[..], i)
        {
          i := i + 1;
        }
        if i < entries.Length {
          at := i;
        }
      }
      if at < 0 {
        at := 0;
      }
      var e := entries[at];
      if !e.valid || e.id != info.id {
        e := e.(generation := 0);
      }
      e := e.(valid := true, id := info.id, info := info, unshownLists := 0, generation := e.generation + 1);
      var oldDirty := if e.dirty then e.area else NOTHING;
      var merged := oldDirty.Unite(info.dirty);
      entries[at] := e.(dirty := !merged.Empty(), area := merged);
    }

    /** Ages the entries that this list does not show and drops those older than the limit. */
    method ForgetUnshown(windows: seq<Window>)
      modifies entries
      ensures entries[..] == Forgotten(old(entries[..]), windows)
    {
      for i := 0 to entries.Length
        invariant forall j :: 0 <= j < entries.Length ==>
                    entries[j] == if j < i then Aged(old(entries[j]), windows) else old(entries[j])
      {
        if entries[i].valid {
          var shown, w := false, 0;
          while w < |windows| && !shown
            invariant 0 <= w <= |windows|
            invariant shown <==> exists v :: 0 <= v < w && windows[v].surfaceId == entries[i].id
          {
            shown := windows[w].surfaceId == entries[i].id;
            w := w + 1;
          }
          if shown {
            entries[i] := entries[i].(unshownLists := 0);
          } else {
            entries[i] := entries[i].(unshownLists := entries[i].unshownLists + 1);
            if entries[i].unshownLists > FORGET_LISTS {
              entries[i] := NO_ENTRY;
            }
          }
        }
      }
    }

    method ClearDirtyFlags()
      modifies entries
      ensures entries[..] == Cleaned(old(entries[..]))
    {
      for i := 0 to entries.Length
        invariant forall j :: 0 <= j < entries.Length ==>
                    entries[j] == if j < i then old(entries[j]).(dirty := false, area := NOTHING) else old(entries[j])
      {
        entries[i] := entries[i].(dirty := false, area := NOTHING);
      }
    }

    /** The damaged part of one window, cut to what the window shows of its surface. */
    method TakeWindowDirt(window: Window) returns (r: Rect)
      ensures r == WindowDirt(window, entries[..])
    {
      if !window.Visible() {
        return NOTHING;
      }
      var at := FindSurface(window.surfaceId);
      if at < 0 || !entries[at].dirty {
        return NOTHING;
      }
      var e := entries[at];
      var surfaceRight := if e.info.width < window.width then e.info.width else window.width;
      var surfaceBottom := if e.info.height < window.height then e.info.height else window.height;
      if e.area.width == 0 || e.area.height == 0 || e.area.x >= surfaceRight || e.area.y >= surfaceBottom {
        return NOTHING;
      }
      var clippedRight := if e.area.Right() < surfaceRight then e.area.Right() else surfaceRight;
      var clippedBottom := if e.area.Bottom() < surfaceBottom then e.area.Bottom() else surfaceBottom;
      return Rect(window.x + BORDER + e.area.x, window.y + TITLE_BAR_HEIGHT + e.area.y,
                  clippedRight - e.area.x, clippedBottom - e.area.y);
    }

    /** Takes the damage of every surface a visible window shows, as a rectangle of the screen. */
    method ConsumeDirtyRect(windows: seq<Window>, width: nat, height: nat) returns (r: Rect)
      modifies entries
      ensures r == ClampRect(SceneDirt(windows, old(entries[..])), width, height)
      ensures entries[..] == Cleaned(old(entries[..]))
    {
      var dirty := NOTHING;
      for i := 0 to |windows|
        invariant dirty == SceneDirt(windows[..i], entries[..])
        invariant entries[..] == old(entries[..])
      {
        assert windows[..i + 1][..i] == windows[..i];
        var windowDirty := TakeWindowDirt(windows[i]);
        if windowDirty != NOTHING {
          dirty := dirty.Unite(windowDirty);
        }
      }
      assert windows[..|windows|] == windows;
      ClearDirtyFlags();
      r := ClampRect(dirty, width, height);
    }
  }

  // ---- damage is never lost ----------------------------------------------------------------

  function Committed(es: seq<Entry>, commits: seq<SurfaceInfo>): (r: seq<Entry>)
    requires |es| > 0
    ensures |r| == |es|
    decreases |commits|
  {
    if commits == [] then es
    else Remembered(Committed(es, commits[..|commits| - 1]), commits[|commits| - 1])
  }

  /** Every commit of the run is of a proper surface and finds room. */
  ghost predicate RoomForAll(es: seq<Entry>, commits: seq<SurfaceInfo>)
    requires |es| > 0
    decreases |commits|
  {
    commits == [] ||
    var init, last := commits[..|commits| - 1], commits[|commits| - 1];
    RoomForAll(es, init) && GoodInfo(last) && Room(Committed(es, init), last.id)
  }

  /** The entry of a surface is dirty wherever any commit of it since the last consumption was. */
  ghost predicate Damaged(es: seq<Entry>, id: nat, x: int, y: int) {
    Find(es, id) >= 0 && es[Find(es, id)].dirty && es[Find(es, id)].area.Contains(x, y)
  }

  lemma MergedKeepsDamage(es: seq<Entry>, info: SurfaceInfo, id: nat, x: int, y: int)
    requires |es| > 0 && DistinctIds(es) && GoodInfo(info) && Room(es, info.id)
    requires Damaged(es, id, x, y) || (id == info.id && info.dirty.Contains(x, y))
    ensures Damaged(Remembered(es, info), id, x, y)
  {
    if id == info.id {
      CommitTouchesOne(es, info, 0);
      var e := es[SlotFor(es, id)];
      var merged := (if e.dirty then e.area else NOTHING).Unite(info.dirty);
      assert merged.Contains(x, y);
      EmptyHoldsNothing(merged);
    } else {
      CommitTouchesOne(es, info, id);
    }
  }

  lemma CommitKeepsTidy(es: seq<Entry>, info: SurfaceInfo)
    requires |es| > 0 && DistinctIds(es) && TidyAreas(es) && GoodInfo(info) && Room(es, info.id)
    ensures DistinctIds(Remembered(es, info)) && TidyAreas(Remembered(es, info))
  {
    CommitTouchesOne(es, info, 0);
  }

  lemma {:induction false} DamageAccumulates(es: seq<Entry>, commits: seq<SurfaceInfo>, k: nat, x: int, y: int)
    requires |es| > 0 && DistinctIds(es) && TidyAreas(es) && RoomForAll(es, commits)
    ensures DistinctIds(Committed(es, commits)) && TidyAreas(Committed(es, commits))
    ensures k < |commits| && commits[k].dirty.Contains(x, y) ==> Damaged(Committed(es, commits), commits[k].id, x, y)
  {
    if commits != [] {
      var init, last := commits[..|commits| - 1], commits[|commits| - 1];
      DamageAccumulates(es, init, k, x, y);
      CommitKeepsTidy(Committed(es, init), last);
      if k < |commits| && commits[k].dirty.Contains(x, y) {
        assert k < |init| ==> init[k] == commits[k];
        MergedKeepsDamage(Committed(es, init), last, commits[k].id, x, y);
      }
    }
  }

  /** Where a window shows a damaged surface pixel, the consumed rectangle covers it. */
  lemma {:induction false} DirtCoversDamage(windows: seq<Window>, es: seq<Entry>, w: nat, x: int, y: int)
    requires w < |windows| && windows[w].Visible() && TidyAreas(es)
    requires Damaged(es, windows[w].surfaceId, x, y)
    requires var info := es[Find(es, windows[w].surfaceId)].info;
             x < Min(info.width, windows[w].width) && y < Min(info.height, windows[w].height)
    ensures SceneDirt(windows, es).Contains(windows[w].x + BORDER + x, windows[w].y + TITLE_BAR_HEIGHT + y)
  {
    var init, last := windows[..|windows| - 1], windows[|windows| - 1];
    if w < |init| {
      assert init[w] == windows[w];
      DirtCoversDamage(init, es, w, x, y);
    } else {
      assert WindowDirt(last, es).Contains(last.x + BORDER + x, last.y + TITLE_BAR_HEIGHT + y);
    }
  }

  /** A rectangle that holds whatever damaged pixels of their surfaces the visible windows show. */
  ghost predicate HoldsShownDamage(windows: seq<Window>, es: seq<Entry>, r: Rect) {
    forall w, x, y ::
      (0 <= w < |windows| && windows[w].Visible() && Damaged(es, windows[w].surfaceId, x, y) &&
       x < es[Find(es, windows[w].surfaceId)].info.width && x < windows[w].width &&
       y < es[Find(es, windows[w].surfaceId)].info.height && y < windows[w].height) ==>
        r.Contains(windows[w].x + 1 + x, windows[w].y + 40 + y)
  }

  /** No more is repainted than the hull of the shown damage: the united rectangle lies in every rectangle that holds
      all of it. */
  lemma {:induction false} DirtIsLeast(windows: seq<Window>, es: seq<Entry>, r: Rect)
    requires TidyAreas(es) && HoldsShownDamage(windows, es, r)
    ensures forall x, y :: SceneDirt(windows, es).Contains(x, y) ==> r.Contains(x, y)
  {
    hide HoldsShownDamage, Damaged, WindowDirt;
    if windows != [] {
      var init, last := windows[..|windows| - 1], windows[|windows| - 1];
      FewerWindows(windows, es, r);
      DirtIsLeast(init, es, r);
      LastIsHeld(windows, es, r);
      UniteIsLeast(SceneDirt(init, es), WindowDirt(last, es), r);
    }
  }

  lemma FewerWindows(windows: seq<Window>, es: seq<Entry>, r: Rect)
    requires HoldsShownDamage(windows, es, r) && windows != []
    ensures HoldsShownDamage(windows[..|windows| - 1], es, r)
  {
    hide Damaged;
    var init := windows[..|windows| - 1];
    assert forall w :: 0 <= w < |init| ==> init[w] == windows[w];
  }

  lemma LastIsHeld(windows: seq<Window>, es: seq<Entry>, r: Rect)
    requires TidyAreas(es) && HoldsShownDamage(windows, es, r) && windows != []
    ensures forall x, y :: WindowDirt(windows[|windows| - 1], es).Contains(x, y) ==> r.Contains(x, y)
  {
    var w := |windows| - 1;
    var at := Find(es, windows[w].surfaceId);
    forall x, y | WindowDirt(windows[w], es).Contains(x, y) ensures r.Contains(x, y) {
      var sx, sy := x - windows[w].x - 1, y - windows[w].y - 40;
      assert sx < es[at].info.width && sx < windows[w].width && sy < es[at].info.height && sy < windows[w].height;
      assert Damaged(es, windows[w].surfaceId, sx, sy);
    }
  }

  /** Where a commit goes and what its entry then holds: the surface's own slot, else the first that is free, else the
      very first; the commit's data, one generation more or the first, no list counted; and as damage the hull of what
      the slot noted before and the commit's rectangle. Every other slot is as before. */
  lemma CommitStored(es: seq<Entry>, info: SurfaceInfo)
    requires |es| > 0 && GoodInfo(info)
    ensures exists at ::
              0 <= at < |es| && StoredAt(es, info, at) && |Remembered(es, info)| == |es| &&
              (forall i :: 0 <= i < |es| && i != at ==> Remembered(es, info)[i] == es[i]) &&
              Stores(es[at], info, Remembered(es, info)[at])
  {
    hide StoredAt, Stores, Merged;
    var at := SlotFor(es, info.id);
    MergedStores(es[at], info);
    RightSlot(es, info);
  }

  predicate HoldsSurface(e: Entry, id: nat) { e.valid && e.id == id }

  lemma RightSlot(es: seq<Entry>, info: SurfaceInfo)
    requires |es| > 0 && info.id != 0
    ensures StoredAt(es, info, SlotFor(es, info.id))
  {
    hide FindFrom, FirstFree;
    var mine, free := FindFrom(es, info.id, 0), FirstFree(es, 0);
    FirstOfMine(es, info.id, 0);
    FirstOfFree(es, 0);
    if mine >= 0 {
      assert HoldsSurface(es[mine], info.id);
    } else if free >= 0 {
      assert forall i :: 0 <= i < |es| ==> !HoldsSurface(es[i], info.id);
      assert !es[free].valid;
    } else {
      assert forall i :: 0 <= i < |es| ==> !HoldsSurface(es[i], info.id);
    }
  }

  ghost predicate StoredAt(es: seq<Entry>, info: SurfaceInfo, at: int)
    requires 0 <= at < |es|
  {
    if exists i :: 0 <= i < |es| && HoldsSurface(es[i], info.id)
    then HoldsSurface(es[at], info.id) && forall i :: 0 <= i < at ==> !HoldsSurface(es[i], info.id)
    else if exists i :: 0 <= i < |es| && !es[i].valid then !es[at].valid && forall i :: 0 <= i < at ==> es[i].valid
    else at == 0
  }

  ghost predicate Stores(before: Entry, info: SurfaceInfo, after: Entry) {
    after.valid && after.id == info.id && after.info == info && after.unshownLists == 0 &&
    after.generation == (if before.valid && before.id == info.id then before.generation + 1 else 1) &&
    (after.dirty <==> !after.area.Empty()) && HoldsBoth(before, info, after.area) &&
    forall r: Rect :: HoldsBoth(before, info, r) ==> forall x, y :: after.area.Contains(x, y) ==> r.Contains(x, y)
  }

  /** A rectangle that holds what the slot noted before and the commit's. */
  ghost predicate HoldsBoth(before: Entry, info: SurfaceInfo, r: Rect) {
    forall x, y :: (before.dirty && before.area.Contains(x, y)) || info.dirty.Contains(x, y) ==> r.Contains(x, y)
  }

  lemma MergedStores(before: Entry, info: SurfaceInfo)
    requires info.dirty.width >= 0 && info.dirty.height >= 0
    ensures Stores(before, info, Merged(before, info))
  {
    var noted := if before.dirty then before.area else NOTHING;
    forall r: Rect | HoldsBoth(before, info, r)
      ensures forall x, y :: Merged(before, info).area.Contains(x, y) ==> r.Contains(x, y)
    {
      assert forall x, y :: noted.Contains(x, y) ==> before.dirty && before.area.Contains(x, y);
      UniteIsLeast(noted, info.dirty, r);
    }
  }

  lemma {:induction false} FirstOfMine(es: seq<Entry>, id: nat, from: nat)
    requires from <= |es|
    ensures var at := FindFrom(es, id, from);
            forall i :: from <= i < (if at < 0 then |es| else at) ==> !(es[i].valid && es[i].id == id)
    decreases |es| - from
  {
    if from < |es| {
      FirstOfMine(es, id, from + 1);
    }
  }

  lemma {:induction false} FirstOfFree(es: seq<Entry>, from: nat)
    requires from <= |es|
    ensures var at := FirstFree(es, from); forall i :: from <= i < (if at < 0 then |es| else at) ==> es[i].valid
    decreases |es| - from
  {
    if from < |es| {
      FirstOfFree(es, from + 1);
    }
  }

  /** Damage is never lost: whatever part of a surface any commit since the last consumption changed,
      a window showing that part on the screen has it in the rectangle that is consumed, and the
      rectangle stays on the screen. */
  lemma DamageNeverLost(es: seq<Entry>, commits: seq<SurfaceInfo>, windows: seq<Window>, width: nat, height: nat,
                        k: nat, w: nat, x: int, y: int)
    requires |es| > 0 && DistinctIds(es) && TidyAreas(es) && RoomForAll(es, commits)
    requires k < |commits| && commits[k].dirty.Contains(x, y)
    requires w < |windows| && windows[w].Visible() && windows[w].surfaceId == commits[k].id
    requires var after := Committed(es, commits);
             Find(after, commits[k].id) >= 0 ==>
               x < Min(after[Find(after, commits[k].id)].info.width, windows[w].width) &&
               y < Min(after[Find(after, commits[k].id)].info.height, windows[w].height)
    ensures var r := ClampRect(SceneDirt(windows, Committed(es, commits)), width, height);
            var px, py := windows[w].x + BORDER + x, windows[w].y + TITLE_BAR_HEIGHT + y;
            (0 <= px < width && 0 <= py < height ==> r.Contains(px, py)) &&
            (forall qx, qy :: r.Contains(qx, qy) ==> 0 <= qx < width && 0 <= qy < height)
  {
    DamageAccumulates(es, commits, k, x, y);
    DirtCoversDamage(windows, Committed(es, commits), w, x, y);
  }

  // ---- which surfaces are kept -------------------------------------------------------------

  datatype Event = Commit(info: SurfaceInfo) | List(windows: seq<Window>)

  function Run(es: seq<Entry>, events: seq<Event>): (r: seq<Entry>)
    requires |es| > 0
    ensures |r| == |es|
    decreases |events|
  {
    if events == [] then es
    else
      var before := Run(es, events[..|events| - 1]);
      match events[|events| - 1]
      case Commit(info) => Remembered(before, info)
      case List(windows) => Forgotten(before, windows)
  }

  /** The length of the run of lists without the surface that ends the history, counted from its last commit. */
  function Quiet(events: seq<Event>, id: nat): nat
    decreases |events|
  {
    if events == [] then 0
    else
      var before := Quiet(events[..|events| - 1], id);
      match events[|events| - 1]
      case Commit(info) => if info.id == id then 0 else before
      case List(windows) => if Shown(windows, id) then 0 else before + 1
  }

  /** Some commit of the surface was never followed by a ninth quiet list in a row. */
  ghost predicate Kept(events: seq<Event>, id: nat) {
    exists c :: 0 <= c < |events| && events[c].Commit? && events[c].info.id == id && QuietEnough(events, id, c)
  }

  ghost predicate QuietEnough(events: seq<Event>, id: nat, c: nat)
  {
    forall n {:trigger events[..n]} :: c < n <= |events| ==> Quiet(events[..n], id) <= FORGET_LISTS
  }

  ghost predicate RunHasRoom(es: seq<Entry>, events: seq<Event>)
    requires |es| > 0
    decreases |events|
  {
    events == [] ||
    var init, last := events[..|events| - 1], events[|events| - 1];
    RunHasRoom(es, init) &&
    (last.Commit? ==> GoodInfo(last.info) && |LiveIds(Run(es, init)) + {last.info.id}| <= |es|)
  }

  lemma KeptStep(events: seq<Event>, id: nat)
    requires |events| > 0
    ensures var init, last := events[..|events| - 1], events[|events| - 1];
            Kept(events, id) <==>
            (last.Commit? && last.info.id == id) || (Kept(init, id) && Quiet(events, id) <= 8)
  {
    var n := |events| - 1;
    var init, last := events[..n], events[n];
    assert events[..|events|] == events;
    assert forall m :: 0 <= m <= n ==> init[..m] == events[..m];
    if last.Commit? && last.info.id == id {
      assert QuietEnough(events, id, n);
    }
    if Kept(init, id) && Quiet(events, id) <= FORGET_LISTS {
      var c :| 0 <= c < |init| && init[c].Commit? && init[c].info.id == id && QuietEnough(init, id, c);
      forall m | c < m <= |events| ensures Quiet(events[..m], id) <= FORGET_LISTS {
        if m <= n {
          assert init[..m] == events[..m];
        }
      }
      assert events[c].Commit? && QuietEnough(events, id, c);
    }
    if Kept(events, id) && !(last.Commit? && last.info.id == id) {
      var c :| 0 <= c < |events| && events[c].Commit? && events[c].info.id == id && QuietEnough(events, id, c);
      assert c < n && Quiet(events[..|events|], id) <= FORGET_LISTS;
      forall m | c < m <= n ensures Quiet(init[..m], id) <= FORGET_LISTS {
        assert init[..m] == events[..m];
      }
      assert init[c].Commit? && QuietEnough(init, id, c);
    }
  }

  /** The cache agrees with the history: who is kept, and for how long it went unshown. */
  ghost predicate Agrees(es: seq<Entry>, events: seq<Event>, id: nat) {
    (Find(es, id) >= 0 <==> Kept(events, id)) &&
    (Find(es, id) >= 0 ==> es[Find(es, id)].unshownLists == Quiet(events, id))
  }

  lemma ForgetStep(es: seq<Entry>, windows: seq<Window>, id: nat)
    requires DistinctIds(es) && id != 0
    ensures var after := Forgotten(es, windows); var at := Find(es, id);
            DistinctIds(after) &&
            (at < 0 ==> Find(after, id) < 0) &&
            (at >= 0 && Aged(es[at], windows).valid ==> Find(after, id) == at) &&
            (at >= 0 && !Aged(es[at], windows).valid ==> Find(after, id) < 0)
  {
    var after, at := Forgotten(es, windows), Find(es, id);
    assert forall i :: 0 <= i < |es| && after[i].valid ==> es[i].valid && after[i].id == es[i].id;
    assert at >= 0 ==> forall i :: 0 <= i < |es| && es[i].valid && es[i].id == id ==> i == at;
    if at >= 0 && after[at].valid {
      FindIsUnique(after, at);
    }
  }

  /** From an empty cache and with no more live surfaces than slots, over every run of commits and
      window lists: the valid entries have distinct ids, and a surface has an entry exactly when some
      commit of it was not followed by nine window lists in a row that did not show it. */
  lemma {:induction false} CacheFollowsHistory(es: seq<Entry>, events: seq<Event>, id: nat)
    requires |es| > 0 && id != 0 && RunHasRoom(es, events)
    requires forall i :: 0 <= i < |es| ==> !es[i].valid
    ensures DistinctIds(Run(es, events)) && Agrees(Run(es, events), events, id)
    decreases |events|
  {
    if events == [] {
      return;
    }
    var init, last := events[..|events| - 1], events[|events| - 1];
    var before := Run(es, init);
    CacheFollowsHistory(es, init, id);
    KeptStep(events, id);
    match last {
      case Commit(info) =>
        FewSurfacesLeaveRoom(before, info.id);
        CommitTouchesOne(before, info, if info.id == id then 0 else id);
        QuietOfKept(init, id);
      case List(windows) =>
        ForgetStep(before, windows, id);
    }
  }

  /** A kept surface has not been quiet for too long. */
  lemma QuietOfKept(events: seq<Event>, id: nat)
    ensures Kept(events, id) ==> Quiet(events, id) <= FORGET_LISTS
  {
    if Kept(events, id) {
      assert events[..|events|] == events;
    }
  }
}
