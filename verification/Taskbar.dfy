/** Where the taskbar's parts are: the pinned apps' tiles, then one tile per window of any other app,
    oldest first (graphics-compositor/src/scene.cpp). */
module Taskbar {
  import opened Geometry
  import opened Windows

  const TASKBAR_HEIGHT := 52
  const TASKBAR_MARGIN := 12
  const WORK_AREA_GAP := 12
  const START_MARGIN := 8
  const START_SIZE := 36
  const TILE_SIZE := 44
  const TILE_GAP := 6
  const TOOLTIP_HEIGHT := 26
  const PINNED_COUNT := 5
  const MAX_TILES := 16
  const MAX_UNPINNED := MAX_TILES - PINNED_COUNT

  const PINNED_TITLES := ["Terminal", "File Browser", "Background Switcher", "Cube", "NetSurf"]

  datatype Tile = Tile(rect: Rect, slot: int, windowId: nat)

  datatype Layout = Layout(bar: Rect, start: Rect, tiles: seq<Tile>)

  datatype Hit = Nothing | OnBar | OnStart | OnTile(tile: nat)

  function BarRect(screenWidth: nat, screenHeight: nat): Rect {
    Rect(TASKBAR_MARGIN, screenHeight - TASKBAR_MARGIN - TASKBAR_HEIGHT, screenWidth - 2 * TASKBAR_MARGIN,
         TASKBAR_HEIGHT)
  }

  function WorkAreaBottom(screenHeight: nat): int {
    screenHeight - TASKBAR_MARGIN - TASKBAR_HEIGHT - WORK_AREA_GAP
  }

  /** The pinned app whose window carries this title, or -1. */
  function PinnedSlot(title: string): int {
    if title == PINNED_TITLES[0] then 0
    else if title == PINNED_TITLES[1] then 1
    else if title == PINNED_TITLES[2] then 2
    else if title == PINNED_TITLES[3] then 3
    else if title == PINNED_TITLES[4] then 4
    else -1
  }

  // ---- which windows get a tile ------------------------------------------------------------

  predicate NeedsTile(window: Window) {
    window.Open() && PinnedSlot(window.title) < 0
  }

  function UnpinnedIds(windows: seq<Window>): seq<nat> {
    if windows == [] then []
    else
      var last := windows[|windows| - 1];
      UnpinnedIds(windows[..|windows| - 1]) + if NeedsTile(last) then [last.id] else []
  }

  /** Into a sorted list, after everything not larger. */
  function Insert(s: seq<nat>, v: nat): seq<nat> {
    if s != [] && s[|s| - 1] > v then Insert(s[..|s| - 1], v) + [s[|s| - 1]] else s + [v]
  }

  function Sort(s: seq<nat>): seq<nat> {
    if s == [] then [] else Insert(Sort(s[..|s| - 1]), s[|s| - 1])
  }

  function Take(s: seq<nat>, k: nat): seq<nat> {
    if |s| <= k then s else s[..k]
  }

  /** The windows the unpinned tiles stand for. */
  function TileIds(windows: seq<Window>): seq<nat> {
    Take(Sort(UnpinnedIds(windows)), MAX_UNPINNED)
  }

  ghost predicate Ascending(s: seq<nat>) {
    forall i, j :: 0 <= i < j < |s| ==> s[i] <= s[j]
  }

  ghost predicate StrictlyAscending(s: seq<nat>) {
    forall i, j :: 0 <= i < j < |s| ==> s[i] < s[j]
  }

  lemma {:induction false} InsertSorts(s: seq<nat>, v: nat)
    requires Ascending(s)
    ensures Ascending(Insert(s, v)) && |Insert(s, v)| == |s| + 1
    ensures forall x :: x in Insert(s, v) ==> x <= if s == [] then v else Max(v, s[|s| - 1])
  {
    if s != [] && s[|s| - 1] > v {
      var init, last := s[..|s| - 1], s[|s| - 1];
      InsertSorts(init, v);
      var t := Insert(init, v);
      assert Insert(s, v) == t + [last];
      assert forall i :: 0 <= i < |t| ==> t[i] in t;
    }
  }

  lemma {:induction false} InsertAdds(s: seq<nat>, v: nat)
    ensures multiset(Insert(s, v)) == multiset(s) + multiset{v}
  {
    if s != [] && s[|s| - 1] > v {
      InsertAdds(s[..|s| - 1], v);
      assert s == s[..|s| - 1] + [s[|s| - 1]];
    }
  }

  lemma {:induction false} SortSorts(s: seq<nat>)
    ensures Ascending(Sort(s)) && |Sort(s)| == |s| && multiset(Sort(s)) == multiset(s)
  {
    if s != [] {
      SortSorts(s[..|s| - 1]);
      InsertSorts(Sort(s[..|s| - 1]), s[|s| - 1]);
      InsertAdds(Sort(s[..|s| - 1]), s[|s| - 1]);
      assert s == s[..|s| - 1] + [s[|s| - 1]];
    }
  }

  /** Keeping only the first k while inserting gives the first k of the whole. */
  lemma {:induction false} BoundedInsertion(s: seq<nat>, v: nat, k: nat)
    requires Ascending(s)
    ensures Take(Insert(s, v), k) == Take(Insert(Take(s, k), v), k)
  {
    if |s| > k {
      var init, last := s[..|s| - 1], s[|s| - 1];
      assert Take(init, k) == Take(s, k);
      BoundedInsertion(init, v, k);
      InsertSorts(init, v);
      if last > v {
        assert Take(Insert(s, v), k) == Take(Insert(init, v), k);
      } else {
        InsertSorts(s[..k], v);
        assert Take(Insert(s, v), k) == s[..k];
        assert k > 0 ==> s[..k][k - 1] <= last;
        InsertBeyond(init, s, v, k);
      }
    }
  }

  /** A value no smaller than the kept ones does not displace any. */
  lemma InsertBeyond(init: seq<nat>, s: seq<nat>, v: nat, k: nat)
    requires Ascending(s) && |s| > k && init == s[..|s| - 1] && v >= s[|s| - 1]
    ensures Take(Insert(s[..k], v), k) == s[..k]
  {
    assert k > 0 ==> s[..k][|s[..k]| - 1] == s[k - 1] <= s[|s| - 1];
  }

  /** Where a shifted insertion into a window of `n` kept values puts the new one. */
  lemma {:induction false} InsertAt(s: seq<nat>, v: nat, at: nat)
    requires at <= |s|
    requires forall i :: at <= i < |s| ==> s[i] > v
    requires at > 0 ==> s[at - 1] <= v
    ensures Insert(s, v) == s[..at] + [v] + s[at..]
  {
    if at < |s| {
      var init := s[..|s| - 1];
      InsertAt(init, v, at);
      assert init[..at] + [v] + init[at..] + [s[|s| - 1]] == s[..at] + [v] + s[at..];
      assert init[..at] == s[..at];
    } else {
      assert s[..at] + [v] + s[at..] == s + [v];
    }
  }

  lemma {:induction false} UnpinnedMembers(windows: seq<Window>, id: nat)
    ensures id in UnpinnedIds(windows) <==>
              exists w :: 0 <= w < |windows| && NeedsTile(windows[w]) && windows[w].id == id
  {
    if windows != [] {
      var init, last := windows[..|windows| - 1], windows[|windows| - 1];
      UnpinnedMembers(init, id);
      assert windows == init + [last];
    }
  }

  lemma {:induction false} UnpinnedDistinct(windows: seq<Window>)
    requires DistinctWindows(windows)
    ensures forall i, j :: 0 <= i < j < |UnpinnedIds(windows)| ==> UnpinnedIds(windows)[i] != UnpinnedIds(windows)[j]
  {
    if windows != [] {
      var init, last := windows[..|windows| - 1], windows[|windows| - 1];
      UnpinnedDistinct(init);
      UnpinnedMembers(init, last.id);
      var ids := UnpinnedIds(init);
      assert forall i :: 0 <= i < |ids| ==> ids[i] in ids;
    }
  }

  /** Distinct ids sort into a strictly ascending list of the same members. */
  lemma SortStrict(s: seq<nat>)
    requires forall i, j :: 0 <= i < j < |s| ==> s[i] != s[j]
    ensures StrictlyAscending(Sort(s)) && forall x :: x in Sort(s) <==> x in s
  {
    SortSorts(s);
    var t := Sort(s);
    assert forall x :: x in t <==> x in multiset(t);
    forall i, j | 0 <= i < j < |t| ensures t[i] < t[j] {
      if t[i] == t[j] {
        OnceInMultiset(s, t[i]);
        TwiceInMultiset(t, i, j);
      }
    }
  }

  lemma {:induction false} OnceInMultiset(s: seq<nat>, x: nat)
    requires forall i, j :: 0 <= i < j < |s| ==> s[i] != s[j]
    ensures multiset(s)[x] <= 1
  {
    if s != [] {
      OnceInMultiset(s[..|s| - 1], x);
      assert s == s[..|s| - 1] + [s[|s| - 1]];
    }
  }

  lemma TwiceInMultiset(s: seq<nat>, i: nat, j: nat)
    requires i < j < |s| && s[i] == s[j]
    ensures multiset(s)[s[i]] >= 2
  {
    assert s == s[..j] + s[j..];
    assert s[i] == s[..j][i] && s[i] in s[..j] && s[j] == s[j..][0] && s[j] in s[j..];
  }

  ghost function Smaller(windows: seq<Window>, id: nat): set<nat> {
    set w | 0 <= w < |windows| && NeedsTile(windows[w]) && windows[w].id < id :: windows[w].id
  }

  ghost function Members(s: seq<nat>): set<nat> {
    set x | x in s
  }

  lemma {:induction false} CountMembers(s: seq<nat>)
    requires StrictlyAscending(s)
    ensures |Members(s)| == |s|
  {
    if s != [] {
      var init, last := s[..|s| - 1], s[|s| - 1];
      CountMembers(init);
      assert s == init + [last];
      assert Members(s) == Members(init) + {last};
    }
  }

  lemma SmallerInList(s: seq<nat>, i: nat, x: nat)
    requires StrictlyAscending(s) && i < |s|
    ensures x in s && x < s[i] <==> x in s[..i]
  {
    if x in s && x < s[i] {
      var n :| 0 <= n < |s| && s[n] == x;
      assert s[..i][n] == x;
    }
  }

  /** The unpinned tiles stand, in increasing order, for exactly those open windows of unpinned apps
      that fewer than eleven others are older than: whatever the order of the list. */
  lemma TilesAreTheOldest(windows: seq<Window>)
    requires DistinctWindows(windows)
    ensures StrictlyAscending(TileIds(windows)) && |TileIds(windows)| <= MAX_UNPINNED
    ensures forall id :: id in TileIds(windows) <==>
              (exists w :: 0 <= w < |windows| && NeedsTile(windows[w]) && windows[w].id == id) &&
              |Smaller(windows, id)| < MAX_UNPINNED
  {
    hide Sort, UnpinnedIds, Smaller, NeedsTile;
    var sorted := Sort(UnpinnedIds(windows));
    UnpinnedDistinct(windows);
    SortStrict(UnpinnedIds(windows));
    forall id
      ensures id in TileIds(windows) <==>
                (exists w :: 0 <= w < |windows| && NeedsTile(windows[w]) && windows[w].id == id) &&
                |Smaller(windows, id)| < MAX_UNPINNED
    {
      UnpinnedMembers(windows, id);
      if id in sorted {
        var n :| 0 <= n < |sorted| && sorted[n] == id;
        OlderCount(windows, n);
        if n < MAX_UNPINNED {
          assert TileIds(windows)[n] == id;
        }
      }
    }
  }

  /** The n-th unpinned id has n older ones. */
  lemma OlderCount(windows: seq<Window>, n: nat)
    requires StrictlyAscending(Sort(UnpinnedIds(windows))) && n < |Sort(UnpinnedIds(windows))|
    requires forall x :: x in Sort(UnpinnedIds(windows)) <==> x in UnpinnedIds(windows)
    ensures |Smaller(windows, Sort(UnpinnedIds(windows))[n])| == n
  {
    hide Sort, UnpinnedIds, NeedsTile;
    var sorted := Sort(UnpinnedIds(windows));
    CountMembers(sorted[..n]);
    forall x ensures x in Smaller(windows, sorted[n]) <==> x in Members(sorted[..n]) {
      UnpinnedMembers(windows, x);
      SmallerInList(sorted, n, x);
    }
    assert Smaller(windows, sorted[n]) == Members(sorted[..n]);
  }

  /** Strictly ascending lists with the same members are the same. */
  lemma {:induction false} AscendingUnique(s: seq<nat>, t: seq<nat>)
    requires StrictlyAscending(s) && StrictlyAscending(t) && forall x :: x in s <==> x in t
    ensures s == t
  {
    assert s != [] ==> s[0] in t && s[|s| - 1] in t;
    assert t != [] ==> t[0] in s && t[|t| - 1] in s;
    if s != [] && t != [] {
      var s', t' := s[..|s| - 1], t[..|t| - 1];
      assert s[|s| - 1] == t[|t| - 1];
      forall x ensures x in s' <==> x in t' {
        DropLast(s, x);
        DropLast(t, x);
      }
      AscendingUnique(s', t');
      assert s == s' + [s[|s| - 1]] && t == t' + [t[|t| - 1]];
    }
  }

  lemma DropLast(s: seq<nat>, x: nat)
    requires StrictlyAscending(s) && s != []
    ensures x in s[..|s| - 1] <==> x in s && x != s[|s| - 1]
  {
    assert s == s[..|s| - 1] + [s[|s| - 1]];
  }

  lemma ListOrderIrrelevant(a: seq<Window>, b: seq<Window>)
    requires DistinctWindows(a) && DistinctWindows(b)
    requires forall w :: w in a <==> w in b
    ensures TileIds(a) == TileIds(b)
  {
    TilesAreTheOldest(a);
    TilesAreTheOldest(b);
    forall id ensures id in TileIds(a) <==> id in TileIds(b) {
      assert Smaller(a, id) == Smaller(b, id) by {
        assert forall w :: 0 <= w < |a| ==> a[w] in b;
        assert forall w :: 0 <= w < |b| ==> b[w] in a;
      }
      assert forall w :: 0 <= w < |a| ==> a[w] in b;
      assert forall w :: 0 <= w < |b| ==> b[w] in a;
    }
    AscendingUnique(TileIds(a), TileIds(b));
  }

  // ---- the layout --------------------------------------------------------------------------

  function TileRect(bar: Rect, count: nat, i: int): Rect {
    var total := count * TILE_SIZE + (count - 1) * TILE_GAP;
    Rect(bar.x + Halved(bar.width - total) + i * (TILE_SIZE + TILE_GAP), bar.y + (TASKBAR_HEIGHT - TILE_SIZE) / 2,
         TILE_SIZE, TILE_SIZE)
  }

  /** The source's integer division truncates toward zero. */
  function Halved(n: int): int {
    if n >= 0 then n / 2 else -(-n / 2)
  }

  function LayoutOf(screenWidth: nat, screenHeight: nat, windows: seq<Window>): (layout: Layout)
    ensures |layout.tiles| == PINNED_COUNT + |TileIds(windows)|
    ensures forall i :: 0 <= i < |layout.tiles| ==>
              layout.tiles[i] == Tile(TileRect(layout.bar, |layout.tiles|, i),
                                      if i < PINNED_COUNT then i else -1,
                                      if i < PINNED_COUNT then 0 else TileIds(windows)[i - PINNED_COUNT])
  {
    var bar := BarRect(screenWidth, screenHeight);
    var ids := TileIds(windows);
    var count := PINNED_COUNT + |ids|;
    Layout(bar,
           Rect(bar.x + START_MARGIN, bar.y + (TASKBAR_HEIGHT - START_SIZE) / 2, START_SIZE, START_SIZE),
           seq(count, i requires 0 <= i < count =>
             Tile(TileRect(bar, count, i), if i < PINNED_COUNT then i else -1,
                  if i < PINNED_COUNT then 0 else ids[i - PINNED_COUNT])))
  }

  /** The ids in the unpinned part of the tile array. */
  ghost function Kept(tiles: seq<Tile>, count: nat): (ids: seq<nat>)
    requires PINNED_COUNT <= count <= |tiles|
    ensures |ids| == count - PINNED_COUNT
    ensures forall i :: 0 <= i < |ids| ==> ids[i] == tiles[PINNED_COUNT + i].windowId
  {
    seq<nat>(count - PINNED_COUNT, i requires 0 <= i < count - PINNED_COUNT => tiles[PINNED_COUNT + i].windowId)
  }

  /** Shifting the kept ids up to their place and dropping the last one when full is bounded insertion. */
  lemma ShiftIsInsertion(ids: seq<nat>, id: nat, room: nat, place: nat)
    requires Ascending(ids) && |ids| <= MAX_UNPINNED
    requires room == if |ids| < MAX_UNPINNED then |ids| else MAX_UNPINNED - 1
    requires |ids| == MAX_UNPINNED ==> id <= ids[MAX_UNPINNED - 1]
    requires place <= room && (forall j :: place <= j < room ==> ids[j] > id) && (place > 0 ==> ids[place - 1] <= id)
    ensures Take(Insert(ids, id), MAX_UNPINNED) == ids[..place] + [id] + ids[place..room]
  {
    var kept := ids[..room];
    InsertAt(kept, id, place);
    assert kept[..place] == ids[..place] && kept[place..] == ids[place..room];
    if |ids| < MAX_UNPINNED {
      assert kept == ids;
    } else if ids[room] > id {
      assert ids == kept + [ids[room]];
    } else {
      assert place == room;
      assert ids == kept + [id];
    }
  }

  /** Moves the tiles of younger windows up by one, from the end, to make room. */
  method ShiftUp(tiles: array<Tile>, end: nat, id: nat) returns (at: nat)
    requires PINNED_COUNT <= end < tiles.Length
    modifies tiles
    ensures PINNED_COUNT <= at <= end
    ensures forall i :: 0 <= i < at ==> tiles[i] == old(tiles[i])
    ensures forall i :: at < i <= end ==> tiles[i] == old(tiles[i - 1])
    ensures forall i :: at <= i < end ==> old(tiles[i]).windowId > id
    ensures at > PINNED_COUNT ==> tiles[at - 1].windowId <= id
  {
    at := end;
    while at > PINNED_COUNT && tiles[at - 1].windowId > id
      invariant PINNED_COUNT <= at <= end
      invariant forall i :: 0 <= i < at ==> tiles[i] == old(tiles[i])
      invariant forall i :: at < i <= end ==> tiles[i] == old(tiles[i - 1])
      invariant forall i :: at <= i < end ==> old(tiles[i]).windowId > id
    {
      tiles[at] := tiles[at - 1];
      at := at - 1;
    }
  }

  lemma InsertPastFull(ids: seq<nat>, id: nat)
    requires |ids| == MAX_UNPINNED && id > ids[MAX_UNPINNED - 1]
    ensures Take(Insert(ids, id), MAX_UNPINNED) == ids
  {
    assert (ids + [id])[..MAX_UNPINNED] == ids;
  }

  /** One window into the bounded tile array: shifted in from the end, the last one dropped when full. */
  method InsertTile(tiles: array<Tile>, count: nat, id: nat) returns (newCount: nat)
    requires tiles.Length == MAX_TILES && PINNED_COUNT <= count <= MAX_TILES
    requires Ascending(Kept(tiles[..], count))
    requires forall i :: PINNED_COUNT <= i < count ==> tiles[i].slot == -1
    modifies tiles
    ensures PINNED_COUNT <= newCount <= MAX_TILES
    ensures Kept(tiles[..], newCount) == Take(Insert(old(Kept(tiles[..], count)), id), MAX_UNPINNED)
    ensures forall i :: 0 <= i < PINNED_COUNT ==> tiles[i] == old(tiles[i])
    ensures forall i :: PINNED_COUNT <= i < newCount ==> tiles[i].slot == -1
  {
    ghost var ids := Kept(tiles[..], count);
    ghost var was := tiles[..];
    if count == MAX_TILES && id > tiles[MAX_TILES - 1].windowId {
      assert ids[MAX_UNPINNED - 1] < id;
      InsertPastFull(ids, id);
      return count;
    }
    assert count == MAX_TILES ==> id <= ids[MAX_UNPINNED - 1];
    var end := if count < MAX_TILES then count else MAX_TILES - 1;
    newCount := if count < MAX_TILES then count + 1 else count;
    var at := ShiftUp(tiles, end, id);
    tiles[at] := Tile(NOTHING, -1, id);
    ShiftedIds(was, tiles[..], count, newCount, end, at, id);
  }

  lemma ShiftedIds(was: seq<Tile>, now: seq<Tile>, count: nat, newCount: nat, end: nat, at: nat, id: nat)
    requires |was| == |now| == MAX_TILES && PINNED_COUNT <= count <= MAX_TILES
    requires newCount == if count < MAX_TILES then count + 1 else count
    requires end == newCount - 1 && PINNED_COUNT <= at <= end
    requires Ascending(Kept(was, count)) && (count == MAX_TILES ==> id <= was[MAX_TILES - 1].windowId)
    requires forall i :: 0 <= i < at ==> now[i] == was[i]
    requires now[at].windowId == id
    requires forall i :: at < i <= end ==> now[i] == was[i - 1]
    requires forall i :: at <= i < end ==> was[i].windowId > id
    requires at > PINNED_COUNT ==> was[at - 1].windowId <= id
    ensures Kept(now, newCount) == Take(Insert(Kept(was, count), id), MAX_UNPINNED)
  {
    var ids := Kept(was, count);
    var room, place := end - PINNED_COUNT, at - PINNED_COUNT;
    assert count == MAX_TILES ==> ids[MAX_UNPINNED - 1] == was[PINNED_COUNT + (MAX_UNPINNED - 1)].windowId;
    assert place > 0 ==> ids[place - 1] == was[PINNED_COUNT + (place - 1)].windowId;
    ShiftIsInsertion(ids, id, room, place);
    var want := ids[..place] + [id] + ids[place..room];
    forall j | 0 <= j < newCount - PINNED_COUNT
      ensures Kept(now, newCount)[j] == want[j]
    {
      if j > place {
        assert now[PINNED_COUNT + j] == was[PINNED_COUNT + j - 1];
        assert ids[j - 1] == was[PINNED_COUNT + (j - 1)].windowId;
      }
    }
    assert Kept(now, newCount) == want;
  }

  method TaskbarLayout(screenWidth: nat, screenHeight: nat, windows: seq<Window>) returns (layout: Layout)
    ensures layout == LayoutOf(screenWidth, screenHeight, windows)
  {
    var bar := BarRect(screenWidth, screenHeight);
    var start := Rect(bar.x + START_MARGIN, bar.y + (TASKBAR_HEIGHT - START_SIZE) / 2, START_SIZE, START_SIZE);
    var tiles := new Tile[MAX_TILES](i => Tile(NOTHING, i, 0));
    var count := CollectTiles(tiles, windows);
    PlaceTiles(tiles, bar, count);
    layout := Layout(bar, start, tiles[..count]);
    ghost var spec := LayoutOf(screenWidth, screenHeight, windows);
    forall i | 0 <= i < count ensures layout.tiles[i] == spec.tiles[i] {
      if i >= PINNED_COUNT {
        assert Kept(tiles[..], count)[i - PINNED_COUNT] == tiles[PINNED_COUNT + (i - PINNED_COUNT)].windowId;
      }
    }
    assert layout.tiles == spec.tiles;
  }

  /** The pinned tiles stay, and the windows' tiles follow them in order; their number in all. */
  method CollectTiles(tiles: array<Tile>, windows: seq<Window>) returns (count: nat)
    requires tiles.Length == MAX_TILES
    requires forall j :: 0 <= j < PINNED_COUNT ==> tiles[j].slot == j && tiles[j].windowId == 0
    modifies tiles
    ensures PINNED_COUNT <= count <= MAX_TILES && Kept(tiles[..], count) == TileIds(windows)
    ensures forall j :: 0 <= j < PINNED_COUNT ==> tiles[j].slot == j && tiles[j].windowId == 0
    ensures forall j :: PINNED_COUNT <= j < count ==> tiles[j].slot == -1
  {
    count := PINNED_COUNT;
    assert Kept(tiles[..], count) == [];
    for i := 0 to |windows|
      invariant PINNED_COUNT <= count <= MAX_TILES
      invariant Kept(tiles[..], count) == TileIds(windows[..i])
      invariant Ascending(TileIds(windows[..i]))
      invariant forall j :: 0 <= j < PINNED_COUNT ==> tiles[j].slot == j && tiles[j].windowId == 0
      invariant forall j :: PINNED_COUNT <= j < count ==> tiles[j].slot == -1
    {
      assert windows[..i + 1][..i] == windows[..i];
      TileIdsStep(windows[..i + 1]);
      if NeedsTile(windows[i]) {
        count := InsertTile(tiles, count, windows[i].id);
      }
    }
    assert windows[..|windows|] == windows;
  }

  method PlaceTiles(tiles: array<Tile>, bar: Rect, count: nat)
    requires PINNED_COUNT <= count <= tiles.Length
    modifies tiles
    ensures forall i :: 0 <= i < count ==> tiles[i] == old(tiles[i]).(rect := TileRect(bar, count, i))
    ensures Kept(tiles[..], count) == old(Kept(tiles[..], count))
  {
    var total := count * TILE_SIZE + (count - 1) * TILE_GAP;
    var x0 := bar.x + Halved(bar.width - total);
    for i := 0 to count
      invariant forall j :: 0 <= j < tiles.Length ==>
                  tiles[j] == if j < i then old(tiles[j]).(rect := TileRect(bar, count, j)) else old(tiles[j])
    {
      tiles[i] := tiles[i].(rect := Rect(x0 + i * (TILE_SIZE + TILE_GAP), bar.y + (TASKBAR_HEIGHT - TILE_SIZE) / 2,
                                         TILE_SIZE, TILE_SIZE));
    }
  }

  lemma TileIdsStep(windows: seq<Window>)
    requires windows != []
    ensures var init, last := windows[..|windows| - 1], windows[|windows| - 1];
            Ascending(TileIds(init)) && Ascending(TileIds(windows)) &&
            TileIds(windows) == if NeedsTile(last) then Take(Insert(TileIds(init), last.id), MAX_UNPINNED)
              else TileIds(init)
  {
    hide Insert, Sort, UnpinnedIds, Take, Ascending, NeedsTile;
    var init, last := windows[..|windows| - 1], windows[|windows| - 1];
    SortSorts(UnpinnedIds(init));
    SortSorts(UnpinnedIds(windows));
    TakeAscends(Sort(UnpinnedIds(init)), MAX_UNPINNED);
    TakeAscends(Sort(UnpinnedIds(windows)), MAX_UNPINNED);
    UnpinnedStep(windows);
    if NeedsTile(last) {
      SortSnoc(UnpinnedIds(init), last.id);
      BoundedInsertion(Sort(UnpinnedIds(init)), last.id, MAX_UNPINNED);
    }
  }

  lemma TakeAscends(s: seq<nat>, k: nat)
    requires Ascending(s)
    ensures Ascending(Take(s, k))
  {
  }

  lemma UnpinnedStep(windows: seq<Window>)
    requires windows != []
    ensures var init, last := windows[..|windows| - 1], windows[|windows| - 1];
            UnpinnedIds(windows) == if NeedsTile(last) then UnpinnedIds(init) + [last.id] else UnpinnedIds(init)
  {
  }

  lemma SortSnoc(s: seq<nat>, v: nat)
    ensures Sort(s + [v]) == Insert(Sort(s), v)
  {
    assert (s + [v])[..|s|] == s;
  }

  // ---- what is under a point ---------------------------------------------------------------

  function FirstTileAt(tiles: seq<Tile>, x: int, y: int, from: nat): (at: int)
    requires from <= |tiles|
    ensures -1 <= at < |tiles|
    ensures at >= 0 ==> tiles[at].rect.Contains(x, y)
    ensures at < 0 ==> forall i :: from <= i < |tiles| ==> !tiles[i].rect.Contains(x, y)
    decreases |tiles| - from
  {
    if from == |tiles| then -1
    else if tiles[from].rect.Contains(x, y) then from
    else FirstTileAt(tiles, x, y, from + 1)
  }

  function HitAt(layout: Layout, x: int, y: int): Hit {
    if !layout.bar.Contains(x, y) then Nothing
    else if layout.start.Contains(x, y) then OnStart
    else if FirstTileAt(layout.tiles, x, y, 0) >= 0 then OnTile(FirstTileAt(layout.tiles, x, y, 0))
    else OnBar
  }

  method TaskbarHit(layout: Layout, x: int, y: int) returns (hit: Hit)
    ensures hit == HitAt(layout, x, y)
  {
    if !layout.bar.Contains(x, y) {
      return Nothing;
    }
    if layout.start.Contains(x, y) {
      return OnStart;
    }
    for i := 0 to |layout.tiles|
      invariant FirstTileAt(layout.tiles, x, y, 0) == FirstTileAt(layout.tiles, x, y, i)
    {
      if layout.tiles[i].rect.Contains(x, y) {
        return OnTile(i);
      }
    }
    return OnBar;
  }

  lemma TilesAreDisjoint(screenWidth: nat, screenHeight: nat, windows: seq<Window>, i: nat, j: nat, x: int, y: int)
    requires var tiles := LayoutOf(screenWidth, screenHeight, windows).tiles;
             i < |tiles| && j < |tiles| && tiles[i].rect.Contains(x, y) && tiles[j].rect.Contains(x, y)
    ensures i == j
  {
  }

  /** The screen width from which this many tiles leave the start button free. */
  function RoomyWidth(count: nat): int {
    2 * (TASKBAR_MARGIN + START_MARGIN + START_SIZE) + count * (TILE_SIZE + TILE_GAP) - TILE_GAP
  }

  /** Of tiles spread from `left` on, one meets the stretch as wide as the start button from `start` on. */
  lemma TileMeetsStretch(left: int, count: nat, start: int) returns (i: nat, x: int)
    requires count > 0 && left < start + START_SIZE &&
             start + TILE_GAP < left + count * (TILE_SIZE + TILE_GAP) - TILE_GAP
    ensures i < count && start <= x < start + START_SIZE
    ensures left + i * (TILE_SIZE + TILE_GAP) <= x < left + i * (TILE_SIZE + TILE_GAP) + TILE_SIZE
  {
    if start <= left {
      i, x := 0, left;
    } else {
      var step := TILE_SIZE + TILE_GAP;
      var whole, past := (start - left) / step, (start - left) % step;
      assert left + whole * step + past == start;
      if past < TILE_SIZE {
        i, x := whole, start;
      } else {
        i, x := whole + 1, start + step - past;
      }
    }
  }

  lemma StartHidesTile(screenWidth: nat, screenHeight: nat, windows: seq<Window>)
    requires screenWidth < RoomyWidth(|LayoutOf(screenWidth, screenHeight, windows).tiles|)
    ensures var layout := LayoutOf(screenWidth, screenHeight, windows);
            exists i, x, y :: 0 <= i < |layout.tiles| && layout.start.Contains(x, y) &&
              layout.tiles[i].rect.Contains(x, y)
  {
    hide TileIds;
    var layout := LayoutOf(screenWidth, screenHeight, windows);
    var count := |layout.tiles|;
    var i, x := TileMeetsStretch(TileRect(layout.bar, count, 0).x, count, layout.start.x);
    assert layout.tiles[i].rect == TileRect(layout.bar, count, i);
    assert layout.start.Contains(x, layout.start.y) && layout.tiles[i].rect.Contains(x, layout.start.y);
  }

  /** The start button covers no part of any tile exactly on a screen wide enough for their number; on a
      narrower one the tiles are spread under it. */
  lemma StartIsApartExactly(screenWidth: nat, screenHeight: nat, windows: seq<Window>)
    ensures var layout := LayoutOf(screenWidth, screenHeight, windows);
            (forall i, x, y :: 0 <= i < |layout.tiles| && layout.tiles[i].rect.Contains(x, y) ==>
              !layout.start.Contains(x, y))
            <==> screenWidth >= RoomyWidth(|layout.tiles|)
  {
    if screenWidth < RoomyWidth(|LayoutOf(screenWidth, screenHeight, windows).tiles|) {
      StartHidesTile(screenWidth, screenHeight, windows);
    }
  }

  /** A hit names a tile exactly when the point is in that tile, on the bar and off the start button;
      no other tile holds the point. */
  lemma HitNamesTheTile(screenWidth: nat, screenHeight: nat, windows: seq<Window>, x: int, y: int, i: nat)
    requires i < |LayoutOf(screenWidth, screenHeight, windows).tiles|
    ensures var layout := LayoutOf(screenWidth, screenHeight, windows);
            HitAt(layout, x, y) == OnTile(i) <==>
            layout.bar.Contains(x, y) && !layout.start.Contains(x, y) && layout.tiles[i].rect.Contains(x, y)
  {
    var layout := LayoutOf(screenWidth, screenHeight, windows);
    var first := FirstTileAt(layout.tiles, x, y, 0);
    if first >= 0 && layout.tiles[i].rect.Contains(x, y) {
      TilesAreDisjoint(screenWidth, screenHeight, windows, first, i, x, y);
    }
  }

  /** What the other hits mean: the start button only on the bar, the bar only off start button and tiles, and
      nothing exactly off the bar. */
  lemma HitNamesTheRest(layout: Layout, x: int, y: int)
    ensures HitAt(layout, x, y) == Nothing <==> !layout.bar.Contains(x, y)
    ensures HitAt(layout, x, y) == OnStart <==> layout.bar.Contains(x, y) && layout.start.Contains(x, y)
    ensures HitAt(layout, x, y) == OnBar <==>
              layout.bar.Contains(x, y) && !layout.start.Contains(x, y) &&
              forall i :: 0 <= i < |layout.tiles| ==> !layout.tiles[i].rect.Contains(x, y)
    ensures HitAt(layout, x, y).OnTile? ==>
              HitAt(layout, x, y).tile < |layout.tiles| && layout.tiles[HitAt(layout, x, y).tile].rect.Contains(x, y)
  {
  }

  /** An open window of an app that has no pinned tile. */
  ghost predicate OtherApp(window: Window) {
    !window.state.closed && window.title !in {"Terminal", "File Browser", "Background Switcher", "Cube", "NetSurf"}
  }

  ghost function OtherAppsBefore(windows: seq<Window>, id: nat): set<nat> {
    set w | 0 <= w < |windows| && OtherApp(windows[w]) && windows[w].id < id :: windows[w].id
  }

  lemma NeedsTileExactly(window: Window)
    ensures NeedsTile(window) <==> OtherApp(window)
  {
  }

  /** What the tiles stand for: the five pinned apps in their order, and then, oldest first, exactly the windows of
      other apps with fewer than eleven such windows older than them. */
  lemma TilesStandFor(screenWidth: nat, screenHeight: nat, windows: seq<Window>)
    requires DistinctWindows(windows)
    ensures var tiles := LayoutOf(screenWidth, screenHeight, windows).tiles;
            5 <= |tiles| <= 16 &&
            (forall i :: 0 <= i < 5 ==> tiles[i].slot == i && tiles[i].windowId == 0) &&
            (forall i :: 5 <= i < |tiles| ==> tiles[i].slot == -1) &&
            (forall i, j :: 5 <= i < j < |tiles| ==> tiles[i].windowId < tiles[j].windowId) &&
            forall id :: (exists i :: 5 <= i < |tiles| && tiles[i].windowId == id) <==>
                         (exists w :: 0 <= w < |windows| && OtherApp(windows[w]) && windows[w].id == id) &&
                         |OtherAppsBefore(windows, id)| < 11
  {
    hide LayoutOf, TileIds, NeedsTile, OtherApp, Smaller, OtherAppsBefore;
    TilesInOrder(screenWidth, screenHeight, windows);
    var tiles := LayoutOf(screenWidth, screenHeight, windows).tiles;
    forall id
      ensures (exists i :: 5 <= i < |tiles| && tiles[i].windowId == id) <==>
              (exists w :: 0 <= w < |windows| && OtherApp(windows[w]) && windows[w].id == id) &&
              |OtherAppsBefore(windows, id)| < 11
    {
      TileStandsFor(windows, id);
    }
  }

  lemma TilesInOrder(screenWidth: nat, screenHeight: nat, windows: seq<Window>)
    requires DistinctWindows(windows)
    ensures var tiles := LayoutOf(screenWidth, screenHeight, windows).tiles;
            5 <= |tiles| <= 16 &&
            (forall i :: 0 <= i < 5 ==> tiles[i].slot == i && tiles[i].windowId == 0) &&
            (forall i :: 5 <= i < |tiles| ==> tiles[i].slot == -1) &&
            (forall i, j :: 5 <= i < j < |tiles| ==> tiles[i].windowId < tiles[j].windowId) &&
            forall id :: (exists i :: 5 <= i < |tiles| && tiles[i].windowId == id) <==> id in TileIds(windows)
  {
    hide TileIds, NeedsTile, Smaller;
    TilesAreTheOldest(windows);
    var tiles, ids := LayoutOf(screenWidth, screenHeight, windows).tiles, TileIds(windows);
    assert forall i :: 5 <= i < |tiles| ==> tiles[i].windowId == ids[i - 5];
    forall id | id in ids ensures exists i :: 5 <= i < |tiles| && tiles[i].windowId == id {
      var k :| 0 <= k < |ids| && ids[k] == id;
      assert tiles[k + 5].windowId == id;
    }
  }

  lemma TileStandsFor(windows: seq<Window>, id: nat)
    requires DistinctWindows(windows)
    ensures id in TileIds(windows) <==>
              (exists w :: 0 <= w < |windows| && OtherApp(windows[w]) && windows[w].id == id) &&
              |OtherAppsBefore(windows, id)| < 11
  {
    hide TileIds, NeedsTile, OtherApp;
    TilesAreTheOldest(windows);
    forall w | 0 <= w < |windows| ensures NeedsTile(windows[w]) <==> OtherApp(windows[w]) {
      NeedsTileExactly(windows[w]);
    }
    assert Smaller(windows, id) == OtherAppsBefore(windows, id);
  }

  /** Where the bar, its start button and its tiles are, in pixels of the screen. */
  lemma PartsInPlace(screenWidth: nat, screenHeight: nat, windows: seq<Window>, i: nat)
    requires i < |LayoutOf(screenWidth, screenHeight, windows).tiles|
    ensures var layout := LayoutOf(screenWidth, screenHeight, windows);
            var count := |layout.tiles|;
            var tile := layout.tiles[i].rect;
            layout.bar == Rect(12, screenHeight - 64, screenWidth - 24, 52) &&
            layout.start == Rect(20, screenHeight - 56, 36, 36) &&
            tile.y == screenHeight - 60 && tile.width == 44 && tile.height == 44 &&
            (i + 1 < count ==> layout.tiles[i + 1].rect.x == tile.x + 50) &&
            (screenWidth - 24 >= 50 * count - 6 ==>
               2 * (layout.tiles[0].rect.x - layout.bar.x) <= screenWidth - 24 - (50 * count - 6) <=
               2 * (layout.tiles[0].rect.x - layout.bar.x) + 1)
  {
    hide TileIds;
  }
}
