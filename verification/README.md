# InstantOS user space: a verified model

This project models the parts of the InstantOS user space where a fast form has to agree with a simple one, and
proves that it does:

- **The compositor** (`Geometry`, `Windows`, `Taskbar`, `SurfaceCache`, `Presentation`, `Backend`, `Scene`, `Damage`,
  `Compositor`, `Blur`). A pass of the event loop turns surface commits, hover changes and window-list changes into a
  dirty rectangle, redraws only that rectangle of the scene, and a backend repairs one of two scanout buffers with what
  that buffer is missing before flipping to it. The main result is `Compositor.GraphicsCompositor.EventLoopTurn`, and
  `EventLoop` for whole runs: after every turn, whatever happened and whatever the display answered, the screen shows
  the picture a redraw of everything would show, with the pointer at its current place, at every pixel where no control
  of a narrow window escapes (see below). A picture is a function of the state, `Scene.SceneAt`; the toolkit's drawing
  calls, fonts and theme are painters of single pixels of which only their extent is known. `Scene.ScenePictured` says
  which word of which surface, which control or which wallpaper word each of its pixels is, and `EventLoop` that of the
  screen. The drawing methods write into word buffers, pixel by pixel.
- **The mlibc system layer** (`FdTable`, `Directories`, `DirectoryStreams`): descriptors over kernel handles, and
  directory streams whose entries are packed into caller buffers of any size.
- **The terminal** (`Screens`, `Terminal`, `Typing`): `Screens` says what every byte and every resize does to the screen
  as a value, following ECMA-48, section 5.4; `Terminal` is the cell array that is edited in place, each method tied to
  it; `Typing` says which cells each kind of output changes, and to what.
- **Domain names** (`DomainNames`, `Responses`): writing names and reading possibly compressed ones, RFC 1035, sections
  3.1 and 4.1.4, and whole responses in wire form walked back to their records.
- **The dynamic loader** (`Loader`) and **the file browser's history** (`History`).

`Bytes`, `Sequences` and `Wrappers` are shared helpers. Kernel and display answers, the messages, the commits, the
window lists and the file system are parameters of the methods that receive them.

## What does not hold

Where the code does not keep a property that its design suggests, the project states exactly when it does:

- A window narrower than 103 pixels (a drag can make it 64 wide) draws controls left of the rectangle that `draw_scene`
  tests against the clip, so a partial redraw can miss them. `Scene.SkipIsHarmlessExactly` says at which pixels, and
  `Scene.NothingEscapesExactly` that there are none exactly when all visible windows are at least 103 pixels wide; the
  end-to-end result is for every window list, at every other pixel.
- The first commit of a surface repaints only its own dirty rectangle, so a client that first commits a part of a shown
  surface leaves the rest unpainted: `Damage.FirstCommitMustCover`.
- On a screen less than 64 pixels high the backdrop's copy reads before the start of the blurred buffer:
  `Blur.BarInsideSource`; `Blur.BlurBarBackdrop` has it as an outcome of its own.
- On a screen too narrow for its tiles the start button covers some of them: `Taskbar.StartIsApartExactly`.
- `Pipe` keeps one or both kernel handles open when it finds fewer than two free descriptors, and `F_DUPFD` with a
  minimum of zero or less lands on descriptor 0: `FdTable.StepBalanceExactly`, `FdTable.DupFdMinimum`.
- An empty first parameter of a control sequence is dropped and the others move up: `Screens.ParametersExact`.
- ESC [ 1 J blanks the cursor's whole row and not only its cells up to the cursor, and ESC [ 1 K keeps the colors of the
  cells it blanks: `Typing.DisplayErased`, `Typing.LineErased`.
- A resize that both scrolls and widens shows stale cells in the rows scrolled into view: `Screens.NewCellsBlank`.
- Names that RFC 1035 does not allow are read too: with labels of 64 to 191 bytes, whose lengths it reserves, of more than
  255 bytes in all, and with pointers that do not lead back to an earlier name. `DomainNames.ReadsByTheStandard` says
  exactly when a name that is read is one by the standard; `DomainNames.ReservedLengthIsRead` and
  `DomainNames.ForwardPointerIsRead` give messages that are read although they hold none. A name by the standard that
  takes more than 32 pointers is not read: `DomainNames.StandardNameIsReadExactly`, `DomainNames.LadderIsNotRead`.
- The dotted form of a name does not say what its labels are when one of them has a dot in it:
  `DomainNames.DottedReadsBackExactly`, `DomainNames.SameDottedForm`.
- A library whose name has 64 bytes or more is never found in the list again and is loaded anew each time it is needed:
  `Loader.FoundAgainExactly`. Libraries lie apart unless addresses wrap around 64 bits, which the loader does not check:
  `Loader.PlacedWellExactly`.

## Model

| member | source | states |
|---|---|---|
| Geometry.UniteIsLeast | graphics-compositor/src/input.cpp:132-166 | The hull kept as damage is the smallest rectangle that holds both parts, empty or not |
| Presentation.PixelBuffer.IndexInjective | graphics-compositor/src/presentation.cpp:29-37 | Different pixels of a buffer with any pitch are different words of its memory |
| Presentation.PresentTexelRow | graphics-compositor/src/render_primitives.cpp:30-40 | The row copy by fours and then by ones writes every pixel of the row, without its alpha byte, and no other word, padding included |
| Presentation.PresentRectToFramebuffer | graphics-compositor/src/presentation.cpp:15-42 | Exactly the part of the rectangle that both buffers have shows the scene; every other pixel keeps its word |
| Presentation.PresentToFramebuffer | graphics-compositor/src/buffers.cpp:3-20 | Every pixel both buffers have shows the scene |
| Presentation.PresentCursorMove | graphics-compositor/src/presentation.cpp:46-84 | Inside the union of the two pointer rectangles the framebuffer shows scene plus pointer at the new place; nothing else is written |
| Presentation.ComposedIsOver | graphics-compositor/src/presentation.cpp:46-84 | What is shown at a pixel: off the pointer image the scene's colour; on it the image's pixel at the offset from the hotspot where that is opaque, the scene's where it is transparent, their blend in between |
| Backend.PointerMoveIsLocal | graphics-compositor/src/presentation.cpp:46-84 | Outside the union of the two pointer rectangles the composed picture does not depend on which of the two places the pointer is at |
| Backend.MoveCompletes | graphics-compositor/src/presentation.cpp:46-84 | A framebuffer that showed the scene with the pointer at the old place, repainted in that union, shows it with the pointer at the new place everywhere |
| Backend.SoftwareBackend.PresentFull | graphics-compositor/src/backend.cpp:22-26 | From any framebuffer contents: afterwards every pixel shows the scene with the pointer |
| Backend.SoftwareBackend.PresentRect | graphics-compositor/src/backend.cpp:28-32 | If the screen showed a scene that differs only inside the rectangle, it now shows the new one everywhere |
| Backend.SoftwareBackend.PresentCursorMoved | graphics-compositor/src/backend.cpp:34-37 | The same scene with the pointer at its new place, everywhere |
| Backend.FlipBackend.Initialize | graphics-compositor/src/backend.cpp:164-176 | A backend exists exactly when there are a framebuffer and scanout buffers of its size; each buffer is then missing the whole screen |
| Backend.FlipBackend.PresentFull | graphics-compositor/src/backend.cpp:178-186 | Notes the scene: both buffers can still be repaired to it, for any scene contents; after a failure the screen shows it at once |
| Backend.FlipBackend.PresentRect | graphics-compositor/src/backend.cpp:188-196 | The same when the scene changed only inside the rectangle passed in |
| Backend.FlipBackend.PresentCursorMoved | graphics-compositor/src/backend.cpp:198-205 | The same for a pointer move, after which the buffers miss exactly the pixels they missed before |
| Backend.FlipBackend.Note | graphics-compositor/src/backend.cpp:250-259 | Scene, pointer and image are recorded and a flip is due; exactly the change is added to what both buffers miss |
| Backend.FlipBackend.Miss | graphics-compositor/src/backend.cpp:255-257 | Each buffer still holds the new picture outside what it misses and the pointer it carries |
| Backend.MissingGrows | graphics-compositor/src/backend.cpp:250-259 | Uniting a change into the missing rectangle keeps a buffer repairable to the picture after the change |
| Backend.FlipBackend.Commit | graphics-compositor/src/backend.cpp:207-240 | Whatever the wait and the flip answer, the screen then shows at every pixel the noted scene with the pointer over it, the image's own pixel where it is opaque; the buffer on the screen and, unless it falls back, the framebuffer are unchanged, and so is every pixel of the other buffer that misses no change and carries no pointer, old or new; it falls back exactly when an answer fails |
| Backend.FlipBackend.Flip | graphics-compositor/src/backend.cpp:211-240 | The same of a commit that something waits for: a flip when both answers are good, the firmware's framebuffer otherwise |
| Backend.FlipBackend.Repair | graphics-compositor/src/backend.cpp:223-232 | From a buffer that holds the noted scene only outside what it misses and where its pointer was, it shows the noted scene with the pointer everywhere; every pixel that misses no change and carries no pointer, old or new, keeps its word |
| Backend.FlipBackend.FallBack | graphics-compositor/src/backend.cpp:263-273 | The firmware's framebuffer shows the noted scene with the pointer everywhere, and the backend draws there from then on |
| Backend.Pair.Present | graphics-compositor/src/backend.cpp:178-240 | One present call or end of pass through both backends keeps them asked for the same; after the end of a pass both show the same screen, for any display answers |
| Backend.Pair.Replay | graphics-compositor/src/backend.cpp:178-240 | The same for every sequence of calls |
| Windows.PartsInPlace | graphics-compositor/src/surface.cpp:137-141 | Frame, damage rectangle and the three controls of a window in pixels, close at the right end of the title bar and each control at the next one's left |
| SurfaceCache.FullCacheCount | graphics-compositor/src/surface.cpp:54-96 | A full cache with distinct ids holds exactly as many surfaces as slots |
| SurfaceCache.FewSurfacesLeaveRoom | graphics-compositor/src/surface.cpp:54-96 | With at most 64 live surfaces no commit evicts one |
| SurfaceCache.CommitTouchesOne | graphics-compositor/src/surface.cpp:54-96 | A commit changes the entry of its own surface only, and ids stay distinct |
| SurfaceCache.CommitStored | graphics-compositor/src/surface.cpp:54-96 | A commit goes to its surface's slot, else to the first free one, else to the first; the slot then holds the commit's data, one generation more or the first, and exactly the hull of the damage noted there and the commit's rectangle |
| SurfaceCache.Cache.FindSurface | graphics-compositor/src/surface.cpp:40-52 | The first valid entry of the surface, or none when there is none |
| SurfaceCache.Cache.Remember | graphics-compositor/src/surface.cpp:54-96 | The whole cache after a commit: the surface's slot, else a free one, else the first, with the hull of all damage since the last consumption |
| SurfaceCache.Cache.ForgetUnshown | graphics-compositor/src/surface.cpp:98-118 | The whole cache after a window list: ages counted, entries unshown too long dropped |
| SurfaceCache.Cache.ClearDirtyFlags | graphics-compositor/src/surface.cpp:439-447 | Only damage is forgotten |
| SurfaceCache.Cache.TakeWindowDirt | graphics-compositor/src/surface.cpp:394-425 | The damage of one window, cut to what the window shows of its surface |
| SurfaceCache.Cache.ConsumeDirtyRect | graphics-compositor/src/surface.cpp:389-437 | The hull of all shown damage, cut to the screen; every entry's damage is then forgotten |
| SurfaceCache.DamageAccumulates | graphics-compositor/src/surface.cpp:54-96 | Over a run of commits, a point inside any commit's dirty rectangle stays inside its entry's damage |
| SurfaceCache.DirtCoversDamage | graphics-compositor/src/surface.cpp:389-437 | Where any visible window shows a damaged surface pixel, the united rectangle covers it |
| SurfaceCache.DirtIsLeast | graphics-compositor/src/surface.cpp:389-437 | And it is the hull: the united rectangle lies in every rectangle that holds all damaged pixels the visible windows show |
| SurfaceCache.DamageNeverLost | graphics-compositor/src/surface.cpp:389-437 | Whatever on-screen part of a shown surface any commit since the last consumption changed lies in the consumed rectangle, which stays on the screen |
| SurfaceCache.KeptStep | graphics-compositor/src/surface.cpp:98-118 | How one more commit or window list changes who is kept, in terms of the history alone |
| SurfaceCache.CacheFollowsHistory | graphics-compositor/src/surface.cpp:54-118 | Over every run of commits and window lists: ids stay distinct, and a surface has an entry exactly when some commit of it was not followed by nine consecutive lists that do not show it |
| Taskbar.BoundedInsertion | graphics-compositor/src/scene.cpp:125-138 | Inserting into the first k of a sorted list and keeping k gives the first k of inserting into the whole list |
| Taskbar.ShiftIsInsertion | graphics-compositor/src/scene.cpp:129-137 | Shifting from the end, dropping the last when full, is that bounded insertion |
| Taskbar.ShiftUp | graphics-compositor/src/scene.cpp:132-136 | The tiles of younger windows, and no others, move up by one |
| Taskbar.InsertTile | graphics-compositor/src/scene.cpp:129-137 | One window into the bounded tile array keeps the array equal to insert-then-take |
| Taskbar.TilesAreTheOldest | graphics-compositor/src/scene.cpp:115-147 | The unpinned tiles are, in increasing order, exactly the open unpinned windows that fewer than eleven others are older than |
| Taskbar.ListOrderIrrelevant | graphics-compositor/src/scene.cpp:115-147 | Two lists of the same windows in any order have the same unpinned tiles |
| Taskbar.TaskbarLayout | graphics-compositor/src/scene.cpp:115-147 | The in-place one-pass layout equals sort-then-take with the tiles spread over the bar |
| Taskbar.PlaceTiles | graphics-compositor/src/scene.cpp:140-145 | Every tile gets its rectangle and keeps its window |
| Taskbar.TaskbarHit | graphics-compositor/src/scene.cpp:149-162 | Returns the first tile whose rectangle holds the point, the start button, the bar, or nothing |
| Taskbar.TilesAreDisjoint | graphics-compositor/src/scene.cpp:140-145 | No point is in two tiles |
| Taskbar.StartIsApartExactly | graphics-compositor/src/scene.cpp:117-146 | The start button covers no part of any tile exactly when the screen is at least 106 pixels and 50 for each tile wide |
| Taskbar.PartsInPlace | graphics-compositor/src/scene.cpp:115-147 | Bar, start button and tiles in pixels of the screen: tiles of 44 pixels, 50 apart and centred on the bar |
| Taskbar.TilesStandFor | graphics-compositor/src/scene.cpp:115-147 | The tiles stand for the five pinned apps in their order and then, oldest first, exactly the windows of other apps with fewer than eleven such windows older than them |
| Taskbar.HitNamesTheTile | graphics-compositor/src/scene.cpp:149-162 | A hit names tile i exactly when the point is on the bar, off the start button and in tile i; no other tile then holds it |
| Taskbar.HitNamesTheRest | graphics-compositor/src/scene.cpp:149-162 | The start button is hit exactly on it and on the bar, the bar exactly off start button and tiles, and nothing exactly off the bar |
| Scene.ShadowStaysInReach | graphics-compositor/src/surface.cpp:185-249 | A window's shadow, spans and corners, changes no pixel further from the frame than its blur reaches |
| Scene.ShadowStaysInDamage | graphics-compositor/src/input.cpp:95-99 | So it stays inside the rectangle that is repainted for the window |
| Scene.ControlsFitExactly | graphics-compositor/src/surface.cpp:137-141 | All three controls lie inside the window's damage rectangle exactly when its content is at least 103 pixels wide |
| Scene.WindowStaysInDamage | graphics-compositor/src/scene.cpp:278-306 | A window, with shadow, frame, controls and content, changes no pixel outside its damage rectangle and its controls |
| Scene.SkipIsHarmlessExactly | graphics-compositor/src/scene.cpp:287-302 | At a pixel outside its damage rectangle, skipping a visible window never makes a difference, for all painters and hovers, exactly when none of its controls reaches the pixel |
| Scene.NothingEscapesExactly | graphics-compositor/src/surface.cpp:137-141 | No control of a visible window escapes its damage rectangle exactly when all visible windows are at least 103 pixels wide |
| Scene.UnderIsWhole | graphics-compositor/src/scene.cpp:278-306 | Where no control escapes, what is redrawn under any clip is the whole picture there, although windows that miss the clip are skipped |
| Scene.DrawWindowShadow | graphics-compositor/src/surface.cpp:185-249 | The in-place shadow loops paint, inside the clip, exactly the shadow's pixels and nothing else |
| Scene.DrawShadowSpans | graphics-compositor/src/surface.cpp:203-218 | Stopping at the first distance without shadow paints what all distances would |
| Scene.DrawCorner | graphics-compositor/src/surface.cpp:223-248 | The corner loops with their clip tests paint each corner pixel once |
| Scene.DrawWindowFrame | graphics-compositor/src/surface.cpp:267-326 | Shadow, frame and controls, in that order, inside the clip only |
| Scene.BlitWindowSurface | graphics-compositor/src/surface.cpp:330-379 | Inside the clip every content pixel above the corner rows or inside the corners is the opaque word at row times stride plus column of the surface's memory; rows level with the rounded corners are cut; nothing without a cached surface |
| Scene.BlitCornerRow | graphics-compositor/src/surface.cpp:365-378 | The two inward searches find exactly the columns inside the rounded corners |
| Scene.SurfaceInRows | graphics-compositor/src/surface.cpp:345-362 | A surface's pixels lie row by row: the first word is the first pixel, one column on is the next word, one row down a pitch further, or a width when the pitch is less than a word |
| Scene.RowShowsExactly | graphics-compositor/src/surface.cpp:362-378 | A row shows exactly the columns above the corner rows or inside the rounded corners |
| Scene.DrawBackdrop | graphics-compositor/src/scene.cpp:91-111 | Row by row, cut from both ends of what the clip shows, exactly the pixels of the bar inside its rounded corners get the blurred wallpaper |
| Scene.DrawTaskbar | graphics-compositor/src/scene.cpp:202-274 | The blurred wallpaper, bar, start button, tiles, tray and tooltip, inside the clip only |
| Scene.DrawWindows | graphics-compositor/src/scene.cpp:286-302 | The visible windows that reach into the clip, bottom to top, and no others |
| Scene.DrawScene | graphics-compositor/src/scene.cpp:278-306 | Every pixel of the clip is as the windows reaching into the clip make it, and the whole picture's where no control escapes; every other pixel is unchanged |
| Scene.RedrawScene | graphics-compositor/src/scene.cpp:308-312 | Whatever it held, the canvas holds the whole picture where no control escapes, and there, word for word, what ScenePictured says |
| Scene.RedrawSceneRect | graphics-compositor/src/scene.cpp:314-322 | Inside the rectangle the whole picture where no control escapes, outside what was there |
| Scene.ScenePictured | graphics-compositor/src/scene.cpp:278-306 | Where no part of the bar reaches, the picture is the topmost window's content, word for word from its surface, or its control, highlighted exactly when hovered; where no window reaches either, the wallpaper when one of the screen's size is ready, else the gradient |
| Scene.TileShown | graphics-compositor/src/scene.cpp:202-263 | In a tile off the tooltip: that tile alone, highlighted exactly when hovered, over bar and backdrop and under the tray |
| Scene.TooltipShown | graphics-compositor/src/scene.cpp:265-273 | The hovered tile's tooltip is drawn last, in its rectangle |
| Scene.TooltipPlace | graphics-compositor/src/scene.cpp:164-180 | The tooltip's rectangle: over the tile's middle as far as it stays on the bar's stretch, eight pixels above the bar |
| Scene.ShadowByDistance | graphics-compositor/src/surface.cpp:185-249 | The shadow pixel by pixel: its strength depends on the distances in x and y to the moved-down frame's corner centres, and every pixel outside the frame is shaded at most once |
| Damage.TileChangeCovered | graphics-compositor/src/input.cpp:132-145 | A changed tile hover makes no difference outside both tiles and both tooltips |
| Damage.ControlChangeCovered | graphics-compositor/src/input.cpp:153-166 | A changed control hover makes no difference outside both controls' rectangles |
| Damage.SamePixel | graphics-compositor/src/scene.cpp:278-306 | Two states with the same windows, wallpaper and flags draw the same pixel wherever hover and surfaces agree there |
| Damage.TopIsLast | graphics-compositor/src/input.cpp:28-41 | The window at a point is visible, its rounded frame holds the point, and no later one of the list does |
| Damage.ControlHoveredExactly | graphics-compositor/src/input.cpp:146-152 | A control is hovered exactly when nothing is dragged, the point is off the bar and in that control of the topmost window there |
| Damage.TileHoveredExactly | graphics-compositor/src/input.cpp:129-131 | A tile is hovered exactly when nothing is dragged and the point is on the bar, off the start button and in that tile |
| Damage.CommitKeepsTracked | graphics-compositor/src/surface.cpp:54-96 | After an honest commit a surface still looks as it did everywhere but where the cache notes damage |
| Damage.PumpKeepsTracked | graphics-compositor/src/surface.cpp:120-135 | The same over any number of commits |
| Damage.DirtCoversViews | graphics-compositor/src/surface.cpp:389-437 | Outside the rectangle that will be consumed every visible window shows what it showed |
| Damage.FirstCommitMustCover | graphics-compositor/src/surface.cpp:54-96 | A surface that appears is damaged at a pixel exactly when its first commit's dirty rectangle holds it |
| Compositor.GraphicsCompositor.UpdateControlHover | graphics-compositor/src/input.cpp:122-167 | The new hover is the tile and the control under the pointer, and the added rectangle covers every pixel where that matters |
| Compositor.GraphicsCompositor.HandlePointer | graphics-compositor/src/main.cpp:334-347 | Pointer clamped to the screen, hover followed; the backend has the pointer unless a full redraw is coming |
| Compositor.GraphicsCompositor.HandleMessage | graphics-compositor/src/main.cpp:307-332 | One message of any kind: new pointer, hover and wallpaper, and whether everything must be redrawn |
| Compositor.GraphicsCompositor.DrainMessages | graphics-compositor/src/main.cpp:297-305 | All queued messages in order; a full redraw exactly when one of them asks for it; otherwise hover changes are covered |
| Compositor.MessagesInTurn | graphics-compositor/src/main.cpp:297-305 | No queued message is lost or taken out of turn; the one that was waited for comes first |
| Compositor.PointerFollows | graphics-compositor/src/main.cpp:334-347 | A point on the screen becomes the pointer's place unchanged, any other goes to the nearest edge; the hover follows the point, and nothing else changes |
| Compositor.GraphicsCompositor.PumpSurfaceUpdates | graphics-compositor/src/surface.cpp:120-135 | The cache after all waiting commits, and whether there were any |
| Compositor.GraphicsCompositor.UpdateWindowSnapshot | graphics-compositor/src/main.cpp:215-240 | Says changed exactly when it is the first list or differs in any window; then new windows are kept above the taskbar and unshown surfaces age |
| Compositor.KeptAboveExactly | graphics-compositor/src/main.cpp:244-263 | With the kernel's consent a window ends above the taskbar exactly when it did, or fits below the top margin, or more than 48 pixels are left there to shrink it to |
| Compositor.KeptAbovePlace | graphics-compositor/src/main.cpp:244-261 | Where a window that is too low goes and how high it is then, by what the kernel consents to |
| Compositor.OthersStay | graphics-compositor/src/main.cpp:215-291 | A window that the snapshot had, or that opens left of or above the screen, keeps its listed place whatever the kernel answers, and so does one that ends above the work area's bottom |
| Compositor.NewIsPlaced | graphics-compositor/src/main.cpp:265-291 | Any window that was not there before is kept above the work area's bottom |
| Compositor.GraphicsCompositor.LogNewWindows | graphics-compositor/src/main.cpp:267-291 | In place, exactly the windows that are new and open on the screen are kept above the taskbar |
| Compositor.GraphicsCompositor.KeepAboveTaskbar | graphics-compositor/src/main.cpp:244-263 | One window moved and shrunk as far as the kernel consents |
| Compositor.GraphicsCompositor.RedrawFullScene | graphics-compositor/src/main.cpp:417-427 | From any scene contents: the next scene buffer holds the whole picture of the fresh list and is noted |
| Compositor.GraphicsCompositor.RedrawDirtyRect | graphics-compositor/src/main.cpp:429-441 | If the scene was right outside the rectangle it is right everywhere, and the backend knows |
| Compositor.GraphicsCompositor.OutsideDamageNothingChanged | graphics-compositor/src/main.cpp:154-199 | Outside the hover's and the surfaces' damage the picture is the one the pass started from |
| Compositor.GraphicsCompositor.PassTracked | graphics-compositor/src/main.cpp:154-199 | Three polls of honest clients in one pass leave every shown surface looking the same but where damage is noted |
| Compositor.GraphicsCompositor.StateCleaned | graphics-compositor/src/surface.cpp:439-447 | Clearing damage flags does not change the picture |
| Compositor.GraphicsCompositor.Collect | graphics-compositor/src/main.cpp:154-184 | What a pass takes in, as functions of its inputs, and a dirty rectangle outside which hover makes no difference |
| Compositor.GraphicsCompositor.Redraw | graphics-compositor/src/main.cpp:186-198 | Whichever of the full, partial or no-redraw branches is taken, the scene is then the whole current picture |
| Compositor.GraphicsCompositor.RunOnce | graphics-compositor/src/main.cpp:154-199 | After every pass the scene holds, where no control escapes, the whole picture of the current windows, surfaces, hover and wallpaper, no damage waits, and the new state is the one the inputs say |
| Compositor.TurnTakesTheLatest | graphics-compositor/src/main.cpp:154-199 | A pass draws everything exactly when a message asks for it or the network or any window is not as it was; it then has the newest list's windows, but for where new ones are put, and the memory as its last commit found it; after a full redraw or a commit no damage waits |
| Compositor.GraphicsCompositor.RenderInitialScene | graphics-compositor/src/main.cpp:134-143 | The first picture establishes what every turn keeps |
| Compositor.GraphicsCompositor.CommitPass | graphics-compositor/src/main.cpp:145-152 | After the commit the screen shows the whole current picture with the pointer, where no control escapes |
| Compositor.GraphicsCompositor.EventLoopTurn | graphics-compositor/src/main.cpp:145-152 | After every turn of the event loop, for any commits of honest clients, messages, window lists and display answers, every pixel of the screen where no control escapes is the whole picture's with the pointer at its current place |
| Compositor.GraphicsCompositor.EventLoop | graphics-compositor/src/main.cpp:134-152 | The same after the first picture and any number of turns, from a fresh compositor; and every such pixel of the screen is, word for word, what ScenePictured and ComposedIsOver say; windows, surfaces, pointer, hover and wallpaper are then what messages, commits and lists alone make them |
| Blur.WindowMoves | graphics-compositor/src/background.cpp:111-117 | Moving the window one place on adds the entering word and drops the leaving one, ends repeated |
| Blur.PackedChannels | graphics-compositor/src/background.cpp:102-110 | The three channel averages are packed into a word and read back unmixed |
| Blur.BoxIsTheMean | graphics-compositor/src/background.cpp:93-119 | Each channel of an averaged pixel is the mean, rounded down, of that channel over the twenty-one positions around it, ends repeated; the pixel is opaque |
| Blur.BoxLine | graphics-compositor/src/background.cpp:93-119 | One line by running sums equals the clamped-window average at every position, each channel at most 255 |
| Blur.BlurInPlace | graphics-compositor/src/background.cpp:121-124 | Three passes along rows and columns equal the average applied three times each way |
| Blur.PassIsRowsThenColumns | graphics-compositor/src/background.cpp:121-124 | A pass averages every row and then every column of what that gives; no pass is the picture itself |
| Blur.BlurByChannel | graphics-compositor/src/background.cpp:99-117 | Over any number of passes a channel of the result depends on that channel of the picture alone |
| Blur.BlurStaysWithin | graphics-compositor/src/background.cpp:93-124 | Over any number of passes a channel stays between its least and its greatest value |
| Blur.BlurIsOpaque | graphics-compositor/src/background.cpp:108-110 | Whatever alpha bytes the picture had, the result is opaque |
| Blur.UniformStays | graphics-compositor/src/background.cpp:93-124 | A picture of one opaque colour is its own blur, over any number of passes |
| Blur.BoxOfCut | graphics-compositor/src/background.cpp:68-91 | A line cut at the window's reach, or at its own end, has the same averages one radius further in |
| Blur.PassKeepsAgreement | graphics-compositor/src/background.cpp:121-124 | One pass over the cut part agrees with the pass over the whole wallpaper on a stretch one radius smaller |
| Blur.BlurOfPart | graphics-compositor/src/background.cpp:67-133 | After three passes they agree on the whole bar |
| Blur.BlurBarBackdrop | graphics-compositor/src/background.cpp:67-133 | The backdrop is, at every pixel of the bar, the whole wallpaper's average taken three times; every word is opaque with each channel between the least and the greatest value it has in the wallpaper; or there is no bar, no memory, or the read out of bounds, each exactly when |
| Blur.LoadedBackground | graphics-compositor/src/background.cpp:137-153 | What the scene then shows under the bar, cut to its rounded corners, is the whole wallpaper's three-fold average at that pixel |
| Blur.BarInsideSource | graphics-compositor/src/background.cpp:125-128 | The copied bar lies inside the blurred part exactly when the screen is at least 64 pixels high; otherwise the copy reads outside the blurred buffer |
| FdTable.DescriptorTable.RegisterFdMin | outside/mlibc-sysdeps/instantos/sysdeps.cpp:180-189 | The lowest free descriptor at or above the minimum takes the handle; none free, nothing changes |
| FdTable.DescriptorTable.Adopt | outside/mlibc-sysdeps/instantos/sysdeps.cpp:402-412 | A handle the kernel gave gets the lowest free descriptor from the minimum on, every other descriptor and handle staying as it was, or is closed again; an error of the kernel changes nothing |
| FdTable.DescriptorTable.AdoptFrom | outside/mlibc-sysdeps/instantos/sysdeps.cpp:784-808 | The same for calls that start from a descriptor, which fail with EBADF when it is not open |
| FdTable.DescriptorTable.Socketpair | outside/mlibc-sysdeps/instantos/sysdeps.cpp:2372-2388 | Both handles get the two lowest free descriptors, or neither is kept |
| FdTable.DescriptorTable.Pipe | outside/mlibc-sysdeps/instantos/sysdeps.cpp:1341-1355 | Both handles get descriptors, or EMFILE with the handles the code leaves open |
| FdTable.DescriptorTable.Close | outside/mlibc-sysdeps/instantos/sysdeps.cpp:414-443 | The descriptor is then free and its handle no longer held, every other descriptor and handle as before; the standard streams stay, and the errors are exactly these |
| FdTable.PairFits | outside/mlibc-sysdeps/instantos/sysdeps.cpp:2372-2388 | Two descriptors are found one after the other exactly when two are free |
| FdTable.StepBalanceExactly | outside/mlibc-sysdeps/instantos/sysdeps.cpp:180-193 | A call keeps the held handles equal to the nonzero entries from 3 on, one descriptor each, exactly when it is not a pipe short of descriptors or an F_DUPFD that lands below 3 |
| FdTable.DupFdMinimum | outside/mlibc-sysdeps/instantos/sysdeps.cpp:784-808 | With the standard streams in place F_DUPFD keeps the balance exactly when its minimum is at least 1 |
| FdTable.FailureChangesNothing | outside/mlibc-sysdeps/instantos/sysdeps.cpp:402-412 | A failed call leaves the table, and but for a pipe the handles, as before |
| FdTable.OutcomeTells | outside/mlibc-sysdeps/instantos/sysdeps.cpp:402-443 | Each outcome says what became of the table: where the handle or the two handles went, in which order, or which descriptor and handle are gone; nothing else changed |
| FdTable.FailsExactly | outside/mlibc-sysdeps/instantos/sysdeps.cpp:402-443 | When each error comes: the kernel's own, no free descriptor or fewer than two, a descriptor out of range |
| FdTable.ClosedIsFree | outside/mlibc-sysdeps/instantos/sysdeps.cpp:433-442 | After a close the descriptor is free, its handle not held, and the table as balanced as before |
| FdTable.CloseUndoesMake | outside/mlibc-sysdeps/instantos/sysdeps.cpp:402-442 | Closing what an allocation just made gives the state before it back |
| FdTable.CloseUndoesPair | outside/mlibc-sysdeps/instantos/sysdeps.cpp:1341-1355 | The same for both ends of a pipe or a socket pair, closed in either order |
| FdTable.ClosedIsReused | outside/mlibc-sysdeps/instantos/sysdeps.cpp:180-189 | After a close an allocation with a minimum from there down gets that descriptor or a lower one |
| FdTable.RunsStayBalanced | outside/mlibc-sysdeps/instantos/sysdeps.cpp:180-193 | Over every run of such calls handles and descriptors stay in one-to-one correspondence |
| Directories.FillBuffer | outside/mlibc-sysdeps/instantos/sysdeps.cpp:519-556 | The buffer holds the records of exactly as many next entries as fit whole; bytes past them are untouched |
| Directories.WriteRecord | outside/mlibc-sysdeps/instantos/sysdeps.cpp:525-549 | The record's bytes, field by field, are appended to what was written |
| Directories.WalkRecord | outside/mlibc-sysdeps/instantos/sysdeps.cpp:525-549 | A reader that steps by the record's own length finds inode, position, type and name of the entry |
| Directories.ReaderSees | outside/mlibc-sysdeps/instantos/sysdeps.cpp:332-343 | A reader sees inode, position, name and the kind by its number in the Linux ABI: the kernel's seven file types are told apart |
| Directories.RecordLayout | outside/mlibc-sysdeps/instantos/sysdeps.cpp:525-549 | Every byte of a record: inode, position and length least significant byte first, kind, name, and zeros, at least one |
| Directories.WalkRecords | outside/mlibc-sysdeps/instantos/sysdeps.cpp:474-557 | Walking records gives back the entries, each once and in order |
| Directories.RecordsAligned | outside/mlibc-sysdeps/instantos/sysdeps.cpp:525-528 | Every record starts and ends on a multiple of eight |
| Directories.ProgressUntilDone | outside/mlibc-sysdeps/instantos/sysdeps.cpp:474-557 | With a buffer for any record, nothing is delivered exactly when all entries have been |
| Directories.ReachIsMost | outside/mlibc-sysdeps/instantos/sysdeps.cpp:523-532 | What a call delivers fits the buffer, and one more record would not |
| Directories.CallsDeliverSnapshot | outside/mlibc-sysdeps/instantos/sysdeps.cpp:474-557 | Over any sequence of calls, walking all that was delivered gives the snapshot up to where the calls got; large enough buffers get to the end |
| DirectoryStreams.DirTable.OpenDir | outside/mlibc-sysdeps/instantos/sysdeps.cpp:466-472 | The first unused slot takes the path and becomes the handle, or EMFILE |
| DirectoryStreams.OpenTakesPath | outside/mlibc-sysdeps/instantos/sysdeps.cpp:466-472 | The first unused stream keeps as much of the path as fits, has no listing yet and belongs to no descriptor; every other one is as before |
| DirectoryStreams.DirTable.ReadEntries | outside/mlibc-sysdeps/instantos/sysdeps.cpp:474-557 | A handle reads its slot, a descriptor the stream that belongs to it or a new one; the listing is asked for on the first read only; every error leaves what it must |
| DirectoryStreams.ReadFailsExactly | outside/mlibc-sysdeps/instantos/sysdeps.cpp:474-512 | When each error of a read comes: EBADF, EINVAL, EMFILE, the kernel's own for the path or for the listing |
| DirectoryStreams.DirTable.Close | outside/mlibc-sysdeps/instantos/sysdeps.cpp:414-443 | A handle frees its slot; a descriptor frees the stream that belongs to it and is then closed as a descriptor: free, with its handle closed and all others as before |
| DirectoryStreams.OpKeepsOnePerFd | outside/mlibc-sysdeps/instantos/sysdeps.cpp:310-317 | No operation gives a descriptor a second stream |
| DirectoryStreams.ClosedIsGone | outside/mlibc-sysdeps/instantos/sysdeps.cpp:414-431 | After closing neither handle nor descriptor has a stream |
| DirectoryStreams.OthersLeaveAlone | outside/mlibc-sysdeps/instantos/sysdeps.cpp:474-500 | An operation that does not name an open stream leaves it as it is |
| DirectoryStreams.FirstReadLoads | outside/mlibc-sysdeps/instantos/sysdeps.cpp:502-512 | The first read is a read of the snapshot it takes |
| DirectoryStreams.RunDelivers | outside/mlibc-sysdeps/instantos/sysdeps.cpp:474-557 | Over every run in which other handles are opened, read and closed at will, from a stream with or without its snapshot, the reads of one handle deliver just what they would alone |
| DirectoryStreams.RunDeliversSnapshot | outside/mlibc-sysdeps/instantos/sysdeps.cpp:474-557 | So walking all that one handle's reads delivered gives its snapshot's entries, each once and in order, and enough large buffers get to the end |
| DirectoryStreams.OpenedDelivers | outside/mlibc-sysdeps/instantos/sysdeps.cpp:466-557 | From opening a directory on, over every run until its handle is closed: the reads give the entries of the listing that the first successful one takes, each once and in order |
| DirectoryStreams.DescriptorDelivers | outside/mlibc-sysdeps/instantos/sysdeps.cpp:474-557 | The same of a descriptor, from the read that opens its stream on |
| Bytes.LittleRoundTrip | outside/mlibc-sysdeps/instantos/sysdeps.cpp:535-543 | A number that fits its field is read back as it was stored |
| Bytes.LittleByte | outside/mlibc-sysdeps/instantos/sysdeps.cpp:540-542 | The bytes come least significant first |
| Screens.ByteRepaints | terminal/src/main.cpp:232-281 | Any byte in any state keeps the grid, cursor and parser in bounds and marks every row it changes dirty |
| Screens.EventKeepsTracked | terminal/src/main.cpp:588-596 | Bytes, resizes and flushes keep every visible row that differs from what was painted inside the dirty range; a flush that repaints only the dirty rows and the cursor's two rows shows every visible cell and the cursor at its place |
| Screens.AfterAll | terminal/src/main.cpp:232-313 | Over every run of bytes, resizes and flushes: bounds and dirty tracking hold at the end, and after a flush the window shows the screen |
| Screens.ScrollShifts | terminal/src/main.cpp:300-305 | Scrolling until the cursor is in view moves every visible cell up by the same k rows |
| Screens.ResizeKeepsText | terminal/src/main.cpp:290-313 | After a resize every visible cell is known from the old screen, the cursor stays on its row of text and in its column or behind the last, k is the least scroll that shows it, and the colors stay |
| Screens.ResizeMovesRows | terminal/src/main.cpp:290-313 | On the common columns visible row r holds old row r + k |
| Screens.NewCellsBlank | terminal/src/main.cpp:296-299 | A cell not on the old screen is shown blank exactly when its place was above the new last row before the scroll or it was blank already; without a scroll, always |
| Screens.ResizeRepaintsAll | terminal/src/main.cpp:290-313 | From any sizes, also none, the screen is well formed afterwards and wholly dirty |
| Screens.ParsedInTurn | terminal/src/main.cpp:232-281 | Feeding two pieces of output one after the other is feeding them as one |
| Screens.ParamsParsed | terminal/src/main.cpp:263-271 | Printed parameters are read back in order, one to eight of them |
| Screens.SequenceRoundTrip | terminal/src/main.cpp:253-279 | A printed control sequence asks for exactly one thing, the sequence with the parameters the parser keeps, and the parser rests again |
| Screens.ParametersExact | terminal/src/main.cpp:263-271 | It is read with exactly the printed parameters if and only if the first is not empty |
| Screens.SequenceFed | terminal/src/main.cpp:232-281 | Fed byte by byte to a terminal at rest, it changes the screen exactly as the sequence does, once |
| Screens.CursorPosition | terminal/src/main.cpp:193-200 | ESC [ row ; column H, or f, puts the cursor at the place counted from 1, or the nearest one on the screen, and changes nothing else |
| Typing.BytePrinted | terminal/src/main.cpp:133-144 | A printable byte appears under the cursor in the current colors; the cursor moves on by one and no other cell changes |
| Typing.ByteMarksItsRow | terminal/src/main.cpp:81-92 | Exactly its row is added to the rows to be painted again |
| Typing.ByteWraps | terminal/src/main.cpp:133-137 | Behind the last column it appears at the start of the next row |
| Typing.ByteScrolls | terminal/src/main.cpp:115-137 | Behind the last column of the last row every row moves up by one first, and the last is blank but for it |
| Typing.TextFlows | terminal/src/main.cpp:133-144 | Text that ends on the screen fills the cells from the cursor on, row by row, and changes no other; the cursor stands behind it |
| Typing.LineFeedMoves | terminal/src/main.cpp:125-131 | Line feed: a row down in the same column, or on the last row a scroll by exactly one row |
| Typing.ControlMoves | terminal/src/main.cpp:235-252 | Return and backspace move the cursor only; bell and other control bytes do nothing |
| Typing.TabFills | terminal/src/main.cpp:244-246 | Tab: spaces exactly up to the next multiple of eight or the end of the row |
| Typing.StrayBytes | terminal/src/main.cpp:253-279 | What ends a sequence without asking for anything, byte by byte |
| Typing.OtherSequences | terminal/src/main.cpp:227-229 | A sequence with any other final byte changes nothing on the screen |
| Typing.PrintedForm | terminal/src/main.cpp:253-273 | The bytes of a sequence: ESC, bracket, parameters with semicolons between them, final byte |
| Typing.CursorUp | terminal/src/main.cpp:179-181 | ESC [ n A: up by n, by one for 0, as far as the screen goes; nothing else changes |
| Typing.CursorDown | terminal/src/main.cpp:182-185 | ESC [ n B: the same downward |
| Typing.CursorRight | terminal/src/main.cpp:186-189 | ESC [ n C: the same to the right |
| Typing.CursorLeft | terminal/src/main.cpp:190-192 | ESC [ n D: the same to the left |
| Typing.DisplayErased | terminal/src/main.cpp:201-211 | ESC [ n J: exactly the cells each n blanks, and where the cursor goes |
| Typing.LineErased | terminal/src/main.cpp:212-223 | ESC [ n K: exactly the cells each n blanks; for 1 they keep their colors |
| Typing.LastCodeDecides | terminal/src/main.cpp:146-171 | The last of the codes that speaks of a color decides it; without one it stays |
| Typing.PrintedInColour | terminal/src/main.cpp:146-171 | After ESC [ codes m a printed byte has the colors the codes leave; the sequence changes no cell |
| Typing.ColoursReset | terminal/src/main.cpp:147-151 | ESC [ m brings the default colors back |
| Typing.CellsThatFit | terminal/src/main.cpp:290-294 | A window shows as many cells as fit between its paddings, at least one and at most the limit |
| Terminal.Terminal.TouchRows | terminal/src/main.cpp:81-92 | The dirty range becomes the hull with the rows touched |
| Terminal.Terminal.ClearRow | terminal/src/main.cpp:98-105 | In place, the row from a column on is blank in the current colors, and dirty |
| Terminal.Terminal.ScrollUp | terminal/src/main.cpp:115-123 | Overwriting rows top to bottom moves every row up by one; the last is blank and all are dirty |
| Terminal.Terminal.PutChar | terminal/src/main.cpp:133-144 | Wraps before it writes; the cell and its row are the ones the value form says |
| Terminal.Terminal.ApplySgr | terminal/src/main.cpp:146-171 | The colors after all codes in order |
| Terminal.Terminal.HandleCsi | terminal/src/main.cpp:173-230 | Every control sequence in place does what the value form says, with its parameters' defaults |
| Terminal.Terminal.ParserFeed | terminal/src/main.cpp:232-281 | One byte in place is one byte on the value, and the screen stays well formed |
| Terminal.Terminal.FitGrid | terminal/src/main.cpp:290-313 | A resize in place is the resize of the value; the scroll loop ends |
| DomainNames.JoinOfLabels | net-tools/src/nslookup.c:56-70 | Splitting a name at its dots and joining gives the name back but for an ending dot |
| DomainNames.FormsInBytes | net-tools/src/nslookup.c:56-99 | Label by label: printed, labels with dots between them, and a dot alone for the root; on the wire, each label after its length and a zero at the end |
| DomainNames.DottedReadsBackExactly | net-tools/src/nslookup.c:56-99 | Splitting the dotted form of a name gives its labels back exactly when it has labels and all are proper |
| DomainNames.SameDottedForm | net-tools/src/nslookup.c:73-99 | A label with a dot in it prints like two labels |
| DomainNames.PutName | net-tools/src/nslookup.c:56-70 | Succeeds exactly for names with proper labels that fit; then the message holds the labels and the root at n, and what was before is untouched |
| DomainNames.NameAtIsEncoded | net-tools/src/nslookup.c:73-99 | The reading function agrees, both ways, with the grammar of labels of up to 191 bytes and compression words; a name has one reading |
| DomainNames.ReadsByTheStandard | net-tools/src/nslookup.c:73-99 | What is read is a name by RFC 1035, sections 3.1 and 4.1.4, exactly when no label is longer than 63 bytes, the whole is no longer than 255, and every pointer leads back to where a name, or the ending of one, begins; for any set of such places |
| DomainNames.StandardNameIsReadExactly | net-tools/src/nslookup.c:82-88 | A name by the standard is read, with its labels, exactly when it takes no more pointers than the reader follows |
| DomainNames.ReservedLengthIsRead | net-tools/src/nslookup.c:82-95 | A message with a length byte of 64 that is read although no name by the standard is there |
| DomainNames.ForwardPointerIsRead | net-tools/src/nslookup.c:82-88 | A message with a pointer forward that is read although no name by the standard is there |
| DomainNames.LadderIsNotRead | net-tools/src/nslookup.c:82-88 | A name by the standard, of 33 pointers, that is not read |
| DomainNames.GetName | net-tools/src/nslookup.c:73-99 | Ends on every message, succeeds exactly when a name within 32 hops is encoded there and fits, and then writes its dotted form and moves strictly forward inside the message |
| DomainNames.FitsExactly | net-tools/src/nslookup.c:73-99 | A name fits exactly when its dotted form and the closing zero do; a single label needs a byte more |
| DomainNames.LabelsInFront | net-tools/src/nslookup.c:73-99 | Labels written plainly are read in front of whatever follows them |
| DomainNames.FollowChain | net-tools/src/nslookup.c:82-88 | A chain of at most 32 compression words reads as what it leads to |
| DomainNames.CompressedRoundTrip | net-tools/src/nslookup.c:56-99 | A written name with any ending part replaced by such a chain reads back as the name |
| DomainNames.RoundTrip | net-tools/src/nslookup.c:56-99 | Whatever is written is read back, up to an ending dot |
| DomainNames.WalkAnswers | net-tools/src/nslookup.c:334-356 | Questions skipped, all answers' owners, types and data found, or none when any is cut short |
| DomainNames.AnswersInside | net-tools/src/nslookup.c:345-356 | Every record's data lies in the message after the records before it |
| Responses.CompressedHere | net-tools/src/nslookup.c:73-99 | A name whose ending is a pointer to where that ending is written is read as the whole, and reading resumes after the pointer |
| Responses.QuestionsSkipped | net-tools/src/nslookup.c:337-340 | Questions in wire form, names written out or compressed, are skipped as a whole |
| Responses.ResourcesFound | net-tools/src/nslookup.c:345-356 | Records in wire form are found with their owners, types and, byte for byte, data |
| Responses.ResponseReadBack | net-tools/src/nslookup.c:334-356 | A response whose header counts its questions and records is walked back to exactly these records, whatever follows them |
| Responses.RoundTrip | net-tools/src/nslookup.c:334-356 | The same for any response put together from a header, questions and records with names written out |
| Loader.PagesCoverSegment | ld-instantos/src/main.cpp:387-391 | The mapped pages cover the segment and exceed it by less than a page on each side |
| Loader.AboveBaseExactly | ld-instantos/src/main.cpp:387-388 | A segment is mapped at or above its base exactly when its address does not wrap |
| Loader.LoadedExactly | ld-instantos/src/main.cpp:362-428 | A file loads exactly when it is good, there is room and the kernel accepts every mapping it asks for; its segments are then where its headers say |
| Loader.GoodExactly | ld-instantos/src/main.cpp:378-403 | What a good file is, in numbers: at most sixteen segments and dependencies, each segment's bytes in the file and no more than its memory |
| Loader.Loader.MapSegments | ld-instantos/src/main.cpp:378-408 | All segments in order with their highest end, or the first error |
| Loader.Loader.LoadDependency | ld-instantos/src/main.cpp:459-475 | Finds the resolved name in the list or appends the file's object at the next base |
| Loader.RefusedExactly | ld-instantos/src/main.cpp:352-475 | When each error before any mapping comes: no file, no good ELF file, a seventeenth object; never for a listed name |
| Loader.FoundAgainExactly | ld-instantos/src/main.cpp:459-465 | Asking for a library twice loads it once exactly when its name is shorter than 64 bytes |
| Loader.RequestReaches | ld-instantos/src/main.cpp:695-700 | One more dependency keeps the list equal to the first occurrences of all names asked for so far, each placed at the base that was next |
| Loader.FinishedList | ld-instantos/src/main.cpp:695-700 | A finished list holds exactly the names the program requires through any chain of DT_NEEDED, once each, is closed, and all of them have good files |
| Loader.FinishedNames | ld-instantos/src/main.cpp:438-475 | Against the DT_NEEDED entries as they stand: every listed name but the program's and libinstant.so is needed literally; every needed name but the six parts of the C runtime is listed literally; libinstant.so is listed exactly when it or one of the six is needed; none of the six is |
| Loader.FinishedFiles | ld-instantos/src/main.cpp:459-475 | Every listed library was read from /lib under its whole name and placed as that file's headers say, the first position independent one at the start of the libraries' addresses |
| Loader.FailedRequest | ld-instantos/src/main.cpp:352-400 | A request fails only when there is no finished list whose mappings the kernel all accepts |
| Loader.LoadableRequest | ld-instantos/src/main.cpp:352-400 | When all required libraries have good files and there is room, a request fails exactly when the kernel refuses a mapping that this request asks for, at the base it asks for it |
| Loader.SameStart | ld-instantos/src/main.cpp:692-700 | At every point of the loop the list is the beginning of every finished list, bases included |
| Loader.CanFinish | ld-instantos/src/main.cpp:692-700 | When all required libraries have good files and there is room, the loop can be finished from every point it reaches |
| Loader.LinkableExactly | ld-instantos/src/main.cpp:692-700 | There is at most one finished list, but for where the program itself is; it exists, with all its mappings accepted, exactly when all required libraries have good files, at most sixteen objects are required, and the kernel accepts every mapping of that list |
| Loader.PlacedWellExactly | ld-instantos/src/main.cpp:378-412 | All pages of a library lie above its base, cover its segments and end a stride below the next base exactly when no address wraps |
| Loader.NextBaseExactly | ld-instantos/src/main.cpp:410-412 | The next library goes to the first multiple of 64 megabytes that lies at least as much past the highest end of the pages |
| Loader.LibrariesApart | ld-instantos/src/main.cpp:410-412 | When no address wraps, pages of different position independent libraries are a whole stride apart and below the next base |
| Loader.ModestFit | ld-instantos/src/main.cpp:402-412 | Images that end below 2^47 never wrap, in whatever order they are loaded |
| Loader.Loader.LinkProgram | ld-instantos/src/main.cpp:692-700 | The loop over the growing array succeeds exactly when a finished list exists and the kernel accepts its mappings, and ends with that list: the required objects, once each, in the order first asked for, under the names FinishedNames says and from the files FinishedFiles says |
| History.History.Push | file-browser/src/main.cpp:611-619 | The path is on top; only from a full stack the oldest is dropped |
| History.History.Navigate | file-browser/src/main.cpp:622-631 | In place, with 32 slots a stack, what the value form says |
| History.History.GoBack | file-browser/src/main.cpp:633-642 | In place what the value form says, never evicting |
| History.History.GoForward | file-browser/src/main.cpp:644-653 | In place what the value form says, never evicting |
| History.AfterAll | file-browser/src/main.cpp:611-653 | In every reachable state both stacks together hold at most 32 paths |
| History.MovesAlongLine | file-browser/src/main.cpp:633-653 | Back and Forward keep the line of folders, move one place along it and undo each other |
| History.NavigatingKeepsTheRecent | file-browser/src/main.cpp:622-631 | Opening a folder drops what was ahead and at most the single oldest folder; Back returns |
| History.WalkingKeepsLine | file-browser/src/main.cpp:633-653 | Any walk back and forth leaves the line alone and shows one of its folders |

## Left out

- Compositor.GraphicsCompositor.EventLoopTurn: for window lists with distinct ids, at most 64 live surfaces, and clients that change pixels only inside the rectangles they commit and keep a surface's address and size while it lives (`Damage.Honest`, `Damage.SameStorage`); clock and fonts stay the same during a run. A list longer than the snapshot array is not modelled.
- Compositor.GraphicsCompositor.HandlePointer: what a press, a drag or a window control does to windows is a parameter of the message, any redraw request and any added rectangle; the windows it moves come back in the next list.
- Compositor.GraphicsCompositor.PumpSurfaceUpdates: a client's writes to shared memory are taken to happen when its commit is polled, so a frame half written while it is drawn is not modelled.
- Compositor.GraphicsCompositor.UpdateWindowSnapshot: windows are compared as whole values; the log lines are not modelled.
- Scene.DrawScene: the toolkit's canvas, text, icons and gradients are painters that are only known to stay in the rectangle they are given; a row of a rounded rectangle is one stretch.
- SurfaceCache.Cache.ConsumeDirtyRect: rectangles have unbounded coordinates; the source's 32-bit ones are not wrapped.
- Blur.LoadedBackground: for screens at least 64 pixels high; the scaled image is a parameter.
- FdTable.DescriptorTable.Pipe: the handles it loses are part of the contract, because the code loses them.
- FdTable.StepBalanceExactly: Dup2, descriptors passed over sockets and handle inheritance over fork are not modelled.
- DirectoryStreams.DescriptorDelivers: for runs in which nobody uses the slot's own number as a handle. What the kernel lists and the path of a descriptor are parameters.
- Screens.ByteRepaints: parameters are mathematical integers; overflow of a parameter of more than nine digits is not modelled.
- Screens.EventKeepsTracked: a flush and the paint it asks for are one step; the blinking of the cursor is not modelled.
- Terminal.Terminal.FitGrid: the font's cell size is a positive parameter.
- DomainNames.WalkAnswers: sending the query, matching the response to it and printing the records are not modelled.
- Loader.Loader.LinkProgram: for programs that require no name of 64 bytes or more. What the kernel accepts depends on a mapping's place and size alone. ELF files are given as what the loader reads from them; symbol tables, relocation, protection and initializers are not modelled. Names are strings without zero bytes.
- History.History.Navigate: reading the folder that is opened, and the selection in it, are not modelled.
- The scaling of a background image to the screen, the OpenGL and virtio-gpu backends, fonts, images and the theme.
- Mouse capture, window dragging, resizing and the desktop menu.
- The terminal's painting, selection, keyboard and shell process.
- Services, installers, network tools other than name lookup, and the programs that exercise the kernel.
