/** The backends that put the finished scene on the screen (graphics-compositor/src/backend.cpp):
    the software backend, which writes the framebuffer at every call, and the flip backend, which
    collects what changed and repairs one of two scanout buffers at the end of a pass. */
module Backend {
  import opened Geometry
  import opened Presentation

  /** Outside `rect` the two pictures are the same. */
  ghost predicate SameOutside(a: Picture, b: Picture, rect: Rect, width: nat, height: nat)
    requires IsPicture(a, width, height) && IsPicture(b, width, height)
  {
    forall x, y :: 0 <= x < width && 0 <= y < height && !rect.Contains(x, y) ==> a[y][x] == b[y][x]
  }

  /** A buffer that shows the picture with the pointer at the old place shows it with the pointer at
      the new place once the pointer move is presented: repainting the hull of the two pointer
      rectangles is enough. */
  lemma PointerMoveIsLocal(under: Word, oldCursor: Cursor, newCursor: Cursor, image: CursorImage,
                           width: nat, height: nat, x: int, y: int)
    requires image.Valid() && 0 <= x < width && 0 <= y < height
    requires !MoveDirt(oldCursor, newCursor, image, width, height).Contains(x, y)
    ensures Composed(under, oldCursor, image, x, y) == Composed(under, newCursor, image, x, y) == Visible(under)
  {
    var hull := CursorRect(oldCursor, image).Unite(CursorRect(newCursor, image));
    assert !hull.Contains(x, y);
    assert !CursorRect(oldCursor, image).Contains(x, y);
    assert !CursorRect(newCursor, image).Contains(x, y);
  }

  /** After a pointer move is presented over a framebuffer that showed the scene with the pointer at
      the old place (or nowhere), it shows the scene with the pointer at the new place. */
  lemma MoveCompletes(fb: PixelBuffer, scene: PixelBuffer, oldCursor: Cursor, newCursor: Cursor, image: CursorImage)
    requires fb.Valid() && scene.Valid() && scene.width == fb.width && scene.height == fb.height && image.Valid()
    requires forall x, y :: fb.In(x, y) ==>
               if MoveDirt(oldCursor, newCursor, image, fb.width, fb.height).Contains(x, y)
               then fb.At(x, y) == Composed(scene.At(x, y), newCursor, image, x, y)
               else
                 fb.At(x, y) == Composed(scene.At(x, y), oldCursor, image, x, y) ||
                   fb.At(x, y) == Visible(scene.At(x, y))
    ensures Shows(fb, scene.ToPicture(), newCursor, image)
  {
    forall x, y | fb.In(x, y)
      ensures fb.At(x, y) == Composed(scene.ToPicture()[y][x], newCursor, image, x, y)
    {
      if !MoveDirt(oldCursor, newCursor, image, fb.width, fb.height).Contains(x, y) {
        PointerMoveIsLocal(scene.At(x, y), oldCursor, newCursor, image, fb.width, fb.height, x, y);
      }
    }
  }

  /** Draws the whole picture straight into a framebuffer. */
  method DrawWhole(scene: PixelBuffer, target: PixelBuffer, cursor: Cursor, image: CursorImage)
    requires target.Valid() && scene.Valid() && scene.width == target.width && scene.height == target.height
    requires scene.pixels != target.pixels && image.Valid()
    modifies target.pixels
    ensures Shows(target, scene.ToPicture(), cursor, image)
  {
    PresentToFramebuffer(scene, target);
    PresentCursorMove(scene, target, cursor, cursor, image);
    MoveCompletes(target, scene, cursor, cursor, image);
  }

  /** Draws what changed straight into a framebuffer that showed the picture before the change. */
  method DrawChange(scene: PixelBuffer, target: PixelBuffer, rect: Rect, cursor: Cursor, image: CursorImage,
                    ghost before: Picture)
    requires target.Valid() && scene.Valid() && scene.width == target.width && scene.height == target.height
    requires scene.pixels != target.pixels && image.Valid()
    requires IsPicture(before, target.width, target.height) && Shows(target, before, cursor, image)
    requires SameOutside(before, scene.ToPicture(), rect, target.width, target.height)
    modifies target.pixels
    ensures Shows(target, scene.ToPicture(), cursor, image)
  {
    PresentRectToFramebuffer(scene, target, rect);
    PresentCursorMove(scene, target, cursor, cursor, image);
    MoveCompletes(target, scene, cursor, cursor, image);
  }

  method DrawMove(scene: PixelBuffer, target: PixelBuffer, oldCursor: Cursor, newCursor: Cursor, image: CursorImage)
    requires target.Valid() && scene.Valid() && scene.width == target.width && scene.height == target.height
    requires scene.pixels != target.pixels && image.Valid()
    requires Shows(target, scene.ToPicture(), oldCursor, image)
    modifies target.pixels
    ensures Shows(target, scene.ToPicture(), newCursor, image)
  {
    PresentCursorMove(scene, target, oldCursor, newCursor, image);
    MoveCompletes(target, scene, oldCursor, newCursor, image);
  }

  class SoftwareBackend {
    const target: PixelBuffer
    /** What the last call presented. */
    ghost var noted: Picture
    ghost var pointer: Cursor
    ghost var image: CursorImage

    constructor (target: PixelBuffer)
      requires target.Valid()
      ensures this.target == target
    {
      this.target := target;
      noted, pointer := [], Cursor(0, 0);
      image := CursorImage(false, 0, 0, [], 0, 0, (a, b, c) => 0);
    }

    ghost predicate Valid()
      reads this, target.pixels
    {
      target.Valid() && IsPicture(noted, target.width, target.height) && image.Valid() &&
      Shows(target, noted, pointer, image)
    }

    ghost predicate Takes(scene: PixelBuffer) {
      target.Valid() && scene.Valid() && scene.width == target.width && scene.height == target.height &&
      scene.pixels != target.pixels
    }

    method PresentFull(scene: PixelBuffer, cursor: Cursor, cursorImage: CursorImage)
      requires Takes(scene) && cursorImage.Valid()
      modifies this, target.pixels
      ensures Valid() && noted == scene.ToPicture() && pointer == cursor && image == cursorImage
    {
      DrawWhole(scene, target, cursor, cursorImage);
      noted, pointer, image := scene.ToPicture(), cursor, cursorImage;
    }

    method PresentRect(scene: PixelBuffer, rect: Rect, cursor: Cursor, cursorImage: CursorImage)
      requires Takes(scene) && Valid()
      requires cursor == pointer && cursorImage == image
      requires SameOutside(noted, scene.ToPicture(), rect, target.width, target.height)
      modifies this, target.pixels
      ensures Valid() && noted == scene.ToPicture() && pointer == cursor && image == cursorImage
    {
      DrawChange(scene, target, rect, cursor, cursorImage, noted);
      noted := scene.ToPicture();
    }

    method PresentCursorMoved(scene: PixelBuffer, oldCursor: Cursor, newCursor: Cursor, cursorImage: CursorImage)
      requires Takes(scene) && Valid()
      requires oldCursor == pointer && cursorImage == image && noted == scene.ToPicture()
      modifies this, target.pixels
      ensures Valid() && noted == scene.ToPicture() && pointer == newCursor && image == cursorImage
    {
      DrawMove(scene, target, oldCursor, newCursor, cursorImage);
      pointer := newCursor;
    }
  }

  /** Where a buffer is neither missing a change nor carrying a pointer it holds the picture. */
  ghost predicate HoldsOutside(buffer: PixelBuffer, picture: Picture, missed: Rect, drawn: Rect)
    requires buffer.Valid() && IsPicture(picture, buffer.width, buffer.height)
    reads buffer.pixels
  {
    forall x, y :: buffer.In(x, y) && !missed.Contains(x, y) && !drawn.Contains(x, y) ==>
      buffer.At(x, y) == Visible(picture[y][x])
  }

  /** Outside what the buffer missed, the pointer it carried and the new pointer it keeps its words. */
  twostate predicate RepairedOnly(buffer: PixelBuffer, missed: Rect, drawn: Rect, cursor: Cursor, image: CursorImage)
    requires buffer.Valid()
    reads buffer.pixels
  {
    forall x, y ::
      buffer.In(x, y) && !missed.Unite(drawn).Contains(x, y) && !CursorRect(cursor, image).Contains(x, y) ==>
        buffer.At(x, y) == old(buffer.At(x, y))
  }

  /** What a change adds to a buffer's missing rectangle keeps the buffer repairable. */
  lemma MissingGrows(buffer: PixelBuffer, before: Picture, now: Picture, missed: Rect, changed: Rect, drawn: Rect)
    requires buffer.Valid() && IsPicture(before, buffer.width, buffer.height)
    requires IsPicture(now, buffer.width, buffer.height)
    requires HoldsOutside(buffer, before, missed, drawn)
    requires SameOutside(before, now, changed, buffer.width, buffer.height)
    ensures HoldsOutside(buffer, now, missed.Unite(changed), drawn)
  {
    forall x, y | buffer.In(x, y) && !missed.Unite(changed).Contains(x, y) && !drawn.Contains(x, y)
      ensures buffer.At(x, y) == Visible(now[y][x])
    {
      assert !missed.Contains(x, y) && !changed.Contains(x, y);
    }
  }

  /** Two buffers that take turns on the screen, each with the rectangle outside of which it is current. */
  class FlipBackend {
    const target: PixelBuffer
    const buffers: seq<PixelBuffer>
    var missing: seq<Rect>
    var cursorDrawn: seq<Rect>
    var front: nat               // 2: neither
    var scene: PixelBuffer?
    var cursor: Cursor
    var cursorImage: CursorImage
    var pending: bool
    var failed: bool
    /** What the last present call showed us: the scene as it was then, and the pointer. */
    ghost var noted: Picture
    ghost var pointer: Cursor
    ghost var image: CursorImage

    /** Null when there is no framebuffer or no scanout buffer, or they do not fit. */
    static method Initialize(target: PixelBuffer?, first: PixelBuffer?, second: PixelBuffer)
      returns (backend: FlipBackend?)
      requires target != null ==> target.Valid()
      requires first != null ==>
                 first.Valid() && second.Valid() && first.pixels != second.pixels &&
                 second.width == first.width && second.height == first.height
      requires target != null && first != null ==> target.pixels != first.pixels && target.pixels != second.pixels
      ensures backend == null <==>
                target == null || first == null || first.width != target.width || first.height != target.height
      ensures backend != null ==>
                fresh(backend) && backend.target == target && backend.buffers == [first, second] &&
                backend.Valid() && !backend.failed && !backend.pending && backend.front == 2 &&
                backend.missing == [backend.Screen(), backend.Screen()] && backend.cursorDrawn == [NOTHING, NOTHING]
    {
      if target == null || first == null || first.width != target.width || first.height != target.height {
        return null;
      }
      backend := new FlipBackend(target, first, second);
    }

    constructor (target: PixelBuffer, first: PixelBuffer, second: PixelBuffer)
      requires target.Valid() && first.Valid() && second.Valid()
      requires target.pixels != first.pixels && target.pixels != second.pixels && first.pixels != second.pixels
      requires second.width == first.width == target.width && second.height == first.height == target.height
      ensures this.target == target && buffers == [first, second]
      ensures Valid() && !failed && !pending && front == 2
      ensures missing == [Screen(), Screen()] && cursorDrawn == [NOTHING, NOTHING]
    {
      this.target := target;
      buffers := [first, second];
      var screen := Rect(0, 0, target.width, target.height);
      missing := [screen, screen];
      cursorDrawn := [NOTHING, NOTHING];
      front, scene, pending, failed := 2, null, false, false;
      cursor := Cursor(0, 0);
      var none := CursorImage(false, 0, 0, [], 0, 0, (a, b, c) => 0);
      cursorImage := none;
      noted := seq(target.height, _ => seq(target.width, _ => 0));
      pointer, image := Cursor(0, 0), none;
      new;
      assert forall i, x, y :: 0 <= i < 2 && target.In(x, y) ==> missing[i].Contains(x, y);
    }

    function Screen(): Rect {
      Rect(0, 0, target.width, target.height)
    }

    /** The buffer that the next flip shows. */
    function Back(): nat
      reads this`front
    {
      if front == 0 then 1 else 0
    }

    ghost predicate Shape() {
      |buffers| == 2 && target.Valid() && buffers[0].Valid() && buffers[1].Valid() &&
      (forall i :: 0 <= i < 2 ==> buffers[i].width == target.width && buffers[i].height == target.height) &&
      target.pixels != buffers[0].pixels && target.pixels != buffers[1].pixels &&
      buffers[0].pixels != buffers[1].pixels
    }

    ghost function Memory(): set<object> {
      if |buffers| == 2 then {target.pixels, buffers[0].pixels, buffers[1].pixels} else {target.pixels}
    }

    ghost predicate Repairable(i: int)
      requires Shape() && 0 <= i < 2 && |missing| == 2 && |cursorDrawn| == 2
      requires IsPicture(noted, target.width, target.height)
      reads this, buffers[i].pixels
    {
      HoldsOutside(buffers[i], noted, missing[i], cursorDrawn[i])
    }

    ghost predicate Sound()
      reads this
    {
      Shape() && |missing| == 2 && |cursorDrawn| == 2 && front <= 2 &&
      IsPicture(noted, target.width, target.height) && image.Valid() &&
      (failed ==> !pending) &&
      (pending ==> scene != null && Takes(scene) && cursor == pointer && cursorImage == image)
    }

    ghost predicate Valid()
      reads this, Memory()
    {
      Sound() &&
      (if failed then Shows(target, noted, pointer, image)
       else
         Repairable(0) && Repairable(1) &&
         (!pending && front < 2 ==> Shows(buffers[front], noted, pointer, image)))
    }

    /** What the user sees is the noted scene with the pointer over it. */
    ghost predicate OnScreen()
      requires Sound()
      reads this, Memory()
    {
      if failed then Shows(target, noted, pointer, image)
      else front < 2 && Shows(buffers[front], noted, pointer, image)
    }

    ghost predicate Takes(scene: PixelBuffer) {
      target.Valid() && scene.Valid() && scene.width == target.width && scene.height == target.height &&
      scene.pixels !in Memory()
    }

    method PresentFull(scene: PixelBuffer, cursor: Cursor, cursorImage: CursorImage)
      requires Valid() && Takes(scene) && cursorImage.Valid()
      modifies this, target.pixels
      ensures Valid() && noted == scene.ToPicture() && pointer == cursor && image == cursorImage
      ensures failed == old(failed) && front == old(front) && (!failed ==> pending && this.scene == scene)
    {
      if failed {
        DrawWhole(scene, target, cursor, cursorImage);
        noted, pointer, image := scene.ToPicture(), cursor, cursorImage;
        return;
      }
      Note(scene, Screen(), cursor, cursorImage, scene.ToPicture());
    }

    method PresentRect(scene: PixelBuffer, rect: Rect, cursor: Cursor, cursorImage: CursorImage)
      requires Valid() && Takes(scene)
      requires cursor == pointer && cursorImage == image
      requires SameOutside(noted, scene.ToPicture(), rect, target.width, target.height)
      modifies this, target.pixels
      ensures Valid() && noted == scene.ToPicture() && pointer == cursor && image == cursorImage
      ensures failed == old(failed) && front == old(front) && (!failed ==> pending && this.scene == scene)
    {
      if failed {
        DrawChange(scene, target, rect, cursor, cursorImage, noted);
        noted := scene.ToPicture();
        return;
      }
      Note(scene, rect, cursor, cursorImage, scene.ToPicture());
    }

    method PresentCursorMoved(scene: PixelBuffer, oldCursor: Cursor, newCursor: Cursor, cursorImage: CursorImage)
      requires Valid() && Takes(scene)
      requires oldCursor == pointer && cursorImage == image && noted == scene.ToPicture()
      modifies this, target.pixels
      ensures Valid() && noted == scene.ToPicture() && pointer == newCursor && image == cursorImage
      ensures failed == old(failed) && front == old(front) && (!failed ==> pending && this.scene == scene)
      ensures forall i, x, y :: 0 <= i < 2 ==> (missing[i].Contains(x, y) <==> old(missing)[i].Contains(x, y))
    {
      if failed {
        DrawMove(scene, target, oldCursor, newCursor, cursorImage);
        pointer := newCursor;
        return;
      }
      Note(scene, NOTHING, newCursor, cursorImage, scene.ToPicture());
    }

    method Note(scene: PixelBuffer, changed: Rect, cursor: Cursor, cursorImage: CursorImage, ghost now: Picture)
      requires Sound() && !failed && Takes(scene) && cursorImage.Valid()
      requires Repairable(0) && Repairable(1)
      requires IsPicture(now, target.width, target.height)
      requires SameOutside(noted, now, changed, target.width, target.height)
      modifies this`missing, this`noted, this`scene, this`cursor, this`cursorImage, this`pointer, this`image,
        this`pending
      ensures Sound() && !failed && pending && front == old(front)
      ensures missing == [old(missing)[0].Unite(changed), old(missing)[1].Unite(changed)]
      ensures Repairable(0) && Repairable(1)
      ensures this.scene == scene && noted == now && pointer == cursor && image == cursorImage
    {
      Miss(changed, now);
      this.scene, this.cursor, this.cursorImage := scene, cursor, cursorImage;
      pointer, image := cursor, cursorImage;
      pending := true;
    }

    /** Both buffers now miss the change too. */
    method Miss(changed: Rect, ghost now: Picture)
      requires Shape() && |missing| == 2 && |cursorDrawn| == 2
      requires IsPicture(noted, target.width, target.height) && IsPicture(now, target.width, target.height)
      requires Repairable(0) && Repairable(1)
      requires SameOutside(noted, now, changed, target.width, target.height)
      modifies this`missing, this`noted
      ensures missing == [old(missing)[0].Unite(changed), old(missing)[1].Unite(changed)] && noted == now
      ensures Repairable(0) && Repairable(1)
    {
      MissingGrows(buffers[0], noted, now, missing[0], changed, cursorDrawn[0]);
      MissingGrows(buffers[1], noted, now, missing[1], changed, cursorDrawn[1]);
      missing := [missing[0].Unite(changed), missing[1].Unite(changed)];
      noted := now;
    }

    /** Every pixel of the screen is the noted picture's with the pointer over it. */
    ghost predicate Seen()
      requires Sound() && (failed || front < 2)
      reads this, Memory()
    {
      var shown := if failed then target else buffers[front];
      forall x, y :: shown.In(x, y) ==> Over(noted[y][x], pointer, image, x, y, shown.At(x, y))
    }

    lemma OnScreenIsSeen()
      requires Sound() && OnScreen()
      ensures Seen()
    {
      hide Over, Composed;
      var shown := if failed then target else buffers[front];
      forall x, y | shown.In(x, y) ensures Over(noted[y][x], pointer, image, x, y, shown.At(x, y)) {
        ComposedIsOver(noted[y][x], pointer, image, x, y);
      }
    }

    /** The end of a pass: brings the buffer that is off the screen up to date and flips to it.
        `idle` and `flipped` are the kernel's answers to the wait and to the flip.  Nothing is written to
        the buffer on the screen, and to the other only where it misses a change or carries a pointer. */
    method Commit(idle: bool, flipped: bool)
      requires Valid()
      requires pending ==> scene.ToPicture() == noted
      modifies this, Memory()
      ensures Valid() && !pending
      ensures noted == old(noted) && pointer == old(pointer) && image == old(image)
      ensures failed <==> old(failed) || (old(pending) && !(idle && flipped))
      ensures old(pending) && !failed ==> front == if old(front) == 0 then 1 else 0
      ensures !old(pending) ==> front == old(front)
      ensures old(pending) || old(failed) || old(front) < 2 ==> OnScreen() && Seen()
      ensures unchanged(buffers[1 - old(Back())].pixels) && (!failed ==> unchanged(target.pixels))
      ensures RepairedOnly(buffers[old(Back())], old(missing)[old(Back())], old(cursorDrawn)[old(Back())], pointer,
              image)
    {
      hide Seen, Over, Composed, Shows, Repairable;
      if !failed && pending {
        Flip(idle, flipped);
      }
      if failed || front < 2 {
        OnScreenIsSeen();
      }
    }

    /** The part of a commit that writes. */
    method Flip(idle: bool, flipped: bool)
      requires Valid() && !failed && pending && scene.ToPicture() == noted
      modifies this, Memory()
      ensures Valid() && !pending
      ensures noted == old(noted) && pointer == old(pointer) && image == old(image)
      ensures failed <==> !(idle && flipped)
      ensures !failed ==> front == if old(front) == 0 then 1 else 0
      ensures OnScreen()
      ensures unchanged(buffers[1 - old(Back())].pixels) && (!failed ==> unchanged(target.pixels))
      ensures RepairedOnly(buffers[old(Back())], old(missing)[old(Back())], old(cursorDrawn)[old(Back())], pointer,
              image)
    {
      pending := false;
      var back := Back();
      if !idle {
        FallBack();
        return;
      }
      Repair(back);
      if !flipped {
        FallBack();
        return;
      }
      front := back;
    }

    /** Copies into a buffer the scene's pixels it lacks and those its old pointer covers, then draws the pointer. */
    method Repair(back: int)
      requires 0 <= back < 2 && CanRepair(back) && scene.ToPicture() == noted
      modifies this`missing, this`cursorDrawn, buffers[back].pixels
      ensures Shape() && Shows(buffers[back], noted, pointer, image)
      ensures |missing| == 2 && |cursorDrawn| == 2 && Repairable(back)
      ensures missing[1 - back] == old(missing)[1 - back] && cursorDrawn[1 - back] == old(cursorDrawn)[1 - back]
      ensures missing[back] == NOTHING
      ensures RepairedOnly(buffers[back], old(missing)[back], old(cursorDrawn)[back], pointer, image)
    {
      hide SameOutside, FlipBackend.Valid, FlipBackend.OnScreen;
      var view := buffers[back];
      var drawn := ClampRect(CursorRect(cursor, cursorImage), view.width, view.height);
      var repaint := ClampRect(missing[back].Unite(cursorDrawn[back]), view.width, view.height);
      if !repaint.Empty() {
        PresentRectToFramebuffer(scene, view, repaint);
      } else {
        EmptyHoldsNothing(repaint);
      }
      assert forall x, y :: view.In(x, y) ==> view.At(x, y) == Visible(scene.At(x, y));
      PresentCursorMove(scene, view, cursor, cursor, cursorImage);
      MoveCompletes(view, scene, cursor, cursor, cursorImage);
      missing := missing[back := NOTHING];
      cursorDrawn := cursorDrawn[back := drawn];
    }

    ghost predicate CanRepair(back: int)
      requires 0 <= back < 2
      reads this, if |buffers| == 2 then {buffers[back].pixels} else {}
    {
      Sound() && !failed && scene != null && Takes(scene) && cursor == pointer && cursorImage == image &&
      Repairable(back)
    }

    /** Gives up flipping: the noted picture goes to the firmware's framebuffer, as will every later one. */
    method FallBack()
      requires Sound() && !failed && !pending && cursor == pointer && cursorImage == image
      requires scene != null && Takes(scene) && scene.ToPicture() == noted
      modifies this`failed, target.pixels
      ensures Valid() && failed && OnScreen()
    {
      failed := true;
      DrawWhole(scene, target, cursor, cursorImage);
    }
  }

  // ---- the same calls through both backends --------------------------------------------------

  /** What is presented: a whole new picture, a change of it inside a rectangle, or a new place of the
      pointer; and the end of a pass with the display's answers. */
  datatype Call =
    | Full(picture: Picture, cursor: Cursor, image: CursorImage)
    | Change(picture: Picture, rect: Rect)
    | Move(cursor: Cursor)
    | EndOfPass(idle: bool, flipped: bool)

  /** What the calls so far ask to be shown. */
  datatype Wanted = Wanted(picture: Picture, cursor: Cursor, image: CursorImage)

  function AfterCall(w: Wanted, call: Call): Wanted {
    match call
    case Full(picture, cursor, image) => Wanted(picture, cursor, image)
    case Change(picture, _) => w.(picture := picture)
    case Move(cursor) => w.(cursor := cursor)
    case EndOfPass(_, _) => w
  }

  function AfterCalls(w: Wanted, calls: seq<Call>): Wanted {
    if calls == [] then w else AfterCall(AfterCalls(w, calls[..|calls| - 1]), calls[|calls| - 1])
  }

  /** Pictures fit the screen, and a change stays inside its rectangle. */
  ghost predicate GoodCall(w: Wanted, call: Call, width: nat, height: nat) {
    match call
    case Full(picture, _, image) => IsPicture(picture, width, height) && image.Valid()
    case Change(picture, rect) =>
      IsPicture(w.picture, width, height) && IsPicture(picture, width, height) &&
      SameOutside(w.picture, picture, rect, width, height)
    case _ => true
  }

  /** The software backend and the flip backend, given the same calls on one scene. */
  class Pair {
    const software: SoftwareBackend
    const flip: FlipBackend
    const scene: PixelBuffer
    var cursor: Cursor
    var image: CursorImage

    constructor (software: SoftwareBackend, flip: FlipBackend, scene: PixelBuffer, image: CursorImage)
      ensures this.software == software && this.flip == flip && this.scene == scene
    {
      this.software, this.flip, this.scene, this.image := software, flip, scene, image;
      cursor := Cursor(0, 0);
    }

    ghost function Memory(): set<object> {
      {this, software, flip, software.target.pixels, scene.pixels} + flip.Memory()
    }

    ghost predicate Wired() {
      software.Takes(scene) && flip.Takes(scene) && software.target.pixels !in flip.Memory() &&
      software.target.width == flip.target.width && software.target.height == flip.target.height
    }

    /** Both were asked for this, and the flip backend has a picture to show. */
    ghost predicate Asked(w: Wanted)
      requires Wired()
      reads Memory()
    {
      software.Valid() && flip.Valid() && cursor == w.cursor && image == w.image && scene.ToPicture() == w.picture &&
      software.noted == w.picture && software.pointer == w.cursor && software.image == w.image &&
      flip.noted == w.picture && flip.pointer == w.cursor && flip.image == w.image &&
      (flip.pending ==> flip.scene == scene) && (flip.pending || flip.failed || flip.front < 2)
    }

    /** Both show the same word at every pixel. */
    ghost predicate Agree()
      requires Wired()
      reads Memory()
    {
      flip.Shape() && (flip.failed || flip.front < 2) &&
      forall x, y :: software.target.In(x, y) ==>
        software.target.At(x, y) == if flip.failed then flip.target.At(x, y) else flip.buffers[flip.front].At(x, y)
    }

    /** Draws the scene's new picture. */
    method Draw(picture: Picture)
      requires scene.Valid() && IsPicture(picture, scene.width, scene.height)
      modifies scene.pixels
      ensures scene.ToPicture() == picture
    {
      for row := 0 to scene.height
        invariant forall x, y :: scene.In(x, y) && y < row ==> scene.At(x, y) == picture[y][x]
      {
        for column := 0 to scene.width
          invariant forall x, y :: scene.In(x, y) && (y < row || (y == row && x < column)) ==>
                      scene.At(x, y) == picture[y][x]
        {
          scene.Set(column, row, picture[row][column]);
        }
      }
      assert forall y :: 0 <= y < scene.height ==> scene.ToPicture()[y] == picture[y];
    }

    /** The first picture, from any state of the two. */
    method PresentFull(picture: Picture, cursor: Cursor, image: CursorImage)
      requires Wired() && flip.Valid() && IsPicture(picture, scene.width, scene.height) && image.Valid()
      modifies Memory()
      ensures Asked(Wanted(picture, cursor, image))
    {
      hide Shows, HoldsOutside, FlipBackend.OnScreen;
      Draw(picture);
      software.PresentFull(scene, cursor, image);
      flip.PresentFull(scene, cursor, image);
      this.cursor, this.image := cursor, image;
    }

    method PresentChange(picture: Picture, rect: Rect, ghost w: Wanted)
      requires Wired() && Asked(w) && GoodCall(w, Change(picture, rect), scene.width, scene.height)
      modifies Memory()
      ensures Asked(w.(picture := picture))
    {
      hide Shows, HoldsOutside, FlipBackend.OnScreen;
      Draw(picture);
      software.PresentRect(scene, rect, cursor, image);
      flip.PresentRect(scene, rect, cursor, image);
    }

    method PresentMove(to: Cursor, ghost w: Wanted)
      requires Wired() && Asked(w)
      modifies Memory()
      ensures Asked(w.(cursor := to))
    {
      software.PresentCursorMoved(scene, cursor, to, image);
      flip.PresentCursorMoved(scene, cursor, to, image);
      cursor := to;
    }

    /** One call; after the end of a pass both backends show the same screen, whatever the display answers. */
    method Present(call: Call, ghost w: Wanted)
      requires Wired() && Asked(w) && GoodCall(w, call, scene.width, scene.height)
      modifies Memory()
      ensures Asked(AfterCall(w, call)) && (call.EndOfPass? ==> Agree())
    {
      match call {
        case Full(picture, cursor, image) => PresentFull(picture, cursor, image);
        case Change(picture, rect) => PresentChange(picture, rect, w);
        case Move(to) => PresentMove(to, w);
        case EndOfPass(idle, flipped) => flip.Commit(idle, flipped);
      }
    }

    /** Any calls, in order. */
    method Replay(calls: seq<Call>, ghost w: Wanted)
      requires Wired() && Asked(w)
      requires forall i :: 0 <= i < |calls| ==> GoodCall(AfterCalls(w, calls[..i]), calls[i], scene.width, scene.height)
      modifies Memory()
      ensures Asked(AfterCalls(w, calls)) && (calls != [] && calls[|calls| - 1].EndOfPass? ==> Agree())
    {
      hide Asked, Agree, GoodCall, AfterCall;
      for i := 0 to |calls|
        invariant Asked(AfterCalls(w, calls[..i])) && (i > 0 && calls[i - 1].EndOfPass? ==> Agree())
      {
        Present(calls[i], AfterCalls(w, calls[..i]));
        assert calls[..i + 1][..i] == calls[..i];
      }
      assert calls[..|calls|] == calls;
    }
  }
}
