/** Pixel buffers and the routines that bring a framebuffer up to date from the finished scene
    (graphics-compositor/src/presentation.cpp, buffers.cpp, render_primitives.cpp). */
module Presentation {
  import opened Geometry

  /** A 32-bit pixel, alpha in the top byte. */
  type Word = w: int | 0 <= w < 0x1_0000_0000

  /** A picture as a value: rows of pixels. */
  type Picture = seq<seq<Word>>

  /** What a framebuffer keeps of a scene pixel: it has no alpha byte. */
  function Visible(w: Word): Word { w % 0x100_0000 }

  function Alpha(w: Word): int { w / 0x100_0000 }

  datatype Cursor = Cursor(x: int, y: int)

  /** The pointer image.  The toolkit's blend is a parameter. */
  datatype CursorImage = CursorImage(ready: bool, hotspotX: int, hotspotY: int,
                                     rows: Picture, width: nat, height: nat,
                                     blend: (Word, Word, int) -> Word)
  {
    predicate Valid() {
      |rows| == height && forall y :: 0 <= y < height ==> |rows[y]| == width
    }
  }

  function CursorRect(cursor: Cursor, image: CursorImage): Rect {
    if !image.ready then Rect(cursor.x, cursor.y, 0, 0)
    else Rect(cursor.x - image.hotspotX, cursor.y - image.hotspotY, image.width, image.height)
  }

  function ClampRect(r: Rect, width: nat, height: nat): (c: Rect)
    ensures forall x, y :: c.Contains(x, y) <==> r.Contains(x, y) && 0 <= x < width && 0 <= y < height
  {
    var c := r.Intersect(Rect(0, 0, width, height));
    assert forall x, y :: c.Contains(x, y) <==> r.Contains(x, y) && Rect(0, 0, width, height).Contains(x, y);
    c
  }

  /** The pointer at `cursor` drawn over one pixel of the scene. */
  function WithPointer(under: Word, cursor: Cursor, image: CursorImage, x: int, y: int): Word
    requires image.Valid()
  {
    if !image.ready || !CursorRect(cursor, image).Contains(x, y) then under
    else
      var src := image.rows[y - (cursor.y - image.hotspotY)][x - (cursor.x - image.hotspotX)];
      if Alpha(src) == 0 then under
      else if Alpha(src) == 255 then src
      else image.blend(under, src, Alpha(src))
  }

  /** The pixel the screen should show: the scene with the pointer over it. */
  function Composed(scene: Word, cursor: Cursor, image: CursorImage, x: int, y: int): Word
    requires image.Valid()
  {
    Visible(WithPointer(scene, cursor, image, x, y))
  }

  /** What the screen has where the scene has `under`: off the pointer image the scene's colour; on it, at the offset
      from the hotspot, the image's colour where the image is opaque, the scene's where it is transparent, and their
      blend in between. */
  ghost predicate Over(under: Word, cursor: Cursor, image: CursorImage, x: int, y: int, word: Word)
    requires image.Valid()
  {
    var column, row := x - cursor.x + image.hotspotX, y - cursor.y + image.hotspotY;
    if image.ready && 0 <= column < image.width && 0 <= row < image.height then
      var pixel := image.rows[row][column];
      var alpha := pixel / 0x100_0000;
      (alpha == 0 ==> word == under % 0x100_0000) && (alpha == 255 ==> word == pixel % 0x100_0000) &&
      (0 < alpha < 255 ==> word == image.blend(under, pixel, alpha) % 0x100_0000)
    else word == under % 0x100_0000
  }

  lemma ComposedIsOver(under: Word, cursor: Cursor, image: CursorImage, x: int, y: int)
    requires image.Valid()
    ensures Over(under, cursor, image, x, y, Composed(under, cursor, image, x, y))
  {
  }

  /** A memory-mapped pixel buffer: `pitch` words a row, of which `width` are shown. */
  class PixelBuffer {
    const width: nat
    const height: nat
    const pitch: nat
    const pixels: array<Word>

    constructor (width: nat, height: nat, pitch: nat)
      requires width <= pitch
      ensures this.width == width && this.height == height && this.pitch == pitch
      ensures Valid() && fresh(pixels)
    {
      this.width, this.height, this.pitch := width, height, pitch;
      pixels := new Word[height * pitch];
    }

    predicate Valid() {
      width <= pitch && pixels.Length == height * pitch
    }

    predicate In(x: int, y: int) {
      0 <= x < width && 0 <= y < height
    }

    lemma IndexInside(x: int, y: int)
      requires Valid() && In(x, y)
      ensures 0 <= y * pitch + x < pixels.Length
    {
      assert y * pitch + pitch == (y + 1) * pitch <= height * pitch;
    }

    function At(x: int, y: int): Word
      requires Valid() && In(x, y)
      reads pixels
    {
      IndexInside(x, y);
      pixels[y * pitch + x]
    }

    ghost function ToPicture(): (p: Picture)
      requires Valid()
      reads pixels
      ensures |p| == height && forall y :: 0 <= y < height ==> |p[y]| == width
      ensures forall x, y :: In(x, y) ==> p[y][x] == At(x, y)
    {
      seq(height, y requires 0 <= y < height reads pixels =>
        seq(width, x requires 0 <= x < width reads pixels => At(x, y)))
    }

    /** Different pixels are different words. */
    lemma IndexInjective(x: int, y: int, x': int, y': int)
      requires Valid() && In(x, y) && In(x', y')
      requires x != x' || y != y'
      ensures y * pitch + x != y' * pitch + x'
    {
      if y < y' {
        assert y * pitch + pitch == (y + 1) * pitch <= y' * pitch;
      } else if y' < y {
        assert y' * pitch + pitch == (y' + 1) * pitch <= y * pitch;
      }
    }

    method Set(x: int, y: int, value: Word)
      requires Valid() && In(x, y)
      modifies pixels
      ensures forall px, py :: In(px, py) ==>
                At(px, py) == if px == x && py == y then value else old(At(px, py))
      ensures forall k :: 0 <= k < pixels.Length && k != y * pitch + x ==> pixels[k] == old(pixels[k])
    {
      IndexInside(x, y);
      pixels[y * pitch + x] := value;
      forall px, py | In(px, py) && (px != x || py != y)
        ensures At(px, py) == old(At(px, py))
      {
        IndexInjective(px, py, x, y);
      }
    }
  }

  /** One row of scene pixels into the framebuffer: four words at a time, then the rest. */
  method PresentTexelRow(source: PixelBuffer, target: PixelBuffer, x: int, y: int, count: nat)
    requires source.Valid() && target.Valid() && source.pixels != target.pixels
    requires 0 <= x && x + count <= source.width && x + count <= target.width
    requires 0 <= y < source.height && y < target.height
    modifies target.pixels
    ensures forall px, py :: target.In(px, py) ==>
              target.At(px, py) == if py == y && x <= px < x + count then Visible(source.At(px, py))
                                   else old(target.At(px, py))
    ensures var start := y * target.pitch + x;
            forall k :: 0 <= k < target.pixels.Length && !(start <= k < start + count) ==>
              target.pixels[k] == old(target.pixels[k])
  {
    ghost var start := y * target.pitch + x;
    var index := 0;
    while index + 4 <= count
      invariant 0 <= index <= count
      invariant forall px, py :: target.In(px, py) ==>
                  target.At(px, py) == if py == y && x <= px < x + index then Visible(source.At(px, py))
                                       else old(target.At(px, py))
      invariant forall k :: 0 <= k < target.pixels.Length && !(start <= k < start + index) ==>
                  target.pixels[k] == old(target.pixels[k])
    {
      for lane := 0 to 4
        invariant forall px, py :: target.In(px, py) ==>
                    target.At(px, py) == if py == y && x <= px < x + index + lane then Visible(source.At(px, py))
                                         else old(target.At(px, py))
        invariant forall k :: 0 <= k < target.pixels.Length && !(start <= k < start + index + lane) ==>
                    target.pixels[k] == old(target.pixels[k])
      {
        var word := source.At(x + index + lane, y);
        target.Set(x + index + lane, y, Visible(word));
      }
      index := index + 4;
    }
    while index < count
      invariant 0 <= index <= count
      invariant forall px, py :: target.In(px, py) ==>
                  target.At(px, py) == if py == y && x <= px < x + index then Visible(source.At(px, py))
                                       else old(target.At(px, py))
      invariant forall k :: 0 <= k < target.pixels.Length && !(start <= k < start + index) ==>
                  target.pixels[k] == old(target.pixels[k])
    {
      var word := source.At(x + index, y);
      target.Set(x + index, y, Visible(word));
      index := index + 1;
    }
  }

  /** Copies the part of `rect` that both buffers have. */
  method PresentRectToFramebuffer(source: PixelBuffer, target: PixelBuffer, rect: Rect)
    requires source.Valid() && target.Valid() && source.pixels != target.pixels
    modifies target.pixels
    ensures forall x, y :: target.In(x, y) ==>
              target.At(x, y) == if source.In(x, y) && rect.Contains(x, y) then Visible(source.At(x, y))
                                 else old(target.At(x, y))
  {
    var clipped := ClampRect(rect, Min(source.width, target.width), Min(source.height, target.height));
    if clipped.Empty() {
      EmptyHoldsNothing(clipped);
      return;
    }
    assert clipped.Contains(clipped.x, clipped.y);
    assert clipped.Contains(clipped.Right() - 1, clipped.Bottom() - 1);
    for row := 0 to clipped.height
      invariant forall x, y :: target.In(x, y) ==>
                  target.At(x, y) == if clipped.Contains(x, y) && y < clipped.y + row then Visible(source.At(x, y))
                                     else old(target.At(x, y))
    {
      PresentTexelRow(source, target, clipped.x, clipped.y + row, clipped.width);
    }
  }

  method PresentToFramebuffer(source: PixelBuffer, target: PixelBuffer)
    requires source.Valid() && target.Valid() && source.pixels != target.pixels
    modifies target.pixels
    ensures forall x, y :: target.In(x, y) ==>
              target.At(x, y) == if source.In(x, y) then Visible(source.At(x, y)) else old(target.At(x, y))
  {
    var copyWidth := Min(source.width, target.width);
    var copyHeight := Min(source.height, target.height);
    for row := 0 to copyHeight
      invariant forall x, y :: target.In(x, y) ==>
                  target.At(x, y) == if x < copyWidth && y < row then Visible(source.At(x, y))
                                     else old(target.At(x, y))
    {
      PresentTexelRow(source, target, 0, row, copyWidth);
    }
  }

  /** The rectangle a pointer move repaints. */
  function MoveDirt(oldCursor: Cursor, newCursor: Cursor, image: CursorImage, width: nat, height: nat): Rect {
    ClampRect(CursorRect(oldCursor, image).Unite(CursorRect(newCursor, image)), width, height)
  }

  /** Composes scene and pointer again in the hull of both pointer rectangles. */
  method PresentCursorMove(scene: PixelBuffer, fb: PixelBuffer, oldCursor: Cursor, newCursor: Cursor,
                           image: CursorImage)
    requires scene.Valid() && fb.Valid() && image.Valid() && scene.pixels != fb.pixels
    requires fb.width <= scene.width && fb.height <= scene.height
    modifies fb.pixels
    ensures forall x, y :: fb.In(x, y) ==>
              fb.At(x, y) == if MoveDirt(oldCursor, newCursor, image, fb.width, fb.height).Contains(x, y)
                             then Composed(scene.At(x, y), newCursor, image, x, y)
                             else old(fb.At(x, y))
  {
    var dirty := MoveDirt(oldCursor, newCursor, image, fb.width, fb.height);
    if dirty.Empty() {
      EmptyHoldsNothing(dirty);
      return;
    }
    assert dirty.Contains(dirty.x, dirty.y);
    assert dirty.Contains(dirty.Right() - 1, dirty.Bottom() - 1);
    for row := 0 to dirty.height
      invariant forall x, y :: fb.In(x, y) ==>
                  fb.At(x, y) == if dirty.Contains(x, y) && y < dirty.y + row
                                 then Composed(scene.At(x, y), newCursor, image, x, y)
                                 else old(fb.At(x, y))
    {
      for column := 0 to dirty.width
        invariant forall x, y :: fb.In(x, y) ==>
                    fb.At(x, y) == if dirty.Contains(x, y) &&
                      (y < dirty.y + row || (y == dirty.y + row && x < dirty.x + column))
                                   then Composed(scene.At(x, y), newCursor, image, x, y)
                                   else old(fb.At(x, y))
      {
        var drawX, drawY := dirty.x + column, dirty.y + row;
        var color: Word := scene.At(drawX, drawY);
        var localX := drawX - (newCursor.x - image.hotspotX);
        var localY := drawY - (newCursor.y - image.hotspotY);
        if image.ready && localX >= 0 && localY >= 0 && localX < image.width && localY < image.height {
          var src: Word := image.rows[localY][localX];
          if Alpha(src) != 0 {
            color := if Alpha(src) == 255 then src else image.blend(color, src, Alpha(src));
          }
        }
        fb.Set(drawX, drawY, Visible(color));
      }
    }
  }

  ghost predicate IsPicture(p: Picture, width: nat, height: nat) {
    |p| == height && forall y :: 0 <= y < height ==> |p[y]| == width
  }

  /** The buffer shows `picture` with the pointer at `cursor`, at every pixel. */
  ghost predicate Shows(fb: PixelBuffer, picture: Picture, cursor: Cursor, image: CursorImage)
    requires fb.Valid() && image.Valid()
    requires |picture| == fb.height && forall y :: 0 <= y < fb.height ==> |picture[y]| == fb.width
    reads fb.pixels
  {
    forall x, y :: fb.In(x, y) ==> fb.At(x, y) == Composed(picture[y][x], cursor, image, x, y)
  }
}
