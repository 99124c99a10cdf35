/** The blurred wallpaper under the taskbar (graphics-compositor/src/background.cpp): three box blurs by
    running sums, on a part of the wallpaper just large enough, against the clamped-window average of the
    whole wallpaper applied three times. */
module Blur {
  import opened Geometry
  import opened Presentation
  import opened Taskbar
  import opened Wrappers
  import Scene

  const RADIUS := 10
  const SPAN := 2 * RADIUS + 1
  const PASSES := 3
  const REACH := PASSES * RADIUS

  // ---- the simple form -----------------------------------------------------------------------

  datatype Channel = Blue | Green | Red

  function ChannelOf(w: Word, c: Channel): (v: nat)
    ensures v <= 255
  {
    match c
    case Blue => w % 0x100
    case Green => w / 0x100 % 0x100
    case Red => w / 0x1_0000 % 0x100
  }

  /** An opaque pixel of three channels. */
  function Pack(blue: nat, green: nat, red: nat): Word
    requires blue <= 255 && green <= 255 && red <= 255
  {
    0xFF00_0000 + blue + green * 0x100 + red * 0x1_0000
  }

  lemma PackedChannels(blue: nat, green: nat, red: nat)
    requires blue <= 255 && green <= 255 && red <= 255
    ensures ChannelOf(Pack(blue, green, red), Blue) == blue
    ensures ChannelOf(Pack(blue, green, red), Green) == green
    ensures ChannelOf(Pack(blue, green, red), Red) == red
  {
    assert Pack(blue, green, red) / 0x100 == 0xFF_0000 + green + red * 0x100;
    assert Pack(blue, green, red) / 0x1_0000 == 0xFF00 + red;
  }

  function Clamped(k: int, length: nat): nat
    requires length > 0
  {
    if k < 0 then 0 else if k >= length then length - 1 else k
  }

  /** The channel's sum over the positions lo..hi, the line's ends repeated beyond it. */
  function Sum(line: seq<Word>, c: Channel, lo: int, hi: int): int
    requires |line| > 0
    decreases hi - lo
  {
    if lo >= hi then 0 else Sum(line, c, lo, hi - 1) + ChannelOf(line[Clamped(hi - 1, |line|)], c)
  }

  lemma {:induction false} SumBound(line: seq<Word>, c: Channel, lo: int, hi: int)
    requires |line| > 0 && lo <= hi
    ensures 0 <= Sum(line, c, lo, hi) <= 255 * (hi - lo)
    decreases hi - lo
  {
    if lo < hi {
      SumBound(line, c, lo, hi - 1);
    }
  }

  /** The average over the window of 2r+1 positions around i. */
  function Average(line: seq<Word>, c: Channel, i: int): (v: nat)
    requires |line| > 0
    ensures v <= 255
  {
    SumBound(line, c, i - RADIUS, i + RADIUS + 1);
    Sum(line, c, i - RADIUS, i + RADIUS + 1) / SPAN
  }

  function BoxAt(line: seq<Word>, i: int): Word
    requires |line| > 0
  {
    Pack(Average(line, Blue, i), Average(line, Green, i), Average(line, Red, i))
  }

  ghost function Column(image: Picture, width: nat, height: nat, x: nat): (column: seq<Word>)
    requires IsPicture(image, width, height) && x < width
    ensures |column| == height && forall y :: 0 <= y < height ==> column[y] == image[y][x]
  {
    seq(height, y requires 0 <= y < height => image[y][x])
  }

  ghost function RowPass(image: Picture, width: nat, height: nat): (r: Picture)
    requires IsPicture(image, width, height)
    ensures IsPicture(r, width, height)
    ensures forall x, y :: 0 <= x < width && 0 <= y < height ==> r[y][x] == BoxAt(image[y], x)
  {
    seq(height, y requires 0 <= y < height => seq(width, x requires 0 <= x < width => BoxAt(image[y], x)))
  }

  ghost function ColumnPass(image: Picture, width: nat, height: nat): (r: Picture)
    requires IsPicture(image, width, height)
    ensures IsPicture(r, width, height)
    ensures forall x, y :: 0 <= x < width && 0 <= y < height ==> r[y][x] == BoxAt(Column(image, width, height, x), y)
  {
    seq(height, y requires 0 <= y < height =>
      seq(width, x requires 0 <= x < width => BoxAt(Column(image, width, height, x), y)))
  }

  /** `passes` box blurs, each along the rows and then along the columns. */
  ghost function Blurred(image: Picture, width: nat, height: nat, passes: nat): (r: Picture)
    requires IsPicture(image, width, height)
    ensures IsPicture(r, width, height)
  {
    if passes == 0 then image
    else ColumnPass(RowPass(Blurred(image, width, height, passes - 1), width, height), width, height)
  }

  // ---- what averaging keeps ------------------------------------------------------------------

  /** A word is its channels, a byte each from blue up, below its alpha byte. */
  lemma ChannelsMakeWord(w: Word)
    ensures w % 0x100_0000 == ChannelOf(w, Blue) + 0x100 * ChannelOf(w, Green) + 0x1_0000 * ChannelOf(w, Red)
  {
    assert w / 0x1_0000 == w / 0x100 / 0x100 && w / 0x100_0000 == w / 0x1_0000 / 0x100;
  }

  lemma PackedIsOpaque(blue: nat, green: nat, red: nat)
    requires blue <= 255 && green <= 255 && red <= 255
    ensures Pack(blue, green, red) / 0x100_0000 == 255
  {
  }

  /** Each channel of an averaged pixel is the mean of that channel over the twenty-one positions around it,
      rounded down, where the line's ends are repeated beyond it; and the pixel is opaque. */
  lemma BoxIsTheMean(line: seq<Word>, i: int, c: Channel)
    requires |line| > 0
    ensures BoxAt(line, i) / 0x100_0000 == 255
    ensures var at := j => ChannelOf(line[if i + j < 0 then 0 else if i + j >= |line| then |line| - 1 else i + j], c);
            ChannelOf(BoxAt(line, i), c) ==
            (at(-10) + at(-9) + at(-8) + at(-7) + at(-6) + at(-5) + at(-4) + at(-3) + at(-2) + at(-1) + at(0) +
             at(1) + at(2) + at(3) + at(4) + at(5) + at(6) + at(7) + at(8) + at(9) + at(10)) / 21
  {
    hide BoxAt, ChannelOf, Sum;
    BoxChannel(line, i, c);
    ManyTerms(line, c, i);
  }

  lemma BoxChannel(line: seq<Word>, i: int, c: Channel)
    requires |line| > 0
    ensures BoxAt(line, i) / 0x100_0000 == 255 && ChannelOf(BoxAt(line, i), c) == Average(line, c, i)
  {
    hide Average, ChannelOf, Pack;
    var blue, green, red := Average(line, Blue, i), Average(line, Green, i), Average(line, Red, i);
    PackedChannels(blue, green, red);
    PackedIsOpaque(blue, green, red);
  }

  lemma ManyTerms(line: seq<Word>, c: Channel, i: int)
    requires |line| > 0
    ensures var at := j => ChannelOf(line[if i + j < 0 then 0 else if i + j >= |line| then |line| - 1 else i + j], c);
            Sum(line, c, i - 10, i + 11) ==
            at(-10) + at(-9) + at(-8) + at(-7) + at(-6) + at(-5) + at(-4) + at(-3) + at(-2) + at(-1) + at(0) +
            at(1) + at(2) + at(3) + at(4) + at(5) + at(6) + at(7) + at(8) + at(9) + at(10)
  {
    hide ChannelOf;
    ThreeMore(line, c, i, -10);
    ThreeMore(line, c, i, -7);
    ThreeMore(line, c, i, -4);
    ThreeMore(line, c, i, -1);
    ThreeMore(line, c, i, 2);
    ThreeMore(line, c, i, 5);
    ThreeMore(line, c, i, 8);
  }

  lemma ThreeMore(line: seq<Word>, c: Channel, i: int, j: int)
    requires |line| > 0 && -10 <= j
    ensures var at := j => ChannelOf(line[if i + j < 0 then 0 else if i + j >= |line| then |line| - 1 else i + j], c);
            Sum(line, c, i - 10, i + j + 3) == Sum(line, c, i - 10, i + j) + at(j) + at(j + 1) + at(j + 2) &&
            Sum(line, c, i - 10, i - 10) == 0
  {
    hide ChannelOf;
    assert Sum(line, c, i - 10, i + j + 2) == Sum(line, c, i - 10, i + j + 1) + ChannelOf(line[Clamped(i + j + 1,
           |line|)], c);
  }

  /** The channel lies in this range all over a line, or all over a picture. */
  ghost predicate LineWithin(line: seq<Word>, c: Channel, least: int, greatest: int) {
    forall k :: 0 <= k < |line| ==> least <= ChannelOf(line[k], c) <= greatest
  }

  ghost predicate Within(image: Picture, width: nat, height: nat, c: Channel, least: int, greatest: int)
    requires IsPicture(image, width, height)
  {
    forall x, y :: 0 <= x < width && 0 <= y < height ==> least <= ChannelOf(image[y][x], c) <= greatest
  }

  lemma {:induction false} SumWithin(line: seq<Word>, c: Channel, least: int, greatest: int, lo: int, hi: int)
    requires |line| > 0 && lo <= hi && LineWithin(line, c, least, greatest)
    ensures least * (hi - lo) <= Sum(line, c, lo, hi) <= greatest * (hi - lo)
    decreases hi - lo
  {
    hide ChannelOf;
    if lo < hi {
      SumWithin(line, c, least, greatest, lo, hi - 1);
      assert least * (hi - lo) == least * (hi - 1 - lo) + least;
      assert greatest * (hi - lo) == greatest * (hi - 1 - lo) + greatest;
    }
  }

  lemma BoxWithin(line: seq<Word>, c: Channel, least: int, greatest: int, i: int)
    requires |line| > 0 && LineWithin(line, c, least, greatest)
    ensures least <= ChannelOf(BoxAt(line, i), c) <= greatest
  {
    hide BoxAt, ChannelOf, LineWithin, Sum;
    BoxChannel(line, i, c);
    SumWithin(line, c, least, greatest, i - RADIUS, i + RADIUS + 1);
  }

  /** Averaging leaves a channel between its least and its greatest value, over any number of passes. */
  lemma {:induction false} BlurStaysWithin(image: Picture, width: nat, height: nat, passes: nat, c: Channel, least: int,
                                           greatest: int)
    requires IsPicture(image, width, height) && Within(image, width, height, c, least, greatest)
    ensures Within(Blurred(image, width, height, passes), width, height, c, least, greatest)
    decreases passes
  {
    hide ChannelOf, BoxAt;
    if passes > 0 {
      var before := Blurred(image, width, height, passes - 1);
      BlurStaysWithin(image, width, height, passes - 1, c, least, greatest);
      var rows := RowPass(before, width, height);
      forall x, y | 0 <= x < width && 0 <= y < height ensures least <= ChannelOf(rows[y][x], c) <= greatest {
        BoxWithin(before[y], c, least, greatest, x);
      }
      forall x, y | 0 <= x < width && 0 <= y < height
        ensures least <= ChannelOf(ColumnPass(rows, width, height)[y][x], c) <= greatest
      {
        BoxWithin(Column(rows, width, height, x), c, least, greatest, y);
      }
    }
  }

  /** Two pictures that agree in a channel. */
  ghost predicate SameChannel(a: Picture, b: Picture, width: nat, height: nat, c: Channel)
    requires IsPicture(a, width, height) && IsPicture(b, width, height)
  {
    forall x, y :: 0 <= x < width && 0 <= y < height ==> ChannelOf(a[y][x], c) == ChannelOf(b[y][x], c)
  }

  lemma {:induction false} SumOfChannel(a: seq<Word>, b: seq<Word>, c: Channel, lo: int, hi: int)
    requires |a| == |b| > 0 && forall k :: 0 <= k < |a| ==> ChannelOf(a[k], c) == ChannelOf(b[k], c)
    ensures Sum(a, c, lo, hi) == Sum(b, c, lo, hi)
    decreases hi - lo
  {
    hide ChannelOf;
    if lo < hi {
      SumOfChannel(a, b, c, lo, hi - 1);
    }
  }

  lemma BoxOfChannel(a: seq<Word>, b: seq<Word>, c: Channel, i: int)
    requires |a| == |b| > 0 && forall k :: 0 <= k < |a| ==> ChannelOf(a[k], c) == ChannelOf(b[k], c)
    ensures ChannelOf(BoxAt(a, i), c) == ChannelOf(BoxAt(b, i), c)
  {
    hide BoxAt, ChannelOf;
    BoxChannel(a, i, c);
    BoxChannel(b, i, c);
    SumOfChannel(a, b, c, i - RADIUS, i + RADIUS + 1);
  }

  /** A channel of the result depends on that channel of the picture alone. */
  lemma {:induction false} BlurByChannel(a: Picture, b: Picture, width: nat, height: nat, passes: nat, c: Channel)
    requires IsPicture(a, width, height) && IsPicture(b, width, height) && SameChannel(a, b, width, height, c)
    ensures SameChannel(Blurred(a, width, height, passes), Blurred(b, width, height, passes), width, height, c)
    decreases passes
  {
    hide ChannelOf, BoxAt;
    if passes > 0 {
      BlurByChannel(a, b, width, height, passes - 1, c);
      var a0, b0 := Blurred(a, width, height, passes - 1), Blurred(b, width, height, passes - 1);
      var a1, b1 := RowPass(a0, width, height), RowPass(b0, width, height);
      forall x, y | 0 <= x < width && 0 <= y < height ensures ChannelOf(a1[y][x], c) == ChannelOf(b1[y][x], c) {
        BoxOfChannel(a0[y], b0[y], c, x);
      }
      forall x, y | 0 <= x < width && 0 <= y < height
        ensures ChannelOf(ColumnPass(a1, width, height)[y][x], c) == ChannelOf(ColumnPass(b1, width, height)[y][x], c)
      {
        BoxOfChannel(Column(a1, width, height, x), Column(b1, width, height, x), c, y);
      }
    }
  }

  /** Whatever the picture's alpha bytes were, the result is opaque. */
  lemma BlurIsOpaque(image: Picture, width: nat, height: nat, passes: nat, x: nat, y: nat)
    requires IsPicture(image, width, height) && passes > 0 && x < width && y < height
    ensures Blurred(image, width, height, passes)[y][x] / 0x100_0000 == 255
  {
    var rows := RowPass(Blurred(image, width, height, passes - 1), width, height);
    BoxIsTheMean(Column(rows, width, height, x), y, Blue);
  }

  /** A picture of one opaque colour is its own blur. */
  lemma UniformStays(image: Picture, width: nat, height: nat, passes: nat, w: Word, x: nat, y: nat)
    requires IsPicture(image, width, height) && w / 0x100_0000 == 255 && x < width && y < height
    requires forall x, y :: 0 <= x < width && 0 <= y < height ==> image[y][x] == w
    ensures Blurred(image, width, height, passes)[y][x] == w
  {
    if passes > 0 {
      var blurred := Blurred(image, width, height, passes)[y][x];
      BlurStaysWithin(image, width, height, passes, Blue, ChannelOf(w, Blue), ChannelOf(w, Blue));
      BlurStaysWithin(image, width, height, passes, Green, ChannelOf(w, Green), ChannelOf(w, Green));
      BlurStaysWithin(image, width, height, passes, Red, ChannelOf(w, Red), ChannelOf(w, Red));
      hide Blurred, ChannelOf;
      BlurIsOpaque(image, width, height, passes, x, y);
      ChannelsMakeWord(w);
      ChannelsMakeWord(blurred);
    }
  }

  /** A pass averages every row first, and then every column of what that gives. */
  lemma PassIsRowsThenColumns(image: Picture, width: nat, height: nat, passes: nat, x: nat, y: nat, rows: Picture)
    requires IsPicture(image, width, height) && IsPicture(rows, width, height) && x < width && y < height
    requires forall i, j :: 0 <= i < width && 0 <= j < height ==>
               rows[j][i] == BoxAt(Blurred(image, width, height, passes)[j], i)
    ensures Blurred(image, width, height, 0) == image
    ensures Blurred(image, width, height, passes + 1)[y][x] == BoxAt(Column(rows, width, height, x), y)
  {
    hide BoxAt;
    SamePicture(rows, RowPass(Blurred(image, width, height, passes), width, height), width, height);
  }

  // ---- running sums --------------------------------------------------------------------------

  lemma {:induction false} SumDropFirst(line: seq<Word>, c: Channel, lo: int, hi: int)
    requires |line| > 0 && lo < hi
    ensures Sum(line, c, lo, hi) == ChannelOf(line[Clamped(lo, |line|)], c) + Sum(line, c, lo + 1, hi)
    decreases hi - lo
  {
    if lo + 1 < hi {
      SumDropFirst(line, c, lo, hi - 1);
    }
  }

  /** Moving the window one position on adds the word entering it and drops the word leaving it. */
  lemma WindowMoves(line: seq<Word>, c: Channel, i: int)
    requires |line| > 0
    ensures Sum(line, c, i + 1 - RADIUS, i + 1 + RADIUS + 1) ==
            Sum(line, c, i - RADIUS, i + RADIUS + 1)
            + ChannelOf(line[Clamped(i + RADIUS + 1, |line|)], c) - ChannelOf(line[Clamped(i - RADIUS, |line|)], c)
  {
    SumDropFirst(line, c, i - RADIUS, i + RADIUS + 2);
  }

  lemma Multiplied(a: int, b: int, n: nat)
    requires a <= b
    ensures a * n <= b * n
  {
    assert b * n - a * n == (b - a) * n;
  }

  lemma CellInside(row: int, rows: nat, column: int, columns: nat)
    requires 0 <= row < rows && 0 <= column < columns
    ensures 0 <= row * columns + column < rows * columns == columns * rows
  {
    assert row * columns + columns == (row + 1) * columns;
    Multiplied(0, row, columns);
    Multiplied(row + 1, rows, columns);
  }

  /** How a pass walks a buffer: along rows (step 1) or along columns (step the row's length). */
  datatype Walk = Walk(length: nat, lines: nat, step: nat, lineStep: nat) {
    predicate Valid() {
      length > 0 && lines > 0 && ((step == 1 && lineStep == length) || (lineStep == 1 && step == lines))
    }

    function Index(line: int, i: int): int { line * lineStep + i * step }

    lemma IndexInside(line: int, i: int)
      requires Valid() && 0 <= line < lines && 0 <= i < length
      ensures 0 <= Index(line, i) < lines * length
    {
      if step == 1 && lineStep == length {
        CellInside(line, lines, i, length);
      } else {
        CellInside(i, length, line, lines);
      }
    }

    lemma IndexInjective(line: int, i: int, line': int, i': int)
      requires Valid() && 0 <= line < lines && 0 <= i < length && 0 <= line' < lines && 0 <= i' < length
      requires line != line' || i != i'
      ensures Index(line, i) != Index(line', i')
    {
      if step == 1 && lineStep == length {
        ApartByMultiple(line, line', length, i, i');
      } else {
        ApartByMultiple(i, i', lines, line, line');
      }
    }
  }

  lemma ApartByMultiple(a: int, b: int, n: nat, r: int, s: int)
    requires 0 <= r < n && 0 <= s < n && (a != b || r != s)
    ensures a * n + r != b * n + s
  {
    if a < b {
      assert a * n + n == (a + 1) * n;
      Multiplied(a + 1, b, n);
    } else if b < a {
      assert b * n + n == (b + 1) * n;
      Multiplied(b + 1, a, n);
    }
  }

  ghost function LineOf(words: seq<Word>, walk: Walk, line: nat): (r: seq<Word>)
    requires walk.Valid() && line < walk.lines && |words| == walk.lines * walk.length
    ensures |r| == walk.length
  {
    seq(walk.length, i requires 0 <= i < walk.length => WordAt(words, walk, line, i))
  }

  function WordAt(words: seq<Word>, walk: Walk, line: nat, i: nat): Word
    requires walk.Valid() && line < walk.lines && i < walk.length && |words| == walk.lines * walk.length
  {
    walk.IndexInside(line, i);
    words[walk.Index(line, i)]
  }

  /** One line of a pass, by running sums of the three channels. */
  method BoxLine(from: array<Word>, to: array<Word>, walk: Walk, line: nat)
    requires walk.Valid() && line < walk.lines && from != to
    requires from.Length == walk.lines * walk.length && to.Length == walk.lines * walk.length
    modifies to
    ensures forall l: nat, i: nat :: l < walk.lines && i < walk.length ==>
              WordAt(to[..], walk, l, i) ==
              if l == line then BoxAt(LineOf(from[..], walk, line), i) else old(WordAt(to[..], walk, l, i))
  {
    ghost var words := LineOf(from[..], walk, line);
    var blue, green, red := SumFirst(from, walk, line);
    for i := 0 to walk.length
      invariant blue == Sum(words, Blue, i - RADIUS, i + RADIUS + 1)
      invariant green == Sum(words, Green, i - RADIUS, i + RADIUS + 1)
      invariant red == Sum(words, Red, i - RADIUS, i + RADIUS + 1)
      invariant forall l: nat, j: nat :: l < walk.lines && j < walk.length ==>
                  WordAt(to[..], walk, l, j) ==
                  if l == line && j < i then BoxAt(words, j) else old(WordAt(to[..], walk, l, j))
    {
      assert blue / SPAN == Average(words, Blue, i) && green / SPAN == Average(words, Green, i) &&
             red / SPAN == Average(words, Red, i);
      StoreWord(to, walk, line, i, Pack(blue / SPAN, green / SPAN, red / SPAN));
      blue, green, red := SlideWindow(from, walk, line, i, blue, green, red);
    }
  }

  /** The sums of the next window: one word enters and one leaves. */
  method SlideWindow(from: array<Word>, walk: Walk, line: nat, i: nat, blue0: int, green0: int, red0: int)
    returns (blue: int, green: int, red: int)
    requires walk.Valid() && line < walk.lines && i < walk.length && from.Length == walk.lines * walk.length
    requires var words := LineOf(from[..], walk, line);
             blue0 == Sum(words, Blue, i - RADIUS, i + RADIUS + 1) &&
             green0 == Sum(words, Green, i - RADIUS, i + RADIUS + 1) &&
             red0 == Sum(words, Red, i - RADIUS, i + RADIUS + 1)
    ensures var words := LineOf(from[..], walk, line);
            blue == Sum(words, Blue, i + 1 - RADIUS, i + 1 + RADIUS + 1) &&
            green == Sum(words, Green, i + 1 - RADIUS, i + 1 + RADIUS + 1) &&
            red == Sum(words, Red, i + 1 - RADIUS, i + 1 + RADIUS + 1)
  {
    ghost var words := LineOf(from[..], walk, line);
    var addAt := if i + RADIUS + 1 >= walk.length then walk.length - 1 else i + RADIUS + 1;
    var dropAt := if i - RADIUS < 0 then 0 else i - RADIUS;
    walk.IndexInside(line, addAt);
    walk.IndexInside(line, dropAt);
    var add, drop := from[walk.Index(line, addAt)], from[walk.Index(line, dropAt)];
    assert add == words[Clamped(i + RADIUS + 1, walk.length)] && drop == words[Clamped(i - RADIUS, walk.length)];
    WindowMoves(words, Blue, i);
    WindowMoves(words, Green, i);
    WindowMoves(words, Red, i);
    blue := blue0 + ChannelOf(add, Blue) - ChannelOf(drop, Blue);
    green := green0 + ChannelOf(add, Green) - ChannelOf(drop, Green);
    red := red0 + ChannelOf(add, Red) - ChannelOf(drop, Red);
  }

  /** The sums of the first window. */
  method SumFirst(from: array<Word>, walk: Walk, line: nat) returns (blue: int, green: int, red: int)
    requires walk.Valid() && line < walk.lines && from.Length == walk.lines * walk.length
    ensures blue == Sum(LineOf(from[..], walk, line), Blue, -RADIUS, RADIUS + 1)
    ensures green == Sum(LineOf(from[..], walk, line), Green, -RADIUS, RADIUS + 1)
    ensures red == Sum(LineOf(from[..], walk, line), Red, -RADIUS, RADIUS + 1)
  {
    ghost var words := LineOf(from[..], walk, line);
    blue, green, red := 0, 0, 0;
    for k := -RADIUS to RADIUS + 1
      invariant blue == Sum(words, Blue, -RADIUS, k)
      invariant green == Sum(words, Green, -RADIUS, k)
      invariant red == Sum(words, Red, -RADIUS, k)
    {
      var at := if k < 0 then 0 else if k >= walk.length then walk.length - 1 else k;
      walk.IndexInside(line, at);
      var word := from[walk.Index(line, at)];
      assert word == words[Clamped(k, walk.length)];
      blue := blue + ChannelOf(word, Blue);
      green := green + ChannelOf(word, Green);
      red := red + ChannelOf(word, Red);
    }
  }

  method StoreWord(to: array<Word>, walk: Walk, line: nat, i: nat, word: Word)
    requires walk.Valid() && line < walk.lines && i < walk.length && to.Length == walk.lines * walk.length
    modifies to
    ensures forall l: nat, j: nat :: l < walk.lines && j < walk.length ==>
              WordAt(to[..], walk, l, j) == if l == line && j == i then word else old(WordAt(to[..], walk, l, j))
  {
    walk.IndexInside(line, i);
    to[walk.Index(line, i)] := word;
    forall l: nat, j: nat | l < walk.lines && j < walk.length && (l != line || j != i)
      ensures WordAt(to[..], walk, l, j) == old(WordAt(to[..], walk, l, j))
    {
      walk.IndexInside(l, j);
      walk.IndexInjective(l, j, line, i);
    }
  }

  /** One pass along every line. */
  method Box(from: array<Word>, to: array<Word>, walk: Walk)
    requires walk.Valid() && from != to
    requires from.Length == walk.lines * walk.length && to.Length == walk.lines * walk.length
    modifies to
    ensures forall line: nat, i: nat :: line < walk.lines && i < walk.length ==>
              WordAt(to[..], walk, line, i) == BoxAt(LineOf(from[..], walk, line), i)
  {
    for line := 0 to walk.lines
      invariant forall l: nat, i: nat :: l < line && i < walk.length ==>
                  WordAt(to[..], walk, l, i) == BoxAt(LineOf(from[..], walk, l), i)
    {
      BoxLine(from, to, walk, line);
    }
  }

  // ---- passes over a picture -----------------------------------------------------------------

  /** A buffer of rows of `width` words, as a picture. */
  ghost function ImageOf(words: seq<Word>, width: nat, height: nat): (image: Picture)
    requires width > 0 && height > 0 && |words| == height * width
    ensures IsPicture(image, width, height)
    ensures forall x, y :: 0 <= x < width && 0 <= y < height ==>
            image[y][x] == WordAt(words, RowWalk(width, height), y, x)
  {
    seq(height, y requires 0 <= y < height =>
      seq(width, x requires 0 <= x < width => WordAt(words, RowWalk(width, height), y, x)))
  }

  function RowWalk(width: nat, height: nat): Walk { Walk(width, height, 1, width) }

  function ColumnWalk(width: nat, height: nat): Walk { Walk(height, width, width, 1) }

  /** The two walks meet the same word at a pixel. */
  lemma WalksMeet(words: seq<Word>, width: nat, height: nat, x: nat, y: nat)
    requires width > 0 && height > 0 && |words| == height * width == width * height && x < width && y < height
    ensures WordAt(words, ColumnWalk(width, height), x, y) == WordAt(words, RowWalk(width, height), y, x)
  {
  }

  method BoxRows(from: array<Word>, to: array<Word>, width: nat, height: nat)
    requires width > 0 && height > 0 && from != to && from.Length == to.Length == height * width
    modifies to
    ensures ImageOf(to[..], width, height) == RowPass(ImageOf(from[..], width, height), width, height)
  {
    var walk := RowWalk(width, height);
    Box(from, to, walk);
    ghost var image := ImageOf(from[..], width, height);
    forall y | 0 <= y < height
      ensures ImageOf(to[..], width, height)[y] == RowPass(image, width, height)[y]
    {
      assert LineOf(from[..], walk, y) == image[y];
    }
  }

  method BoxColumns(from: array<Word>, to: array<Word>, width: nat, height: nat)
    requires width > 0 && height > 0 && from != to && from.Length == to.Length == height * width
    modifies to
    ensures ImageOf(to[..], width, height) == ColumnPass(ImageOf(from[..], width, height), width, height)
  {
    var walk := ColumnWalk(width, height);
    assert height * width == width * height;
    Box(from, to, walk);
    ghost var image := ImageOf(from[..], width, height);
    forall x, y | 0 <= x < width && 0 <= y < height
      ensures ImageOf(to[..], width, height)[y][x] == ColumnPass(image, width, height)[y][x]
    {
      ColumnIsLine(from[..], width, height, x);
      WalksMeet(to[..], width, height, x, y);
    }
    SamePicture(ImageOf(to[..], width, height), ColumnPass(image, width, height), width, height);
  }

  lemma ColumnIsLine(words: seq<Word>, width: nat, height: nat, x: nat)
    requires width > 0 && height > 0 && |words| == height * width == width * height && x < width
    ensures LineOf(words, ColumnWalk(width, height), x) == Column(ImageOf(words, width, height), width, height, x)
  {
    forall y | 0 <= y < height
      ensures LineOf(words, ColumnWalk(width, height), x)[y] == ImageOf(words, width, height)[y][x]
    {
      WalksMeet(words, width, height, x, y);
    }
  }

  lemma SamePicture(a: Picture, b: Picture, width: nat, height: nat)
    requires IsPicture(a, width, height) && IsPicture(b, width, height)
    requires forall x, y :: 0 <= x < width && 0 <= y < height ==> a[y][x] == b[y][x]
    ensures a == b
  {
    forall y | 0 <= y < height ensures a[y] == b[y] {
    }
  }

  /** Three passes, back and forth between two buffers. */
  method BlurInPlace(work: array<Word>, temp: array<Word>, width: nat, height: nat)
    requires width > 0 && height > 0 && work != temp && work.Length == temp.Length == height * width
    modifies work, temp
    ensures ImageOf(work[..], width, height) == Blurred(old(ImageOf(work[..], width, height)), width, height, PASSES)
  {
    for pass := 0 to PASSES
      invariant ImageOf(work[..], width, height) == Blurred(old(ImageOf(work[..], width, height)), width, height, pass)
    {
      BoxRows(work, temp, width, height);
      BoxColumns(temp, work, width, height);
    }
  }

  // ---- a part of the wallpaper is enough -----------------------------------------------------

  lemma {:induction false} SumsAgree(full: seq<Word>, part: seq<Word>, off: int, c: Channel, lo: int, hi: int)
    requires |full| > 0 && |part| > 0
    requires forall k :: lo <= k < hi ==> full[Clamped(k, |full|)] == part[Clamped(k - off, |part|)]
    ensures Sum(full, c, lo, hi) == Sum(part, c, lo - off, hi - off)
    decreases hi - lo
  {
    if lo < hi {
      SumsAgree(full, part, off, c, lo, hi - 1);
    }
  }

  /** Along one line: `part` is the positions of `full` around the stretch [b0, b1), widened by `reach`
      and cut to the line. */
  ghost predicate IsCut(full: seq<Word>, part: seq<Word>, b0: int, b1: int, reach: nat) {
    |full| > 0 && b0 < b1 && |part| == CutEnd(|full|, b1, reach) - CutStart(b0, reach) > 0
  }

  function CutStart(b0: int, reach: int): int { Max(0, b0 - reach) }

  function CutEnd(length: nat, b1: int, reach: int): int { Min(length, b1 + reach) }

  /** They agree on the stretch widened by k. */
  ghost predicate AgreeAround(full: seq<Word>, part: seq<Word>, b0: int, b1: int, reach: nat, k: int)
    requires IsCut(full, part, b0, b1, reach) && k <= reach
  {
    forall j :: CutStart(b0, k) <= j < CutEnd(|full|, b1, k) ==> full[j] == part[j - CutStart(b0, reach)]
  }

  /** A word in the window of such a place, the line's ends repeated, is the same in both. */
  lemma SameInWindow(full: seq<Word>, part: seq<Word>, b0: int, b1: int, reach: nat, k: nat, i: int, j: int)
    requires IsCut(full, part, b0, b1, reach) && RADIUS <= k <= reach && AgreeAround(full, part, b0, b1, reach, k)
    requires CutStart(b0, k - RADIUS) <= i < CutEnd(|full|, b1, k - RADIUS) && i - RADIUS <= j <= i + RADIUS
    requires |full| > 0 && |part| > 0
    ensures 0 <= Clamped(j, |full|) < |full| && 0 <= Clamped(j - CutStart(b0, reach), |part|) < |part|
    ensures full[Clamped(j, |full|)] == part[Clamped(j - CutStart(b0, reach), |part|)]
  {
    var at := Clamped(j, |full|);
    assert CutStart(b0, k) <= at < CutEnd(|full|, b1, k);
    assert Clamped(j - CutStart(b0, reach), |part|) == at - CutStart(b0, reach);
  }

  /** Where they agree widened by k, their box averages agree widened by k - r: a cut inside the line is
      further away than the window reaches, and a cut at the line's end repeats the same end. */
  lemma BoxOfCut(full: seq<Word>, part: seq<Word>, b0: int, b1: int, reach: nat, k: nat, i: int)
    requires IsCut(full, part, b0, b1, reach) && RADIUS <= k <= reach && AgreeAround(full, part, b0, b1, reach, k)
    requires CutStart(b0, k - RADIUS) <= i < CutEnd(|full|, b1, k - RADIUS)
    ensures BoxAt(full, i) == BoxAt(part, i - CutStart(b0, reach))
  {
    hide AgreeAround, Sum;
    var off := CutStart(b0, reach);
    forall j | i - RADIUS <= j < i + RADIUS + 1
      ensures full[Clamped(j, |full|)] == part[Clamped(j - off, |part|)]
    {
      SameInWindow(full, part, b0, b1, reach, k, i, j);
    }
    SumsAgree(full, part, off, Blue, i - RADIUS, i + RADIUS + 1);
    SumsAgree(full, part, off, Green, i - RADIUS, i + RADIUS + 1);
    SumsAgree(full, part, off, Red, i - RADIUS, i + RADIUS + 1);
  }

  /** The bar widened by three radii and cut to the screen. */
  function SourceRect(bar: Rect, width: nat, height: nat): Rect {
    Rect(bar.x - REACH, bar.y - REACH, bar.width + 2 * REACH,
      bar.height + 2 * REACH).Intersect(Rect(0, 0, width, height))
  }

  /** Where a part of the wallpaper begins and how large it is, given what it is cut around. */
  ghost predicate IsSource(s: Rect, width: nat, height: nat, bar: Rect) {
    bar.width > 0 && bar.height > 0 && s.width > 0 && s.height > 0 &&
    s.x == CutStart(bar.x, REACH) && s.width == CutEnd(width, bar.x + bar.width, REACH) - s.x &&
    s.y == CutStart(bar.y, REACH) && s.height == CutEnd(height, bar.y + bar.height, REACH) - s.y
  }

  /** On the bar widened by kx and ky, cut to the screen. */
  ghost predicate Near(width: nat, height: nat, bar: Rect, kx: int, ky: int, x: int, y: int) {
    CutStart(bar.x, kx) <= x < CutEnd(width, bar.x + bar.width, kx) &&
    CutStart(bar.y, ky) <= y < CutEnd(height, bar.y + bar.height, ky)
  }

  /** The two pictures agree there. */
  ghost predicate Agree(full: Picture, part: Picture, width: nat, height: nat, bar: Rect, s: Rect, kx: int, ky: int)
    requires IsSource(s, width, height, bar) && IsPicture(full, width, height) && IsPicture(part, s.width, s.height)
    requires kx <= REACH && ky <= REACH
  {
    forall x, y :: Near(width, height, bar, kx, ky, x, y) ==> full[y][x] == part[y - s.y][x - s.x]
  }

  lemma RowsKeepAgreement(full: Picture, part: Picture, width: nat, height: nat, bar: Rect, s: Rect, kx: int, ky: int,
                          x: int, y: int)
    requires IsSource(s, width, height, bar) && IsPicture(full, width, height) && IsPicture(part, s.width, s.height)
    requires RADIUS <= kx <= REACH && ky <= REACH && Agree(full, part, width, height, bar, s, kx, ky)
    requires Near(width, height, bar, kx - RADIUS, ky, x, y)
    ensures BoxAt(full[y], x) == BoxAt(part[y - s.y], x - s.x)
  {
    var row, cut := full[y], part[y - s.y];
    forall j | CutStart(bar.x, kx) <= j < CutEnd(width, bar.x + bar.width, kx)
      ensures row[j] == cut[j - s.x]
    {
      assert Near(width, height, bar, kx, ky, j, y);
    }
    BoxOfCut(row, cut, bar.x, bar.x + bar.width, REACH, kx, x);
  }

  lemma ColumnsKeepAgreement(full: Picture, part: Picture, width: nat, height: nat, bar: Rect, s: Rect, kx: int,
                             ky: int, x: int, y: int)
    requires IsSource(s, width, height, bar) && IsPicture(full, width, height) && IsPicture(part, s.width, s.height)
    requires kx <= REACH && RADIUS <= ky <= REACH && Agree(full, part, width, height, bar, s, kx, ky)
    requires Near(width, height, bar, kx, ky - RADIUS, x, y)
    ensures BoxAt(Column(full, width, height, x), y) == BoxAt(Column(part, s.width, s.height, x - s.x), y - s.y)
  {
    var column, cut := Column(full, width, height, x), Column(part, s.width, s.height, x - s.x);
    forall j | CutStart(bar.y, ky) <= j < CutEnd(height, bar.y + bar.height, ky)
      ensures column[j] == cut[j - s.y]
    {
      assert Near(width, height, bar, kx, ky, x, j);
    }
    BoxOfCut(column, cut, bar.y, bar.y + bar.height, REACH, ky, y);
  }

  lemma RowPassAgrees(full: Picture, part: Picture, width: nat, height: nat, bar: Rect, s: Rect, kx: int, ky: int)
    requires IsSource(s, width, height, bar) && IsPicture(full, width, height) && IsPicture(part, s.width, s.height)
    requires RADIUS <= kx <= REACH && ky <= REACH && Agree(full, part, width, height, bar, s, kx, ky)
    ensures Agree(RowPass(full, width, height), RowPass(part, s.width, s.height), width, height, bar, s, kx - RADIUS,
            ky)
  {
    hide BoxAt;
    forall x, y | Near(width, height, bar, kx - RADIUS, ky, x, y)
      ensures RowPass(full, width, height)[y][x] == RowPass(part, s.width, s.height)[y - s.y][x - s.x]
    {
      RowsKeepAgreement(full, part, width, height, bar, s, kx, ky, x, y);
    }
  }

  lemma ColumnPassAgrees(full: Picture, part: Picture, width: nat, height: nat, bar: Rect, s: Rect, kx: int, ky: int)
    requires IsSource(s, width, height, bar) && IsPicture(full, width, height) && IsPicture(part, s.width, s.height)
    requires kx <= REACH && RADIUS <= ky <= REACH && Agree(full, part, width, height, bar, s, kx, ky)
    ensures Agree(ColumnPass(full, width, height), ColumnPass(part, s.width, s.height), width, height, bar, s, kx,
            ky - RADIUS)
  {
    hide BoxAt;
    forall x, y | Near(width, height, bar, kx, ky - RADIUS, x, y)
      ensures ColumnPass(full, width, height)[y][x] == ColumnPass(part, s.width, s.height)[y - s.y][x - s.x]
    {
      ColumnsKeepAgreement(full, part, width, height, bar, s, kx, ky, x, y);
    }
  }

  /** One pass over the part agrees with the same pass over the whole on a stretch one radius smaller. */
  lemma PassKeepsAgreement(full: Picture, part: Picture, width: nat, height: nat, bar: Rect, s: Rect, k: int)
    requires IsSource(s, width, height, bar) && IsPicture(full, width, height) && IsPicture(part, s.width, s.height)
    requires RADIUS <= k <= REACH && Agree(full, part, width, height, bar, s, k, k)
    ensures Agree(ColumnPass(RowPass(full, width, height), width, height),
                  ColumnPass(RowPass(part, s.width, s.height), s.width, s.height), width, height, bar, s, k - RADIUS,
                    k - RADIUS)
  {
    hide Agree, RowPass, ColumnPass;
    RowPassAgrees(full, part, width, height, bar, s, k, k);
    ColumnPassAgrees(RowPass(full, width, height), RowPass(part, s.width, s.height), width, height, bar, s,
      k - RADIUS, k);
  }

  /** Blurring the part and blurring the whole wallpaper agree around the bar: after three passes on the
      bar itself. */
  lemma {:induction false} BlurOfPart(full: Picture, part: Picture, width: nat, height: nat, bar: Rect, s: Rect,
                                      passes: nat)
    requires IsSource(s, width, height, bar) && IsPicture(full, width, height) && IsPicture(part, s.width, s.height)
    requires passes <= PASSES && Agree(full, part, width, height, bar, s, REACH, REACH)
    ensures var k := REACH - passes * RADIUS;
            Agree(Blurred(full, width, height, passes), Blurred(part, s.width, s.height, passes), width, height, bar,
              s, k, k)
  {
    hide Agree, Near, RowPass, ColumnPass;
    if passes > 0 {
      BlurOfPart(full, part, width, height, bar, s, passes - 1);
      PassKeepsAgreement(Blurred(full, width, height, passes - 1), Blurred(part, s.width, s.height, passes - 1),
                         width, height, bar, s, REACH - (passes - 1) * RADIUS);
    }
  }

  /** The rows and columns the result is copied from are inside the blurred part exactly when the bar is
      on the screen: a screen lower than the bar and its margin is read before its first row. */
  lemma BarInsideSource(width: nat, height: nat)
    requires !BarRect(width, height).Empty() && height > 0
    ensures var bar, s := BarRect(width, height), SourceRect(BarRect(width, height), width, height);
            (bar.y >= s.y && bar.Bottom() <= s.Bottom() && bar.x >= s.x && bar.Right() <= s.Right())
            <==> height >= TASKBAR_MARGIN + TASKBAR_HEIGHT
  {
  }

  function WordOrNone(words: seq<Word>, width: int, x: int, y: int): Word {
    var k := y * width + x;
    if 0 <= k < |words| then words[k] else 0
  }

  lemma WordIsThere(words: seq<Word>, width: nat, height: nat, x: nat, y: nat)
    requires |words| == height * width && x < width && y < height
    ensures WordOrNone(words, width, x, y) == WordAt(words, RowWalk(width, height), y, x)
  {
    RowWalk(width, height).IndexInside(y, x);
  }

  /** Every word of the result is opaque, and each of its channels lies between the least and the greatest value
      that channel has in the wallpaper. */
  ghost predicate KeepsColours(pixels: seq<Word>, words: seq<Word>) {
    (forall k :: 0 <= k < |words| ==> words[k] / 0x100_0000 == 255) &&
    forall c, least, greatest :: LineWithin(pixels, c, least, greatest) ==> LineWithin(words, c, least, greatest)
  }

  /** The words are those of the picture where the rectangle is. */
  ghost predicate CutFrom(whole: Picture, width: nat, height: nat, bar: Rect, words: seq<Word>)
    requires IsPicture(whole, width, height)
  {
    0 < bar.width && 0 < bar.height && |words| == bar.height * bar.width &&
    0 <= bar.x && bar.x + bar.width <= width && 0 <= bar.y && bar.y + bar.height <= height &&
    forall x, y :: 0 <= x < bar.width && 0 <= y < bar.height ==>
      WordAt(words, RowWalk(bar.width, bar.height), y, x) == whole[bar.y + y][bar.x + x]
  }

  lemma WordComesFrom(whole: Picture, width: nat, height: nat, bar: Rect, words: seq<Word>, k: nat)
    returns (x: nat, y: nat)
    requires IsPicture(whole, width, height) && CutFrom(whole, width, height, bar, words) && k < |words|
    ensures x < width && y < height && words[k] == whole[y][x]
  {
    var column, row := PlaceOf(words, bar.width, bar.height, k);
    x, y := bar.x + column, bar.y + row;
  }

  lemma PictureWithin(pixels: seq<Word>, width: nat, height: nat, c: Channel, least: int, greatest: int)
    requires |pixels| == height * width && width > 0 && height > 0 && LineWithin(pixels, c, least, greatest)
    ensures Within(ImageOf(pixels, width, height), width, height, c, least, greatest)
  {
    hide ChannelOf;
    var image := ImageOf(pixels, width, height);
    forall x, y | 0 <= x < width && 0 <= y < height ensures least <= ChannelOf(image[y][x], c) <= greatest {
      WordsInRows(pixels, width, height, x, y);
    }
  }

  lemma ColoursKept(pixels: seq<Word>, width: nat, height: nat, bar: Rect, words: seq<Word>)
    requires |pixels| == height * width && width > 0 && height > 0
    requires CutFrom(Blurred(ImageOf(pixels, width, height), width, height, PASSES), width, height, bar, words)
    ensures KeepsColours(pixels, words)
  {
    hide Blurred, ChannelOf, CutFrom, ImageOf;
    var image := ImageOf(pixels, width, height);
    var whole := Blurred(image, width, height, PASSES);
    forall k | 0 <= k < |words| ensures words[k] / 0x100_0000 == 255 {
      var x, y := WordComesFrom(whole, width, height, bar, words, k);
      BlurIsOpaque(image, width, height, PASSES, x, y);
    }
    forall c, least, greatest | LineWithin(pixels, c, least, greatest) ensures LineWithin(words, c, least, greatest) {
      PictureWithin(pixels, width, height, c, least, greatest);
      BlurStaysWithin(image, width, height, PASSES, c, least, greatest);
      forall k | 0 <= k < |words| ensures least <= ChannelOf(words[k], c) <= greatest {
        var x, y := WordComesFrom(whole, width, height, bar, words, k);
      }
    }
  }

  /** The place of a word, rows one after the other. */
  lemma PlaceOf(words: seq<Word>, width: nat, height: nat, k: nat) returns (x: nat, y: nat)
    requires width > 0 && |words| == height * width && k < |words|
    ensures x < width && y < height && words[k] == WordAt(words, RowWalk(width, height), y, x)
  {
    x, y := k % width, k / width;
    assert k == y * width + x;
    if y >= height {
      Multiplied(height, y, width);
      assert false;
    }
  }

  /** A picture's words, and so a backdrop's, lie row by row. */
  lemma WordsInRows(words: seq<Word>, width: nat, height: nat, x: nat, y: nat)
    requires |words| == height * width && x < width && y < height
    ensures y * width + x < |words| && ImageOf(words, width, height)[y][x] == words[y * width + x]
    ensures WordAt(words, RowWalk(width, height), y, x) == words[y * width + x]
  {
    CellInside(y, height, x, width);
  }

  /** What blurring the backdrop comes to; out of bounds is the copy's read before the start of its buffer
      that a bar above the screen makes. */
  datatype Outcome = NoBar | NoMemory | OutOfBounds | Made(words: seq<Word>)

  /** Blurs the wallpaper under the taskbar: every pixel is the clamped-window average of the whole
      wallpaper, applied three times. */
  method BlurBarBackdrop(pixels: array<Word>, width: nat, height: nat, enough: bool) returns (outcome: Outcome)
    requires pixels.Length == height * width
    ensures outcome.NoBar? <==> BarRect(width, height).Empty() || height == 0
    ensures outcome.NoMemory? <==> !outcome.NoBar? && !enough
    ensures outcome.OutOfBounds? <==> !outcome.NoBar? && enough && height < TASKBAR_MARGIN + TASKBAR_HEIGHT
    ensures outcome.Made? ==>
              width > 0 && height > 0 && |outcome.words| == TASKBAR_HEIGHT * BarRect(width, height).width
    ensures outcome.Made? ==>
              var bar := BarRect(width, height);
              var whole := Blurred(ImageOf(pixels[..], width, height), width, height, 3);
              forall x, y :: 0 <= x < bar.width && 0 <= y < bar.height ==>
                WordAt(outcome.words, RowWalk(bar.width, bar.height), y, x) == whole[bar.y + y][bar.x + x]
    ensures outcome.Made? ==> KeepsColours(pixels[..], outcome.words)
  {
    var bar := BarRect(width, height);
    var source := SourceRect(bar, width, height);
    if source.Empty() || bar.Empty() {
      return NoBar;
    }
    if !enough {
      return NoMemory;
    }
    if bar.y < source.y {
      return OutOfBounds;
    }
    assert IsSource(source, width, height, bar);
    var blurred := BlurAround(pixels, width, height, bar, source);
    ColoursKept(pixels[..], width, height, bar, blurred[..]);
    return Made(blurred[..]);
  }

  /** A loaded wallpaper, with what the taskbar shows of it: under the bar, cut to its rounded corners, every
      pixel of the whole wallpaper's three-fold average. */
  method LoadedBackground(pixels: array<Word>, width: nat, height: nat, enough: bool) returns (b: Scene.Background)
    requires pixels.Length == height * width && height >= TASKBAR_MARGIN + TASKBAR_HEIGHT
    ensures b.ready && b.width == width && b.height == height
    ensures forall x, y :: 0 <= x < width && 0 <= y < height ==>
              b.pixels(x, y) == WordAt(pixels[..], RowWalk(width, height), y, x)
    ensures b.blur.Some? <==> !BarRect(width, height).Empty() && enough
    ensures b.blur.Some? ==>
              var bar := BarRect(width, height);
              var whole := Blurred(ImageOf(pixels[..], width, height), width, height, 3);
              forall p: Scene.Painters, x, y, c :: bar.Contains(x, y) ==>
                Scene.BackdropAt(p, b, bar, x, y, c) == if p.inRounded(bar, Scene.BAR_RADIUS, x, y) then whole[y][x]
                  else c
  {
    var outcome := BlurBarBackdrop(pixels, width, height, enough);
    b := BackgroundOf(pixels[..], width, height, outcome);
    WallpaperKept(pixels[..], width, height, outcome);
    if outcome.Made? {
      BackdropKept(pixels[..], width, height, outcome.words,
        Blurred(ImageOf(pixels[..], width, height), width, height, PASSES));
    }
  }

  function BackgroundOf(words: seq<Word>, width: nat, height: nat, outcome: Outcome): Scene.Background {
    var bar := BarRect(width, height);
    Scene.Background(true, width, height, (x, y) => WordOrNone(words, width, x, y),
                     match outcome
                     case Made(under) => Some(Scene.Backdrop(bar, (x, y) => WordOrNone(under, bar.width, x, y)))
                     case _ => None)
  }

  lemma WallpaperKept(words: seq<Word>, width: nat, height: nat, outcome: Outcome)
    requires |words| == height * width
    ensures forall x, y :: 0 <= x < width && 0 <= y < height ==>
              BackgroundOf(words, width, height, outcome).pixels(x, y) == WordAt(words, RowWalk(width, height), y, x)
  {
    hide WordOrNone;
    forall x, y | 0 <= x < width && 0 <= y < height
      ensures WordOrNone(words, width, x, y) == WordAt(words, RowWalk(width, height), y, x)
    {
      WordIsThere(words, width, height, x, y);
    }
  }

  lemma BackdropKept(words: seq<Word>, width: nat, height: nat, under: seq<Word>, whole: Picture)
    requires var bar := BarRect(width, height);
             bar.y >= 0 && !bar.Empty() && IsPicture(whole, width, height) && |under| == TASKBAR_HEIGHT * bar.width &&
             forall x, y :: 0 <= x < bar.width && 0 <= y < bar.height ==>
               WordAt(under, RowWalk(bar.width, bar.height), y, x) == whole[bar.y + y][bar.x + x]
    ensures var bar := BarRect(width, height); var b := BackgroundOf(words, width, height, Made(under));
            forall p: Scene.Painters, x, y, c :: bar.Contains(x, y) ==>
              Scene.BackdropAt(p, b, bar, x, y, c) == if p.inRounded(bar, Scene.BAR_RADIUS, x, y) then whole[y][x]
                else c
  {
    hide WordOrNone, WordAt;
    var bar := BarRect(width, height);
    forall x, y | bar.Contains(x, y)
      ensures WordOrNone(under, bar.width, x - bar.x, y - bar.y) == whole[y][x]
    {
      WordIsThere(under, bar.width, bar.height, x - bar.x, y - bar.y);
    }
  }

  /** A copied part agrees with the whole. */
  lemma CutAgrees(full: Picture, part: Picture, width: nat, height: nat, bar: Rect, s: Rect)
    requires IsSource(s, width, height, bar) && IsPicture(full, width, height) && IsPicture(part, s.width, s.height)
    requires forall x, y :: 0 <= x < s.width && 0 <= y < s.height ==> part[y][x] == full[s.y + y][s.x + x]
    ensures Agree(full, part, width, height, bar, s, REACH, REACH)
  {
    forall x, y | Near(width, height, bar, REACH, REACH, x, y) ensures full[y][x] == part[y - s.y][x - s.x] {
      assert part[y - s.y][x - s.x] == full[s.y + (y - s.y)][s.x + (x - s.x)];
    }
  }

  /** Blurs the part around the bar; on the bar it is as blurred as the whole wallpaper would be. */
  method BlurPart(pixels: array<Word>, width: nat, height: nat, bar: Rect, s: Rect) returns (work: array<Word>)
    requires pixels.Length == height * width && width > 0 && height > 0 && IsSource(s, width, height, bar)
    ensures fresh(work) && work.Length == s.height * s.width
    ensures Agree(Blurred(ImageOf(pixels[..], width, height), width, height, PASSES),
            ImageOf(work[..], s.width, s.height),
                  width, height, bar, s, 0, 0)
  {
    hide Agree, Near, Blurred, RowPass, ColumnPass;
    work := CopyPart(pixels, width, height, s.x, s.y, s.width, s.height);
    var temp := new Word[s.height * s.width];
    ghost var full, part := ImageOf(pixels[..], width, height), ImageOf(work[..], s.width, s.height);
    CutAgrees(full, part, width, height, bar, s);
    BlurInPlace(work, temp, s.width, s.height);
    BlurOfPart(full, part, width, height, bar, s, PASSES);
  }

  method BlurAround(pixels: array<Word>, width: nat, height: nat, bar: Rect, s: Rect) returns (blurred: array<Word>)
    requires pixels.Length == height * width && width > 0 && height > 0 && IsSource(s, width, height, bar)
    requires 0 <= bar.x && bar.x + bar.width <= width && 0 <= bar.y && bar.y + bar.height <= height
    ensures fresh(blurred) && blurred.Length == bar.height * bar.width
    ensures var whole := Blurred(ImageOf(pixels[..], width, height), width, height, PASSES);
            forall x, y :: 0 <= x < bar.width && 0 <= y < bar.height ==>
              WordAt(blurred[..], RowWalk(bar.width, bar.height), y, x) == whole[bar.y + y][bar.x + x]
  {
    hide Blurred, RowPass, ColumnPass;
    var work := BlurPart(pixels, width, height, bar, s);
    blurred := CopyPart(work, s.width, s.height, bar.x - s.x, bar.y - s.y, bar.width, bar.height);
    ghost var whole := Blurred(ImageOf(pixels[..], width, height), width, height, PASSES);
    forall x, y | 0 <= x < bar.width && 0 <= y < bar.height
      ensures WordAt(blurred[..], RowWalk(bar.width, bar.height), y, x) == whole[bar.y + y][bar.x + x]
    {
      assert Near(width, height, bar, 0, 0, bar.x + x, bar.y + y);
    }
  }

  /** Some rows of some columns of a buffer, into a new one. */
  method CopyPart(from: array<Word>, width: nat, height: nat, x0: int, y0: int, w: nat,
                  h: nat) returns (part: array<Word>)
    requires width > 0 && height > 0 && from.Length == height * width && w > 0 && h > 0
    requires 0 <= x0 && x0 + w <= width && 0 <= y0 && y0 + h <= height
    ensures fresh(part) && part.Length == h * w
    ensures forall x, y :: 0 <= x < w && 0 <= y < h ==>
              WordAt(part[..], RowWalk(w, h), y, x) == WordAt(from[..], RowWalk(width, height), y0 + y, x0 + x)
  {
    part := new Word[h * w];
    for y := 0 to h
      invariant forall px, py :: 0 <= px < w && 0 <= py < y ==>
                  WordAt(part[..], RowWalk(w, h), py, px) == WordAt(from[..], RowWalk(width, height), y0 + py, x0 + px)
    {
      for x := 0 to w
        invariant forall px, py :: 0 <= px < w && 0 <= py <= y && (py < y || px < x) ==>
                    WordAt(part[..], RowWalk(w, h), py, px) == WordAt(from[..], RowWalk(width, height), y0 + py,
                      x0 + px)
      {
        RowWalk(width, height).IndexInside(y0 + y, x0 + x);
        StoreWord(part, RowWalk(w, h), y, x, from[RowWalk(width, height).Index(y0 + y, x0 + x)]);
      }
    }
  }
}
