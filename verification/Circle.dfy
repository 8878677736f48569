/** The boot screen's circle rasteriser: which pixels `draw_circle` paints. */
module Circle {
  import opened Bits

  const TWO_31: int := 0x8000_0000
  const TWO_32: int := 0x1_0000_0000

  /** C's 32-bit integers. */
  type int32 = x: int | -0x8000_0000 <= x < 0x8000_0000
  type u32 = x: int | 0 <= x < 0x1_0000_0000

  /** Unsigned 32-bit arithmetic wraps. */
  function Wrap(n: int): u32 {
    n % TWO_32
  }

  // ---------- the curve ----------

  /** The offset of a painted pixel in the octant 0 <= y <= x: in row y, the largest x with x² + y² + 2y at
      most r². */
  predicate OnOctant(r: int, x: int, y: int) {
    0 <= y <= x && x * x + y * y + 2 * y <= r * r < (x + 1) * (x + 1) + y * y + 2 * y
  }

  /** The pixel is one of the eight mirror images of an offset. */
  predicate Mirrors(cx: int, cy: int, x: int, y: int, px: int, py: int) {
    || ((px == Wrap(cx + x) || px == Wrap(cx - x)) && (py == Wrap(cy + y) || py == Wrap(cy - y)))
    || ((px == Wrap(cx + y) || px == Wrap(cx - y)) && (py == Wrap(cy + x) || py == Wrap(cy - x)))
  }

  /** The pixel mirrors an offset in one of the first `rows` rows of the octant. */
  ghost predicate Drawn(r: int, cx: int, cy: int, rows: int, px: int, py: int) {
    exists x, y :: OnOctant(r, x, y) && y < rows && Mirrors(cx, cy, x, y, px, py)
  }

  ghost predicate OnCircle(r: int, cx: int, cy: int, px: int, py: int) {
    exists x, y :: OnOctant(r, x, y) && Mirrors(cx, cy, x, y, px, py)
  }

  /** No painted offset lies outside the circle, and one diagonal step from it leads outside. In its row it is
      the last offset inside the circle, or the last but one. */
  lemma ErrorBound(r: int, x: int, y: int)
    requires OnOctant(r, x, y)
    ensures r * r - 2 * (x + y) <= x * x + y * y <= r * r - 2 * y
    ensures x * x + y * y <= r * r < (x + 1) * (x + 1) + (y + 1) * (y + 1)
    ensures r * r < (x + 2) * (x + 2) + y * y
  {
    Square(x);
    Square(x + 1);
    Square(y);
  }

  /** In row 2 of the circle of radius 4 the column painted is 2: it is more than one pixel inside the circle,
      and column 3 would be inside too. */
  lemma MoreThanAPixel()
    ensures OnOctant(4, 2, 2)
    ensures 2 * 2 + 2 * 2 < (4 - 1) * (4 - 1) && 3 * 3 + 2 * 2 <= 4 * 4
  {}

  lemma Square(n: int)
    ensures (n + 1) * (n + 1) == n * n + 2 * n + 1
    ensures (n - 1) * (n - 1) == n * n - 2 * n + 1
  {}

  lemma SquareGrows(m: int, n: int)
    requires 0 <= m <= n
    ensures m * m <= n * n
  {}

  /** A row has at most one offset. */
  lemma OnePerRow(r: int, x: int, x': int, y: int)
    requires OnOctant(r, x, y) && OnOctant(r, x', y)
    ensures x == x'
  {
    if x < x' { SquareGrows(x + 1, x'); }
    if x' < x { SquareGrows(x' + 1, x); }
  }

  // ---------- the loop ----------

  /** What holds at the head of the loop: the error term is exact, and bounded below. */
  predicate Tracks(r: int, x: int, y: int, err: int) {
    && 0 <= y
    && -1 <= x <= r
    && err == x * x + y * y + 2 * y - r * r
    && -2 * x <= err
    && (y <= x ==> err <= 0)
  }

  /** At the head of the loop the offset is on the octant. */
  lemma HeadOnOctant(r: int, x: int, y: int, err: int)
    requires Tracks(r, x, y, err) && y <= x
    ensures OnOctant(r, x, y)
  {
    Square(x);
  }

  /** One iteration: y advances by one, x drops when the error turns positive, and no sum leaves 32 bits. */
  lemma Step(r: int, x: int, y: int, err: int)
    requires Tracks(r, x, y, err) && y <= x && r <= 0x4000_0000
    ensures var err1 := err + 2 * (y + 1) + 1;
            && 0 <= y <= x <= r && -TWO_31 <= err <= err1 < TWO_31
            && (err1 > 0 ==> -TWO_31 <= err1 - (2 * (x - 1) + 1) < TWO_31)
            && (err1 <= 0 ==> Tracks(r, x, y + 1, err1))
            && (err1 > 0 ==> Tracks(r, x - 1, y + 1, err1 - (2 * (x - 1) + 1)))
  {
    Square(x);
    Square(y);
    NotSteep(r, x, y);
    var err1 := err + 2 * (y + 1) + 1;
    assert err1 == x * x + (y + 1) * (y + 1) + 2 * (y + 1) - r * r;
  }

  /** The intermediate values of an iteration are 32-bit integers. */
  predicate StepFits(x: int, y: int, err: int) {
    var gain, err1, loss := 2 * (y + 1) + 1, err + (2 * (y + 1) + 1), 2 * (x - 1) + 1;
    && gain < TWO_31 && -TWO_31 <= err1 < TWO_31
    && (err1 > 0 ==> -TWO_31 <= loss < TWO_31 && -TWO_31 <= err1 - loss < TWO_31)
  }

  /** No iteration overflows exactly when the radius is at most 2^30: beyond that the first one does. */
  lemma FitsExactly(r: int)
    requires 0 <= r < TWO_31
    ensures (forall x, y, err :: Tracks(r, x, y, err) && y <= x ==> StepFits(x, y, err)) <==> r <= 0x4000_0000
  {
    if r <= 0x4000_0000 {
      forall x, y, err | Tracks(r, x, y, err) && y <= x ensures StepFits(x, y, err) { Step(r, x, y, err); }
    } else {
      FirstStepOverflows(r);
    }
  }

  /** The loop's first iteration, at x = r, y = 0, err = 0. */
  lemma FirstStepOverflows(r: int)
    requires 0x4000_0000 < r < 0x8000_0000
    ensures Tracks(r, r, 0, 0) && !StepFits(r, 0, 0)
    ensures 2 * (r - 1) + 1 >= 0x8000_0000
  {}

  lemma NotPositive(r: int, x: int, y: int, err: int)
    requires Tracks(r, x, y, err) && y <= x
    ensures err <= 0
  {}

  /** The end of the loop's body, in 32-bit arithmetic. */
  method Advance(ghost r: int, x0: int32, y0: int32, err0: int32) returns (x: int32, y: int32, err: int32)
    requires Tracks(r, x0, y0, err0) && y0 <= x0 && r <= 0x4000_0000
    ensures Tracks(r, x, y, err)
    ensures y == y0 + 1 && x0 - 1 <= x <= x0
  {
    Step(r, x0, y0, err0);
    NotPositive(r, x0, y0, err0);
    hide Tracks;
    x, y, err := x0, y0, err0;
    if err <= 0 {
      y := y + 1;
      var gain: int32 := 2 * y + 1;
      err := err + gain;
    }
    if err > 0 {
      x := x - 1;
      var loss: int32 := 2 * x + 1;
      err := err - loss;
    }
  }

  /** The octant stops near the diagonal: 2y stays below 2^31 - 3. */
  lemma NotSteep(r: int, x: int, y: int)
    requires 0 <= y <= x && x * x + y * y + 2 * y <= r * r && 0 <= r <= 0x4000_0000
    ensures y < 0x3FFF_FFFE
  {
    SquareGrows(y, x);
    if y >= 0x3FFF_FFFE {
      SquareGrows(0x3FFF_FFFE, y);
      SquareGrows(r, 0x4000_0000);
    }
  }

  /** When the loop stops, no row of the octant is left. */
  lemma NoRowsLeft(r: int, x: int, y: int, err: int)
    requires Tracks(r, x, y, err) && x < y
    ensures forall x', y' :: OnOctant(r, x', y') ==> y' < y
  {
    Square(x);
    SquareGrows(x + 1, y);
    forall x', y' | OnOctant(r, x', y') ensures y' < y {
      if y' >= y {
        SquareGrows(y, y');
        SquareGrows(y, x');
      }
    }
  }

  /** The octant has no gaps: going down a row, the offset moves by at most one. */
  lemma NoGaps(r: int, x: int, y: int)
    requires 0 <= r && OnOctant(r, x, y) && y > 0
    ensures OnOctant(r, x, y - 1) || OnOctant(r, x + 1, y - 1)
  {
    Square(x);
    Square(x + 1);
    Square(y);
  }

  /** It ends next to its mirror image: the last row is at most one pixel off the diagonal. */
  lemma MeetsDiagonal(r: int, x: int, y: int)
    requires OnOctant(r, x, y)
    requires !OnOctant(r, x, y + 1) && !OnOctant(r, x - 1, y + 1)
    ensures x <= y + 1
  {
    Square(x);
    Square(y);
  }

  /** The eight pixels, modulo 2^32. */
  lemma MirrorPixels(cx: int, cy: int, x: int, y: int, px: int, py: int)
    ensures Mirrors(cx, cy, x, y, px, py) <==>
              (px, py) in {(Wrap(cx + x), Wrap(cy + y)), (Wrap(cx + y), Wrap(cy + x)), (Wrap(cx - y), Wrap(cy + x)),
                           (Wrap(cx - x), Wrap(cy + y)), (Wrap(cx - x), Wrap(cy - y)), (Wrap(cx - y), Wrap(cy - x)),
                           (Wrap(cx + y), Wrap(cy - x)), (Wrap(cx + x), Wrap(cy - y))}
    ensures (Wrap(cx + x) - (cx + x)) % 0x1_0000_0000 == 0
  {}

  /** Each offset of the octant is painted in all eight octants around the centre. */
  lemma EightMirrors(r: int, cx: int, cy: int, x: int, y: int)
    requires OnOctant(r, x, y)
    ensures OnCircle(r, cx, cy, Wrap(cx + x), Wrap(cy + y)) && OnCircle(r, cx, cy, Wrap(cx + x), Wrap(cy - y))
    ensures OnCircle(r, cx, cy, Wrap(cx - x), Wrap(cy + y)) && OnCircle(r, cx, cy, Wrap(cx - x), Wrap(cy - y))
    ensures OnCircle(r, cx, cy, Wrap(cx + y), Wrap(cy + x)) && OnCircle(r, cx, cy, Wrap(cx + y), Wrap(cy - x))
    ensures OnCircle(r, cx, cy, Wrap(cx - y), Wrap(cy + x)) && OnCircle(r, cx, cy, Wrap(cx - y), Wrap(cy - x))
  {
    hide OnOctant;
  }

  // ---------- the screen ----------

  /** The fields of a colour word do not overlap: each keeps its byte. */
  lemma FieldsApart(high: byte, middle: byte, low: byte)
    ensures var w := Or(Or(Or(0x1_0000 * high, 0x100 * middle), low), 0xFF00_0000);
            && w == 0xFF00_0000 + 0x1_0000 * high + 0x100 * middle + low
            && w % 0x100 == low && w / 0x100 % 0x100 == middle && w / 0x1_0000 % 0x100 == high
            && w / 0x100_0000 == 0xFF
  {
    hide Or, Pow2;
    OrAdds(0x1_0000 * high, 0x100 * middle, 16);
    OrAdds(0x1_0000 * high + 0x100 * middle, low, 8);
    OrCommutes(0x1_0000 * high + 0x100 * middle + low, 0xFF00_0000);
    OrAdds(0xFF00_0000, 0x1_0000 * high + 0x100 * middle + low, 24);
    BytesOf(0xFF, high, middle, low);
  }

  lemma BytesOf(top: byte, high: byte, middle: byte, low: byte)
    ensures var w := 0x100_0000 * top + 0x1_0000 * high + 0x100 * middle + low;
            && w % 0x100 == low && w / 0x100 % 0x100 == middle && w / 0x1_0000 % 0x100 == high
            && w / 0x100_0000 == top
  {
    var w := 0x100_0000 * top + 0x1_0000 * high + 0x100 * middle + low;
    assert w / 0x100 == 0x1_0000 * top + 0x100 * high + middle;
    assert w / 0x1_0000 == 0x100 * top + high;
  }

  /** A word whose low 8, 16 or 24 bits are clear takes smaller ones by addition. */
  lemma OrAdds(a: nat, g: nat, k: nat)
    requires var w := match k case 8 => 0x100 case 16 => 0x1_0000 case _ => 0x100_0000;
             k in {8, 16, 24} && a % w == 0 && g < w
    ensures Or(a, g) == a + g
  {
    hide Or, Pow2;
    FieldWidths();
    OrFlags(a, 0, g, k);
    OrZero(g);
  }

  lemma FieldWidths()
    ensures Pow2(8) == 0x100 && Pow2(16) == 0x1_0000 && Pow2(24) == 0x100_0000
  {
    Pow2Add(8, 8);
    Pow2Add(16, 8);
  }

  /** `screen_t`: a linear frame buffer of 32-bit pixels, each scan line possibly padded. */
  class Screen {
    const width: u32
    const height: u32
    const stride: u32
    const pixelFormat: u32
    const buffer: array<u32>

    /** What the firmware promises: a scan line holds a row, and the buffer holds every scan line. */
    ghost predicate Valid() {
      width <= stride && height * stride <= buffer.Length
    }

    ghost predicate Visible(px: int, py: int) {
      0 <= px < width && 0 <= py < height
    }

    function Index(px: int, py: int): (i: int)
      requires Valid() && Visible(px, py)
      ensures 0 <= i < buffer.Length
    {
      InRange(px, py, width, height, stride);
      py * stride + px
    }

    function Pixel(px: int, py: int): u32
      requires Valid() && Visible(px, py)
      reads buffer
    {
      buffer[Index(px, py)]
    }

    ghost predicate IsPixel(i: int)
      requires Valid()
    {
      exists px, py :: Visible(px, py) && Index(px, py) == i
    }

    /** The colour word: blue in the low byte, or red there in the other pixel format. */
    function Colour(r: byte, g: byte, b: byte): (w: u32)
      ensures w % 0x100 == (if pixelFormat == 0 then b else r) && w / 0x100 % 0x100 == g
      ensures w / 0x1_0000 % 0x100 == (if pixelFormat == 0 then r else b) && w / 0x100_0000 == 0xFF
    {
      var high, low := if pixelFormat == 0 then r else b, if pixelFormat == 0 then b else r;
      FieldsApart(high, g, low);
      Or(Or(Or(0x1_0000 * high, 0x100 * g), low), 0xFF00_0000)
    }

    /** Different pixels are different words. */
    lemma Separate(px: int, py: int, qx: int, qy: int)
      requires Valid() && Visible(px, py) && Visible(qx, qy)
      requires Index(px, py) == Index(qx, qy)
      ensures px == qx && py == qy
    {
      SameRow(px, py, qx, qy, stride);
    }

    method DrawPixel(x: u32, y: u32, r: byte, g: byte, b: byte)
      requires Valid()
      modifies buffer
      ensures forall px, py :: Visible(px, py) ==>
                Pixel(px, py) == if px == x && py == y then Colour(r, g, b) else old(Pixel(px, py))
      ensures forall i :: 0 <= i < buffer.Length && !IsPixel(i) ==> buffer[i] == old(buffer[i])
      ensures if x < width && y < height
              then y * stride + x < buffer.Length && buffer[..] == old(buffer[..])[y * stride + x := Colour(r, g, b)]
              else buffer[..] == old(buffer[..])
    {
      if x >= width || y >= height { return; }
      var offset := Index(x, y);
      buffer[offset] := Colour(r, g, b);
      forall px, py | Visible(px, py) && (px != x || py != y) ensures Pixel(px, py) == old(Pixel(px, py)) {
        if Index(px, py) == offset { Separate(px, py, x, y); }
      }
    }

    /** The eight mirror images of one offset. */
    method DrawMirrors(cx: u32, cy: u32, x: int, y: int, r: byte, g: byte, b: byte)
      requires Valid()
      modifies buffer
      ensures forall px, py :: Visible(px, py) ==>
                Pixel(px, py) == if Mirrors(cx, cy, x, y, px, py) then Colour(r, g, b) else old(Pixel(px, py))
      ensures forall i :: 0 <= i < buffer.Length && !IsPixel(i) ==> buffer[i] == old(buffer[i])
    {
      DrawPixel(Wrap(cx + x), Wrap(cy + y), r, g, b);
      DrawPixel(Wrap(cx + y), Wrap(cy + x), r, g, b);
      DrawPixel(Wrap(cx - y), Wrap(cy + x), r, g, b);
      DrawPixel(Wrap(cx - x), Wrap(cy + y), r, g, b);
      DrawPixel(Wrap(cx - x), Wrap(cy - y), r, g, b);
      DrawPixel(Wrap(cx - y), Wrap(cy - x), r, g, b);
      DrawPixel(Wrap(cx + y), Wrap(cy - x), r, g, b);
      DrawPixel(Wrap(cx + x), Wrap(cy - y), r, g, b);
    }

    /** Paints the circle and nothing else. A radius of 2^31 or more is negative as an int32, and paints
        nothing; between 2^30 and 2^31 the first step overflows, which C leaves undefined. */
    method DrawCircle(cx: u32, cy: u32, radius: u32, r: byte, g: byte, b: byte)
      requires Valid()
      requires radius <= 0x4000_0000 || radius >= 0x8000_0000
      modifies buffer
      ensures radius >= 0x8000_0000 ==> buffer[..] == old(buffer[..])
      ensures radius <= 0x4000_0000 ==> forall px, py :: Visible(px, py) ==>
                Pixel(px, py) == if OnCircle(radius, cx, cy, px, py) then Colour(r, g, b) else old(Pixel(px, py))
      ensures forall i :: 0 <= i < buffer.Length && !IsPixel(i) ==> buffer[i] == old(buffer[i])
    {
      var x: int32 := if radius < 0x8000_0000 then radius else radius - TWO_32;
      var y: int32 := 0;
      var err: int32 := 0;
      while x >= y
        invariant radius >= 0x8000_0000 ==> x < y && buffer[..] == old(buffer[..])
        invariant radius <= 0x4000_0000 ==> Tracks(radius, x, y, err)
        invariant radius <= 0x4000_0000 ==> forall px, py :: Visible(px, py) ==>
                    Pixel(px, py) == if Drawn(radius, cx, cy, y, px, py) then Colour(r, g, b) else old(Pixel(px, py))
        invariant forall i :: 0 <= i < buffer.Length && !IsPixel(i) ==> buffer[i] == old(buffer[i])
        decreases x - y
      {
        DrawMirrors(cx, cy, x, y, r, g, b);
        HeadOnOctant(radius, x, y, err);
        NextRow(radius, cx, cy, x, y);
        x, y, err := Advance(radius, x, y, err);
      }
      if radius <= 0x4000_0000 { AllDrawn(radius, cx, cy, x, y, err); }
    }
  }

  lemma InRange(px: int, py: int, width: int, height: int, stride: int)
    requires 0 <= px < width <= stride && 0 <= py < height
    ensures 0 <= py * stride + px < height * stride
  {
    assert py * stride + stride == (py + 1) * stride;
    assert (py + 1) * stride <= height * stride;
  }

  lemma SameRow(px: int, py: int, qx: int, qy: int, stride: int)
    requires 0 <= px < stride && 0 <= qx < stride && py * stride + px == qy * stride + qx
    ensures px == qx && py == qy
  {
    if py > qy { LaterRow(px, py, qx, qy, stride); }
    if py < qy { LaterRow(qx, qy, px, py, stride); }
  }

  lemma LaterRow(px: int, py: int, qx: int, qy: int, stride: int)
    requires 0 <= px && 0 <= qx < stride && py > qy
    ensures py * stride + px > qy * stride + qx
  {
    assert py * stride == qy * stride + (py - qy) * stride;
    RowBelow(py - qy, stride, qx);
  }

  lemma RowBelow(rows: int, stride: int, qx: int)
    requires rows >= 1 && 0 <= stride && qx < stride
    ensures rows * stride > qx
  {}

  /** Painting the mirror images of row y's offset is painting one more row. */
  lemma NextRow(r: int, cx: int, cy: int, x: int, y: int)
    requires OnOctant(r, x, y)
    ensures forall px, py :: Drawn(r, cx, cy, y + 1, px, py) <==>
              Drawn(r, cx, cy, y, px, py) || Mirrors(cx, cy, x, y, px, py)
  {
    forall px, py | Drawn(r, cx, cy, y + 1, px, py)
      ensures Drawn(r, cx, cy, y, px, py) || Mirrors(cx, cy, x, y, px, py)
    {
      var x', y' :| OnOctant(r, x', y') && y' < y + 1 && Mirrors(cx, cy, x', y', px, py);
      if y' == y { OnePerRow(r, x, x', y); }
    }
  }

  lemma AllDrawn(r: int, cx: int, cy: int, x: int, y: int, err: int)
    requires Tracks(r, x, y, err) && x < y
    ensures forall px, py :: Drawn(r, cx, cy, y, px, py) <==> OnCircle(r, cx, cy, px, py)
  {
    NoRowsLeft(r, x, y, err);
  }
}
