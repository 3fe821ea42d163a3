/** The test pattern of the colour-accuracy page (ColorAccuracy/js/main.js): a 10 x 10
    grid of 20 x 20 pixel cells painted on a 200 x 200 canvas by
    `pushFrameThroughConnection`, and the pixel `draw` samples from each cell. */
module ColorAccuracy {
  import opened Wrappers
  import opened ColorHex

  const CanvasSize: nat := 200
  const CellSize: nat := 20
  const CellCount: nat := 10

  /** The colour of cell (i, j), with i counting cells along x and j along y:
      a grey ramp in the first row, a red/green grid with blue 100 elsewhere. */
  function PatternColor(i: nat, j: nat): (c: Rgb)
    requires i < CellCount && j < CellCount
    ensures InByteRange(c)
    ensures j == 0 ==> c.r == c.g == c.b <= 225
    ensures j != 0 ==> c.r <= 180 && c.g <= 160 && c.b == 100
  {
    if j == 0 then Rgb(i * 25, i * 25, i * 25)
    else Rgb(i * 20, (j - 1) * 20, 100)
  }

  /** The colour the corner pixel ends with after `rgb2Html(counter, 0, 0)` is assigned
      and the pixel filled. Below 0xF00 the string is `#rrggbb` with red the counter
      modulo 256. From 0xFF00 to 0xFFEFF it is `#rrggbb00`, fully transparent, so the
      fill leaves the black of cell (0, 0). Otherwise no hex colour form has the
      string's length; the assignment is ignored and the fill uses the last cell's
      colour. */
  function CornerColor(counter: nat): (c: Rgb)
    ensures InByteRange(c)
    ensures counter < 256 ==> c == Rgb(counter, 0, 0)
    ensures 0xFF00 <= counter < 0xFFF00 ==> c == PatternColor(0, 0) == Rgb(0, 0, 0)
  {
    if counter < 0xF00 then Rgb(counter % 256, 0, 0)
    else if 0xFF00 <= counter < 0xFFF00 then PatternColor(0, 0)
    else PatternColor(9, 9)
  }

  /** Assigning `rgb2Html(counter, 0, 0)` to `fillStyle` gives an opaque colour whose
      fill paints `CornerColor(counter)`, or a transparent one where that colour is the
      black already under the corner, or is refused exactly when the counter is at
      least 0xF00 and outside 0xFF00 to 0xFFEFF, where the last cell's colour remains. */
  lemma CornerFill(counter: nat)
    ensures var p := ParseCssHexColor(Rgb2Html(counter, 0, 0));
      (p.Some? && p.value.alpha == 255 ==> p.value.rgb == CornerColor(counter)) &&
      (p.Some? && p.value.alpha != 255 ==>
        p.value.alpha == 0 && CornerColor(counter) == PatternColor(0, 0)) &&
      (p.None? <==> counter >= 0xF00 && !(0xFF00 <= counter < 0xFFF00)) &&
      (p.None? ==> CornerColor(counter) == PatternColor(9, 9))
  {
    if counter < 256 {
      Rgb2HtmlRoundTrip(counter, 0, 0);
    } else if counter < 0xF00 {
      Rgb2HtmlRedWraps(counter, 0, 0);
      Rgb2HtmlRoundTrip(counter % 256, 0, 0);
    } else if 0xFF00 <= counter < 0xFFF00 {
      Rgb2HtmlWithAlpha(counter, 0, 0);
    } else {
      Rgb2HtmlRefused(counter, 0, 0);
    }
  }

  /** The whole frame pushed when the counter reads `counter`. */
  function FrameColor(counter: nat, x: nat, y: nat): (c: Rgb)
    requires x < CanvasSize && y < CanvasSize
    ensures InByteRange(c)
    ensures (x, y) != (0, 0) ==> c == PatternColor(x / CellSize, y / CellSize)
    ensures (x, y) == (0, 0) ==> c == CornerColor(counter)
  {
    if x == 0 && y == 0 then CornerColor(counter) else PatternColor(x / CellSize, y / CellSize)
  }

  /** A 2-D canvas context: its pixels, indexed [x, y], and its current fill colour. */
  class Canvas {
    const pixels: array2<Rgb>
    var fillStyle: CanvasColor

    ghost predicate Valid()
      reads this
    {
      pixels.Length0 == CanvasSize && pixels.Length1 == CanvasSize
    }

    /** A new canvas is transparent black, black in this colour model, and its fill
        style is opaque black. */
    constructor ()
      ensures Valid() && fresh(pixels)
      ensures fillStyle == CanvasColor(Rgb(0, 0, 0), 255)
      ensures forall x, y :: 0 <= x < CanvasSize && 0 <= y < CanvasSize ==> pixels[x, y] == Rgb(0, 0, 0)
    {
      pixels := new Rgb[CanvasSize, CanvasSize]((x, y) => Rgb(0, 0, 0));
      fillStyle := CanvasColor(Rgb(0, 0, 0), 255);
    }

    /** Assigning `fillStyle`: a hex colour string sets the colour; a string the
        parser refuses leaves the previous colour in place. */
    method SetFillStyle(style: string)
      modifies this
      ensures fillStyle == match ParseCssHexColor(style)
        case Some(c) => c
        case None => old(fillStyle)
    {
      var parsed := ParseCssHexColor(style);
      if parsed.Some? {
        fillStyle := parsed.value;
      }
    }

    /** `fillRect(x, y, w, h)` with the current fill colour, for a rectangle inside the
        canvas: an opaque colour replaces the pixels, a fully transparent one leaves them. */
    method FillRect(x: nat, y: nat, w: nat, h: nat)
      requires Valid()
      requires x + w <= CanvasSize && y + h <= CanvasSize
      requires fillStyle.alpha == 0 || fillStyle.alpha == 255
      modifies pixels
      ensures forall px, py :: 0 <= px < CanvasSize && 0 <= py < CanvasSize ==>
        pixels[px, py] == if x <= px < x + w && y <= py < y + h && fillStyle.alpha == 255
                          then fillStyle.rgb else old(pixels[px, py])
    {
      if fillStyle.alpha == 0 {
        return;
      }
      for px := x to x + w
        invariant forall qx, qy :: 0 <= qx < CanvasSize && 0 <= qy < CanvasSize ==>
          pixels[qx, qy] == if x <= qx < px && y <= qy < y + h then fillStyle.rgb else old(pixels[qx, qy])
      {
        for py := y to y + h
          invariant forall qx, qy :: 0 <= qx < CanvasSize && 0 <= qy < CanvasSize ==>
            pixels[qx, qy] == if (x <= qx < px && y <= qy < y + h) || (qx == px && y <= qy < py)
                              then fillStyle.rgb else old(pixels[qx, qy])
        {
          pixels[px, py] := fillStyle.rgb;
        }
      }
    }
  }

  lemma CellOf(x: nat, i: nat)
    requires CellSize * i <= x < CellSize * i + CellSize
    ensures x / CellSize == i
  {
  }

  /** The page state: the canvas that is captured into the stream and the frame counter. */
  class ColorAccuracyPage {
    const canvas: Canvas
    var counter: nat

    ghost predicate Valid()
      reads this, canvas
    {
      canvas.Valid()
    }

    constructor ()
      ensures Valid() && fresh(canvas) && fresh(canvas.pixels)
      ensures counter == 0
    {
      canvas := new Canvas();
      counter := 0;
    }

    /** The two nested loops of `pushFrameThroughConnection`: every cell (i, j) of the
        10 x 10 grid is filled with its pattern colour, cell (9, 9) last, whose colour
        stays the fill style. */
    method PaintPattern()
      requires Valid()
      modifies canvas, canvas.pixels
      ensures Valid()
      ensures canvas.fillStyle == CanvasColor(PatternColor(9, 9), 255)
      ensures forall x, y :: 0 <= x < CanvasSize && 0 <= y < CanvasSize ==>
        canvas.pixels[x, y] == PatternColor(x / CellSize, y / CellSize)
    {
      var pixels := canvas.pixels;
      for i := 0 to CellCount
        invariant canvas.Valid()
        invariant i > 0 ==> canvas.fillStyle == CanvasColor(PatternColor(i - 1, 9), 255)
        invariant forall x, y :: 0 <= x < CellSize * i && 0 <= y < CanvasSize ==>
          pixels[x, y] == PatternColor(x / CellSize, y / CellSize)
      {
        for j := 0 to CellCount
          invariant canvas.Valid()
          invariant j > 0 ==> canvas.fillStyle == CanvasColor(PatternColor(i, j - 1), 255)
          invariant forall x, y :: 0 <= x < CellSize * i && 0 <= y < CanvasSize ==>
            pixels[x, y] == PatternColor(x / CellSize, y / CellSize)
          invariant forall x, y :: CellSize * i <= x < CellSize * i + CellSize && 0 <= y < CellSize * j ==>
            pixels[x, y] == PatternColor(x / CellSize, y / CellSize)
        {
          var c := PatternColor(i, j);
          var style := Rgb2Html(c.r, c.g, c.b);
          Rgb2HtmlRoundTrip(c.r, c.g, c.b);
          canvas.SetFillStyle(style);
          canvas.FillRect(i * CellSize, j * CellSize, CellSize, CellSize);
          forall x, y | CellSize * i <= x < CellSize * i + CellSize && CellSize * j <= y < CellSize * j + CellSize
            ensures pixels[x, y] == PatternColor(x / CellSize, y / CellSize)
          {
            CellOf(x, i);
            CellOf(y, j);
          }
        }
      }
    }

    /** `pushFrameThroughConnection`: paints the 10 x 10 pattern, marks the corner pixel
        with the counter, advances the counter and asks for another frame while the
        counter is below 20. */
    method PushFrameThroughConnection() returns (scheduleNext: bool)
      requires Valid()
      modifies this, canvas, canvas.pixels
      ensures Valid()
      ensures counter == old(counter) + 1
      ensures scheduleNext <==> counter < 20
      ensures forall x, y :: 0 <= x < CanvasSize && 0 <= y < CanvasSize ==>
        canvas.pixels[x, y] == FrameColor(old(counter), x, y)
      ensures canvas.fillStyle == match ParseCssHexColor(Rgb2Html(old(counter), 0, 0))
        case Some(c) => c
        case None => CanvasColor(PatternColor(9, 9), 255)
    {
      PaintPattern();
      var style := Rgb2Html(counter, 0, 0);
      CornerFill(counter);
      canvas.SetFillStyle(style);
      canvas.FillRect(0, 0, 1, 1);
      counter := counter + 1;
      scheduleNext := counter < 20;
    }
  }

  /** `pix` in `draw`: the byte offset, in the RGBA buffer of a 200 x 200 image,
      of the pixel sampled for loop indices (i, j). */
  function SampleIndex(i: nat, j: nat): (pix: nat)
    requires i < CellCount && j < CellCount
    ensures pix == ((CellSize * i + 10) * CanvasSize + CellSize * j + 10) * 4
    ensures pix % 4 == 0
    ensures pix + 2 < CanvasSize * CanvasSize * 4
  {
    i * (10 * 4 * 20 * 20) + j * 20 * 4 + 10 * 4 + 10 * 4 * 20 * 10
  }

  /** Byte offset of the red channel of pixel (x, y) in row-major RGBA image data. */
  function RgbaIndex(x: nat, y: nat): nat
  {
    (y * CanvasSize + x) * 4
  }

  /** The sample for (i, j) is the centre pixel x = 20j + 10, y = 20i + 10, that is the
      centre of pattern cell (j, i): `draw` walks the grid transposed relative to the fill. */
  lemma SampleIsCellCentre(i: nat, j: nat)
    requires i < CellCount && j < CellCount
    ensures SampleIndex(i, j) == RgbaIndex(CellSize * j + 10, CellSize * i + 10)
    ensures (CellSize * j + 10) / CellSize == j && (CellSize * i + 10) / CellSize == i
    ensures CellSize * j + 10 != 0
  {
    CellOf(CellSize * j + 10, j);
    CellOf(CellSize * i + 10, i);
  }

  /** The 100 sample offsets are pairwise distinct. */
  lemma SampleIndexInjective(i: nat, j: nat, i': nat, j': nat)
    requires i < CellCount && j < CellCount && i' < CellCount && j' < CellCount
    requires SampleIndex(i, j) == SampleIndex(i', j')
    ensures i == i' && j == j'
  {
  }

  /** The red, green and blue bytes at a pixel in the RGBA data `getImageData` returns. */
  ghost function ImageData(pixels: array2<Rgb>): (data: seq<int>)
    requires pixels.Length0 == CanvasSize && pixels.Length1 == CanvasSize
    reads pixels
    ensures |data| == CanvasSize * CanvasSize * 4
  {
    seq(CanvasSize * CanvasSize * 4, k requires 0 <= k < CanvasSize * CanvasSize * 4 reads pixels =>
      var c := pixels[(k / 4) % CanvasSize, (k / 4) / CanvasSize];
      match k % 4
      case 0 => c.r
      case 1 => c.g
      case 2 => c.b
      case _ => 255)
  }

  /** After a pushed frame, the three bytes `draw` reads at `pix`, `pix + 1`, `pix + 2`
      are the channels of pattern cell (j, i). */
  lemma SampledBytes(page: ColorAccuracyPage, counter: nat, i: nat, j: nat)
    requires page.Valid() && i < CellCount && j < CellCount
    requires forall x, y :: 0 <= x < CanvasSize && 0 <= y < CanvasSize ==>
      page.canvas.pixels[x, y] == FrameColor(counter, x, y)
    ensures var data := ImageData(page.canvas.pixels);
      var pix := SampleIndex(i, j);
      data[pix] == PatternColor(j, i).r && data[pix + 1] == PatternColor(j, i).g &&
      data[pix + 2] == PatternColor(j, i).b
  {
    var pix := SampleIndex(i, j);
    SampleIsCellCentre(i, j);
    var x, y := CellSize * j + 10, CellSize * i + 10;
    assert pix / 4 == y * CanvasSize + x;
    assert (pix / 4) % CanvasSize == x && (pix / 4) / CanvasSize == y;
    assert (pix + 1) / 4 == pix / 4 && (pix + 2) / 4 == pix / 4;
    assert pix % 4 == 0 && (pix + 1) % 4 == 1 && (pix + 2) % 4 == 2;
  }
}
