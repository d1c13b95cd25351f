/** The part of an HTML canvas that the export uses: a bitmap of RGBA pixels,
    its size, and a 2-D context that fills rectangles and draws images onto it
    with source-over compositing. */
module Canvas2D {

  /** One 8-bit colour or alpha channel. */
  type Channel = x: int | 0 <= x <= 255

  /** A pixel, not premultiplied: red, green, blue and alpha (255 is opaque). */
  datatype Pixel = Rgba(r: Channel, g: Channel, b: Channel, a: Channel)

  /** What a fresh or resized canvas holds. */
  const TransparentBlack := Rgba(0, 0, 0, 0)

  /** The colour `white` as a fill style. */
  const OpaqueWhite := Rgba(255, 255, 255, 255)

  /** The default fill style, `#000000`. */
  const OpaqueBlack := Rgba(0, 0, 0, 255)

  /** One channel of source-over: the source's colour weighted by its alpha, the
      destination's weighted by what the source lets through, over the new alpha. */
  function Blend(cs: Channel, sa: Channel, cd: Channel, k: nat, ao: nat): (c: Channel)
    requires ao == sa + k && k <= 255 - sa
  {
    if ao == 0 then 0
    else
      BlendBound(cs, sa, cd, k, ao);
      (cs * sa + cd * k) / ao
  }

  /** The weighted sum over the new alpha is again a channel value. */
  lemma BlendBound(cs: Channel, sa: Channel, cd: Channel, k: nat, ao: nat)
    requires ao == sa + k && ao > 0
    ensures 0 <= (cs * sa + cd * k) / ao <= 255
  {
    WeightedSum(cs, sa, cd, k, ao);
    DivBound(cs * sa + cd * k, ao);
  }

  lemma WeightedSum(cs: Channel, sa: Channel, cd: Channel, k: nat, ao: nat)
    requires ao == sa + k
    ensures 0 <= cs * sa + cd * k <= 255 * ao
  {
    Scale(cs, sa);
    Scale(cd, k);
  }

  lemma DivBound(n: nat, d: nat)
    requires d > 0 && n <= 255 * d
    ensures 0 <= n / d <= 255
  {
    MulMonotone(256, n / d, d);
  }

  lemma Scale(c: Channel, w: nat)
    ensures c * w <= 255 * w
  {
  }

  /** Source-over compositing of `s` onto `d`: alpha `s.a + d.a * (1 - s.a)`,
      computed on 8-bit channels and rounded down. */
  function Over(s: Pixel, d: Pixel): Pixel {
    var k := d.a * (255 - s.a) / 255;
    AlphaBound(d.a, 255 - s.a);
    var ao := s.a + k;
    Rgba(Blend(s.r, s.a, d.r, k, ao), Blend(s.g, s.a, d.g, k, ao), Blend(s.b, s.a, d.b, k, ao), ao)
  }

  /** The backdrop's share of the new alpha is at most what the source lets through. */
  lemma AlphaBound(da: Channel, m: Channel)
    ensures 0 <= da * m / 255 <= m
  {
    Scale(da, m);
    MulMonotone(m + 1, da * m / 255, 255);
  }

  /** Whatever is drawn onto an opaque pixel leaves it opaque. */
  lemma OverOpaqueBackdrop(s: Pixel, d: Pixel)
    requires d.a == 255
    ensures Over(s, d).a == 255
  {
  }

  /** An opaque source replaces what lies under it. */
  lemma OverOpaqueSource(s: Pixel, d: Pixel)
    requires s.a == 255
    ensures Over(s, d) == s
  {
    BlendOpaque(s.r, d.r);
    BlendOpaque(s.g, d.g);
    BlendOpaque(s.b, d.b);
  }

  lemma BlendOpaque(cs: Channel, cd: Channel)
    ensures Blend(cs, 255, cd, 0, 255) == cs
  {
  }

  /** Onto a transparent pixel the source lands as it is, except that a fully
      transparent source leaves transparent black. (A browser's premultiplied
      pixels may round the colour of a partly transparent source.) */
  lemma OverTransparentBackdrop(s: Pixel)
    ensures Over(s, TransparentBlack) == if s.a == 0 then TransparentBlack else s
  {
    if s.a != 0 {
      BlendAlone(s.r, s.a);
      BlendAlone(s.g, s.a);
      BlendAlone(s.b, s.a);
    }
  }

  lemma BlendAlone(cs: Channel, sa: Channel)
    requires sa != 0
    ensures Blend(cs, sa, 0, 0, sa) == cs
  {
    DivExact(cs, sa);
  }

  lemma DivExact(q: nat, b: nat)
    requires b > 0
    ensures q * b / b == q
  {
    var d, m := q * b / b, q * b % b;
    assert q * b == d * b + m && 0 <= m < b;
    MulMonotone(d + 1, q, b);
    MulMonotone(q + 1, d, b);
  }

  lemma MulMonotone(x: nat, y: nat, b: nat)
    ensures x <= y ==> x * b <= y * b
  {
    if x <= y {
      assert y * b == x * b + (y - x) * b;
    }
  }

  /** A fully transparent source changes nothing under it that has any alpha. */
  lemma OverTransparentSource(s: Pixel, d: Pixel)
    requires s.a == 0 && d.a != 0
    ensures Over(s, d) == d
  {
    BlendAlone(d.r, d.a);
    BlendAlone(d.g, d.a);
    BlendAlone(d.b, d.a);
  }

  /** A canvas element: its `width` and `height` attributes and its bitmap,
      `height` rows of `width` pixels. */
  class Canvas {
    var width: nat
    var height: nat
    var bitmap: array2<Pixel>

    predicate Valid()
      reads this
    {
      bitmap.Length0 == height && bitmap.Length1 == width
    }

    /** Every pixel of the bitmap is `p`. */
    predicate Filled(p: Pixel)
      reads this, bitmap
    {
      forall i, j :: 0 <= i < bitmap.Length0 && 0 <= j < bitmap.Length1 ==> bitmap[i, j] == p
    }

    /** `document.createElement('canvas')`: 300 by 150, transparent black. */
    constructor ()
      ensures Valid() && width == 300 && height == 150
      ensures Filled(TransparentBlack)
    {
      width, height := 300, 150;
      bitmap := new Pixel[150, 300]((i, j) => TransparentBlack);
    }

    /** Setting `canvas.width` gives a new bitmap of that width, cleared to
        transparent black, even when the width does not change. */
    method SetWidth(w: nat)
      modifies this
      ensures Valid() && width == w && height == old(height)
      ensures Filled(TransparentBlack)
      ensures fresh(bitmap)
    {
      width := w;
      bitmap := new Pixel[height, w]((i, j) => TransparentBlack);
    }

    /** Setting `canvas.height`, likewise. */
    method SetHeight(h: nat)
      modifies this
      ensures Valid() && height == h && width == old(width)
      ensures Filled(TransparentBlack)
      ensures fresh(bitmap)
    {
      height := h;
      bitmap := new Pixel[h, width]((i, j) => TransparentBlack);
    }
  }

  /** Whether bitmap row `i`, column `j` lies in the rectangle at (`x`, `y`) of
      width `w` and height `h`. */
  predicate InRect(i: int, j: int, x: nat, y: nat, w: nat, h: nat) {
    y <= i < y + h && x <= j < x + w
  }

  /** `canvas.getContext('2d')`: the drawing state (here only the fill style)
      and the canvas it draws on. */
  class Context2D {
    const canvas: Canvas
    var fillStyle: Pixel

    constructor (c: Canvas)
      ensures canvas == c && fillStyle == OpaqueBlack
    {
      canvas := c;
      fillStyle := OpaqueBlack;
    }

    /** `ctx.fillRect(x, y, w, h)`: the fill style composited over every pixel of
        the rectangle that lies on the canvas; the rest is untouched. */
    method FillRect(x: nat, y: nat, w: nat, h: nat)
      requires canvas.Valid()
      modifies canvas.bitmap
      ensures forall i, j :: 0 <= i < canvas.height && 0 <= j < canvas.width ==>
        canvas.bitmap[i, j] == if InRect(i, j, x, y, w, h) then Over(fillStyle, old(canvas.bitmap[i, j])) else old(canvas.bitmap[i, j])
      ensures fillStyle.a == 255 ==> forall i, j :: 0 <= i < canvas.height && 0 <= j < canvas.width && InRect(i, j, x, y, w, h) ==>
        canvas.bitmap[i, j] == fillStyle
    {
      var color := fillStyle;
      Composite(canvas, x, y, w, h, (i: nat, j: nat) => color);
      if color.a == 255 {
        forall d: Pixel {
          OverOpaqueSource(color, d);
        }
      }
    }

    /** `ctx.drawImage(img, x, y, w, h)`: the image, scaled to the rectangle,
        composited over the part of the rectangle that lies on the canvas.
        `scaled(i, j)` is the image's pixel that the browser's resampling puts
        at bitmap row `i`, column `j`. */
    method DrawImage(scaled: (nat, nat) -> Pixel, x: nat, y: nat, w: nat, h: nat)
      requires canvas.Valid()
      modifies canvas.bitmap
      ensures forall i, j :: 0 <= i < canvas.height && 0 <= j < canvas.width ==>
        canvas.bitmap[i, j] == if InRect(i, j, x, y, w, h) then Over(scaled(i, j), old(canvas.bitmap[i, j])) else old(canvas.bitmap[i, j])
    {
      Composite(canvas, x, y, w, h, scaled);
    }
  }

  /** Paints `paint(i, j)` over every pixel of the rectangle that lies on `c`,
      row by row. */
  method Composite(c: Canvas, x: nat, y: nat, w: nat, h: nat, paint: (nat, nat) -> Pixel)
    requires c.Valid()
    modifies c.bitmap
    ensures forall i, j :: 0 <= i < c.height && 0 <= j < c.width ==>
      c.bitmap[i, j] == if InRect(i, j, x, y, w, h) then Over(paint(i, j), old(c.bitmap[i, j])) else old(c.bitmap[i, j])
  {
    var b := c.bitmap;
    var top := if y + h < b.Length0 then y + h else b.Length0;
    var right := if x + w < b.Length1 then x + w else b.Length1;
    var i := y;
    while i < top
      invariant top <= i || y <= i
      invariant forall r, s :: 0 <= r < b.Length0 && 0 <= s < b.Length1 ==>
        b[r, s] == if InRect(r, s, x, y, w, h) && r < i then Over(paint(r, s), old(b[r, s])) else old(b[r, s])
    {
      PaintRow(b, i, x, right, (r: nat, s: nat, d: Pixel) => Over(paint(r, s), d));
      i := i + 1;
    }
  }

  /** Replaces each pixel `d` of row `i`, from column `x` up to `right`, by `f(i, j, d)`. */
  method PaintRow(b: array2<Pixel>, i: nat, x: nat, right: nat, f: (nat, nat, Pixel) -> Pixel)
    requires i < b.Length0 && right <= b.Length1
    modifies b
    ensures forall r, s :: 0 <= r < b.Length0 && 0 <= s < b.Length1 ==>
      b[r, s] == if r == i && x <= s < right then f(r, s, old(b[r, s])) else old(b[r, s])
  {
    var j := x;
    while j < right
      invariant x <= j && (j <= right || j == x)
      invariant forall r, s :: 0 <= r < b.Length0 && 0 <= s < b.Length1 ==>
        b[r, s] == if r == i && x <= s < j then f(r, s, old(b[r, s])) else old(b[r, s])
    {
      b[i, j] := f(i, j, b[i, j]);
      j := j + 1;
    }
  }
}
