/** Value types of the RGB canvas: 8-bit components, colours, dimensions,
    the row-major index arithmetic and the conversions between a flat
    R,G,B byte buffer and a sequence of colours (src/image.rs). */
module Pixels {

  /** An unsigned 8-bit value (`u8`). */
  type Byte = b: int | 0 <= b < 256

  datatype Option<T> = None | Some(value: T)

  /** A pixel: three 8-bit components, laid out r, g, b with no padding. */
  datatype Color = Color(r: Byte, g: Byte, b: Byte)

  /** `Color::default()`: every component zero. */
  const Black: Color := Color(0, 0, 0)

  /** A (width, height) pair; also used for positions (width = x, height = y). */
  datatype Dimensions = Dimensions(width: nat, height: nat)

  // ---------------------------------------------------------------------------
  // Index arithmetic

  /** Number of pixels of a canvas with these dimensions. */
  function MaxI(d: Dimensions): nat
  {
    d.width * d.height
  }

  /** Row-major linear index of the point (x, y). */
  function XyToI(d: Dimensions, x: nat, y: nat): (i: nat)
    ensures x < d.width && y < d.height ==> i < MaxI(d)
  {
    var i := y * d.width + x;
    assert x < d.width && y < d.height ==> i < MaxI(d) by {
      if x < d.width && y < d.height { RowBound(d.width, y, d.height); }
    }
    i
  }

  /** Helper: a row that lies above the last one ends within the grid. */
  lemma RowBound(w: nat, y: nat, h: nat)
    requires y < h
    ensures y * w + w <= h * w
  {
    MulLeq(y + 1, h, w);
  }

  /** Helper: multiplication by a natural number is monotone. */
  lemma MulLeq(a: nat, b: nat, c: nat)
    requires a <= b
    ensures a * c <= b * c
  {
  }

  /** Two points whose x coordinates are less than a row apart get the same
      linear index only if they are the same point; in particular distinct
      grid points get distinct linear indices. */
  lemma XyToIInjective(d: Dimensions, x1: nat, y1: nat, x2: nat, y2: nat)
    requires x1 < x2 + d.width && x2 < x1 + d.width
    ensures XyToI(d, x1, y1) == XyToI(d, x2, y2) ==> x1 == x2 && y1 == y2
  {
    if y1 < y2 {
      MulLeq(y1 + 1, y2, d.width);
    } else if y2 < y1 {
      MulLeq(y2 + 1, y1, d.width);
    }
  }

  /** Shorthand for `XyToIInjective` against every grid point: no other grid
      point shares the index of (x, y). */
  lemma XyToIOnlyAt(d: Dimensions, x: nat, y: nat)
    requires x < d.width
    ensures forall i: nat, j: nat :: i < d.width && XyToI(d, i, j) == XyToI(d, x, y) ==> i == x && j == y
  {
    forall i: nat, j: nat | i < d.width && XyToI(d, i, j) == XyToI(d, x, y)
      ensures i == x && j == y
    {
      XyToIInjective(d, i, j, x, y);
    }
  }

  /** Every linear index below `MaxI(d)` is the index of the grid point
      (i % width, i / width): together with `XyToIInjective` this makes
      `XyToI` a bijection from the grid onto [0, MaxI(d)). */
  lemma XyToISurjective(d: Dimensions, i: nat)
    requires i < MaxI(d)
    ensures d.width > 0
    ensures i % d.width < d.width && i / d.width < d.height
    ensures XyToI(d, i % d.width, i / d.width) == i
  {
    var q := i / d.width;
    if q >= d.height {
      MulLeq(d.height, q, d.width);
      assert false;
    }
  }

  /** Shorthand for `XyToISurjective` at every index. */
  lemma XyToICovers(d: Dimensions)
    ensures d.width > 0 || MaxI(d) == 0
    ensures forall i :: 0 <= i < MaxI(d) ==>
      i % d.width < d.width && i / d.width < d.height && XyToI(d, i % d.width, i / d.width) == i
  {
    if d.width == 0 {
      assert MaxI(d) == 0;
    }
    forall i | 0 <= i < MaxI(d)
      ensures i % d.width < d.width && i / d.width < d.height && XyToI(d, i % d.width, i / d.width) == i
    {
      XyToISurjective(d, i);
    }
  }

  /** `impl Add for Dimensions`: component-wise sum. */
  function Add(a: Dimensions, b: Dimensions): (r: Dimensions)
    ensures MaxI(r) >= MaxI(a) + MaxI(b)
    ensures a.width <= r.width && a.height <= r.height
  {
    var r := Dimensions(a.width + b.width, a.height + b.height);
    MulLeq(a.height, r.height, a.width);
    MulLeq(b.height, r.height, b.width);
    assert MaxI(r) == a.width * r.height + b.width * r.height;
    r
  }

  // ---------------------------------------------------------------------------
  // Colour conversions

  /** `Color::new`. */
  function ColorNew(r: Byte, g: Byte, b: Byte): Color
  {
    Color(r, g, b)
  }

  /** `From<(u8, u8, u8)> for Color`. */
  function ColorFromTuple(t: (Byte, Byte, Byte)): Color
  {
    Color(t.0, t.1, t.2)
  }

  /** `From<&[u8]> for Color`: the first three bytes of the slice; a shorter
      slice is an out-of-bounds index, which callers must not pass. */
  function ColorFromSlice(s: seq<Byte>): Color
    requires |s| >= 3
  {
    Color(s[0], s[1], s[2])
  }

  /** `IntoIterator for Color`: the components in the order r, g, b. */
  function Channels(c: Color): (s: seq<Byte>)
    ensures |s| == 3
  {
    [c.r, c.g, c.b]
  }

  /** Component k (0 = red, 1 = green, 2 = blue) of a colour. */
  function Component(c: Color, k: nat): Byte
    requires k < 3
  {
    if k == 0 then c.r else if k == 1 then c.g else c.b
  }

  /** The three constructors agree, and iterating a colour gives back the
      bytes it was built from. */
  lemma ColorConversions(r: Byte, g: Byte, b: Byte)
    ensures ColorNew(r, g, b) == ColorFromTuple((r, g, b)) == ColorFromSlice([r, g, b])
    ensures Channels(ColorNew(r, g, b)) == [r, g, b]
    ensures forall k :: 0 <= k < 3 ==> Channels(ColorNew(r, g, b))[k] == Component(ColorNew(r, g, b), k)
  {
  }

  /** Reading a colour back from its own iteration gives the colour. */
  lemma ColorSliceRoundTrip(c: Color)
    ensures ColorFromSlice(Channels(c)) == c
  {
  }

  // ---------------------------------------------------------------------------
  // Flat byte buffer <-> colours

  /** The pixel list of `from_buffer`: the buffer cut into consecutive
      chunks of three bytes, each made into a colour from its first, second
      and third byte. A trailing chunk of one or two bytes is indexed past
      its end; that failure is modelled as `None`. */
  function Colors(buf: seq<Byte>): (r: Option<seq<Color>>)
    ensures r.Some? <==> |buf| % 3 == 0
    ensures r.Some? ==> |r.value| == |buf| / 3
    decreases |buf|
  {
    if |buf| == 0 then Some([])
    else if |buf| < 3 then None
    else
      match Colors(buf[3..])
      case None => None
      case Some(rest) => Some([ColorFromSlice(buf[..3])] + rest)
  }

  /** Pixel i of a decoded buffer is built from bytes 3i, 3i+1, 3i+2. */
  lemma {:induction false} ColorsAt(buf: seq<Byte>, i: nat)
    requires |buf| % 3 == 0 && i < |buf| / 3
    ensures 3 * i + 2 < |buf|
    ensures Colors(buf).value[i] == Color(buf[3 * i], buf[3 * i + 1], buf[3 * i + 2])
    decreases |buf|
  {
    if i > 0 {
      ColorsAt(buf[3..], i - 1);
    }
  }

  /** `as_bytes`: the colours flattened to R, G, B bytes (`Color` is
      `repr(C)` with fields r, g, b, so the reinterpretation is this). */
  function AsBytes(pixels: seq<Color>): (r: seq<Byte>)
    ensures |r| == 3 * |pixels|
  {
    if pixels == [] then [] else Channels(pixels[0]) + AsBytes(pixels[1..])
  }

  /** Byte 3i+k of the flattened buffer is component k of pixel i. */
  lemma {:induction false} AsBytesAt(pixels: seq<Color>, i: nat, k: nat)
    requires i < |pixels| && k < 3
    ensures AsBytes(pixels)[3 * i + k] == Component(pixels[i], k)
  {
    if i > 0 {
      AsBytesAt(pixels[1..], i - 1, k);
    }
  }

  /** Flattening and then splitting into triples gives the pixels back. */
  lemma {:induction false} ColorsOfAsBytes(pixels: seq<Color>)
    ensures Colors(AsBytes(pixels)) == Some(pixels)
  {
    if pixels != [] {
      var bytes := AsBytes(pixels);
      assert bytes[3..] == AsBytes(pixels[1..]);
      assert bytes[..3] == Channels(pixels[0]);
      ColorsOfAsBytes(pixels[1..]);
      assert pixels == [pixels[0]] + pixels[1..];
    }
  }

  /** Splitting a buffer of whole triples and flattening again gives the
      buffer back. */
  lemma {:induction false} AsBytesOfColors(buf: seq<Byte>)
    requires |buf| % 3 == 0
    ensures AsBytes(Colors(buf).value) == buf
    decreases |buf|
  {
    if |buf| > 0 {
      AsBytesOfColors(buf[3..]);
      var p := Colors(buf).value;
      assert p[1..] == Colors(buf[3..]).value;
      assert Channels(p[0]) == buf[..3];
      assert buf == buf[..3] + buf[3..];
    }
  }
}
