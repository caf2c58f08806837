/** The integer core of src/main.rs: the per-channel counter over an
    interleaved R,G,B byte buffer, and the composition that stacks the
    rendered histogram beneath the source canvas. */
module Colorogram {
  import opened Pixels
  import opened Canvas

  // ---------------------------------------------------------------------------
  // Specification of the channel counter

  /** How many positions i of `data` with i % 3 == c hold the value v: the
      count bucket v of channel c (0 red, 1 green, 2 blue) must end with. */
  function Tally(data: seq<Byte>, c: nat, v: Byte): nat
  {
    if |data| == 0 then 0
    else Tally(data[..|data| - 1], c, v) + (if (|data| - 1) % 3 == c && data[|data| - 1] == v then 1 else 0)
  }

  /** The 256 buckets of channel c over `data`. */
  function Histogram(data: seq<Byte>, c: nat): (h: seq<nat>)
    ensures |h| == 256
  {
    seq(256, v requires 0 <= v < 256 => Tally(data, c, v))
  }

  function Sum(s: seq<nat>): nat
  {
    if s == [] then 0 else s[0] + Sum(s[1..])
  }

  function Max(a: nat, b: nat): nat
  {
    if a < b then b else a
  }

  /** Buckets that are all zero add up to zero. */
  lemma {:induction false} SumZero(s: seq<nat>)
    requires forall k :: 0 <= k < |s| ==> s[k] == 0
    ensures Sum(s) == 0
  {
    if s != [] {
      SumZero(s[1..]);
    }
  }

  /** Adding one to a bucket adds one to the total. */
  lemma {:induction false} SumIncrement(s: seq<nat>, k: nat)
    requires k < |s|
    ensures Sum(s[k := s[k] + 1]) == Sum(s) + 1
  {
    if k == 0 {
      assert s[k := s[k] + 1][1..] == s[1..];
    } else {
      assert s[k := s[k] + 1][1..] == s[1..][k - 1 := s[k] + 1];
      SumIncrement(s[1..], k - 1);
    }
  }

  /** Channel c receives one count per position i with i % 3 == c: red gets
      (n + 2) / 3 of n bytes, green (n + 1) / 3 and blue n / 3. */
  lemma {:induction false} HistogramSum(data: seq<Byte>, c: nat)
    requires c < 3
    ensures Sum(Histogram(data, c)) == (|data| + 2 - c) / 3
  {
    if |data| == 0 {
      SumZero(Histogram(data, c));
    } else {
      var n := |data| - 1;
      var pre := data[..n];
      HistogramSum(pre, c);
      var h := Histogram(pre, c);
      var q := n / 3;
      assert n == 3 * q + n % 3;
      if n % 3 == c {
        assert Histogram(data, c) == h[data[n] := h[data[n]] + 1];
        SumIncrement(h, data[n]);
        assert (n + 2 - c) / 3 == q && (n + 3 - c) / 3 == q + 1;
      } else {
        assert Histogram(data, c) == h;
        assert (n + 2 - c) / 3 == (n + 3 - c) / 3;
      }
    }
  }

  /** Every byte is counted exactly once, in exactly one of the three
      channels. */
  lemma EveryByteCountedOnce(data: seq<Byte>)
    ensures Sum(Histogram(data, 0)) + Sum(Histogram(data, 1)) + Sum(Histogram(data, 2)) == |data|
  {
    HistogramSum(data, 0);
    HistogramSum(data, 1);
    HistogramSum(data, 2);
  }

  /** Appending one byte adds it to its own channel's bucket only. */
  lemma TallySnoc(data: seq<Byte>, b: Byte, c: nat, v: Byte)
    ensures Tally(data + [b], c, v) == Tally(data, c, v) + (if |data| % 3 == c && b == v then 1 else 0)
  {
    assert (data + [b])[..|data|] == data;
  }

  /** Appending a whole pixel (r, g, b) after whole pixels adds one to red
      bucket r, green bucket g and blue bucket b only. */
  lemma TallyPixel(data: seq<Byte>, r: Byte, g: Byte, b: Byte, c: nat, v: Byte)
    requires |data| % 3 == 0 && c < 3
    ensures Tally(data + [r, g, b], c, v) == Tally(data, c, v) + (if v == [r, g, b][c] then 1 else 0)
  {
    var d1, d2, d3 := data + [r], data + [r, g], data + [r, g, b];
    var nr := if c == 0 && v == r then 1 else 0;
    var ng := if c == 1 && v == g then 1 else 0;
    var nb := if c == 2 && v == b then 1 else 0;
    assert Tally(d1, c, v) == Tally(data, c, v) + nr by {
      TallySnoc(data, r, c, v);
    }
    assert Tally(d2, c, v) == Tally(d1, c, v) + ng by {
      TallySnoc(d1, g, c, v);
      assert d1 + [g] == d2 && |d1| % 3 == 1;
    }
    assert Tally(d3, c, v) == Tally(d2, c, v) + nb by {
      TallySnoc(d2, b, c, v);
      assert d2 + [b] == d3 && |d2| % 3 == 2;
    }
  }

  /** Extending the prefix of `data` by byte i adds it to its own channel's
      bucket only. */
  lemma TallyPrefixStep(data: seq<Byte>, i: nat)
    requires i < |data|
    ensures forall c: nat, v: Byte :: Tally(data[..i + 1], c, v) == Tally(data[..i], c, v) + (if i % 3 == c && data[i] == v then 1 else 0)
  {
    assert data[..i + 1][..i] == data[..i];
  }

  /** A table whose every bucket v holds `Tally(data, c, v)` is channel c's
      histogram. */
  lemma HistogramOf(t: seq<nat>, data: seq<Byte>, c: nat)
    requires |t| == 256
    requires forall v :: 0 <= v < 256 ==> t[v] == Tally(data, c, v)
    ensures t == Histogram(data, c)
  {
  }

  /** Two equal pixels (r, g, b) count twice in red bucket r, green bucket
      g and blue bucket b, and nowhere else. */
  lemma TwoEqualPixels(r: Byte, g: Byte, b: Byte, c: nat, v: Byte)
    requires c < 3
    ensures Histogram([r, g, b, r, g, b], c)[v] == if v == [r, g, b][c] then 2 else 0
  {
    var p0: seq<Byte> := [];
    TallyPixel(p0, r, g, b, c, v);
    assert p0 + [r, g, b] == [r, g, b];
    TallyPixel([r, g, b], r, g, b, c, v);
    assert [r, g, b] + [r, g, b] == [r, g, b, r, g, b];
  }

  // ---------------------------------------------------------------------------
  // count_whole_image

  /** `count_whole_image`: tallies byte i of `data` into the red, green or
      blue bucket table according to i % 3, then takes the largest of the
      768 buckets. The counts are whole numbers, so `nat` stands for the
      source's `f64`. */
  method CountWholeImage(data: seq<Byte>) returns (max: nat, reds: seq<nat>, greens: seq<nat>, blues: seq<nat>)
    ensures reds == Histogram(data, 0) && greens == Histogram(data, 1) && blues == Histogram(data, 2)
    ensures forall v :: 0 <= v < 256 ==> reds[v] <= max && greens[v] <= max && blues[v] <= max
    ensures exists v :: 0 <= v < 256 && (max == reds[v] || max == greens[v] || max == blues[v])
    ensures Sum(reds) == (|data| + 2) / 3 && Sum(greens) == (|data| + 1) / 3 && Sum(blues) == |data| / 3
    ensures data == [] ==> max == 0
  {
    var r := new nat[256](_ => 0);
    var g := new nat[256](_ => 0);
    var b := new nat[256](_ => 0);
    for i := 0 to |data|
      invariant forall v :: 0 <= v < 256 ==>
        r[v] == Tally(data[..i], 0, v) && g[v] == Tally(data[..i], 1, v) && b[v] == Tally(data[..i], 2, v)
    {
      TallyPrefixStep(data, i);
      if i % 3 == 0 {
        r[data[i]] := r[data[i]] + 1;
      } else if i % 3 == 1 {
        g[data[i]] := g[data[i]] + 1;
      } else {
        b[data[i]] := b[data[i]] + 1;
      }
    }
    reds, greens, blues := r[..], g[..], b[..];

    max := LargestBucket(reds, greens, blues);
    assert data[..|data|] == data;
    HistogramOf(reds, data, 0);
    HistogramOf(greens, data, 1);
    HistogramOf(blues, data, 2);
    HistogramSum(data, 0);
    HistogramSum(data, 1);
    HistogramSum(data, 2);
  }

  /** The running maximum at the end of `count_whole_image`: the largest of
      the 768 buckets, starting from 0. */
  method LargestBucket(reds: seq<nat>, greens: seq<nat>, blues: seq<nat>) returns (max: nat)
    requires |reds| == 256 && |greens| == 256 && |blues| == 256
    ensures forall v :: 0 <= v < 256 ==> reds[v] <= max && greens[v] <= max && blues[v] <= max
    ensures exists v :: 0 <= v < 256 && (max == reds[v] || max == greens[v] || max == blues[v])
  {
    max := 0;
    for x := 0 to 256
      invariant forall v :: 0 <= v < x ==> reds[v] <= max && greens[v] <= max && blues[v] <= max
      invariant (x == 0 && max == 0) || exists v :: 0 <= v < x && (max == reds[v] || max == greens[v] || max == blues[v])
    {
      max := Max(Max(Max(max, reds[x]), greens[x]), blues[x]);
    }
  }

  // ---------------------------------------------------------------------------
  // Stacking the histogram beneath the source

  /** Resizing a w x h canvas to w x (h + hh) and drawing a w x hh canvas at
      (0, h): rows 0 .. h-1 are the source's, rows h .. h+hh-1 the drawn
      canvas's. */
  lemma StackedRows(s: seq<Color>, o: seq<Color>, w: nat, h: nat, hh: nat, x: nat, y: nat)
    requires |s| == MaxI(Dimensions(w, h)) && |o| == MaxI(Dimensions(w, hh))
    requires x < w && y < h + hh
    ensures XyToI(Dimensions(w, h + hh), x, y) < MaxI(Dimensions(w, h + hh))
    ensures var nd := Dimensions(w, h + hh);
      Drawn(Resized(s, Dimensions(w, h), nd), nd, o, Dimensions(w, hh), Dimensions(0, h))[XyToI(nd, x, y)] ==
        if y < h then s[XyToI(Dimensions(w, h), x, y)] else o[XyToI(Dimensions(w, hh), x, y - h)]
  {
    var sd, hd, nd, pos := Dimensions(w, h), Dimensions(w, hh), Dimensions(w, h + hh), Dimensions(0, h);
    var resized := Resized(s, sd, nd);
    if y < h {
      forall i: nat, j: nat | i < hd.width && j < hd.height
        ensures Target(nd, pos, i, j) != XyToI(nd, x, y)
      {
        XyToIInjective(nd, i, h + j, x, y);
      }
      DrawnKeeps(resized, nd, o, hd, pos, XyToI(nd, x, y));
      ResizedAt(s, sd, nd, x, y);
    } else {
      DrawnSets(resized, nd, o, hd, pos, x, y - h);
    }
  }

  /** The first w*h entries of the stacked buffer are the source's. */
  lemma StackedTop(s: seq<Color>, o: seq<Color>, w: nat, h: nat, hh: nat, k: nat)
    requires |s| == MaxI(Dimensions(w, h)) && |o| == MaxI(Dimensions(w, hh))
    requires k < |s|
    ensures var nd := Dimensions(w, h + hh);
      k < MaxI(nd) &&
      Drawn(Resized(s, Dimensions(w, h), nd), nd, o, Dimensions(w, hh), Dimensions(0, h))[k] == s[k]
  {
    XyToISurjective(Dimensions(w, h), k);
    StackedRows(s, o, w, h, hh, k % w, k / w);
  }

  /** The entries after the first w*h are the drawn canvas's, in order. */
  lemma StackedBottom(s: seq<Color>, o: seq<Color>, w: nat, h: nat, hh: nat, k: nat)
    requires |s| == MaxI(Dimensions(w, h)) && |o| == MaxI(Dimensions(w, hh))
    requires |s| <= k < |s| + |o|
    ensures var nd := Dimensions(w, h + hh);
      k < MaxI(nd) &&
      Drawn(Resized(s, Dimensions(w, h), nd), nd, o, Dimensions(w, hh), Dimensions(0, h))[k] == o[k - |s|]
  {
    var k' := k - |s|;
    XyToISurjective(Dimensions(w, hh), k');
    var x, j := k' % w, k' / w;
    assert XyToI(Dimensions(w, h + hh), x, h + j) == k;
    StackedRows(s, o, w, h, hh, x, h + j);
  }

  /** With equal widths, stacking is concatenation of the row-major buffers. */
  lemma StackedIsConcat(s: seq<Color>, o: seq<Color>, w: nat, h: nat, hh: nat)
    requires |s| == MaxI(Dimensions(w, h)) && |o| == MaxI(Dimensions(w, hh))
    ensures var nd := Dimensions(w, h + hh);
      Drawn(Resized(s, Dimensions(w, h), nd), nd, o, Dimensions(w, hh), Dimensions(0, h)) == s + o
  {
    var nd := Dimensions(w, h + hh);
    var r := Drawn(Resized(s, Dimensions(w, h), nd), nd, o, Dimensions(w, hh), Dimensions(0, h));
    assert MaxI(nd) == (h + hh) * w == h * w + hh * w;
    forall k | 0 <= k < |r|
      ensures r[k] == (s + o)[k]
    {
      if k < |s| {
        StackedTop(s, o, w, h, hh, k);
      } else {
        StackedBottom(s, o, w, h, hh, k);
      }
    }
  }

  /** Lines 29-35 of `main`: the source canvas is grown downwards by the
      histogram's height and the histogram, whose width is the source's,
      is drawn at (0, old height). */
  method StackUnder(image: Image, histo: Image) returns (oldDims: Dimensions)
    requires image.Valid() && histo.Valid()
    requires image != histo && image.container != histo.container
    requires histo.dims.width == image.dims.width
    modifies image
    ensures image.Valid()
    ensures oldDims == old(image.dims)
    ensures image.dims == Dimensions(oldDims.width, oldDims.height + histo.dims.height)
    ensures image.container[..] == old(image.container[..]) + histo.container[..]
  {
    ghost var s := image.container[..];
    oldDims := image.ResizeCanvas(Dimensions(image.Dims().width, image.Dims().height + histo.Dims().height));
    image.DrawImage(histo, Dimensions(0, oldDims.height));
    StackedIsConcat(s, histo.container[..], oldDims.width, oldDims.height, histo.dims.height);
  }
}
