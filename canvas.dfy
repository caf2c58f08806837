/** The RGB canvas `Image` of src/image.rs: a row-major buffer of colours
    together with its dimensions, resized with content preservation and
    drawn onto by blitting another canvas. */
module Canvas {
  import opened Pixels

  // ---------------------------------------------------------------------------
  // resize_canvas, as a function on the buffer

  /** What `resize_canvas` puts at the point (x, y) of the new buffer: the old
      pixel where (x, y) lies inside the old canvas, black elsewhere. */
  function ResizedPixel(s: seq<Color>, od: Dimensions, x: nat, y: nat): Color
    requires |s| == MaxI(od)
  {
    if x < od.width && y < od.height then s[XyToI(od, x, y)] else Black
  }

  /** The buffer `resize_canvas` builds for the new dimensions `nd` from the
      buffer `s` of a canvas with dimensions `od`. */
  function Resized(s: seq<Color>, od: Dimensions, nd: Dimensions): (r: seq<Color>)
    requires |s| == MaxI(od)
    ensures |r| == MaxI(nd)
  {
    XyToICovers(nd);
    seq(MaxI(nd), k requires 0 <= k < MaxI(nd) => ResizedPixel(s, od, k % nd.width, k / nd.width))
  }

  /** A buffer that holds `ResizedPixel` at every grid point of `nd` is the
      resized buffer. */
  lemma ResizedByGrid(b: seq<Color>, s: seq<Color>, od: Dimensions, nd: Dimensions)
    requires |s| == MaxI(od) && |b| == MaxI(nd)
    requires forall i: nat, j: nat :: i < nd.width && j < nd.height ==> b[XyToI(nd, i, j)] == ResizedPixel(s, od, i, j)
    ensures b == Resized(s, od, nd)
  {
    forall k | 0 <= k < |b|
      ensures b[k] == Resized(s, od, nd)[k]
    {
      ResizedByGridAt(b, s, od, nd, k);
    }
  }

  /** The step of `ResizedByGrid` at one index. */
  lemma ResizedByGridAt(b: seq<Color>, s: seq<Color>, od: Dimensions, nd: Dimensions, k: nat)
    requires |s| == MaxI(od) && |b| == MaxI(nd)
    requires forall i: nat, j: nat :: i < nd.width && j < nd.height ==> b[XyToI(nd, i, j)] == ResizedPixel(s, od, i, j)
    requires k < |b|
    ensures b[k] == Resized(s, od, nd)[k]
  {
    XyToISurjective(nd, k);
    ResizedAtIndex(s, od, nd, k);
  }

  /** Entry k of the resized buffer is the pixel of the grid point with
      linear index k. */
  lemma ResizedAtIndex(s: seq<Color>, od: Dimensions, nd: Dimensions, k: nat)
    requires |s| == MaxI(od) && k < MaxI(nd)
    ensures nd.width > 0
    ensures Resized(s, od, nd)[k] == ResizedPixel(s, od, k % nd.width, k / nd.width)
  {
    XyToISurjective(nd, k);
  }

  /** Pixel (x, y) after a resize is the old pixel (x, y) inside the overlap
      of the two canvases and black outside it. */
  lemma ResizedAt(s: seq<Color>, od: Dimensions, nd: Dimensions, x: nat, y: nat)
    requires |s| == MaxI(od)
    requires x < nd.width && y < nd.height
    ensures Resized(s, od, nd)[XyToI(nd, x, y)] ==
      if x < od.width && y < od.height then s[XyToI(od, x, y)] else Black
  {
    var k := XyToI(nd, x, y);
    XyToISurjective(nd, k);
    XyToIInjective(nd, x, y, k % nd.width, k / nd.width);
  }

  /** Resizing to the current dimensions leaves the buffer as it was. */
  lemma ResizedSame(s: seq<Color>, d: Dimensions)
    requires |s| == MaxI(d)
    ensures Resized(s, d, d) == s
  {
    var r := Resized(s, d, d);
    forall k | 0 <= k < |s|
      ensures r[k] == s[k]
    {
      XyToISurjective(d, k);
    }
  }

  /** Resizing away and back keeps every pixel of the region both sizes
      share; the rest is black. */
  lemma ResizedBack(s: seq<Color>, a: Dimensions, b: Dimensions, x: nat, y: nat)
    requires |s| == MaxI(a)
    requires x < a.width && y < a.height
    ensures Resized(Resized(s, a, b), b, a)[XyToI(a, x, y)] ==
      if x < b.width && y < b.height then s[XyToI(a, x, y)] else Black
  {
    ResizedAt(Resized(s, a, b), b, a, x, y);
    if x < b.width && y < b.height {
      ResizedAt(s, a, b, x, y);
    }
  }

  // ---------------------------------------------------------------------------
  // draw_image, as a function on the buffer

  /** Linear index in a canvas of dimensions `d` at which `draw_image` puts
      pixel (i, j) of the other image when drawing it at `pos`. */
  function Target(d: Dimensions, pos: Dimensions, i: nat, j: nat): nat
  {
    XyToI(d, pos.width + i, pos.height + j)
  }

  /** One step of `draw_image`: pixel (i, j) of `o` is written at its target
      index, unless that index is at or past `MaxI(d)`, where the step is
      skipped. A column past the right edge is not clipped: its index lands
      on a later row. */
  function DrawPixel(s: seq<Color>, d: Dimensions, o: seq<Color>, od: Dimensions,
                     pos: Dimensions, i: nat, j: nat): (r: seq<Color>)
    requires |s| == MaxI(d) && |o| == MaxI(od)
    requires i < od.width && j < od.height
    ensures |r| == |s|
  {
    var ours := Target(d, pos, i, j);
    if ours >= MaxI(d) then s else s[ours := o[XyToI(od, i, j)]]
  }

  /** The steps of `draw_image` for column i of `o`, rows 0 .. n-1 in order. */
  function DrawColumn(s: seq<Color>, d: Dimensions, o: seq<Color>, od: Dimensions,
                      pos: Dimensions, i: nat, n: nat): (r: seq<Color>)
    requires |s| == MaxI(d) && |o| == MaxI(od)
    requires i < od.width && n <= od.height
    ensures |r| == |s|
  {
    if n == 0 then s
    else DrawPixel(DrawColumn(s, d, o, od, pos, i, n - 1), d, o, od, pos, i, n - 1)
  }

  /** The steps of `draw_image` for columns 0 .. m-1 of `o`, in order. */
  function DrawColumns(s: seq<Color>, d: Dimensions, o: seq<Color>, od: Dimensions,
                       pos: Dimensions, m: nat): (r: seq<Color>)
    requires |s| == MaxI(d) && |o| == MaxI(od)
    requires m <= od.width
    ensures |r| == |s|
  {
    if m == 0 then s
    else DrawColumn(DrawColumns(s, d, o, od, pos, m - 1), d, o, od, pos, m - 1, od.height)
  }

  /** The buffer after `draw_image` has drawn all of `o` at `pos`. */
  function Drawn(s: seq<Color>, d: Dimensions, o: seq<Color>, od: Dimensions,
                 pos: Dimensions): (r: seq<Color>)
    requires |s| == MaxI(d) && |o| == MaxI(od)
    ensures |r| == MaxI(d)
  {
    DrawColumns(s, d, o, od, pos, od.width)
  }

  /** No index is a target of column i for rows below n. */
  ghost predicate MissesColumn(d: Dimensions, pos: Dimensions, i: nat, n: nat, k: nat)
  {
    forall j: nat :: j < n ==> Target(d, pos, i, j) != k
  }

  /** No index is a target of columns below m (all rows of `od`). */
  ghost predicate MissesColumns(d: Dimensions, od: Dimensions, pos: Dimensions, m: nat, k: nat)
  {
    forall i: nat, j: nat :: i < m && j < od.height ==> Target(d, pos, i, j) != k
  }

  lemma {:induction false} DrawColumnKeeps(s: seq<Color>, d: Dimensions, o: seq<Color>, od: Dimensions,
                                           pos: Dimensions, i: nat, n: nat, k: nat)
    requires |s| == MaxI(d) && |o| == MaxI(od)
    requires i < od.width && n <= od.height
    requires k < |s| && MissesColumn(d, pos, i, n, k)
    ensures DrawColumn(s, d, o, od, pos, i, n)[k] == s[k]
  {
    if n > 0 {
      DrawColumnKeeps(s, d, o, od, pos, i, n - 1, k);
      assert Target(d, pos, i, n - 1) != k;
    }
  }

  lemma {:induction false} DrawColumnsKeeps(s: seq<Color>, d: Dimensions, o: seq<Color>, od: Dimensions,
                                            pos: Dimensions, m: nat, k: nat)
    requires |s| == MaxI(d) && |o| == MaxI(od)
    requires m <= od.width
    requires k < |s| && MissesColumns(d, od, pos, m, k)
    ensures DrawColumns(s, d, o, od, pos, m)[k] == s[k]
  {
    if m > 0 {
      DrawColumnsKeeps(s, d, o, od, pos, m - 1, k);
      var s' := DrawColumns(s, d, o, od, pos, m - 1);
      var c := m - 1;
      assert MissesColumn(d, pos, c, od.height, k) by {
        forall j: nat | j < od.height
          ensures Target(d, pos, c, j) != k
        {
          assert c < m;
        }
      }
      DrawColumnKeeps(s', d, o, od, pos, m - 1, od.height, k);
    }
  }

  /** Every index that no pixel of `o` targets keeps its old value. */
  lemma DrawnKeeps(s: seq<Color>, d: Dimensions, o: seq<Color>, od: Dimensions,
                   pos: Dimensions, k: nat)
    requires |s| == MaxI(d) && |o| == MaxI(od)
    requires k < |s|
    requires forall i: nat, j: nat :: i < od.width && j < od.height ==> Target(d, pos, i, j) != k
    ensures Drawn(s, d, o, od, pos)[k] == s[k]
  {
    DrawColumnsKeeps(s, d, o, od, pos, od.width, k);
  }

  /** `o`, drawn at `pos`, lies wholly inside the canvas of dimensions `d`. */
  ghost predicate Fits(d: Dimensions, od: Dimensions, pos: Dimensions)
  {
    pos.width + od.width <= d.width && pos.height + od.height <= d.height
  }

  /** When `o` is no wider than the canvas, two of its pixels never share a
      target index, wherever it is drawn: their columns are less than a row
      apart. */
  lemma TargetInjective(d: Dimensions, od: Dimensions, pos: Dimensions, i1: nat, j1: nat, i2: nat, j2: nat)
    requires od.width <= d.width
    requires i1 < od.width && i2 < od.width
    ensures Target(d, pos, i1, j1) == Target(d, pos, i2, j2) ==> i1 == i2 && j1 == j2
  {
    XyToIInjective(d, pos.width + i1, pos.height + j1, pos.width + i2, pos.height + j2);
  }

  lemma {:induction false} DrawColumnSets(s: seq<Color>, d: Dimensions, o: seq<Color>, od: Dimensions,
                                          pos: Dimensions, i: nat, n: nat, j: nat)
    requires |s| == MaxI(d) && |o| == MaxI(od)
    requires od.width <= d.width
    requires i < od.width && j < n <= od.height
    requires Target(d, pos, i, j) < |s|
    ensures DrawColumn(s, d, o, od, pos, i, n)[Target(d, pos, i, j)] == o[XyToI(od, i, j)]
  {
    if j < n - 1 {
      DrawColumnSets(s, d, o, od, pos, i, n - 1, j);
      TargetInjective(d, od, pos, i, j, i, n - 1);
    }
  }

  lemma {:induction false} DrawColumnsSets(s: seq<Color>, d: Dimensions, o: seq<Color>, od: Dimensions,
                                           pos: Dimensions, m: nat, i: nat, j: nat)
    requires |s| == MaxI(d) && |o| == MaxI(od)
    requires od.width <= d.width
    requires i < m <= od.width && j < od.height
    requires Target(d, pos, i, j) < |s|
    ensures DrawColumns(s, d, o, od, pos, m)[Target(d, pos, i, j)] == o[XyToI(od, i, j)]
  {
    var s' := DrawColumns(s, d, o, od, pos, m - 1);
    if i < m - 1 {
      DrawColumnsSets(s, d, o, od, pos, m - 1, i, j);
      var c := m - 1;
      assert MissesColumn(d, pos, c, od.height, Target(d, pos, i, j)) by {
        forall j': nat | j' < od.height
          ensures Target(d, pos, c, j') != Target(d, pos, i, j)
        {
          TargetInjective(d, od, pos, c, j', i, j);
        }
      }
      DrawColumnKeeps(s', d, o, od, pos, m - 1, od.height, Target(d, pos, i, j));
    } else {
      DrawColumnSets(s', d, o, od, pos, i, od.height, j);
    }
  }

  /** When `o` is no wider than the canvas, every pixel (i, j) of `o` whose
      linear target index lies below `MaxI(d)` is found there afterwards:
      no later write of the blit overwrites it. A pixel whose column runs
      past the right edge has such an index on the next row. */
  lemma DrawnSetsInRange(s: seq<Color>, d: Dimensions, o: seq<Color>, od: Dimensions,
                         pos: Dimensions, i: nat, j: nat)
    requires |s| == MaxI(d) && |o| == MaxI(od)
    requires od.width <= d.width
    requires i < od.width && j < od.height
    requires Target(d, pos, i, j) < MaxI(d)
    ensures Drawn(s, d, o, od, pos)[Target(d, pos, i, j)] == o[XyToI(od, i, j)]
  {
    DrawColumnsSets(s, d, o, od, pos, od.width, i, j);
  }

  /** When `o` fits inside the canvas at `pos`, pixel (pos.x + i, pos.y + j)
      of the result is pixel (i, j) of `o`. */
  lemma DrawnSets(s: seq<Color>, d: Dimensions, o: seq<Color>, od: Dimensions,
                  pos: Dimensions, i: nat, j: nat)
    requires |s| == MaxI(d) && |o| == MaxI(od)
    requires Fits(d, od, pos)
    requires i < od.width && j < od.height
    ensures Drawn(s, d, o, od, pos)[XyToI(d, pos.width + i, pos.height + j)] == o[XyToI(od, i, j)]
  {
    DrawnSetsInRange(s, d, o, od, pos, i, j);
  }

  /** A column past the right edge is not clipped: drawing a 2x1 image at
      (1, 0) on a 2x2 canvas puts its first pixel at (1, 0), index 1, and
      its second, whose column 2 lies past the edge, at index 2, which is
      the start of row 1. */
  lemma DrawnWrapsOverflowingColumn(s: seq<Color>, c0: Color, c1: Color)
    requires |s| == 4
    ensures Drawn(s, Dimensions(2, 2), [c0, c1], Dimensions(2, 1), Dimensions(1, 0)) == s[1 := c0][2 := c1]
  {
    var d, od, pos := Dimensions(2, 2), Dimensions(2, 1), Dimensions(1, 0);
    var o := [c0, c1];
    assert MaxI(d) == 4 && MaxI(od) == 2;
    var s1 := DrawColumns(s, d, o, od, pos, 1);
    assert Drawn(s, d, o, od, pos) == s1[2 := c1] by {
      assert DrawColumn(s1, d, o, od, pos, 1, 0) == s1;
      assert Drawn(s, d, o, od, pos) == DrawColumns(s, d, o, od, pos, 2) == DrawColumn(s1, d, o, od, pos, 1, 1) == DrawPixel(s1, d, o, od, pos, 1, 0);
      assert Target(d, pos, 1, 0) == 2 && XyToI(od, 1, 0) == 1;
    }
    assert s1 == s[1 := c0] by {
      assert DrawColumns(s, d, o, od, pos, 0) == s;
      assert DrawColumn(s, d, o, od, pos, 0, 0) == s;
      assert s1 == DrawColumn(s, d, o, od, pos, 0, 1) == DrawPixel(s, d, o, od, pos, 0, 0);
      assert Target(d, pos, 0, 0) == 1 && XyToI(od, 0, 0) == 0;
    }
  }

  // ---------------------------------------------------------------------------
  // The canvas object

  class Image {
    var dims: Dimensions
    var container: array<Color>

    /** The canvas invariant: one colour per grid point. */
    ghost predicate Valid()
      reads this
    {
      container.Length == MaxI(dims)
    }

    /** `Image::from_buffer`: the colours of `buf`, taken three bytes at a
        time, with the given dimensions. The product of the dimensions is not
        checked against the buffer, so the invariant holds only when the
        caller passes matching sizes (as `From<ImageBuffer>` does). */
    constructor FromBuffer(buf: seq<Byte>, width: nat, height: nat)
      requires |buf| % 3 == 0
      ensures dims == Dimensions(width, height)
      ensures fresh(container) && container[..] == Colors(buf).value
      ensures Valid() <==> |buf| == 3 * width * height
    {
      var colors := Colors(buf).value;
      dims := Dimensions(width, height);
      container := new Color[|colors|](k requires 0 <= k < |colors| => colors[k]);
      new;
      assert container[..] == colors;
    }

    /** `dimensions()`: the current dimensions. */
    function Dims(): (d: Dimensions)
      reads this
      ensures Valid() ==> container.Length == MaxI(d)
    {
      dims
    }

    /** `resize_canvas`: a fresh buffer of the new size, black except for the
        overlap with the old canvas, which is copied point by point; returns
        the previous dimensions. */
    method ResizeCanvas(nd: Dimensions) returns (oldDims: Dimensions)
      requires Valid()
      modifies this
      ensures Valid() && dims == nd && oldDims == old(dims)
      ensures fresh(container)
      ensures container[..] == Resized(old(container[..]), old(dims), nd)
    {
      oldDims := dims;
      var od, src := dims, container;
      ghost var s := src[..];
      var buffer := new Color[MaxI(nd)](_ => Black);
      var mw := if od.width < nd.width then od.width else nd.width;
      var mh := if od.height < nd.height then od.height else nd.height;
      for x := 0 to mw
        invariant forall i: nat, j: nat :: i < nd.width && j < nd.height ==>
          buffer[XyToI(nd, i, j)] == if i < x then ResizedPixel(s, od, i, j) else Black
      {
        for y := 0 to mh
          invariant forall i: nat, j: nat :: i < nd.width && j < nd.height ==>
            buffer[XyToI(nd, i, j)] ==
              if i < x || (i == x && j < y) then ResizedPixel(s, od, i, j) else Black
        {
          XyToIOnlyAt(nd, x, y);
          buffer[XyToI(nd, x, y)] := src[XyToI(od, x, y)];
        }
      }
      ResizedByGrid(buffer[..], s, od, nd);
      dims, container := nd, buffer;
    }

    /** `draw_image`: every pixel of `other`, column by column, is written
        at its linear index here, skipping indices at or past `MaxI(dims)`. */
    method DrawImage(other: Image, pos: Dimensions)
      requires Valid() && other.Valid()
      requires other.container != container
      modifies container
      ensures Valid()
      ensures container[..] == Drawn(old(container[..]), dims, other.container[..], other.dims, pos)
    {
      ghost var s := container[..];
      ghost var o := other.container[..];
      for x := pos.width to pos.width + other.dims.width
        invariant container[..] == DrawColumns(s, dims, o, other.dims, pos, x - pos.width)
      {
        for y := pos.height to pos.height + other.dims.height
          invariant container[..] == DrawColumn(DrawColumns(s, dims, o, other.dims, pos, x - pos.width),
                                                dims, o, other.dims, pos, x - pos.width, y - pos.height)
        {
          var ours := XyToI(dims, x, y);
          var theirs := XyToI(other.dims, x - pos.width, y - pos.height);
          if ours >= MaxI(dims) {
            continue;
          }
          container[ours] := other.container[theirs];
        }
      }
    }
  }
}
