# colorogram: the canvas and the channel counter, in Dafny

colorogram reads an RGB image, counts how often each 8-bit value occurs in
each of the red, green and blue channels, renders the three 256-bucket
histograms as a bar chart, and saves the source with the chart stacked
beneath it. This project models the integer part of that pipeline:

- **`Pixels`** (`pixels.dfy`, from `src/image.rs`): the value types `Color`
  (three `u8` components, `Byte` here) and `Dimensions`, the row-major
  index arithmetic `xytoi` / `maxi`, `Add`, the colour conversions, the
  split of a flat byte buffer into colours (`from_buffer`) and the flatten
  back to bytes (`as_bytes`).
- **`Canvas`** (`canvas.dfy`, from `src/image.rs`): the `Image` class with
  its `dims` field and its `container` array. `ResizeCanvas` and
  `DrawImage` are methods that work like the source's nested loops. Each is
  proved against a function on buffers: `Resized` for the resize and
  `Drawn` for the blit. `Drawn` is an ordered fold of single-pixel writes,
  so when two writes land on the same index the later one wins, as in the
  source. The lemmas about these functions give the properties: what is
  copied, what turns black, what is kept, and where a blit that does not
  fit wraps.
- **`Colorogram`** (`colorogram.dfy`, from `src/main.rs`): `count_whole_image`
  as a method that increments three local `array<nat>` tables of 256
  buckets in place, then computes a running maximum (`LargestBucket`). It returns the tables
  as sequences, because the source returns its `[f64; 256]` arrays by
  value. The method is specified by `Tally` / `Histogram`. The module also
  has the resize-then-blit composition at `main` lines 29–35, and lemmas
  showing that it stacks the two row-major buffers.

The counts are `f64` in the source. They are always whole numbers far
below 2^53, so `nat` stands for them. Integers are unbounded, and the
model assumes `usize` arithmetic never overflows.

Four behaviours of the code shape the model:

- The blit clips only on the linear index (`src/image.rs:42`). It skips an
  index at or past `maxi()`. A column past the right edge is not dropped:
  it wraps onto the next row (`DrawnSetsInRange`,
  `DrawnWrapsOverflowingColumn`). Only when the drawn image fits does every
  destination pixel land at its own (x, y) (`DrawnSets`).
- `from_buffer` does not check the buffer against `width * height`. The
  canvas invariant `Valid()` holds after it exactly when
  `|buf| == 3 * width * height`.
- The composition resizes the canvas to the source's width and its height
  plus the histogram's. The histogram is made with the source's width
  (`src/main.rs:27`), so `StackUnder` requires equal widths.
- `count_whole_image` walks the byte data in steps of one byte, cycling
  through the three channels, for any length. The per-channel totals are
  `(n+2)/3`, `(n+1)/3` and `n/3`.

## Model

| member | source | states |
|---|---|---|
| Pixels.XyToI | src/image.rs:114-116 | for x < width and y < height the row-major index y*width + x lies below maxi() |
| Pixels.XyToIInjective | src/image.rs:114-116 | two points whose x coordinates are less than a width apart share an index only if they are the same point; in particular distinct grid points have distinct indices |
| Pixels.XyToISurjective | src/image.rs:118-120 | every index below maxi() is the index of the grid point (i % width, i / width), which lies inside the grid; so a non-empty canvas has width > 0 |
| Pixels.Add | src/image.rs:132-141 | the component-wise sum contains both operands: each dimension is at least that of the left operand, and the sum has at least as many points as the two operands together |
| Pixels.Channels | src/image.rs:177-185 | iterating a colour yields exactly three components |
| Pixels.ColorConversions | src/image.rs:151-175 | Color::new, From<(u8,u8,u8)> and From<&[u8]> build the same colour from the same three bytes, and iterating it gives those bytes back in the order r, g, b |
| Pixels.ColorSliceRoundTrip | src/image.rs:157-185 | building a colour from its own iteration gives the colour back |
| Pixels.Colors | src/image.rs:10-13 | splitting into triples succeeds exactly when the length is a multiple of 3, and then yields length/3 colours |
| Pixels.ColorsAt | src/image.rs:10-13 | colour i of the split buffer is (buf[3i], buf[3i+1], buf[3i+2]) |
| Pixels.AsBytes | src/image.rs:52-61 | the flattened buffer has three bytes per pixel |
| Pixels.AsBytesAt | src/image.rs:143-149 | byte 3i+k of the flattened buffer is component k (r, g, b) of pixel i, following the repr(C) field order |
| Pixels.ColorsOfAsBytes | src/image.rs:52-61 | splitting the flattened pixels gives the pixels back |
| Pixels.AsBytesOfColors | src/image.rs:9-13 | flattening the colours of a buffer made of whole triples gives the buffer back |
| Canvas.Resized | src/image.rs:20-33 | the resized buffer has width*height of the new dimensions entries |
| Canvas.ResizedAt | src/image.rs:23-29 | after a resize, pixel (x, y) is the old pixel (x, y) when x < min(old w, new w) and y < min(old h, new h), and black otherwise |
| Canvas.ResizedSame | src/image.rs:23-31 | resizing to the current dimensions leaves the buffer unchanged |
| Canvas.ResizedBack | src/image.rs:20-33 | resizing to b and back to a keeps every pixel of the region shared by a and b, and makes the rest black |
| Canvas.DrawPixel | src/image.rs:39-46 | one step of the blit keeps the buffer length: it writes in place or skips an index at or past maxi() |
| Canvas.DrawColumn | src/image.rs:38-47 | drawing one column of the other image keeps the buffer length |
| Canvas.DrawColumns | src/image.rs:37-48 | drawing the first m columns keeps the buffer length |
| Canvas.Drawn | src/image.rs:35-49 | the blit never changes the buffer length: nothing at or past maxi() is written |
| Canvas.DrawnKeeps | src/image.rs:35-49 | every index that no pixel of the other image targets keeps its old value |
| Canvas.TargetInjective | src/image.rs:37-40 | when the other image is no wider than the canvas, no two of its pixels share a destination index, wherever it is drawn |
| Canvas.DrawnSetsInRange | src/image.rs:37-46 | for any position, when the other image is no wider than the canvas, each of its pixels (i, j) whose linear index (pos.y + j)*w + pos.x + i lies below maxi() is found at that index afterwards, also when pos.x + i is past the right edge |
| Canvas.DrawnSets | src/image.rs:37-46 | when pos.x + other.w <= w and pos.y + other.h <= h, pixel (pos.x+i, pos.y+j) afterwards is the other image's pixel (i, j) |
| Canvas.DrawnWrapsOverflowingColumn | src/image.rs:39-46 | clipping is on the linear index only: a column past the right edge lands at the start of the next row |
| Canvas.Image.FromBuffer | src/image.rs:9-18 | the new canvas has the given dimensions and the colours of the buffer, and satisfies the size invariant exactly when the buffer holds 3*width*height bytes |
| Canvas.Image.Dims | src/image.rs:63-65 | returns the current dimensions, which on a valid canvas account for every entry of the container |
| Canvas.Image.ResizeCanvas | src/image.rs:20-33 | returns the previous dimensions; afterwards dims are the requested ones, the invariant holds, and the fresh container is Resized of the old one |
| Canvas.Image.DrawImage | src/image.rs:35-49 | dims and the container object are unchanged, the invariant is kept, and the container's contents become Drawn of the old contents |
| Colorogram.Histogram | src/main.rs:70-83 | each channel table has exactly 256 buckets |
| Colorogram.SumIncrement | src/main.rs:77-81 | incrementing one bucket raises the table's total by exactly one |
| Colorogram.TallySnoc | src/main.rs:75-83 | a further byte at position n is counted only in bucket data[n] of channel n % 3 |
| Colorogram.HistogramSum | src/main.rs:75-83 | over n bytes the red table totals (n+2)/3, the green (n+1)/3 and the blue n/3 |
| Colorogram.EveryByteCountedOnce | src/main.rs:75-83 | the three tables together total the length of the data: each byte is counted exactly once |
| Colorogram.TallyPixel | src/main.rs:75-83 | after whole pixels, one more pixel (r, g, b) adds one to red bucket r, green bucket g and blue bucket b, and nothing to any other bucket |
| Colorogram.TwoEqualPixels | src/main.rs:69-83 | two equal pixels (r, g, b) give red[r] = green[g] = blue[b] = 2 and every other bucket 0 |
| Colorogram.CountWholeImage | src/main.rs:69-93 | bucket v of the red, green or blue table counts the positions i with i % 3 = 0, 1 or 2 holding v; the totals are (n+2)/3, (n+1)/3 and n/3; max is at least every one of the 768 buckets and equal to one of them; empty data gives max 0 |
| Colorogram.LargestBucket | src/main.rs:86-90 | the running maximum from 0 over the 256 positions is at least every one of the 768 buckets and equal to one of them |
| Colorogram.StackedRows | src/main.rs:29-35 | after the resize to (w, h + hh) and the blit at (0, h), rows 0..h are the source's rows and rows h..h+hh are the histogram's |
| Colorogram.StackedTop | src/main.rs:31-35 | the first w*h entries of the composed buffer are the source's |
| Colorogram.StackedBottom | src/main.rs:31-35 | the entries after the first w*h are the histogram's, in order |
| Colorogram.StackedIsConcat | src/main.rs:29-35 | the composed buffer is the source buffer followed by the histogram buffer |
| Colorogram.StackUnder | src/main.rs:27-35 | returns the old dimensions (so old_dims.height is the source height); the canvas becomes (w, h + hh), stays valid and holds the source followed by the histogram |

## Left out

- Argument parsing, the usage message, `read_image`, `Image::save` and `Image::save_png` (`src/main.rs:10-25`, `src/main.rs:44-67`, `src/image.rs:67-90`): command-line handling and file I/O through the external `image` crate.
- `From<ImageBuffer> for Image` (`src/image.rs:93-101`): the buffer type belongs to the external crate. Its effect is `Image.FromBuffer` on the samples, whose length is 3*width*height.
- The `unsafe` `align_to` in `as_bytes` (`src/image.rs:54-59`) is modelled only as the flattening it amounts to (`AsBytes`). The aliasing and the borrowed slice are not modelled.
- `generate_histogram_image` and `make_histogram` (`src/main.rs:39-42`, `src/main.rs:145-181`): the column split, the lerp and the bar heights are `f32`/`f64` arithmetic with float-to-int casts. In `StackUnder` the histogram canvas is a parameter, of the source's width.
- `make_waveform_graph` (`src/main.rs:97-143`): it rests on `f64::log` with a data-dependent base and on float rounding.
- The `Instant::now()` timing in `count_whole_image` (`src/main.rs:74`): its result is unused.
- `Dimensions::new` and `From<(usize, usize)> for Dimensions` (`src/image.rs:110-112`, `src/image.rs:123-130`): both are the datatype constructor `Dimensions(width, height)`.
- `Color::new` and `From<(u8, u8, u8)> for Color` (`ColorNew`, `ColorFromTuple`) have no contract of their own. What they state is in `ColorConversions`.
- `Pixels.MaxI` (`maxi`, `src/image.rs:118-120`) has no contract of its own. What it states is the bound in `XyToI` and the coverage of every index in `XyToISurjective`.
- `Pixels.ColorFromSlice` (`src/image.rs:157-165`) has no contract of its own; `ColorConversions` and `ColorSliceRoundTrip` state what it builds. Its `requires |s| >= 3` leaves out the panic on a slice shorter than three bytes; nothing in the core calls it with one. The same out-of-bounds index in `from_buffer`, on a short last chunk, is modelled by `Colors` as `None`.
- `Canvas.Image.FromBuffer` requires `|buf| % 3 == 0`, which leaves out one error path. In `from_buffer` a buffer whose length is not a multiple of 3 panics on its last, short chunk; `Colors` returns `None` for it. At the only call site, `From<ImageBuffer>` (`src/image.rs:93-101`), the samples are always 3*width*height bytes.
- `usize` overflow in `xytoi`, `maxi`, `Add` and the loop bounds is not modelled. Integers are unbounded.
- The `f64` counts and `f64::max` are modelled as `nat` and an integer maximum. The counts are whole numbers below 2^53, and the maximum is never taken over NaN.
- `Canvas.Image.DrawImage` requires the other image's container to be a different array from this one. In the source the borrow rules guarantee this, because `&mut self` and `&other` cannot alias.
