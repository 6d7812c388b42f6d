// A raw Gray8 raster (one byte per pixel, row-major) drawn in two colours:
// a zero byte becomes the first colour, any other byte the second. The
// pixels are produced lazily by the `ContiguousPixels` iterator, which skips
// bytes between rows so that a sub-rectangle can be drawn without copying.

module RecolourImage {
  import opened Wrappers
  import opened Graphics

  datatype Size = Size(width: nat, height: nat)

  datatype Point = Point(x: int, y: int)

  /** `RecolouredImageRaw`: the data slice, the size in pixels and the recolouring. */
  datatype RecolouredImageRaw = RecolouredImageRaw(data: seq<u8>, size: Size, recolour: Recolour)

  /** Bits per pixel of the `Gray8` raw format the data is packed in. */
  const GRAY8_BITS_PER_PIXEL: nat := 8

  /** Length of each row in bytes, rounded up to a whole byte. */
  function BytesPerRow(width: nat, bitsPerPixel: nat): nat
  {
    (width * bitsPerPixel + 7) / 8
  }

  /** With one byte per pixel a row is exactly `width` bytes long. */
  lemma BytesPerRowGray8(width: nat)
    ensures BytesPerRow(width, GRAY8_BITS_PER_PIXEL) == width
  {
  }

  /** Every image `New` builds is of this shape. */
  ghost predicate WellFormed(img: RecolouredImageRaw)
  {
    && (img.size.width == 0 ==> img.data == [] && img.size.height == 0)
    && (img.size.width > 0 ==> img.size.height == |img.data| / img.size.width)
  }

  /** `RecolouredImageRaw::new`: a zero width gives an empty 0x0 image
      without dividing; otherwise the height is the number of whole rows. */
  function New(data: seq<u8>, width: nat, recolour: Recolour): (img: RecolouredImageRaw)
    ensures WellFormed(img) && img.recolour == recolour
    ensures width == 0 ==> img.data == [] && img.size == Size(0, 0)
    ensures width > 0 ==> img.data == data && img.size.width == width
    ensures img.size.height * img.size.width <= |img.data|
    ensures |img.data| < (img.size.height + 1) * img.size.width || width == 0
  {
    if width == 0 then
      RecolouredImageRaw([], Size(0, 0), recolour)
    else
      BytesPerRowGray8(width);
      var height := |data| / BytesPerRow(width, GRAY8_BITS_PER_PIXEL);
      RowsFit(|data|, width);
      RecolouredImageRaw(data, Size(width, height), recolour)
  }

  lemma RowsFit(len: nat, width: nat)
    requires width > 0
    ensures (len / width) * width <= len < (len / width + 1) * width
  {
  }

  /** `data_width`: the stride of a row in pixels, which for Gray8 is the width. */
  function DataWidth(img: RecolouredImageRaw): nat
  {
    img.size.width
  }

  function RecolourByte(rc: Recolour, b: u8): Colour
  {
    if b > 0 then rc.nonzero else rc.zero
  }

  predicate InBounds(img: RecolouredImageRaw, p: Point)
  {
    0 <= p.x < img.size.width && 0 <= p.y < img.size.height
  }

  /** `GetPixel::pixel`: a bounds-checked lookup of the byte at `x + y * data_width`. */
  function Pixel(img: RecolouredImageRaw, p: Point): Option<Colour>
  {
    if p.x < 0 || p.y < 0 || p.x >= img.size.width || p.y >= img.size.height then None
    else
      var i := p.x + p.y * DataWidth(img);
      if i < |img.data| then Some(RecolourByte(img.recolour, img.data[i])) else None
  }

  lemma IndexInImage(w: nat, h: nat, x: nat, y: nat, len: nat)
    requires x < w && y < h && h * w <= len
    ensures x + y * w < len
  {
    assert y * w <= (h - 1) * w by { MulMonotone(y, h - 1, w); }
    assert (h - 1) * w + w == h * w;
  }

  /** A pixel is absent exactly outside [0,width) x [0,height); inside, it is
      the recoloured byte at `x + y * width`, which always exists. */
  lemma PixelSpec(img: RecolouredImageRaw, p: Point)
    requires WellFormed(img)
    ensures Pixel(img, p).None? <==> !InBounds(img, p)
    ensures InBounds(img, p) ==>
              p.x + p.y * img.size.width < |img.data| &&
              Pixel(img, p) == Some(RecolourByte(img.recolour, img.data[p.x + p.y * img.size.width]))
  {
    if InBounds(img, p) {
      RowsFit(|img.data|, img.size.width);
      IndexInImage(img.size.width, img.size.height, p.x, p.y, |img.data|);
    }
  }

  // ---------------------------------------------------------------------
  // The pixel stream of `ContiguousPixels`

  /** The bytes the iterator yields, up to the first `None`, from a state with
      slice position `pos`, `remX` pixels left in the current row and `remY`
      rows still to start (each after skipping `rowSkip` bytes). Because the
      first row is emitted before `remY` is counted down, a stream of height h
      has room for h + 1 rows. */
  function Yield(data: seq<u8>, pos: nat, remX: nat, width: nat, remY: nat, rowSkip: nat): (r: seq<u8>)
    requires pos <= |data|
    requires remY > 0 ==> width > 0
    decreases remY, remX
  {
    if remX > 0 then
      if pos < |data| then [data[pos]] + Yield(data, pos + 1, remX - 1, width, remY, rowSkip) else []
    else if remY == 0 then []
    else if pos + rowSkip < |data| then
      [data[pos + rowSkip]] + Yield(data, pos + rowSkip + 1, width - 1, width, remY - 1, rowSkip)
    else []
  }

  /** The bytes of a freshly built `ContiguousPixels`: `initialSkip` bytes
      are skipped (or the slice is exhausted), and a zero width leaves no rows. */
  function StreamBytes(data: seq<u8>, size: Size, initialSkip: nat, rowSkip: nat): seq<u8>
  {
    Yield(data, Min(initialSkip, |data|), size.width, size.width,
          if size.width > 0 then size.height else 0, rowSkip)
  }

  function Colours(rc: Recolour, bytes: seq<u8>): (r: seq<Colour>)
    ensures |r| == |bytes|
    ensures forall k :: 0 <= k < |bytes| ==> r[k] == RecolourByte(rc, bytes[k])
  {
    seq(|bytes|, k requires 0 <= k < |bytes| => RecolourByte(rc, bytes[k]))
  }

  /** The first `n` elements of `s`, or all of it if it is shorter. */
  function Take<T>(s: seq<T>, n: nat): (r: seq<T>)
    ensures |r| == Min(|s|, n) && r == s[..|r|]
  {
    if |s| <= n then s else s[..n]
  }

  /** What `fill_contiguous` draws from a stream: the area and the first
      area-size pixels. */
  function Fill(t: Target, area: Rect, stream: seq<Colour>): Issued
  {
    Issue(t, FillContiguous(area, Take(stream, area.width * area.height)))
  }

  /** `ImageDrawable::draw`: the whole bounding box, no skips. */
  function Draw(img: RecolouredImageRaw, t: Target): Issued
  {
    var rowSkip := DataWidth(img) - img.size.width;
    Fill(t, Rect(0, 0, img.size.width, img.size.height),
         Colours(img.recolour, StreamBytes(img.data, img.size, 0, rowSkip)))
  }

  predicate SubAreaValid(img: RecolouredImageRaw, area: Rect)
  {
    !area.IsZeroSized() && area.x >= 0 && area.y >= 0
    && area.x + area.width <= img.size.width
    && area.y + area.height <= img.size.height
  }

  /** `ImageDrawable::draw_sub_image`: an area that is zero-sized, has a
      negative origin or reaches past the image draws nothing and succeeds. */
  function DrawSubImage(img: RecolouredImageRaw, t: Target, area: Rect): Issued
  {
    if area.IsZeroSized() || area.x < 0 || area.y < 0
       || area.x + area.width > img.size.width
       || area.y + area.height > img.size.height
    then Issued(t, Ok)
    else
      var dataWidth := DataWidth(img);
      var initialSkip := area.y * dataWidth + area.x;
      var rowSkip := dataWidth - area.width;
      Fill(t, Rect(0, 0, area.width, area.height),
           Colours(img.recolour, StreamBytes(img.data, Size(area.width, area.height), initialSkip, rowSkip)))
  }

  // ---------------------------------------------------------------------
  // Row and column arithmetic of the stream

  /** The stream never holds more than its counters allow. */
  lemma {:induction false} YieldBound(data: seq<u8>, pos: nat, remX: nat, width: nat, remY: nat, rowSkip: nat)
    requires pos <= |data|
    requires remY > 0 ==> width > 0
    ensures |Yield(data, pos, remX, width, remY, rowSkip)| <= remX + remY * width
    decreases remY, remX
  {
    if remX > 0 {
      if pos < |data| {
        YieldBound(data, pos + 1, remX - 1, width, remY, rowSkip);
      }
    } else if remY > 0 && pos + rowSkip < |data| {
      YieldBound(data, pos + rowSkip + 1, width - 1, width, remY - 1, rowSkip);
      assert (remY - 1) * width + width == remY * width;
    }
  }

  /** Once the slice is exhausted nothing more is yielded. */
  lemma YieldExhausted(data: seq<u8>, remX: nat, width: nat, remY: nat, rowSkip: nat)
    requires remY > 0 ==> width > 0
    ensures Yield(data, |data|, remX, width, remY, rowSkip) == []
  {
  }

  /** A run of `remX` consecutive bytes, when they all exist. */
  lemma {:induction false} YieldRun(data: seq<u8>, pos: nat, remX: nat, width: nat, remY: nat, rowSkip: nat)
    requires pos + remX <= |data|
    requires remY > 0 ==> width > 0
    ensures Yield(data, pos, remX, width, remY, rowSkip)
            == data[pos..pos + remX] + Yield(data, pos + remX, 0, width, remY, rowSkip)
    decreases remX
  {
    if remX > 0 {
      var tail := Yield(data, pos + 1, remX - 1, width, remY, rowSkip);
      var after := Yield(data, pos + remX, 0, width, remY, rowSkip);
      assert Yield(data, pos, remX, width, remY, rowSkip) == [data[pos]] + tail;
      YieldRun(data, pos + 1, remX - 1, width, remY, rowSkip);
      assert tail == data[pos + 1..pos + remX] + after;
      assert data[pos..pos + remX] == [data[pos]] + data[pos + 1..pos + remX];
    }
  }

  /** `j * s` by repeated addition, which keeps the row arithmetic linear. */
  function Times(j: nat, s: nat): (r: nat)
    ensures r == j * s
  {
    if j == 0 then 0 else s + Times(j - 1, s)
  }

  lemma {:induction false} TimesRowBound(j: nat, h: nat, i: nat, w: nat)
    requires j < h && i < w
    ensures Times(j, w) + i < Times(h, w)
    decreases h
  {
    if j < h - 1 {
      TimesRowBound(j, h - 1, i, w);
    }
  }

  /** From the end of a row: row j after it starts `rowSkip` bytes on plus j
      strides of `width + rowSkip`, provided all of row j's bytes exist. */
  lemma {:induction false} YieldRowAt(data: seq<u8>, q: nat, width: nat, remY: nat, rowSkip: nat, j: nat, i: nat)
    requires q <= |data| && width > 0 && j < remY && i < width
    requires q + rowSkip + Times(j, width + rowSkip) + width <= |data|
    ensures var y := Yield(data, q, 0, width, remY, rowSkip);
            Times(j, width) + i < |y| && y[Times(j, width) + i] == data[q + rowSkip + Times(j, width + rowSkip) + i]
    decreases j
  {
    var start := q + rowSkip;
    var row := data[start..start + width];
    var rest := Yield(data, start + width, 0, width, remY - 1, rowSkip);
    var y := Yield(data, q, 0, width, remY, rowSkip);
    YieldNextRow(data, q, width, remY, rowSkip);
    assert y == row + rest && |row| == width;
    if j == 0 {
      assert Times(j, width) == 0 && Times(j, width + rowSkip) == 0;
      assert y[i] == row[i] == data[start + i];
    } else {
      var tj, tj1 := Times(j, width), Times(j - 1, width);
      var sj, sj1 := Times(j, width + rowSkip), Times(j - 1, width + rowSkip);
      assert tj == width + tj1 && sj == width + rowSkip + sj1;
      YieldRowAt(data, start + width, width, remY - 1, rowSkip, j - 1, i);
      assert tj1 + i < |rest| && rest[tj1 + i] == data[start + width + rowSkip + sj1 + i];
      assert y[tj + i] == rest[tj1 + i];
    }
  }

  /** At the end of a row, the next row is `width` bytes after a skip of
      `rowSkip`, followed by the rows after it. */
  lemma YieldNextRow(data: seq<u8>, q: nat, width: nat, remY: nat, rowSkip: nat)
    requires width > 0 && remY > 0 && q + rowSkip + width <= |data|
    ensures Yield(data, q, 0, width, remY, rowSkip) ==
            data[q + rowSkip..q + rowSkip + width] + Yield(data, q + rowSkip + width, 0, width, remY - 1, rowSkip)
  {
    var start := q + rowSkip;
    var rest := Yield(data, start + width, 0, width, remY - 1, rowSkip);
    var tail := Yield(data, start + 1, width - 1, width, remY - 1, rowSkip);
    assert Yield(data, q, 0, width, remY, rowSkip) == [data[start]] + tail;
    YieldRun(data, start + 1, width - 1, width, remY - 1, rowSkip);
    assert tail == data[start + 1..start + width] + rest;
    assert data[start..start + width] == [data[start]] + data[start + 1..start + width];
  }

  /** The stream of a fresh iterator over h rows of width w starting at byte
      p: pixel (i, j) is byte `p + j * (w + rowSkip) + i`, for every row j <= h
      whose bytes exist (row h being the extra one). */
  lemma StreamPixel(data: seq<u8>, p: nat, w: nat, h: nat, rowSkip: nat, j: nat, i: nat)
    requires w > 0 && j <= h && i < w
    requires p + Times(j, w + rowSkip) + w <= |data|
    ensures var y := StreamBytes(data, Size(w, h), p, rowSkip);
            Times(j, w) + i < |y| && y[Times(j, w) + i] == data[p + Times(j, w + rowSkip) + i]
  {
    var y := StreamBytes(data, Size(w, h), p, rowSkip);
    YieldRun(data, p, w, w, h, rowSkip);
    var rest := Yield(data, p + w, 0, w, h, rowSkip);
    assert y == data[p..p + w] + rest;
    if j > 0 {
      YieldRowAt(data, p + w, w, h, rowSkip, j - 1, i);
    }
  }

  /** `ContiguousPixels` yields at most h + 1 rows, and exactly h + 1 when the
      data reaches that far: one row more than the area it was built for. */
  lemma StreamExtraRow(data: seq<u8>, p: nat, w: nat, h: nat, rowSkip: nat)
    requires w > 0 && p <= |data|
    ensures |StreamBytes(data, Size(w, h), p, rowSkip)| <= (h + 1) * w
    ensures p + h * (w + rowSkip) + w <= |data| ==> |StreamBytes(data, Size(w, h), p, rowSkip)| == (h + 1) * w
  {
    YieldBound(data, p, w, w, h, rowSkip);
    assert w + h * w == (h + 1) * w;
    if p + h * (w + rowSkip) + w <= |data| {
      StreamPixel(data, p, w, h, rowSkip, h, w - 1);
    }
  }

  /** A stream built for width 0 is empty: no `width - 1` underflow happens. */
  lemma StreamZeroWidth(data: seq<u8>, h: nat, p: nat, rowSkip: nat)
    ensures StreamBytes(data, Size(0, h), p, rowSkip) == []
  {
  }

  lemma SubAreaFits(img: RecolouredImageRaw, area: Rect, j: nat, i: nat)
    requires WellFormed(img) && SubAreaValid(img, area) && j < area.height
    ensures area.y * img.size.width + area.x + j * img.size.width + area.width <= |img.data|
    ensures area.y * img.size.width + area.x + j * img.size.width + i == area.x + i + (area.y + j) * img.size.width
  {
    var W := img.size.width;
    var H := img.size.height;
    RowsFit(|img.data|, W);
    assert area.y + j <= H - 1;
    MulMonotone(area.y + j, H - 1, W);
    assert area.y * W + j * W == (area.y + j) * W;
    assert (H - 1) * W + W == H * W;
  }

  /** The fill a valid area issues: area-size pixels taken from the stream
      that starts at `y0 * width + x0` and skips `width - area.width` bytes
      between rows. */
  lemma SubImageFill(img: RecolouredImageRaw, t: Target, area: Rect)
    requires WellFormed(img) && SubAreaValid(img, area) && t.accepts > 0
    ensures var r := DrawSubImage(img, t, area);
            var y := StreamBytes(img.data, Size(area.width, area.height),
                                 area.y * img.size.width + area.x, img.size.width - area.width);
            r.status == Ok && r.target.drawn == t.drawn + [FillContiguous(Rect(0, 0, area.width, area.height),
                                                                   Take(Colours(img.recolour, y), area.width * area.height))] &&
            |y| >= area.width * area.height
  {
    var W := img.size.width;
    var aw, ah := area.width, area.height;
    var p := area.y * W + area.x;
    SubAreaFits(img, area, ah - 1, 0);
    StreamPixel(img.data, p, aw, ah, W - aw, ah - 1, aw - 1);
    assert Times(ah - 1, aw) + aw == Times(ah, aw);
  }

  /** For a valid area, `draw_sub_image` issues one fill whose pixel (i, j)
      is the image's pixel (x0 + i, y0 + j). */
  lemma SubImagePixel(img: RecolouredImageRaw, t: Target, area: Rect, i: nat, j: nat)
    requires WellFormed(img) && SubAreaValid(img, area) && t.accepts > 0
    requires i < area.width && j < area.height
    ensures var r := DrawSubImage(img, t, area);
            r.status == Ok && |r.target.drawn| == |t.drawn| + 1 && r.target.drawn[|t.drawn|].FillContiguous?
    ensures var c := DrawSubImage(img, t, area).target.drawn[|t.drawn|];
            var k := j * area.width + i;
            k < |c.pixels| && Pixel(img, Point(area.x + i, area.y + j)) == Some(c.pixels[k])
  {
    var W := img.size.width;
    var aw, ah := area.width, area.height;
    var y := StreamBytes(img.data, Size(aw, ah), area.y * W + area.x, W - aw);
    SubImageFill(img, t, area);
    var c := DrawSubImage(img, t, area).target.drawn[|t.drawn|];
    assert c.pixels == Take(Colours(img.recolour, y), aw * ah);
    var k := j * aw + i;
    var idx := area.x + i + (area.y + j) * W;
    SubImageStreamPixel(img, area, i, j);
    assert c.pixels[k] == RecolourByte(img.recolour, img.data[idx]);
    PixelSpec(img, Point(area.x + i, area.y + j));
  }

  /** Pixel (i, j) of a valid area is element `j * area.width + i` of its
      stream, and that element is the byte at `x0 + i + (y0 + j) * width`. */
  lemma SubImageStreamPixel(img: RecolouredImageRaw, area: Rect, i: nat, j: nat)
    requires WellFormed(img) && SubAreaValid(img, area)
    requires i < area.width && j < area.height
    ensures var y := StreamBytes(img.data, Size(area.width, area.height),
                                 area.y * img.size.width + area.x, img.size.width - area.width);
            var k := j * area.width + i;
            var idx := area.x + i + (area.y + j) * img.size.width;
            k < area.width * area.height && k < |y| && idx < |img.data| && y[k] == img.data[idx]
  {
    var W := img.size.width;
    var aw, ah := area.width, area.height;
    var p := area.y * W + area.x;
    TimesRowBound(j, ah, i, aw);
    SubAreaFits(img, area, j, i);
    StreamPixel(img.data, p, aw, ah, W - aw, j, i);
  }

  /** An invalid area is a no-op that reports success. */
  lemma SubImageInvalidIsNoOp(img: RecolouredImageRaw, t: Target, area: Rect)
    requires !SubAreaValid(img, area)
    ensures DrawSubImage(img, t, area) == Issued(t, Ok)
  {
  }

  /** A full draw and a sub-image draw over the whole bounding box issue the
      same fill: both start at byte 0 and skip nothing between rows. A
      zero-sized image is the one difference: the full draw still issues an
      empty fill, the sub-image draw issues nothing. */
  lemma FullDrawIsWholeSubImage(img: RecolouredImageRaw, t: Target)
    requires WellFormed(img)
    ensures img.size.width > 0 && img.size.height > 0 ==>
              Draw(img, t) == DrawSubImage(img, t, Rect(0, 0, img.size.width, img.size.height))
    ensures img.size.width == 0 || img.size.height == 0 ==>
              DrawSubImage(img, t, Rect(0, 0, img.size.width, img.size.height)) == Issued(t, Ok) &&
              Draw(img, t) == Issue(t, FillContiguous(Rect(0, 0, img.size.width, img.size.height), []))
  {
  }

  // ---------------------------------------------------------------------
  // The iterator itself

  /** `ContiguousPixels`: the advancing slice iterator (its position), the
      pixels left in the current row, the rows still to start and the skip
      between rows. */
  class ContiguousPixels {
    const data: seq<u8>
    var pos: nat
    var remainingX: nat
    const width: nat
    var remainingY: nat
    const rowSkip: nat
    const recolour: Recolour

    ghost predicate Valid()
      reads this
    {
      pos <= |data| && (remainingY > 0 ==> width > 0)
    }

    /** The bytes still to come, up to the first `None`. */
    ghost function Remaining(): seq<u8>
      reads this
      requires Valid()
    {
      Yield(data, pos, remainingX, width, remainingY, rowSkip)
    }

    /** `ContiguousPixels::new`: skips `initialSkip` bytes with `nth`, and sets
        the row count to 0 when the width is 0. */
    constructor (img: RecolouredImageRaw, size: Size, initialSkip: nat, rowSkip: nat)
      ensures Valid()
      ensures data == img.data && width == size.width && recolour == img.recolour
      ensures Remaining() == StreamBytes(img.data, size, initialSkip, rowSkip)
      ensures size.width == 0 ==> Remaining() == []
    {
      data := img.data;
      var p := 0;
      if initialSkip > 0 {
        // `iter.nth(initial_skip - 1)`
        if initialSkip - 1 < |img.data| {
          p := initialSkip;
        } else {
          p := |img.data|;
        }
      }
      pos := p;
      remainingY := if size.width > 0 then size.height else 0;
      remainingX := size.width;
      width := size.width;
      this.rowSkip := rowSkip;
      recolour := img.recolour;
    }

    /** `Iterator::next`: yields the next recoloured pixel of the stream, or
        `None` once it has ended (and keeps returning `None`). */
    method Next() returns (c: Option<Colour>)
      requires Valid()
      modifies this
      ensures Valid()
      ensures old(Remaining()) == [] ==> c == None && Remaining() == []
      ensures old(Remaining()) != [] ==>
                c == Some(RecolourByte(recolour, old(Remaining())[0])) && Remaining() == old(Remaining())[1..]
    {
      var b: Option<u8>;
      if remainingX > 0 {
        remainingX := remainingX - 1;
        // `iter.next()`
        if pos < |data| {
          b := Some(data[pos]);
          pos := pos + 1;
        } else {
          b := None;
          YieldExhausted(data, remainingX, width, remainingY, rowSkip);
        }
      } else {
        if remainingY == 0 {
          return None;
        }
        remainingY := remainingY - 1;
        remainingX := width - 1;
        // `iter.nth(row_skip)`
        if pos + rowSkip < |data| {
          b := Some(data[pos + rowSkip]);
          pos := pos + rowSkip + 1;
        } else {
          b := None;
          pos := |data|;
          YieldExhausted(data, remainingX, width, remainingY, rowSkip);
        }
      }
      c := match b
        case Some(v) => Some(RecolourByte(recolour, v))
        case None => None;
    }
  }

  /** The sink's side of `fill_contiguous`: pull at most `n` pixels, stopping
      at the first `None`. */
  method Collect(it: ContiguousPixels, n: nat) returns (pixels: seq<Colour>)
    requires it.Valid()
    modifies it
    ensures it.Valid()
    ensures pixels == Take(Colours(it.recolour, old(it.Remaining())), n)
  {
    pixels := [];
    ghost var all := it.Remaining();
    while |pixels| < n
      invariant it.Valid() && |pixels| <= n && |pixels| <= |all|
      invariant pixels == Colours(it.recolour, all[..|pixels|])
      invariant it.Remaining() == all[|pixels|..]
      decreases n - |pixels|
    {
      var c := it.Next();
      if c.None? {
        break;
      }
      pixels := pixels + [c.value];
    }
  }

  /** `draw_sub_image` run the way the source runs it: build the iterator and
      let the sink pull the area's pixels from it. It issues exactly the fill
      that `DrawSubImage` describes. */
  method DrawSubImageLazily(img: RecolouredImageRaw, t: Target, area: Rect) returns (r: Issued)
    ensures r == DrawSubImage(img, t, area)
  {
    if area.IsZeroSized() || area.x < 0 || area.y < 0
       || area.x + area.width > img.size.width
       || area.y + area.height > img.size.height
    {
      return Issued(t, Ok);
    }
    var dataWidth := DataWidth(img);
    var initialSkip := area.y * dataWidth + area.x;
    var rowSkip := dataWidth - area.width;
    var it := new ContiguousPixels(img, Size(area.width, area.height), initialSkip, rowSkip);
    var pixels := Collect(it, area.width * area.height);
    r := Issue(t, FillContiguous(Rect(0, 0, area.width, area.height), pixels));
  }
}
