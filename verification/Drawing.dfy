/** Drawing primitives over a 32-bit-per-pixel framebuffer (src/drivers/display/drawing.rs). */
module Drawing {
  import opened Basics

  type Pixel = x: nat | x < 0x1_0000_0000
  type u32 = x: nat | x < 0x1_0000_0000

  const FONT_WIDTH: nat := 8
  const FONT_HEIGHT: nat := 16

  /** A 32-bit sum wraps around. */
  function Sum32(a: u32, b: u32): u32
  {
    if a + b < 0x1_0000_0000 then a + b else a + b - 0x1_0000_0000
  }

  /** As the processor adds: modulo 2^32. */
  lemma SumWraps(a: u32, b: u32)
    ensures Sum32(a, b) == (a + b) % 0x1_0000_0000
  {
  }

  /** Position of pixel (x, y) in the flat buffer. */
  function Offset(pitch: nat, x: nat, y: nat): nat
  {
    y * pitch + x
  }

  lemma RowBefore(pitch: nat, y0: nat, y1: nat)
    requires y0 < y1
    ensures y0 * pitch + pitch <= y1 * pitch
  {
    var d := y1 - y0 - 1;
    assert y1 * pitch == y0 * pitch + pitch + d * pitch;
    assert 0 <= d * pitch;
  }

  lemma OffsetFits(pitch: nat, height: nat, x: nat, y: nat)
    requires x < pitch && y < height
    ensures Offset(pitch, x, y) < height * pitch
  {
    RowBefore(pitch, y, height);
  }

  /** Different pixels are stored apart. */
  lemma OffsetsDiffer(pitch: nat, x0: nat, y0: nat, x1: nat, y1: nat)
    requires x0 < pitch && x1 < pitch && Offset(pitch, x0, y0) == Offset(pitch, x1, y1)
    ensures x0 == x1 && y0 == y1
  {
    if y0 < y1 {
      RowBefore(pitch, y0, y1);
    } else if y1 < y0 {
      RowBefore(pitch, y1, y0);
    }
  }

  /** Bit `i` of a glyph row, the most significant first. */
  predicate GlyphBit(row: bv8, i: nat)
    requires i < 8
  {
    row & (0x80 >> i) != 0
  }

  /** From the left-most pixel to the right-most: bits 7 to 0. */
  lemma GlyphBits(row: bv8)
    ensures (GlyphBit(row, 0) <==> row & 0x80 != 0) && (GlyphBit(row, 1) <==> row & 0x40 != 0)
    ensures (GlyphBit(row, 2) <==> row & 0x20 != 0) && (GlyphBit(row, 3) <==> row & 0x10 != 0)
    ensures (GlyphBit(row, 4) <==> row & 0x08 != 0) && (GlyphBit(row, 5) <==> row & 0x04 != 0)
    ensures (GlyphBit(row, 6) <==> row & 0x02 != 0) && (GlyphBit(row, 7) <==> row & 0x01 != 0)
  {
  }

  class DrawingContext {
    const width: nat
    const height: nat
    const pitch: nat
    const buffer: array<Pixel>

    /** Pitch in pixels; the mapped buffer holds every scanline and its offsets fit 32 bits. */
    ghost predicate Valid()
    {
      && 0 < width <= pitch && 0 < height && buffer.Length == height * pitch < 0x1_0000_0000
      && width < 0x8000_0000 && height < 0x8000_0000
    }

    constructor (width: nat, height: nat, pitch: nat, buffer: array<Pixel>)
      requires 0 < width <= pitch && 0 < height && buffer.Length == height * pitch < 0x1_0000_0000
      requires width < 0x8000_0000 && height < 0x8000_0000
      ensures Valid() && this.width == width && this.height == height && this.pitch == pitch && this.buffer == buffer
    {
      this.width, this.height, this.pitch, this.buffer := width, height, pitch, buffer;
    }

    lemma InBuffer(x: nat, y: nat)
      requires Valid() && x < pitch && y < height
      ensures Offset(pitch, x, y) < buffer.Length
    {
      OffsetFits(pitch, height, x, y);
    }

    /** The pixel at column x of scanline y, padding columns included. */
    ghost function Pixels(x: nat, y: nat): Pixel
      requires Valid() && x < pitch && y < height
      reads buffer
    {
      InBuffer(x, y);
      buffer[Offset(pitch, x, y)]
    }

    method Put(x: nat, y: nat, color: Pixel)
      requires Valid() && x < pitch && y < height
      modifies buffer
      ensures forall x': nat, y': nat | x' < pitch && y' < height ::
                Pixels(x', y') == if x' == x && y' == y then color else old(Pixels(x', y'))
    {
      InBuffer(x, y);
      buffer[Offset(pitch, x, y)] := color;
      forall x': nat, y': nat | x' < pitch && y' < height
        ensures Pixels(x', y') == if x' == x && y' == y then color else old(Pixels(x', y'))
      {
        InBuffer(x', y');
        if Offset(pitch, x', y') == Offset(pitch, x, y) { OffsetsDiffer(pitch, x', y', x, y); }
      }
    }

    method Get(x: nat, y: nat) returns (color: Pixel)
      requires Valid() && x < pitch && y < height
      ensures color == Pixels(x, y)
    {
      InBuffer(x, y);
      color := buffer[Offset(pitch, x, y)];
    }

    /** Fills the part of the rectangle that is on screen. */
    method FillRect(x: u32, y: u32, w: u32, h: u32, color: Pixel)
      requires Valid()
      modifies buffer
      ensures forall x': nat, y': nat | x' < pitch && y' < height ::
                Pixels(x', y') ==
                if x <= x' < Min(Sum32(x, w), width) && y <= y' < Min(Sum32(y, h), height) then color else old(Pixels(x', y'))
    {
      hide Offset, DrawingContext.Pixels;
      if x >= width || y >= height || w == 0 || h == 0 { return; }
      var xEnd, yEnd := Min(Sum32(x, w), width), Min(Sum32(y, h), height);
      var row := y;
      while row < yEnd
        invariant y <= row && (row <= yEnd || row == y)
        invariant forall x': nat, y': nat | x' < pitch && y' < height ::
                    Pixels(x', y') == if x <= x' < xEnd && y <= y' < row then color else old(Pixels(x', y'))
      {
        var col := x;
        while col < xEnd
          invariant x <= col && (col <= xEnd || col == x)
          invariant forall x': nat, y': nat | x' < pitch && y' < height ::
                      Pixels(x', y') ==
                      if (x <= x' < xEnd && y <= y' < row) || (x <= x' < col && y' == row) then color else old(Pixels(x', y'))
        {
          Put(col, row, color);
          col := col + 1;
        }
        row := row + 1;
      }
    }

    /** Rows are copied top to bottom and pixels left to right. When the destination does not come later than the
        source, every pixel is read before it is overwritten and the copy is a simultaneous shift; in any case only
        the destination changes. */
    method CopyRegion(srcX: u32, srcY: u32, dstX: u32, dstY: u32, w0: u32, h0: u32)
      requires Valid()
      modifies buffer
      ensures
        var w := Min(w0, Min(width - Min(srcX, width), width - Min(dstX, width)));
        var h := Min(h0, Min(height - Min(srcY, height), height - Min(dstY, height)));
        forall x: nat, y: nat | x < pitch && y < height ::
          if dstX <= x < dstX + w && dstY <= y < dstY + h && srcX + (x - dstX) < pitch && srcY + (y - dstY) < height
          then dstY < srcY || (dstY == srcY && dstX <= srcX) ==> Pixels(x, y) == old(Pixels(srcX + (x - dstX), srcY + (y - dstY)))
          else Pixels(x, y) == old(Pixels(x, y))
    {
      hide Offset, DrawingContext.Pixels;
      if srcX >= width || srcY >= height || dstX >= width || dstY >= height { return; }
      var w := Min(w0, Min(width - srcX, width - dstX));
      var h := Min(h0, Min(height - srcY, height - dstY));
      if w == 0 || h == 0 { return; }
      ghost var ahead := dstY < srcY || (dstY == srcY && dstX <= srcX);
      var row := 0;
      while row < h
        invariant row <= h
        invariant forall x: nat, y: nat | x < pitch && y < height ::
                    if dstX <= x < dstX + w && dstY <= y < dstY + row
                    then ahead ==> Pixels(x, y) == old(Pixels(srcX + (x - dstX), srcY + (y - dstY)))
                    else Pixels(x, y) == old(Pixels(x, y))
      {
        CopyRow(srcX, srcY + row, dstX, dstY + row, w);
        row := row + 1;
      }
    }

    /** One row, left to right. */
    method CopyRow(srcX: nat, srcY: nat, dstX: nat, dstY: nat, w: nat)
      requires Valid() && srcX + w <= width && dstX + w <= width && srcY < height && dstY < height
      modifies buffer
      ensures forall x: nat, y: nat | x < pitch && y < height ::
                if dstX <= x < dstX + w && y == dstY
                then dstY != srcY || dstX <= srcX ==> Pixels(x, y) == old(Pixels(srcX + (x - dstX), srcY))
                else Pixels(x, y) == old(Pixels(x, y))
    {
      hide Offset, DrawingContext.Pixels;
      ghost var ahead := dstY != srcY || dstX <= srcX;
      var col := 0;
      while col < w
        invariant col <= w
        invariant forall x: nat, y: nat | x < pitch && y < height ::
                    if dstX <= x < dstX + col && y == dstY
                    then ahead ==> Pixels(x, y) == old(Pixels(srcX + (x - dstX), srcY))
                    else Pixels(x, y) == old(Pixels(x, y))
      {
        var pixel := Get(srcX + col, srcY);
        Put(dstX + col, dstY, pixel);
        col := col + 1;
      }
    }

    /** Draws the part of a glyph that is on screen. */
    method DrawGlyph(x: u32, y: u32, bitmap: seq<bv8>, fg: Pixel, bg: Pixel)
      requires Valid() && |bitmap| == FONT_HEIGHT
      modifies buffer
      ensures forall x': nat, y': nat | x' < pitch && y' < height ::
                Pixels(x', y') ==
                if x <= x' < x + FONT_WIDTH && y <= y' < y + FONT_HEIGHT && x' < width
                then (if GlyphBit(bitmap[y' - y], x' - x) then fg else bg)
                else old(Pixels(x', y'))
    {
      if x >= width || y >= height { return; }
      var row := 0;
      while row < FONT_HEIGHT && y + row < height
        invariant row <= FONT_HEIGHT && y + row <= height
        invariant forall x': nat, y': nat | x' < pitch && y' < height ::
                    Pixels(x', y') == if x <= x' < x + FONT_WIDTH && y <= y' < y + row && x' < width
                                      then (if GlyphBit(bitmap[y' - y], x' - x) then fg else bg)
                                      else old(Pixels(x', y'))
      {
        DrawGlyphRow(x, y + row, bitmap[row], fg, bg);
        row := row + 1;
      }
    }

    method DrawGlyphRow(x: nat, py: nat, bits: bv8, fg: Pixel, bg: Pixel)
      requires Valid() && x < width && py < height
      modifies buffer
      ensures forall x': nat, y': nat | x' < pitch && y' < height ::
                Pixels(x', y') == if x <= x' < x + FONT_WIDTH && x' < width && y' == py
                                  then (if GlyphBit(bits, x' - x) then fg else bg)
                                  else old(Pixels(x', y'))
    {
      var bit := 0;
      while bit < FONT_WIDTH && x + bit < width
        invariant bit <= FONT_WIDTH && x + bit <= width
        invariant forall x': nat, y': nat | x' < pitch && y' < height ::
                    Pixels(x', y') == if x <= x' < x + bit && y' == py
                                      then (if GlyphBit(bits, x' - x) then fg else bg)
                                      else old(Pixels(x', y'))
      {
        Put(x + bit, py, if GlyphBit(bits, bit) then fg else bg);
        bit := bit + 1;
      }
    }
  }
}
