/** Colours and raster surfaces as the editors and the animation core see them. */
module Pixels {
  import opened Util

  /** An (r, g, b, a) colour tuple. */
  datatype Rgba = Rgba(r: int, g: int, b: int, a: int)

  /** (0, 0, 0, 0): the transparent colour of the pixel editor and of a fresh SRCALPHA surface. */
  const Transparent := Rgba(0, 0, 0, 0)

  /** (255, 255, 255) as an opaque surface pixel: the fill of a blank animation-editor frame. */
  const White := Rgba(255, 255, 255, 255)

  /** A raster image: `height` rows of `width` pixels. */
  datatype Surface = Surface(width: int, height: int, pixels: seq<seq<Rgba>>)
  {
    predicate WellFormed()
    {
      0 <= width && 0 <= height && IsRect(pixels, height, width)
    }
  }

  /** A `w` x `h` surface filled with one colour. */
  function Blank(w: nat, h: nat, fill: Rgba): (s: Surface)
    ensures s.WellFormed() && s.width == w && s.height == h
    ensures forall y, x :: 0 <= y < h && 0 <= x < w ==> s.pixels[y][x] == fill
  {
    Surface(w, h, Uniform(h, w, fill))
  }

  /**
   * dst.blit(src, (x, y)) for a source without per-pixel alpha: the
   * source's pixels replace the destination's where they overlap, and the
   * rest of the destination is kept.
   */
  function Blit(dst: Surface, src: Surface, x: int, y: int): (s: Surface)
    requires dst.WellFormed() && src.WellFormed()
    ensures s.WellFormed() && s.width == dst.width && s.height == dst.height
  {
    Surface(dst.width, dst.height, seq(dst.height, r requires 0 <= r < dst.height =>
      seq(dst.width, c requires 0 <= c < dst.width =>
        if y <= r < y + src.height && x <= c < x + src.width then src.pixels[r - y][c - x] else dst.pixels[r][c])))
  }

  predicate AllWellFormed(frames: seq<Surface>)
  {
    forall i :: 0 <= i < |frames| ==> frames[i].WellFormed()
  }

  /** Every frame is `w` x `h`. */
  predicate AllSized(frames: seq<Surface>, w: int, h: int)
  {
    forall i :: 0 <= i < |frames| ==> frames[i].WellFormed() && frames[i].width == w && frames[i].height == h
  }

  /** i * fw, built up frame by frame: where frame i starts in a strip sheet. */
  function Offset(i: nat, fw: nat): (x: nat)
    ensures i > 0 ==> x >= fw
  {
    if i == 0 then 0 else Offset(i - 1, fw) + fw
  }

  /** Offset is the product the exporter computes. */
  lemma {:induction false} OffsetIsProduct(i: nat, fw: nat)
    ensures Offset(i, fw) == i * fw
  {
    if i > 0 {
      OffsetIsProduct(i - 1, fw);
    }
  }

  /**
   * A horizontal strip sheet, `fw` pixels per frame and `fh` high, after the
   * first `k` frames have been blitted at (i * fw, 0) onto a transparent sheet.
   */
  function StripSheet(frames: seq<Surface>, fw: nat, fh: nat, k: nat): (s: Surface)
    requires k <= |frames| && AllWellFormed(frames)
    ensures s.WellFormed() && s.width == Offset(|frames|, fw) && s.height == fh
  {
    if k == 0 then Blank(Offset(|frames|, fw), fh, Transparent)
    else Blit(StripSheet(frames, fw, fh, k - 1), frames[k - 1], Offset(k - 1, fw), 0)
  }

  /** The exporter's empty sheet is the strip before any frame is blitted. */
  lemma StripStart(frames: seq<Surface>, fw: nat, fh: nat)
    requires AllWellFormed(frames)
    ensures StripSheet(frames, fw, fh, 0) == Blank(fw * |frames|, fh, Transparent)
  {
    OffsetIsProduct(|frames|, fw);
  }

  /** The exporter's blit of frame i at (i * fw, 0) extends the strip by that frame. */
  lemma StripStep(frames: seq<Surface>, fw: nat, fh: nat, i: nat)
    requires i < |frames| && AllWellFormed(frames)
    ensures StripSheet(frames, fw, fh, i + 1) == Blit(StripSheet(frames, fw, fh, i), frames[i], i * fw, 0)
  {
    OffsetIsProduct(i, fw);
  }

  /** Frames before n end by the start of frame n. */
  lemma {:induction false} OffsetBefore(i: nat, j: nat, fw: nat, n: nat)
    requires i < n && j < fw
    ensures Offset(i, fw) + j < Offset(n, fw)
    decreases n
  {
    if i < n - 1 {
      OffsetBefore(i, j, fw, n - 1);
    }
  }

  /**
   * In a strip of equally sized frames, frame i occupies columns
   * [i * fw, (i + 1) * fw): pixel (r, Offset(i, fw) + j) of the sheet is pixel
   * (r, j) of frame i.
   */
  lemma {:induction false} StripPlacesFrames(frames: seq<Surface>, fw: nat, fh: nat, k: nat, i: nat, r: nat, j: nat)
    requires k <= |frames| && AllSized(frames, fw, fh)
    requires i < k && r < fh && j < fw
    ensures Offset(i, fw) + j < Offset(|frames|, fw)
    ensures StripSheet(frames, fw, fh, k).pixels[r][Offset(i, fw) + j] == frames[i].pixels[r][j]
  {
    OffsetBefore(i, j, fw, |frames|);
    if i < k - 1 {
      OffsetBefore(i, j, fw, k - 1);
      StripPlacesFrames(frames, fw, fh, k - 1, i, r, j);
      StripKeeps(frames, fw, fh, k, r, Offset(i, fw) + j);
    } else {
      StripAdds(frames, fw, fh, k, r, j);
    }
  }

  /** Blitting frame k - 1 leaves the columns left of its band as they were. */
  lemma StripKeeps(frames: seq<Surface>, fw: nat, fh: nat, k: nat, r: nat, c: nat)
    requires 0 < k <= |frames| && AllSized(frames, fw, fh)
    requires r < fh && c < Offset(k - 1, fw) && c < Offset(|frames|, fw)
    ensures StripSheet(frames, fw, fh, k).pixels[r][c] == StripSheet(frames, fw, fh, k - 1).pixels[r][c]
  {
    BlitPixel(StripSheet(frames, fw, fh, k - 1), frames[k - 1], Offset(k - 1, fw), 0, r, c);
  }

  /** Blitting frame k - 1 puts its pixels in its band. */
  lemma StripAdds(frames: seq<Surface>, fw: nat, fh: nat, k: nat, r: nat, j: nat)
    requires 0 < k <= |frames| && AllSized(frames, fw, fh)
    requires r < fh && j < fw
    requires Offset(k - 1, fw) + j < Offset(|frames|, fw)
    ensures StripSheet(frames, fw, fh, k).pixels[r][Offset(k - 1, fw) + j] == frames[k - 1].pixels[r][j]
  {
    BlitPixel(StripSheet(frames, fw, fh, k - 1), frames[k - 1], Offset(k - 1, fw), 0, r, Offset(k - 1, fw) + j);
  }

  /** One pixel of a blit. */
  lemma BlitPixel(dst: Surface, src: Surface, x: int, y: int, r: int, c: int)
    requires dst.WellFormed() && src.WellFormed()
    requires 0 <= r < dst.height && 0 <= c < dst.width
    ensures Blit(dst, src, x, y).pixels[r][c] ==
      if y <= r < y + src.height && x <= c < x + src.width then src.pixels[r - y][c - x] else dst.pixels[r][c]
  {
  }
}
