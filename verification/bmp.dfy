/** draw_border: a one-pixel black rectangle outline drawn into a
    grey-scale image, with every write guarded to stay inside the image.
    The image is a value (rows of pixels, `img[y][x]`) and the method
    returns the drawn copy. Coordinates are `i32`; the image dimensions
    are `u32` and are cast to `i32` for the guards. */
module Bmp {

  type Luma = x: int | 0 <= x < 256

  const Black: Luma := 0

  const TwoTo31 := 0x8000_0000
  const TwoTo32 := 0x1_0000_0000

  predicate InI32(x: int) {
    -TwoTo31 <= x < TwoTo31
  }

  /** `n as i32` for a `u32`. */
  function U32AsI32(n: nat): (r: int)
    requires n < TwoTo32
    ensures InI32(r) && r <= n
    ensures r % TwoTo32 == n
  {
    if n < TwoTo31 then n else n - TwoTo32
  }

  predicate IsImage(img: seq<seq<Luma>>, width: nat, height: nat) {
    |img| == height && forall y :: 0 <= y < height ==> |img[y]| == width
  }

  /** `put_pixel`, which panics outside the image: hence the requires. */
  function PutPixel(img: seq<seq<Luma>>, x: int, y: int, v: Luma): (r: seq<seq<Luma>>)
    requires 0 <= y < |img| && 0 <= x < |img[y]|
    ensures |r| == |img| && forall j :: 0 <= j < |r| ==> |r[j]| == |img[j]|
    ensures forall j, i :: 0 <= j < |r| && 0 <= i < |r[j]| ==>
      r[j][i] == if j == y && i == x then v else img[j][i]
  {
    var row: seq<Luma> := img[y][x := v];
    img[y := row]
  }

  /** Pixel (x, y) lies on the top or bottom edge, of which the columns
      left .. limit-1 have been drawn. */
  ghost predicate OnHorizontalEdge(x: int, y: int, left: int, top: int, height: int, limit: int) {
    left <= x < limit && (y == top || y == top + height)
  }

  /** Pixel (x, y) lies on the left or right edge, of which the rows
      top .. limit-1 have been drawn. */
  ghost predicate OnVerticalEdge(x: int, y: int, left: int, top: int, width: int, limit: int) {
    top <= y < limit && (x == left || x == left + width)
  }

  /** The pixels draw_border paints: the top and bottom edges span columns
      left .. left+width-1, the left and right edges span rows top .. top+height-1, all
      within the guards' bounds (the image size as i32). */
  ghost predicate Painted(x: int, y: int, left: int, top: int, width: int, height: int, w: int, h: int) {
    0 <= x < w && 0 <= y < h &&
    (OnHorizontalEdge(x, y, left, top, height, left + width) || OnVerticalEdge(x, y, left, top, width, top + height))
  }

  /** The first loop of draw_border: the top and bottom edges. */
  method DrawHorizontalEdges(img: seq<seq<Luma>>, left: int, top: int, width: int, height: int,
                             imgWidth: nat, imgHeight: nat, w: int, h: int) returns (out: seq<seq<Luma>>)
    requires IsImage(img, imgWidth, imgHeight) && w <= imgWidth && h <= imgHeight
    ensures IsImage(out, imgWidth, imgHeight)
    ensures forall y, x :: 0 <= y < imgHeight && 0 <= x < imgWidth ==>
      out[y][x] == if 0 <= x < w && 0 <= y < h && OnHorizontalEdge(x, y, left, top, height, left + width)
                   then Black else img[y][x]
  {
    out := img;
    var ix := left;
    while ix < left + width
      invariant ix == left || left <= ix <= left + width
      invariant IsImage(out, imgWidth, imgHeight)
      invariant forall y, x :: 0 <= y < imgHeight && 0 <= x < imgWidth ==>
        out[y][x] == if 0 <= x < w && 0 <= y < h && OnHorizontalEdge(x, y, left, top, height, ix)
                     then Black else img[y][x]
    {
      if 0 <= ix && ix < w {
        if 0 <= top && top < h {
          out := PutPixel(out, ix, top, Black);
        }
        if 0 <= top + height && top + height < h {
          out := PutPixel(out, ix, top + height, Black);
        }
      }
      ix := ix + 1;
    }
  }

  /** The second loop of draw_border: the left and right edges. */
  method DrawVerticalEdges(img: seq<seq<Luma>>, left: int, top: int, width: int, height: int,
                           imgWidth: nat, imgHeight: nat, w: int, h: int) returns (out: seq<seq<Luma>>)
    requires IsImage(img, imgWidth, imgHeight) && w <= imgWidth && h <= imgHeight
    ensures IsImage(out, imgWidth, imgHeight)
    ensures forall y, x :: 0 <= y < imgHeight && 0 <= x < imgWidth ==>
      out[y][x] == if 0 <= x < w && 0 <= y < h && OnVerticalEdge(x, y, left, top, width, top + height)
                   then Black else img[y][x]
  {
    out := img;
    var iy := top;
    while iy < top + height
      invariant iy == top || top <= iy <= top + height
      invariant IsImage(out, imgWidth, imgHeight)
      invariant forall y, x :: 0 <= y < imgHeight && 0 <= x < imgWidth ==>
        out[y][x] == if 0 <= x < w && 0 <= y < h && OnVerticalEdge(x, y, left, top, width, iy)
                     then Black else img[y][x]
    {
      if 0 <= iy && iy < h {
        if 0 <= left && left < w {
          out := PutPixel(out, left, iy, Black);
        }
        if 0 <= left + width && left + width < w {
          out := PutPixel(out, left + width, iy, Black);
        }
      }
      iy := iy + 1;
    }
  }

  /** draw_border: exactly the painted pixels turn black, every other
      pixel keeps its value, and the image keeps its size (no write falls
      outside it). */
  method DrawBorder(img: seq<seq<Luma>>, left: int, top: int, width: int, height: int,
                    imgWidth: nat, imgHeight: nat) returns (out: seq<seq<Luma>>)
    requires imgWidth < TwoTo32 && imgHeight < TwoTo32
    requires IsImage(img, imgWidth, imgHeight)
    requires InI32(left) && InI32(top) && InI32(width) && InI32(height)
    requires InI32(left + width) && InI32(top + height)
    ensures IsImage(out, imgWidth, imgHeight)
    ensures forall y, x :: 0 <= y < imgHeight && 0 <= x < imgWidth ==>
      out[y][x] == if Painted(x, y, left, top, width, height, U32AsI32(imgWidth), U32AsI32(imgHeight))
                   then Black else img[y][x]
  {
    var w, h := U32AsI32(imgWidth), U32AsI32(imgHeight);
    var horizontal := DrawHorizontalEdges(img, left, top, width, height, imgWidth, imgHeight, w, h);
    out := DrawVerticalEdges(horizontal, left, top, width, height, imgWidth, imgHeight, w, h);
  }

  /** The far corner (left+width, top+height) is on neither edge's range, so it is
      never painted. */
  lemma FarCornerNeverPainted(left: int, top: int, width: int, height: int, w: int, h: int)
    ensures !Painted(left + width, top + height, left, top, width, height, w, h)
  {
  }

  /** A non-positive width paints no top or bottom edge pixel, and a
      non-positive height no left or right edge pixel. */
  lemma EmptyRangesPaintNothing(x: int, y: int, left: int, top: int, width: int, height: int, w: int, h: int)
    ensures width <= 0 ==> !OnHorizontalEdge(x, y, left, top, height, left + width)
    ensures height <= 0 ==> !OnVerticalEdge(x, y, left, top, width, top + height)
    ensures width <= 0 && height <= 0 ==> !Painted(x, y, left, top, width, height, w, h)
  {
  }

  /** For images narrower and lower than 2^31 the casts change nothing:
      every edge pixel inside the image is painted. */
  lemma SmallImagesPaintWholeEdges(x: int, y: int, left: int, top: int, width: int, height: int,
                                   imgWidth: nat, imgHeight: nat)
    requires imgWidth < TwoTo31 && imgHeight < TwoTo31
    requires 0 <= x < imgWidth && 0 <= y < imgHeight
    requires OnHorizontalEdge(x, y, left, top, height, left + width) || OnVerticalEdge(x, y, left, top, width, top + height)
    ensures Painted(x, y, left, top, width, height, U32AsI32(imgWidth), U32AsI32(imgHeight))
  {
  }
}
