/**
 * A decoded video frame as `GSTBase.run` sees it: an immutable snapshot of the most
 * recent image, stored top-down (row 0 is the top of the picture), each pixel the
 * packed RGB int that `getRGB` returns.
 */
module Frames {
  import opened JavaNumeric

  /** The colour written for a point that falls outside the frame: black. */
  const Black: int := 0

  datatype Frame = Frame(width: int32, height: int32, pixels: seq<seq<int>>) {
    /** An image has positive dimensions and exactly `height` rows of `width` pixels. */
    predicate Valid() {
      && 0 < width
      && 0 < height
      && |pixels| == height
      && forall row :: 0 <= row < |pixels| ==> |pixels[row]| == width
    }

    predicate InFrame(x: int, y: int) {
      0 <= x < width && 0 <= y < height
    }
  }

  /** The rows in the opposite order: the image seen bottom-up, as the model's y axis runs. */
  function FlipVertical<T>(rows: seq<T>): (r: seq<T>)
    ensures |r| == |rows|
    ensures forall i :: 0 <= i < |rows| ==> r[i] == rows[|rows| - 1 - i]
  {
    if |rows| == 0 then [] else FlipVertical(rows[1..]) + [rows[0]]
  }

  /**
   * The colour read for frame coordinates `(x, y)`, where `y` counts up from the bottom:
   * the pixel of image row `(height-1)-y`, or black when `(x, y)` lies outside the frame.
   */
  function Sample(frame: Frame, x: int, y: int): (c: int)
    requires frame.Valid()
    ensures frame.InFrame(x, y) ==> c == FlipVertical(frame.pixels)[y][x]
    ensures !frame.InFrame(x, y) ==> c == Black
  {
    if frame.InFrame(x, y) then frame.pixels[(frame.height - 1) - y][x] else Black
  }

  /**
   * Every read `Sample` performs is in bounds: the guard admits only coordinates inside the
   * frame, and the flipped row lies in the image too.
   */
  lemma SampleReadsInBounds(frame: Frame, x: int, y: int)
    requires frame.Valid()
    requires frame.InFrame(x, y)
    ensures 0 <= (frame.height - 1) - y < |frame.pixels|
    ensures 0 <= x < |frame.pixels[(frame.height - 1) - y]|
  {
  }
}
