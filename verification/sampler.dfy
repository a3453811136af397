/**
 * The per-tick mapping of the current frame onto the model (`GSTBase.run`).
 *
 * Every point's offset from the model's minimum x and y is divided by the size of one
 * pixel in model units (model extent / frame extent) and cast to `int`, giving a frame
 * column and a bottom-up row; the colour read there (black outside the frame) is repacked
 * into the point's slot of the colour buffer.
 */
module Sampler {
  import opened Results
  import opened JavaNumeric
  import opened Frames

  /** The bounding box of the model (`xMin`, `xMax`, `yMin`, `yMax`). */
  datatype ModelBounds = ModelBounds(xMin: real, xMax: real, yMin: real, yMax: real) {
    function Width(): real { xMax - xMin }
    function Height(): real { yMax - yMin }

    /** The model has extent in both directions, so that a pixel has a positive size in model units. */
    predicate NonDegenerate() { xMin < xMax && yMin < yMax }
  }

  /** A model point: its slot in the colour buffer and its position in the x-y plane. */
  datatype Point = Point(index: nat, x: real, y: real)

  /**
   * The pixel an offset from the model's minimum falls in along one axis:
   * `(int) (offset / (extent / pixels))`. Inside the int range it is the number of whole pixels
   * the offset spans, counted toward zero.
   */
  function Cell(offset: real, extent: real, pixels: int): (c: int32)
    requires 0.0 < extent && 0 < pixels
    ensures var q := offset * pixels as real / extent;
            0.0 <= q < INT_MAX as real ==> c as real <= q < (c + 1) as real
    ensures var q := offset * pixels as real / extent;
            INT_MIN as real < q < 0.0 ==> (c - 1) as real < q <= c as real
  {
    CellScale(offset, extent, pixels);
    IntCast(offset / (extent / pixels as real))
  }

  /** An offset inside the model's extent lands inside the frame. */
  lemma CellWithinExtent(offset: real, extent: real, pixels: int32)
    requires 0.0 < extent && 0 < pixels
    ensures 0.0 <= offset < extent ==> 0 <= Cell(offset, extent, pixels) < pixels
  {
    if 0.0 <= offset < extent {
      var p := pixels as real;
      ScaleOrder(offset, extent, p);
      assert offset * p < extent * p;
      QuotientBand(offset * p, extent, 0.0, p);
    }
  }

  /** The frame column of a model x coordinate; points within the model's width land in the frame. */
  function Column(b: ModelBounds, frame: Frame, px: real): (x: int32)
    requires b.NonDegenerate() && frame.Valid()
    ensures b.xMin <= px < b.xMax ==> 0 <= x < frame.width
  {
    CellWithinExtent(px - b.xMin, b.Width(), frame.width);
    Cell(px - b.xMin, b.Width(), frame.width)
  }

  /** The bottom-up frame row of a model y coordinate; points within the model's height land in the frame. */
  function Row(b: ModelBounds, frame: Frame, py: real): (y: int32)
    requires b.NonDegenerate() && frame.Valid()
    ensures b.yMin <= py < b.yMax ==> 0 <= y < frame.height
  {
    CellWithinExtent(py - b.yMin, b.Height(), frame.height);
    Cell(py - b.yMin, b.Height(), frame.height)
  }

  /** Dividing by the pixel size is multiplying by pixels per model unit. */
  lemma CellScale(offset: real, extent: real, pixels: int)
    requires 0.0 < extent && 0 < pixels
    ensures offset / (extent / pixels as real) == offset * pixels as real / extent
  {
    var p := pixels as real;
    var q := offset / (extent / p);
    assert q * (extent / p) == offset;
    assert (extent / p) * p == extent;
    assert q * extent == offset * p by {
      calc {
        q * extent;
        q * ((extent / p) * p);
        (q * (extent / p)) * p;
        offset * p;
      }
    }
  }

  /** A point further along an axis never lands in an earlier pixel. */
  lemma {:induction false} CellMonotone(o1: real, o2: real, extent: real, pixels: int)
    requires 0.0 < extent && 0 < pixels
    requires o1 <= o2
    ensures Cell(o1, extent, pixels) <= Cell(o2, extent, pixels)
  {
    var s := extent / pixels as real;
    assert o1 / s <= o2 / s by {
      assert o2 / s - o1 / s == (o2 - o1) / s;
    }
    IntCastMonotone(o1 / s, o2 / s);
  }

  /**
   * The model's minimum lands in pixel 0 and its maximum, in exact arithmetic, one past the
   * last pixel: `pixels` itself, outside the frame.
   */
  lemma {:induction false} CellEdges(extent: real, pixels: int32)
    requires 0.0 < extent && 0 < pixels
    ensures Cell(0.0, extent, pixels) == 0
    ensures Cell(extent, extent, pixels) == pixels
  {
    CellScale(extent, extent, pixels);
    assert extent * pixels as real / extent == pixels as real;
  }

  /**
   * The offsets that land in pixel `c`: for `c > 0` the half-open band of width one pixel
   * starting at `c` pixels; for `c == 0` the band reaches one pixel to either side of the
   * minimum, because the cast truncates toward zero.
   */
  lemma {:induction false} CellPreimage(offset: real, extent: real, pixels: int32, c: int)
    requires 0.0 < extent && 0 < pixels
    requires 0 <= c < pixels
    ensures var s := extent / pixels as real;
            0 < c ==> (Cell(offset, extent, pixels) == c <==> c as real * s <= offset < (c + 1) as real * s)
    ensures var s := extent / pixels as real;
            c == 0 ==> (Cell(offset, extent, pixels) == 0 <==> -s < offset < s)
  {
    var s := extent / pixels as real;
    assert Cell(offset, extent, pixels) == IntCast(offset / s);
    IntCastBand(offset, s, c);
  }

  /** `CellPreimage` for a quotient by a positive pixel size `s`. */
  lemma IntCastBand(offset: real, s: real, c: int)
    requires 0.0 < s
    requires 0 <= c < INT_MAX
    ensures 0 < c ==> (IntCast(offset / s) == c <==> c as real * s <= offset < (c + 1) as real * s)
    ensures c == 0 ==> (IntCast(offset / s) == 0 <==> -s < offset < s)
  {
    var q := offset / s;
    IntCastPreimage(q, c);
    QuotientBand(offset, s, c as real, (c + 1) as real);
    QuotientBand(offset, s, -1.0, 1.0);
  }

  /** The quotient lies in a band exactly when the dividend lies in the band scaled by the divisor. */
  lemma QuotientBand(offset: real, s: real, lo: real, hi: real)
    requires 0.0 < s
    ensures lo <= offset / s < hi <==> lo * s <= offset < hi * s
    ensures lo < offset / s < hi <==> lo * s < offset < hi * s
  {
    var q := offset / s;
    assert q * s == offset;
    ScaleOrder(lo, q, s);
    ScaleOrder(q, hi, s);
  }

  /** Multiplying by a positive factor keeps order. */
  lemma ScaleOrder(a: real, b: real, s: real)
    requires 0.0 < s
    ensures a <= b <==> a * s <= b * s
    ensures a < b <==> a * s < b * s
  {
    assert b * s - a * s == (b - a) * s;
  }

  /**
   * The colour a point receives: the repacked pixel of the bottom-up image at its column and
   * row, or repacked black when either falls outside the frame.
   */
  function PointColor(frame: Frame, b: ModelBounds, p: Point, repack: int -> int): (c: int)
    requires frame.Valid() && b.NonDegenerate()
    ensures var x, y := Column(b, frame, p.x), Row(b, frame, p.y);
            && (frame.InFrame(x, y) ==> c == repack(FlipVertical(frame.pixels)[y][x]))
            && (!frame.InFrame(x, y) ==> c == repack(Black))
  {
    repack(Sample(frame, Column(b, frame, p.x), Row(b, frame, p.y)))
  }

  /** A point at the model's minimum y is sampled from the last (bottom) row of the image. */
  lemma MinYReadsLastRow(frame: Frame, b: ModelBounds, p: Point, repack: int -> int)
    requires frame.Valid() && b.NonDegenerate()
    requires p.y == b.yMin
    requires 0 <= Column(b, frame, p.x) < frame.width
    ensures PointColor(frame, b, p, repack) == repack(frame.pixels[frame.height - 1][Column(b, frame, p.x)])
  {
    CellEdges(b.Height(), frame.height);
  }

  /**
   * The corners of the model: the minimum lands on column 0 and row 0, while a point at
   * `xMax` (or `yMax`) lands one past the last column (row) and is painted black.
   */
  lemma ModelEdges(frame: Frame, b: ModelBounds, p: Point, repack: int -> int)
    requires frame.Valid() && b.NonDegenerate()
    ensures Column(b, frame, b.xMin) == 0 && Row(b, frame, b.yMin) == 0
    ensures Column(b, frame, b.xMax) == frame.width && Row(b, frame, b.yMax) == frame.height
    ensures p.x == b.xMax || p.y == b.yMax ==> PointColor(frame, b, p, repack) == repack(Black)
  {
    CellEdges(b.Width(), frame.width);
    CellEdges(b.Height(), frame.height);
  }

  /** Moving a point right (up) never moves its sample left (down). */
  lemma MappingMonotone(frame: Frame, b: ModelBounds, p: Point, q: Point)
    requires frame.Valid() && b.NonDegenerate()
    ensures p.x <= q.x ==> Column(b, frame, p.x) <= Column(b, frame, q.x)
    ensures p.y <= q.y ==> Row(b, frame, p.y) <= Row(b, frame, q.y)
  {
    if p.x <= q.x {
      CellMonotone(p.x - b.xMin, q.x - b.xMin, b.Width(), frame.width);
    }
    if p.y <= q.y {
      CellMonotone(p.y - b.yMin, q.y - b.yMin, b.Height(), frame.height);
    }
  }

  /** Some point of `points` writes slot `i`. */
  predicate Writes(points: seq<Point>, i: int) {
    exists k :: 0 <= k < |points| && points[k].index == i
  }

  /** No later point of `points` overwrites the slot point `k` writes. */
  predicate LastWriter(points: seq<Point>, k: int)
    requires 0 <= k < |points|
  {
    forall j :: k < j < |points| ==> points[j].index != points[k].index
  }

  /** Every point has a slot in the colour buffer (Java would throw otherwise). */
  predicate IndicesFit(points: seq<Point>, size: int) {
    forall k :: 0 <= k < |points| ==> points[k].index < size
  }

  /** A slot that no point writes is written by no point of a prefix and not by the last point. */
  lemma NotWrittenByPrefix(points: seq<Point>, i: int)
    requires 0 < |points|
    requires !Writes(points, i)
    ensures !Writes(points[..|points| - 1], i)
    ensures points[|points| - 1].index != i
  {
  }

  /** The last writer of a slot, if not the final point, is also the last writer within the prefix. */
  lemma LastWriterInPrefix(points: seq<Point>, k: int)
    requires 0 <= k < |points| - 1
    requires LastWriter(points, k)
    ensures LastWriter(points[..|points| - 1], k)
    ensures points[|points| - 1].index != points[k].index
  {
  }

  /**
   * The colour buffer after the loop over `points`, visiting them in order: a slot no point
   * writes keeps its colour, and a slot ends with the colour of the last point that writes it.
   */
  function Paint(frame: Frame, b: ModelBounds, points: seq<Point>, colors: seq<int>, repack: int -> int): (r: seq<int>)
    requires frame.Valid() && b.NonDegenerate()
    requires IndicesFit(points, |colors|)
    ensures |r| == |colors|
    ensures forall i :: 0 <= i < |colors| && !Writes(points, i) ==> r[i] == colors[i]
    ensures forall k :: 0 <= k < |points| && LastWriter(points, k) ==>
              r[points[k].index] == PointColor(frame, b, points[k], repack)
  {
    if |points| == 0 then colors
    else
      var n := |points| - 1;
      var prefix := points[..n];
      var last := points[n];
      var before := Paint(frame, b, prefix, colors, repack);
      var r := before[last.index := PointColor(frame, b, last, repack)];
      forall i | 0 <= i < |colors| && !Writes(points, i)
        ensures r[i] == colors[i]
      {
        NotWrittenByPrefix(points, i);
      }
      forall k | 0 <= k < |points| && LastWriter(points, k)
        ensures r[points[k].index] == PointColor(frame, b, points[k], repack)
      {
        if k < n {
          LastWriterInPrefix(points, k);
        }
      }
      r
  }

  /**
   * One tick of the pattern. With no pipeline, or before the first frame arrives, the buffer
   * is left as it was; otherwise every point's slot is painted.
   */
  function RunTick(pipelineExists: bool, lastFrame: Option<Frame>, b: ModelBounds,
                   points: seq<Point>, colors: seq<int>, repack: int -> int): (r: seq<int>)
    requires pipelineExists && lastFrame.Some? ==>
               lastFrame.value.Valid() && b.NonDegenerate() && IndicesFit(points, |colors|)
    ensures |r| == |colors|
    ensures !pipelineExists || lastFrame.None? ==> r == colors
    ensures pipelineExists && lastFrame.Some? ==>
              && (forall i :: 0 <= i < |colors| && !Writes(points, i) ==> r[i] == colors[i])
              && (forall k :: 0 <= k < |points| && LastWriter(points, k) ==>
                    r[points[k].index] == PointColor(lastFrame.value, b, points[k], repack))
  {
    if !pipelineExists then colors
    else if lastFrame.None? then colors
    else Paint(lastFrame.value, b, points, colors, repack)
  }

  /** `GSTBase.run` over the pattern's colour array. */
  method Run(pipelineExists: bool, lastFrame: Option<Frame>, b: ModelBounds,
             points: seq<Point>, colors: array<int>, repack: int -> int)
    requires pipelineExists && lastFrame.Some? ==>
               lastFrame.value.Valid() && b.NonDegenerate() && IndicesFit(points, colors.Length)
    modifies colors
    ensures colors[..] == RunTick(pipelineExists, lastFrame, b, points, old(colors[..]), repack)
  {
    if !pipelineExists {
      return;
    }
    if lastFrame.None? {
      return;
    }
    var frame := lastFrame.value;
    ghost var initial := colors[..];
    var k := 0;
    while k < |points|
      invariant 0 <= k <= |points|
      invariant colors[..] == Paint(frame, b, points[..k], initial, repack)
    {
      var p := points[k];
      var x := Column(b, frame, p.x);
      var y := Row(b, frame, p.y);
      var color := Sample(frame, x, y);
      assert points[..k + 1][..k] == points[..k];
      colors[p.index] := repack(color);
      k := k + 1;
    }
    assert points[..|points|] == points;
  }

  /**
   * The read at `GSTBase.java` lines 185-186 as written: the guard uses the width and height
   * captured before the loop (`dims`), but the pixel comes from whatever frame is current when
   * the lock is taken (`current`). `BufferedImage.getRGB` throws on a coordinate outside it.
   */
  function SampleAsWritten(dims: Frame, current: Frame, x: int, y: int): (r: Result<int>)
    requires dims.Valid() && current.Valid()
    ensures r.Failure? ==> dims.InFrame(x, y)
  {
    if dims.InFrame(x, y) then
      var row := (dims.height - 1) - y;
      if 0 <= row < |current.pixels| && 0 <= x < |current.pixels[row]| then Success(current.pixels[row][x])
      else Failure(ArrayIndexOutOfBounds)
    else Success(Black)
  }

  /**
   * A frame that shrinks mid-loop (the height knob lowered from 120 to 60, say) makes the
   * stale guard admit row 119 of a 60-row image.
   */
  lemma StaleDimensionsReadOutOfBounds()
    ensures var dims := Frame(160, 120, seq(120, _ => seq(160, _ => 0)));
            var current := Frame(80, 60, seq(60, _ => seq(80, _ => 0)));
            dims.Valid() && current.Valid() && SampleAsWritten(dims, current, 0, 0).Failure?
  {
  }

  /**
   * Reading the dimensions and the pixels from one snapshot, as this model does, never fails
   * and agrees with `Sample`.
   */
  lemma SnapshotSampleAgrees(frame: Frame, x: int, y: int)
    requires frame.Valid()
    ensures SampleAsWritten(frame, frame, x, y) == Success(Sample(frame, x, y))
  {
    if frame.InFrame(x, y) {
      SampleReadsInBounds(frame, x, y);
    }
  }
}
