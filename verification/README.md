# ChromatikGST core, modelled in Dafny

ChromatikGST is a set of Chromatik (LX) patterns that play video through GStreamer and paint
the decoded frames onto an LED model. This project models the parts of it that are logic
rather than plumbing:

- the per-tick sampling loop of `GSTBase.run`: each model point's offset from the model's
  minimum x and y is divided by the size of one frame pixel in model units and cast to `int`
  (truncation toward zero), the result is bounds-checked against the frame, the row is flipped
  because the image is stored top-down while the model's y axis runs up, and one colour per
  point is written into the colour buffer (black for points outside the frame);
- the pixel format the application sink requests in `GSTBase.createVideoSink`, chosen by the
  machine's native byte order;
- the rules of the video-file pattern `GSTVideo`: the scaling caps string, the guard on
  updating it, the file name taken from the open dialog, and the play-position reset.

Files: `results.dfy` (Option/Result and the Java exceptions), `java_text.dfy` (`indexOf`,
`%d` formatting and its inverse), `java_numeric.dfy` (the `(int)` cast over reals),
`frames.dfy` (the immutable frame and the flipped pixel read), `sampler.dfy` (the loop of
`run`), `pixel_format.dfy` (the sink format), `video_pattern.dfy` (`GSTVideo`).

Inputs the program takes from its environment are parameters: whether a pipeline exists, the
last frame (or none), the model bounds and points, the native byte order, the sync flag and
the knob values, and the colour repacking `LXColor.rgb(red(c), green(c), blue(c))` as an
arbitrary function `repack`.

## Model

| member | source | states |
|---|---|---|
| Sampler.Run | src/main/java/xyz/theforks/chromatikgst/GSTBase.java:164-191 | the loop over the colour array leaves it exactly as `RunTick` describes: unchanged without a pipeline or a frame, otherwise each point's slot painted |
| Sampler.RunTick | src/main/java/xyz/theforks/chromatikgst/GSTBase.java:165-190 | with no pipeline or no frame yet every slot keeps its previous colour; otherwise slots no point owns are untouched and each point's slot gets its sampled colour |
| Sampler.Paint | src/main/java/xyz/theforks/chromatikgst/GSTBase.java:180-190 | one pass keeps the buffer length, touches no slot outside the points' indices, and leaves each slot with the colour of the last point that writes it |
| Sampler.PointColor | src/main/java/xyz/theforks/chromatikgst/GSTBase.java:181-189 | a point inside the frame gets the repacked pixel of the bottom-up image at its column and row; a point outside gets repacked black |
| Frames.Sample | src/main/java/xyz/theforks/chromatikgst/GSTBase.java:183-186 | the read at image row (height-1)-y is the pixel at row y of the vertically flipped image; outside the frame the value is black (0) |
| Frames.FlipVertical | src/main/java/xyz/theforks/chromatikgst/GSTBase.java:186 | reversing the rows puts image row (height-1)-i at position i, the index arithmetic the read uses |
| Frames.SampleReadsInBounds | src/main/java/xyz/theforks/chromatikgst/GSTBase.java:185-186 | whenever the guard admits (x, y), the flipped row and the column both index inside the image |
| Sampler.MinYReadsLastRow | src/main/java/xyz/theforks/chromatikgst/GSTBase.java:182-186 | a point at the model's minimum y samples the last image row |
| Sampler.ModelEdges | src/main/java/xyz/theforks/chromatikgst/GSTBase.java:175-189 | the model minimum maps to column 0 and row 0; in exact arithmetic xMax maps to column = width and yMax to row = height, so such points are painted black |
| Sampler.MappingMonotone | src/main/java/xyz/theforks/chromatikgst/GSTBase.java:175-182 | column is non-decreasing in the point's x, and row in its y |
| Sampler.Cell | src/main/java/xyz/theforks/chromatikgst/GSTBase.java:177-182 | within the int range the pixel index is the number of whole pixels the offset spans, counted toward zero: floor of offset*pixels/extent for non-negative offsets, ceiling for negative ones |
| Sampler.Column | src/main/java/xyz/theforks/chromatikgst/GSTBase.java:175-181 | the column of a point with xMin <= x < xMax lies in [0, width) |
| Sampler.Row | src/main/java/xyz/theforks/chromatikgst/GSTBase.java:176-182 | the bottom-up row of a point with yMin <= y < yMax lies in [0, height) |
| Sampler.CellWithinExtent | src/main/java/xyz/theforks/chromatikgst/GSTBase.java:177-182 | an offset in [0, extent) lands in a pixel in [0, pixels) |
| Sampler.CellEdges | src/main/java/xyz/theforks/chromatikgst/GSTBase.java:177-182 | offset 0 lands in pixel 0 and an offset of the whole extent lands in pixel `pixels` |
| Sampler.CellPreimage | src/main/java/xyz/theforks/chromatikgst/GSTBase.java:177-182 | the offsets landing in pixel c > 0 are exactly the band [c*s, (c+1)*s) for pixel size s; pixel 0 takes (-s, s), because the cast truncates toward zero |
| Sampler.CellMonotone | src/main/java/xyz/theforks/chromatikgst/GSTBase.java:177-181 | a larger offset never lands in a smaller pixel |
| JavaNumeric.IntCast | src/main/java/xyz/theforks/chromatikgst/GSTBase.java:181-182 | the `(int)` cast truncates toward zero inside the int range and saturates at its ends |
| JavaNumeric.IntCastPreimage | src/main/java/xyz/theforks/chromatikgst/GSTBase.java:181-182 | the values casting to c form [c, c+1) for positive c, (c-1, c] for negative c, and (-1, 1) for 0 |
| JavaNumeric.IntCastMonotone | src/main/java/xyz/theforks/chromatikgst/GSTBase.java:181-182 | the cast is monotone |
| Sampler.SampleAsWritten | src/main/java/xyz/theforks/chromatikgst/GSTBase.java:172-186 | the read as written, with the guard using dimensions captured before the loop and the pixel taken from the current frame; it can only fail when the stale guard admitted the point |
| Sampler.StaleDimensionsReadOutOfBounds | src/main/java/xyz/theforks/chromatikgst/GSTBase.java:172-186 | a frame shrinking from 160x120 to 80x60 during the loop makes the read at (0, 0) go out of bounds |
| Sampler.SnapshotSampleAgrees | src/main/java/xyz/theforks/chromatikgst/GSTBase.java:184-186 | taking dimensions and pixels from one snapshot never fails and equals `Sample` |
| PixelFormat.SinkFormat | src/main/java/xyz/theforks/chromatikgst/GSTBase.java:85-89 | the chosen format reads back every pixel's red, green and blue when its memory bytes are read as a native-order int |
| PixelFormat.SinkCaps | src/main/java/xyz/theforks/chromatikgst/GSTBase.java:83-90 | the sink caps are `video/x-raw,format=BGRx` on a little-endian machine and `video/x-raw,format=xRGB` otherwise |
| PixelFormat.NativeLayoutRoundTrip | src/main/java/xyz/theforks/chromatikgst/GSTBase.java:84-89 | a pixel stored as BGRx and read little-endian, or as xRGB and read big-endian, has red, green and blue in the RGB image's channel positions |
| PixelFormat.SinkFormatIsTheFaithfulOne | src/main/java/xyz/theforks/chromatikgst/GSTBase.java:84-89 | a format reads back every pixel faithfully on a byte order if and only if it is the one the sink chooses for it |
| JavaText.IndexOf | src/main/java/xyz/theforks/chromatikgst/GSTVideo.java:211 | `indexOf` gives -1 exactly when the character is absent, otherwise the position of its first occurrence |
| JavaText.FormatInt | src/main/java/xyz/theforks/chromatikgst/GSTVideo.java:96-97 | `%d` output is non-empty, has no comma, starts with '-' exactly for negative values, and parses back to the same int |
| JavaText.FormatIntParseInt | src/main/java/xyz/theforks/chromatikgst/GSTVideo.java:96-97 | every string the parser accepts is exactly the `%d` output of the int it yields, so formatting and parsing are inverse |
| JavaText.NatToDecimalParseNat | src/main/java/xyz/theforks/chromatikgst/GSTVideo.java:96-97 | every decimal without leading zeros is the `%d` output of the number it denotes |
| VideoPattern.CapsString | src/main/java/xyz/theforks/chromatikgst/GSTVideo.java:96-97 | the formatted caps string parses back to exactly the width and height it was built from |
| VideoPattern.CreateCapsFilter | src/main/java/xyz/theforks/chromatikgst/GSTVideo.java:94-101 | the filter's caps string names exactly the requested width and height |
| VideoPattern.CapsStringRoundTrip | src/main/java/xyz/theforks/chromatikgst/GSTVideo.java:96-97 | a string parses to (W, H) if and only if it is `video/x-raw,width=W,height=H,format=BGRx` |
| VideoPattern.ParseCapsSound | src/main/java/xyz/theforks/chromatikgst/GSTVideo.java:105-106 | any string the caps parser accepts is the caps string `updateCapsFilter` would format for the values it yields |
| VideoPattern.DefaultCaps | src/main/java/xyz/theforks/chromatikgst/GSTVideo.java:43-49 | with the knobs at their defaults (160 and 120) the caps string is `video/x-raw,width=160,height=120,format=BGRx` |
| VideoPattern.CapsStringInjective | src/main/java/xyz/theforks/chromatikgst/GSTVideo.java:96-97 | two different sizes never give the same caps string |
| VideoPattern.UpdateCapsFilter | src/main/java/xyz/theforks/chromatikgst/GSTVideo.java:103-108 | with no caps filter nothing changes; otherwise the new caps name the current knob values |
| VideoPattern.UpdateIgnoresArguments | src/main/java/xyz/theforks/chromatikgst/GSTVideo.java:103-107 | the update's `width`/`height` arguments never affect the caps |
| VideoPattern.BaseFilename | src/main/java/xyz/theforks/chromatikgst/GSTVideo.java:211 | the stem is the name up to its first '.', holding no '.'; a name without '.' throws StringIndexOutOfBoundsException |
| VideoPattern.VideoFileFor | src/main/java/xyz/theforks/chromatikgst/GSTVideo.java:211-215 | the new file name ends in ".mp4" and its stem, free of '.', followed by '.' is a prefix of the chosen name; it fails exactly when the name has no '.' |
| VideoPattern.VideoFileForIdempotent | src/main/java/xyz/theforks/chromatikgst/GSTVideo.java:211-215 | choosing the derived name again yields the same name |
| VideoPattern.VideoFileForExample | src/main/java/xyz/theforks/chromatikgst/GSTVideo.java:211-215 | `clip.final.mov` becomes `clip.mp4` |
| VideoPattern.OnOpen | src/main/java/xyz/theforks/chromatikgst/GSTVideo.java:207-219 | the open button is deactivated in every case; no file sets nothing; a name with '.' queues the derived name; a name without '.' throws and queues nothing |
| VideoPattern.ResetPlayPosition | src/main/java/xyz/theforks/chromatikgst/GSTVideo.java:231-235 | a seek to position 0 is issued if and only if sync is on and a pipeline exists |
| VideoPattern.PauseOnInactive | src/main/java/xyz/theforks/chromatikgst/GSTBase.java:148-155 | the base pattern pauses if and only if a pipeline exists |
| VideoPattern.OnInactive | src/main/java/xyz/theforks/chromatikgst/GSTVideo.java:221-225 | deactivation pauses exactly when a pipeline exists, rewinds exactly when sync is also on, and the pause comes last |

## Left out

- GStreamer pipeline construction, bus messages, segment looping, seeking internals, state changes and the `Gst.main`/`Gst.quit` loop (`GSTBase` lines 42-162 apart from the format choice in `createVideoSink` and the pause in `onInactive`, `GSTVideo` lines 110-146): foreign-library plumbing. A seek is reduced to `SeekSegment(0)` and a pause to `Pause`.
- The frame hand-off in `ChromatikSink` (lock, native `ByteBuffer` copy, frame counter): the frame is an immutable snapshot given to `RunTick`, so the second null check inside the lock at `GSTBase` line 185 is always true and is not modelled. The race this hides is recorded under Findings.
- `GSTUtil` (resource listing and copying), `GSTAutoVideo`, `GSTTestSrc` and the deprecated `GST` pattern, whose caps code duplicates `GSTVideo`: file-system I/O or copies of modelled code.
- UI wiring (`buildDeviceControls`, the parameter listeners of `onParameterChanged`) and the deferred command in `onOpen`: the engine task that sets the parameter is modelled only as the value it would set.
- Floating point: coordinates are exact reals, so float rounding, the `(float)` cast of `xMax` alone, and the NaN/infinite scale of a zero-size model are not modelled; `ModelBounds.NonDegenerate` is required instead.
- `LXColor.red/green/blue/rgb` is not part of this model; `repack` stands for the whole repacking.
- Sampler.Run: requires every point index to fit the colour array (`IndicesFit`); Java would throw `ArrayIndexOutOfBoundsException` part-way through the loop, which the model does not reproduce. LX sizes the array to the model.
- Sampler.RunTick: requires `IndicesFit` when it paints, for the same reason as `Run`.
- Sampler.Paint: requires `IndicesFit`, for the same reason as `Run`.
- VideoPattern.OnOpen: takes the file's name (`File.getName()`, the last path component) rather than a path, and does not model a missing open button.
- `ByteOrder.nativeOrder()` is a parameter of `SinkCaps`.
- JavaText.FormatInt: assumes the default format locale writes ASCII digits. `String.format` uses `Locale.getDefault(Locale.Category.FORMAT)`, and `%d` shifts each digit by that locale's zero digit, so under locales such as `fa`, `mr` or `ne` the caps string would carry non-ASCII digits. The model does not cover those locales.
- The knob ranges of the width and height parameters are not enforced; any Java `int` is accepted.

## Findings

| source | as written | input that shows it | evidently intended | confidence | as-written member | corrected member |
|---|---|---|---|---|---|---|
| src/main/java/xyz/theforks/chromatikgst/GSTBase.java:172-186 | `width` and `height` are read from `lastFrame` once before the loop, outside the lock, but each pixel is read from whatever `lastFrame` is current inside the lock | frames are 160x120; the height knob is lowered so an 80x60 frame arrives during the loop; a point at column 0, row 0 passes the guard and `getRGB(0, 119)` is called on a 60-row image, which throws | check the bounds against the same frame whose pixel is read (take one snapshot under the lock) | medium, not executed | Sampler.SampleAsWritten, Sampler.StaleDimensionsReadOutOfBounds | Sampler.SnapshotSampleAgrees, Frames.Sample |
