# Wipe animation and integer helpers

This project models two parts of the `kaboom6` animated-GIF test program:

- **The "wipe" frame producer and the checks made around it** (`kaboom6/Program.cs`).
  - `FramesIterator` allocates one canvas twice the height of a source bitmap. It copies the source rows onto the canvas one at a time, yielding the same canvas object after every copy:
    - first bottom-up through a white-background quantizer into canvas rows 1..H;
    - then top-down through a black-background quantizer into canvas rows H..2H-1.
  - `DelaysIterator` gives every frame but the last 20 ms, and the last one 3 s.
  - The test computes the number of frames it expects in the decoded image, and skips disposed source frames.
  - The test builds the expected frame by cloning the source frame when the decoded frame has the same size. When the sizes differ, it fails under ErrorIfDiffers and otherwise scales (Resize) or draws at an offset meant to centre it (Center).
  - `GenerateAlphaGradient` fills the source bitmap: one row of hues, then copies of it with one alpha value per row.
- **The integer helpers** of `kaboom6/IntExtensions.cs`: `ClipToByte`, `ToBitsPerPixel`, `RoundUpToPowerOf2` and `Abs`.

Modules:

- `IntExtensions` (`int_extensions.dfy`). The integer helpers, over the newtypes `byte` and `int32` and over `bv32` for `uint`. The wrap-arounds of `ToBitsPerPixel` and `RoundUpToPowerOf2` are written out. `Abs` instead requires an input other than Int32.MinValue, whose negation wraps.
- `Bitmaps` (`bitmaps.dfy`). A bitmap as a class with a width, an array of rows written in place and a disposed flag. It also holds the gradient generator.
- `WipeAnimation` (`wipe_animation.dfy`). A value-level description of the wipe (`Wipe`: the canvas after k copies, `Frame(k)`, and the frames yielded, `Frames(n)`).
  - The class `FramesEnumerator` is one enumeration of `FramesIterator`. Its two loops are a phase and a row index, and its canvas is a `BitmapData` updated in place.
  - `MoveNext` is proved against `Wipe`.
  - The enumeration's consumers are modelled too: `ToArray`, the encoder's pass, two traversals, and the delays.
- `AnimationCheck` (`animation_check.dfy`). The expected frame count and the comparison loop's schedule, as written and with the source frame chosen by playback position. It also models the size-handling branch as written (`PlanExpectedFrame`, whose Center offset is not centred vertically) and as corrected (`PlanExpectedFrameCorrected`).

## Model

| member | source | states |
|---|---|---|
| IntExtensions.WrapInt32 | kaboom6/IntExtensions.cs:22 | the C# `int` that unchecked `colorCount - 1` yields: the exact value when it fits, otherwise the value shifted by 2^32 |
| IntExtensions.ClipToByte | kaboom6/IntExtensions.cs:8-11 | 0 for a negative input, 255 above 255, the value itself in between |
| IntExtensions.ClipToByteMonotone | kaboom6/IntExtensions.cs:8-11 | a larger input never clips to a smaller byte |
| IntExtensions.ClipToByteNearest | kaboom6/IntExtensions.cs:8-11 | the clipped byte is at least as close to the input as any other byte |
| IntExtensions.CeilLog2Bounds | kaboom6/IntExtensions.cs:18-25 | CeilLog2(n) is ceil(log2 n): 2^(b-1) < n <= 2^b |
| IntExtensions.CeilLog2Exact | kaboom6/IntExtensions.cs:18-25 | only one exponent satisfies those bounds, so they determine the bit count |
| IntExtensions.ToBitsPerPixel | kaboom6/IntExtensions.cs:13-26 | 1 for one colour; for two or more colours the b with 2^(b-1) < colorCount <= 2^b, which equals CeilLog2; 0 for counts in (Int32.MinValue, 0], where the loop never runs; 31 for Int32.MinValue, whose decrement wraps to Int32.MaxValue |
| IntExtensions.BitsPerPixelResult | kaboom6/IntExtensions.cs:21-25 | the bit length the shift loop leaves is the value ToBitsPerPixel promises, for every input but 1 |
| IntExtensions.BitsOfMaxInt32 | kaboom6/IntExtensions.cs:22 | Int32.MaxValue needs exactly 31 bits |
| IntExtensions.LeastPowerOfTwoBits | kaboom6/IntExtensions.cs:28-37 | a power of two that is at least v, with its half below v, is not larger than any other power of two that is at least v |
| IntExtensions.LeastPowerOfTwoBitsAll | kaboom6/IntExtensions.cs:28-37 | such a power of two is not larger than any power of two that is at least v |
| IntExtensions.RoundUpToPowerOf2 | kaboom6/IntExtensions.cs:28-38 | for 1 <= v <= 2^30: the least power of two >= v. A power of two is returned unchanged. No power of two >= v is smaller. For 2^30 < v <= 2^31: the bits of Int32.MinValue. For 0, and above 2^31: 0 (unchecked wrap-around) |
| IntExtensions.Abs | kaboom6/IntExtensions.cs:42-47 | for i other than Int32.MinValue, a non-negative value equal to i or -i |
| Bitmaps.BitmapData.constructor | kaboom6/Program.cs:19-20 | a new bitmap has the requested width and height and every row blank (transparent) |
| Bitmaps.BitmapData.Dispose | kaboom6/Program.cs:19 | afterwards the bitmap is disposed |
| Bitmaps.GenerateAlphaGradient | kaboom6/Program.cs:166-206 | row 0 holds each column's hue, opaque. Every further row holds row 0 with that row's alpha. A single-row bitmap gets row 0 only |
| WipeAnimation.Wipe.DestRow | kaboom6/Program.cs:23-36 | every copy writes a canvas row in [1, 2H-1]: white copies rows <= H, black copies rows >= H |
| WipeAnimation.Wipe.Frame | kaboom6/Program.cs:19-36 | the canvas after k copies has 2H rows |
| WipeAnimation.Wipe.Frames | kaboom6/Program.cs:23-36 | the n frames yielded: frame k is the canvas after k + 1 copies |
| WipeAnimation.FrameRows | kaboom6/Program.cs:23-36 | the canvas after k copies agrees row by row with the closed form RowAfter: blank, the white copy of source row H-r, or the black copy of source row r-H |
| WipeAnimation.StepChangesOneRow | kaboom6/Program.cs:25-35 | copy k sets its destination row to the quantized source row and leaves every other canvas row unchanged |
| WipeAnimation.RowZeroStaysBlank | kaboom6/Program.cs:19-36 | canvas row 0 is never written: it is blank in every frame |
| WipeAnimation.WhitePhaseShowsSourceUpsideDown | kaboom6/Program.cs:23-28 | after the first loop, canvas row r (1 <= r <= H) holds source row H-r through the white quantizer; rows below H are still blank |
| WipeAnimation.BlackPhaseProgress | kaboom6/Program.cs:30-36 | after black step j, canvas rows H..H+j hold source rows 0..j through the black quantizer. Rows 1..H-1 keep their white copies. The rows below are blank |
| WipeAnimation.LastFrame | kaboom6/Program.cs:17-37 | the final canvas: row 0 blank, rows 1..H-1 white copies upside down, rows H..2H-1 black copies in order |
| WipeAnimation.FramesEnumerator.constructor | kaboom6/Program.cs:19-20 | an enumeration starts with a fresh blank canvas of width W and height 2H, distinct from the source |
| WipeAnimation.FramesEnumerator.MoveNext | kaboom6/Program.cs:17-37 | answers true exactly while fewer than 2H copies are done, making one more copy. Otherwise it disposes the canvas and answers false. The canvas always holds the frame after the copies done, and the source is not modified |
| WipeAnimation.FramesEnumerator.CopyWhiteRow | kaboom6/Program.cs:23-28 | one pass of the bottom-up loop, keeping the canvas equal to the frame after one more copy |
| WipeAnimation.FramesEnumerator.CopyBlackRow | kaboom6/Program.cs:31-36 | one pass of the top-down loop, keeping the canvas equal to the frame after one more copy |
| WipeAnimation.FramesEnumerator.Snapshot | kaboom6/Program.cs:23-36 | the rows of the yielded canvas are the frame after the copies done so far |
| WipeAnimation.FramesEnumerator.CanvasIsFrame | kaboom6/Program.cs:23-36 | the canvas equals Wipe.Frame(copies done) |
| WipeAnimation.CollectFrames | kaboom6/Program.cs:63 | ToArray yields 2H frames, all of them the one canvas, which ends disposed and holds the last frame |
| WipeAnimation.Snapshots | kaboom6/Program.cs:17-37 | a complete pass yields exactly Wipe.Frames(2H) and leaves the canvas disposed |
| WipeAnimation.SnapshotAndAdvance | kaboom6/Program.cs:23-36 | copying out the yielded frame extends the frames seen so far by the next frame of the wipe |
| WipeAnimation.TraverseTwice | kaboom6/Program.cs:17-63 | two traversals of the same source use two distinct canvases and give identical frames. The first canvas still holds the last frame after the second traversal |
| WipeAnimation.Delays | kaboom6/Program.cs:39-44 | 2H delays for H >= 1 (one for H = 0): all 20 ms except the last, which is 3000 ms |
| WipeAnimation.FramesWithDelays | kaboom6/Program.cs:17-44 | the frames and delays of the same source have equal counts, and the last delay exceeds every other |
| AnimationCheck.ExpectedLength | kaboom6/Program.cs:70-72 | N frames in Normal mode; 2N-2 in PingPong mode for N >= 2, and N below that; never fewer than N |
| AnimationCheck.ExpectedLengthOfTen | kaboom6/Program.cs:70-72 | ten source frames: 10 expected in Normal mode, 18 in PingPong |
| AnimationCheck.PlaybackLength | kaboom6/Program.cs:70-72 | the expected length is the length of the forward-then-back playback sequence |
| AnimationCheck.PingPongPlayback | kaboom6/Program.cs:70-72 | PingPong playback shows the n frames, then frames n-2 down to 1 |
| AnimationCheck.Reverse | kaboom6/Program.cs:70-72 | a helper of the reference playback sequence, not code of the test: the reversal has the same length, and element i is element n-1-i |
| AnimationCheck.PlaybackIndex | kaboom6/Program.cs:70-72 | the source frame a decoded frame shows: a valid source index, equal to the position in the forward part |
| AnimationCheck.PlaybackIndexIsPlayback | kaboom6/Program.cs:70-72 | PlaybackIndex names the frame at that position of the playback sequence |
| AnimationCheck.Undisposed | kaboom6/Program.cs:79-83 | the frames the loop does not skip: at most n indices, each below n and naming a frame that is not disposed |
| AnimationCheck.UndisposedComplete | kaboom6/Program.cs:79-83 | every frame below n that is not disposed is listed |
| AnimationCheck.UndisposedIncreasing | kaboom6/Program.cs:79-83 | the listed frames are in increasing order, each once |
| AnimationCheck.NothingUndisposed | kaboom6/Program.cs:81-83 | when every source frame is disposed, nothing is compared |
| AnimationCheck.ComparisonSchedule | kaboom6/Program.cs:79-83 | the loop over the decoded frames compares the undisposed source frames. It fails on an index out of range exactly when more frames were decoded than there are source frames |
| AnimationCheck.CheckAnimation | kaboom6/Program.cs:63-83 | the expected length follows the formula. No frame is ever compared, since every source frame is the same disposed canvas. With comparison enabled, the loop overruns exactly when more than 2H frames were decoded, which a PingPong image of a source with two or more rows delivers |
| AnimationCheck.PlaybackComparisonSchedule | kaboom6/Program.cs:79-83 | the loop with each decoded frame compared with the source frame it shows: it overruns exactly when more frames were decoded than the playback holds, and it compares exactly the decoded frames whose source frame is not disposed |
| AnimationCheck.PingPongOverrunExample | kaboom6/Program.cs:79-81 | four source frames in PingPong decode to six frames; decoded frame 4 shows source frame 2, where the test indexes past the end |
| AnimationCheck.CenterOffsetAsWritten | kaboom6/Program.cs:100 | the test's offset: the centred x, and the centred y moved by half the source's height minus half the image's width, so equal to the centred y exactly when those halves are equal |
| AnimationCheck.CenterOffsetAsWrittenMisplaces | kaboom6/Program.cs:100 | the offset as written places a 10x10 source in a 20x10 image at (5, -5), partly outside; centring gives (5, 0) |
| AnimationCheck.CenterOffsetCentres | kaboom6/Program.cs:100 | the corrected offset puts a source that fits inside the image, with opposite margins differing by at most one pixel |
| AnimationCheck.PlanExpectedFrame | kaboom6/Program.cs:90-100 | equal sizes clone, and only they. Differing sizes are an error exactly under ErrorIfDiffers. Under Resize the source is scaled to the decoded size. Under Center it is drawn into an image of the decoded size at exactly the test's offset (CenterOffsetAsWritten): centred horizontally, and vertically the centred row moved by half the source's height minus half the image's width, so centred only when those halves are equal |
| AnimationCheck.PlanExpectedFrameCorrected | kaboom6/Program.cs:90-100 | the same branch with the corrected offset: under Center a source that fits is drawn inside the image |
| AnimationCheck.PlansAgree | kaboom6/Program.cs:90-100 | the written and corrected branches differ only under Center for differing sizes where half the image's width is not half the source's height |

## Left out

- GIF encoding and decoding, the extraction of the decoded frames and their `LockBits`/`UnlockBits` are library calls. The number of decoded frames is a parameter of `AnimationCheck.CheckAnimation`.
- Quantizers, ditherers and the pixel work of `CopyTo`, `Clone` and `DrawInto` are library code.
  - The two quantizers of `FramesIterator` are arbitrary row functions (`WipeAnimation.RowQuantizer`). The model does not require them to keep a row's width, which the copy in the source always writes in full; no proved property depends on it.
  - The expected frame is described by the operation that builds it (`Expectation`), not by its pixels.
  - The Resize scaling is not modelled.
- The default quantizer of the comparison (`?? Wu`) is not modelled: it only selects a quantizer.
- The colours of `GenerateAlphaGradient` come from `float` ratios and truncation. The hue of each column and the alpha of each row are parameters of `Bitmaps.GenerateAlphaGradient`.
- The reflection read of the configuration's frames, `SaveStream` and the `Console` output are I/O. `AssertAreEqual` is not part of this model.
- `GetMask` wraps a library struct, `BitVector32.Section`.
- `expectedLength` is computed but never compared with the number of decoded frames. The model states the formula and claims no check.
- The comparison block exists only in Windows builds and runs only when `performCompare` is set. `AnimationCheck.CheckAnimation` takes both as one flag, `compareEnabled`.
- IntExtensions.Abs: requires i != Int32.MinValue where the source only has a debug assertion. A release build returns Int32.MinValue for it (unchecked negation).
- IntExtensions.RoundUpToPowerOf2: returns the 32 result bits (`bv32`) rather than the `int` they are cast to. The pattern 0x8000_0000 stands for Int32.MinValue.
- WipeAnimation.FramesEnumerator.constructor: allocates the canvas when the enumeration is created. The C# iterator allocates it at its first `MoveNext`; nothing observes the difference.
- WipeAnimation.FramesEnumerator.MoveNext: a partly consumed enumeration that is disposed early (which would dispose the canvas) is not modelled.
- The doubled height `Height * 2` is an unbounded integer here, where the source computes it in 32-bit `int`. The model assumes it does not overflow; the source bitmap the program builds is 255 rows high (kaboom6/Program.cs:15), so `Height * 2` is 510.
- `WipeAnimation.Snapshots` models the encoder's pass as a copy of each frame as it is yielded. How the encoder reads or quantizes frames with the configured Octree quantizer is library code, and so is interleaving it with other enumerations.

## Findings

| source | as written | input that shows it | evidently intended | confidence | as-written member | corrected member |
|---|---|---|---|---|---|---|
| kaboom6/Program.cs:100 | the vertical centring offset is `expectedFrame.Height / 2 - expectedFrame.Width / 2` | a 10x10 source frame decoded as 20x10 under Center: offset (5, -5), so the top five source rows fall outside the expected frame | `expectedFrame.Height / 2 - sourceFrame.Height / 2`, giving (5, 0) | high for the expression; not executed | AnimationCheck.CenterOffsetAsWrittenMisplaces | AnimationCheck.PlanExpectedFrameCorrected |
| kaboom6/Program.cs:79-81 | decoded frame i is compared with `sourceFrames[i]`, though a PingPong image decodes to more frames than there are source frames | a PingPong image of a 2-row source (4 source frames, 6 decoded) with comparison enabled: `sourceFrames[4]` is out of range | compare decoded frame i with the source frame it shows: i in the forward part, 2n-2-i after it | medium: the program calls the test with comparison off, so this is latent; not executed | AnimationCheck.CheckAnimation | AnimationCheck.PlaybackComparisonSchedule |
