/** The checks the animation test makes after encoding and decoding: how
    many frames the decoded image should have, which decoded frames are
    compared with their source frame, and how the expected frame is built
    when the sizes differ. Encoding, decoding and the pixel work are the
    image library's and are not modelled. */
module AnimationCheck {
  import opened Bitmaps
  import opened WipeAnimation

  // ----- frame count -----

  /** Playback modes: PingPong plays the frames forward and then backward;
      every other mode plays them forward only. */
  datatype AnimationMode = Normal | PingPong

  /** The number of frames the test expects in the decoded image: the frame
      count in Normal mode; in PingPong mode the frames forward and all but
      the first and last again backward. */
  function ExpectedLength(frameCount: nat, mode: AnimationMode): (r: nat)
    ensures mode == Normal ==> r == frameCount
    ensures mode == PingPong && frameCount >= 2 ==> r == 2 * frameCount - 2
    ensures mode == PingPong && frameCount < 2 ==> r == frameCount
    ensures r >= frameCount
  {
    frameCount + (if mode == PingPong then Max(0, frameCount - 2) else 0)
  }

  /** Ten frames: ten expected forward, eighteen for PingPong. */
  lemma ExpectedLengthOfTen()
    ensures ExpectedLength(10, Normal) == 10 && ExpectedLength(10, PingPong) == 18
  {
  }

  function Max(a: int, b: int): int {
    if a >= b then a else b
  }

  /** The elements of s in reverse order. */
  function Reverse<T>(s: seq<T>): (r: seq<T>)
    ensures |r| == |s|
    ensures forall i :: 0 <= i < |s| ==> r[i] == s[|s| - 1 - i]
  {
    if |s| == 0 then [] else Reverse(s[1..]) + [s[0]]
  }

  /** The frames in the order they are shown: for PingPong, forward and then
      back again, without repeating the last frame or showing the first one
      a second time. */
  function Playback<T>(frames: seq<T>, mode: AnimationMode): seq<T> {
    if mode == PingPong && |frames| > 2 then frames + Reverse(frames[1..|frames| - 1])
    else frames
  }

  /** The expected length is the length of the playback sequence. */
  lemma PlaybackLength<T>(frames: seq<T>, mode: AnimationMode)
    ensures |Playback(frames, mode)| == ExpectedLength(|frames|, mode)
  {
  }

  /** A PingPong playback of n > 2 frames shows the n frames forward, then
      frames n-2 down to 1: position i >= n shows frame 2n - 2 - i. */
  lemma PingPongPlayback<T>(frames: seq<T>)
    requires |frames| > 2
    ensures var p, n := Playback(frames, PingPong), |frames|;
      && p[..n] == frames
      && (forall i :: n <= i < 2 * n - 2 ==> p[i] == frames[2 * n - 2 - i])
  {
    var n := |frames|;
    var interior := frames[1..n - 1];
    forall i | n <= i < 2 * n - 2
      ensures Playback(frames, PingPong)[i] == frames[2 * n - 2 - i]
    {
      assert Playback(frames, PingPong)[i] == Reverse(interior)[i - n];
    }
  }

  // ----- which decoded frames are compared -----

  /** The indices below n of the frames that are not disposed, in order:
      the frames the comparison loop does not skip. Every index it lists is
      below n and names a frame that is not disposed. */
  function Undisposed(frames: seq<BitmapData>, n: nat): (r: seq<nat>)
    requires n <= |frames|
    reads frames
    ensures |r| <= n
    ensures forall j :: 0 <= j < |r| ==> r[j] < n && !frames[r[j]].disposed
  {
    if n == 0 then []
    else Undisposed(frames, n - 1) + (if frames[n - 1].disposed then [] else [n - 1])
  }

  /** Undisposed(frames, n) lists every frame below n that is not disposed. */
  lemma {:induction false} UndisposedComplete(frames: seq<BitmapData>, n: nat)
    requires n <= |frames|
    ensures forall i :: 0 <= i < n && !frames[i].disposed ==> i in Undisposed(frames, n)
  {
    if n > 0 {
      UndisposedComplete(frames, n - 1);
      var before := Undisposed(frames, n - 1);
      assert Undisposed(frames, n) == before + (if frames[n - 1].disposed then [] else [n - 1]);
    }
  }

  /** Undisposed(frames, n) lists its frames in increasing order, each once. */
  lemma {:induction false} UndisposedIncreasing(frames: seq<BitmapData>, n: nat)
    requires n <= |frames|
    ensures forall j, l :: 0 <= j < l < |Undisposed(frames, n)| ==> Undisposed(frames, n)[j] < Undisposed(frames, n)[l]
  {
    if n > 0 {
      UndisposedIncreasing(frames, n - 1);
      var before := Undisposed(frames, n - 1);
      assert Undisposed(frames, n) == before + (if frames[n - 1].disposed then [] else [n - 1]);
    }
  }

  /** When every frame is disposed, none is compared. */
  lemma {:induction false} NothingUndisposed(frames: seq<BitmapData>, n: nat)
    requires n <= |frames|
    requires forall i :: 0 <= i < |frames| ==> frames[i].disposed
    ensures Undisposed(frames, n) == []
  {
    if n > 0 {
      NothingUndisposed(frames, n - 1);
    }
  }

  /** The comparison loop's schedule: decoded frame i is compared with
      source frame i unless that source frame is disposed. The loop runs over
      the decoded frames and indexes the source frames with the same i, so it
      fails (an index out of range) at the first decoded frame that has no
      source frame; `outOfRange` says whether that happens, and `compared`
      lists the frames compared before it, in order. */
  method ComparisonSchedule(sourceFrames: seq<BitmapData>, actualCount: nat)
    returns (compared: seq<nat>, outOfRange: bool)
    ensures outOfRange <==> actualCount > |sourceFrames|
    ensures compared == Undisposed(sourceFrames, if outOfRange then |sourceFrames| else actualCount)
  {
    compared := [];
    var i := 0;
    while i < actualCount
      invariant 0 <= i <= actualCount && i <= |sourceFrames|
      invariant compared == Undisposed(sourceFrames, i)
    {
      if i == |sourceFrames| {
        return compared, true;
      }
      if !sourceFrames[i].disposed {
        compared := compared + [i];
      }
      i := i + 1;
    }
    outOfRange := false;
  }

  /** The test's check of an encoded wipe animation, given a fresh
      enumeration of the frames and the number of frames decoded. The
      source frames come from a second enumeration (ToArray), so they are all
      the same canvas, disposed when the enumeration ended: no frame is ever
      compared. The comparison runs only when it is enabled (a Windows build
      and performCompare); then it overruns the source frames exactly when
      more frames were decoded than the traversal yields, which for PingPong
      and a source of two or more rows is what a correct decoder delivers. */
  method CheckAnimation(e: FramesEnumerator, actualCount: nat, mode: AnimationMode, compareEnabled: bool)
    returns (expectedLength: nat, compared: seq<nat>, outOfRange: bool)
    requires e.Valid() && e.steps == 0
    modifies e, e.currentFrame, e.currentFrame.rows
    ensures expectedLength == ExpectedLength(e.Spec().FrameCount(), mode)
    ensures compared == []
    ensures outOfRange <==> compareEnabled && actualCount > e.Spec().FrameCount()
    ensures compareEnabled && mode == PingPong && e.Spec().Height() >= 2 && actualCount == expectedLength
      ==> outOfRange
  {
    var sourceFrames := CollectFrames(e);
    expectedLength := ExpectedLength(|sourceFrames|, mode);
    if !compareEnabled {
      return expectedLength, [], false;
    }
    compared, outOfRange := ComparisonSchedule(sourceFrames, actualCount);
    NothingUndisposed(sourceFrames, if outOfRange then |sourceFrames| else actualCount);
  }

  /** The source frame that decoded frame i shows: in PingPong mode the
      frames after the first n run back from frame n - 2. */
  function PlaybackIndex(n: nat, mode: AnimationMode, i: nat): (k: nat)
    requires i < ExpectedLength(n, mode)
    ensures k < n
    ensures i < n ==> k == i
  {
    if i < n then i else 2 * n - 2 - i
  }

  /** PlaybackIndex names the frame at position i of the playback sequence. */
  lemma PlaybackIndexIsPlayback<T>(frames: seq<T>, mode: AnimationMode, i: nat)
    requires i < ExpectedLength(|frames|, mode)
    ensures i < |Playback(frames, mode)|
    ensures Playback(frames, mode)[i] == frames[PlaybackIndex(|frames|, mode, i)]
  {
    PlaybackLength(frames, mode);
    if mode == PingPong && |frames| > 2 {
      PingPongPlayback(frames);
      if i < |frames| {
        assert Playback(frames, mode)[..|frames|][i] == frames[i];
      }
    }
  }

  /** The comparison loop with decoded frame i compared with the source
      frame it shows, PlaybackIndex(n, mode, i): it overruns only when more
      frames were decoded than the playback sequence holds, and it compares
      exactly the decoded frames whose source frame is not disposed. */
  method PlaybackComparisonSchedule(sourceFrames: seq<BitmapData>, actualCount: nat, mode: AnimationMode)
    returns (compared: seq<nat>, outOfRange: bool)
    ensures outOfRange <==> actualCount > ExpectedLength(|sourceFrames|, mode)
    ensures forall j :: 0 <= j < |compared| ==>
      && compared[j] < actualCount && compared[j] < ExpectedLength(|sourceFrames|, mode)
      && !sourceFrames[PlaybackIndex(|sourceFrames|, mode, compared[j])].disposed
    ensures forall i :: 0 <= i < actualCount && i < ExpectedLength(|sourceFrames|, mode) ==>
      (!sourceFrames[PlaybackIndex(|sourceFrames|, mode, i)].disposed ==> i in compared)
  {
    var expected := ExpectedLength(|sourceFrames|, mode);
    compared := [];
    var i := 0;
    while i < actualCount
      invariant 0 <= i <= actualCount && i <= expected
      invariant forall j :: 0 <= j < |compared| ==>
        && compared[j] < i
        && !sourceFrames[PlaybackIndex(|sourceFrames|, mode, compared[j])].disposed
      invariant forall k :: 0 <= k < i ==>
        (!sourceFrames[PlaybackIndex(|sourceFrames|, mode, k)].disposed ==> k in compared)
    {
      if i == expected {
        return compared, true;
      }
      if !sourceFrames[PlaybackIndex(|sourceFrames|, mode, i)].disposed {
        compared := compared + [i];
      }
      i := i + 1;
    }
    outOfRange := false;
  }

  /** A PingPong image of four source frames decodes to six frames: the
      test's loop overruns the source frames at decoded frame 4, where the
      playback-indexed loop compares it with source frame 2. */
  lemma PingPongOverrunExample()
    ensures ExpectedLength(4, PingPong) == 6
    ensures 4 < ExpectedLength(4, PingPong) && PlaybackIndex(4, PingPong, 4) == 2
  {
  }

  // ----- the expected frame when the sizes differ -----

  datatype Size = Size(width: nat, height: nat)

  datatype Point = Point(x: int, y: int)

  /** What to do with frames whose size differs from the image's. */
  datatype SizeHandling = ErrorIfDiffers | Resize | Center

  /** How the expected frame is built from a source frame. */
  datatype Expectation =
    | CloneQuantized                        // same size: the source through the quantizer and ditherer
    | DrawScaled(target: Size)              // scaled to fill the whole target
    | DrawAt(target: Size, offset: Point)   // unscaled, its top left corner at offset

  datatype Plan = Planned(expectation: Expectation) | SizesDiffer

  /** The size of the expected frame. */
  function ExpectedSize(source: Size, e: Expectation): Size {
    match e
    case CloneQuantized => source
    case DrawScaled(target) => target
    case DrawAt(target, _) => target
  }

  /** Whether a source of the given size drawn at offset lies inside target. */
  predicate PlacedWithin(source: Size, target: Size, offset: Point) {
    && 0 <= offset.x && offset.x + source.width <= target.width
    && 0 <= offset.y && offset.y + source.height <= target.height
  }

  /** The centring offset as the test computes it: its vertical part
      subtracts half the target's width where half the source's height is
      meant. */
  function CenterOffsetAsWritten(source: Size, target: Size): (o: Point)
    ensures o.x == CenterOffset(source, target).x
    ensures o.y == CenterOffset(source, target).y <==> target.width / 2 == source.height / 2
    ensures o.y == CenterOffset(source, target).y + source.height / 2 - target.width / 2
  {
    Point(target.width / 2 - source.width / 2, target.height / 2 - target.width / 2)
  }

  /** The centring offset with half the source's height. */
  function CenterOffset(source: Size, target: Size): Point {
    Point(target.width / 2 - source.width / 2, target.height / 2 - source.height / 2)
  }

  /** A 10x10 source in a 20x10 image: the test's offset puts the source 5
      rows above the image, where the centred offset is row 0. */
  lemma CenterOffsetAsWrittenMisplaces()
    ensures var source, target := Size(10, 10), Size(20, 10);
      && CenterOffsetAsWritten(source, target) == Point(5, -5)
      && !PlacedWithin(source, target, CenterOffsetAsWritten(source, target))
      && CenterOffset(source, target) == Point(5, 0)
  {
  }

  /** A source that fits is placed inside the target, with the margins on
      opposite sides differing by at most one pixel. */
  lemma CenterOffsetCentres(source: Size, target: Size)
    requires source.width <= target.width && source.height <= target.height
    ensures PlacedWithin(source, target, CenterOffset(source, target))
    ensures var o := CenterOffset(source, target);
      && -1 <= (target.width - o.x - source.width) - o.x <= 1
      && -1 <= (target.height - o.y - source.height) - o.y <= 1
  {
  }

  /** The size-handling branch as the test writes it: a frame of the
      image's size is cloned; a frame of another size is an error under
      ErrorIfDiffers (the test's assertion), is scaled to the image's size
      under Resize, and is drawn at the test's centring offset under Center.
      That offset centres the source horizontally; vertically it is the
      centred one only when half the image's width equals half the source's
      height. */
  function PlanExpectedFrame(source: Size, actual: Size, handling: SizeHandling): (r: Plan)
    ensures r == Planned(CloneQuantized) <==> source == actual
    ensures r.SizesDiffer? <==> source != actual && handling == ErrorIfDiffers
    ensures source != actual && handling == Resize ==> r == Planned(DrawScaled(actual))
    ensures source != actual && handling == Center ==>
      && r.Planned? && r.expectation.DrawAt?
      && r.expectation.target == actual
      && r.expectation.offset.x == CenterOffset(source, actual).x
      && (r.expectation.offset.y == CenterOffset(source, actual).y <==> actual.width / 2 == source.height / 2)
    ensures source != actual && handling == Center ==>
      && r == Planned(DrawAt(actual, CenterOffsetAsWritten(source, actual)))
      && r.expectation.offset.y == CenterOffset(source, actual).y + source.height / 2 - actual.width / 2
    ensures r.Planned? ==> ExpectedSize(source, r.expectation) == actual
  {
    if source == actual then Planned(CloneQuantized)
    else if handling == ErrorIfDiffers then SizesDiffer
    else if handling == Resize then Planned(DrawScaled(actual))
    else Planned(DrawAt(actual, CenterOffsetAsWritten(source, actual)))
  }

  /** The size-handling branch with the centring offset corrected: under
      Center a source that fits is drawn inside the image, centred. */
  function PlanExpectedFrameCorrected(source: Size, actual: Size, handling: SizeHandling): (r: Plan)
    ensures r == Planned(CloneQuantized) <==> source == actual
    ensures r.SizesDiffer? <==> source != actual && handling == ErrorIfDiffers
    ensures source != actual && handling == Resize ==> r == Planned(DrawScaled(actual))
    ensures source != actual && handling == Center ==>
      && r == Planned(DrawAt(actual, CenterOffset(source, actual)))
    ensures r.Planned? ==> ExpectedSize(source, r.expectation) == actual
    ensures r.Planned? && r.expectation.DrawAt? && source.width <= actual.width && source.height <= actual.height
      ==> PlacedWithin(source, actual, r.expectation.offset)
  {
    if source == actual then Planned(CloneQuantized)
    else if handling == ErrorIfDiffers then SizesDiffer
    else if handling == Resize then Planned(DrawScaled(actual))
    else
      CenterOffsetCentresIfFits(source, actual);
      Planned(DrawAt(actual, CenterOffset(source, actual)))
  }

  /** The two branches agree on every input but a differently sized frame
      under Center whose image is not as wide, in halves, as the source is
      high. */
  lemma PlansAgree(source: Size, actual: Size, handling: SizeHandling)
    ensures PlanExpectedFrame(source, actual, handling) == PlanExpectedFrameCorrected(source, actual, handling)
      <==> source == actual || handling != Center || actual.width / 2 == source.height / 2
  {
    if source != actual && handling == Center {
      var o, c := CenterOffsetAsWritten(source, actual), CenterOffset(source, actual);
      assert PlanExpectedFrame(source, actual, handling) == Planned(DrawAt(actual, o));
      assert PlanExpectedFrameCorrected(source, actual, handling) == Planned(DrawAt(actual, c));
    }
  }

  lemma CenterOffsetCentresIfFits(source: Size, target: Size)
    ensures source.width <= target.width && source.height <= target.height
      ==> PlacedWithin(source, target, CenterOffset(source, target))
  {
    if source.width <= target.width && source.height <= target.height {
      CenterOffsetCentres(source, target);
    }
  }
}
