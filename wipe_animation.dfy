/** The frames and delays of the wipe animation. A source bitmap of height H
    is copied row by row onto a canvas of height 2H: first the rows from
    the bottom up, each through the white-background quantizer, into canvas
    rows 1..H (so the source appears upside down); then the rows from the
    top down, each through the black-background quantizer, into canvas rows
    H..2H-1. Every copy yields the canvas once more. Each enumeration
    allocates its own canvas, yields that same object as every frame and
    disposes it when the enumeration ends. */
module WipeAnimation {
  import opened Bitmaps

  /** A colour reduction applied to a row as it is copied. */
  type RowQuantizer = Row -> Row

  /** Delay of every frame but the last, in milliseconds. */
  const FrameDelayMs: nat := 20
  /** Delay of the last frame, in milliseconds. */
  const FinalDelayMs: nat := 3000

  /** The inputs of one wipe: the source rows, their width and the quantizer
      of each phase. Its functions describe the canvas step by step. */
  datatype Wipe = Wipe(src: seq<Row>, width: nat, white: RowQuantizer, black: RowQuantizer)
  {
    function Height(): nat {
      |src|
    }

    /** Frames one traversal yields: one per copied row. */
    function FrameCount(): nat {
      2 * Height()
    }

    /** The canvas row written by step k (steps count from 0). */
    function DestRow(k: nat): (r: nat)
      requires k < FrameCount()
      ensures 1 <= r < FrameCount()
      ensures k < Height() ==> r <= Height()
      ensures k >= Height() ==> r >= Height()
    {
      if k < Height() then k + 1 else k
    }

    /** The row step k writes: a source row through the quantizer of its phase. */
    function Written(k: nat): Row
      requires k < FrameCount()
    {
      if k < Height() then white(src[Height() - 1 - k]) else black(src[k - Height()])
    }

    /** The canvas after the first k steps of a traversal. */
    function Frame(k: nat): (f: seq<Row>)
      requires k <= FrameCount()
      ensures |f| == FrameCount()
      decreases k
    {
      if k == 0 then seq(FrameCount(), _ => BlankRow(width))
      else Frame(k - 1)[DestRow(k - 1) := Written(k - 1)]
    }

    /** The first n frames a traversal yields, each as it looks when yielded. */
    function Frames(n: nat): (fs: seq<seq<Row>>)
      requires n <= FrameCount()
      ensures |fs| == n
      ensures forall k :: 0 <= k < n ==> fs[k] == Frame(k + 1)
    {
      if n == 0 then [] else Frames(n - 1) + [Frame(n)]
    }

    /** What canvas row r holds after k steps, stated without steps: the
        black-phase copy once that phase has reached it, else the
        white-phase copy once that phase has reached it, else blank. */
    function RowAfter(k: nat, r: nat): Row
      requires k <= FrameCount() && r < FrameCount()
    {
      if Height() <= r < k then black(src[r - Height()])
      else if 1 <= r <= Height() && r <= k then white(src[Height() - r])
      else BlankRow(width)
    }
  }

  /** The step-by-step canvas agrees row by row with the closed form. */
  lemma {:induction false} FrameRows(w: Wipe, k: nat)
    requires k <= w.FrameCount()
    ensures forall r :: 0 <= r < w.FrameCount() ==> w.Frame(k)[r] == w.RowAfter(k, r)
    decreases k
  {
    if k > 0 {
      FrameRows(w, k - 1);
      StepChangesOneRow(w, k - 1);
    }
  }

  /** Step k changes exactly one canvas row, its destination, to the row it
      writes; every other row keeps its contents. */
  lemma StepChangesOneRow(w: Wipe, k: nat)
    requires k < w.FrameCount()
    ensures w.RowAfter(k + 1, w.DestRow(k)) == w.Written(k)
    ensures forall r :: 0 <= r < w.FrameCount() && r != w.DestRow(k) ==> w.RowAfter(k + 1, r) == w.RowAfter(k, r)
  {
  }

  /** Canvas row 0 is never written: it stays blank in every frame. */
  lemma RowZeroStaysBlank(w: Wipe, k: nat)
    requires 1 <= w.Height() && k <= w.FrameCount()
    ensures w.Frame(k)[0] == BlankRow(w.width)
  {
    FrameRows(w, k);
  }

  /** After the white phase (H steps) canvas rows 1..H hold the source
      upside down: row r holds source row H - r; the rows below are blank. */
  lemma WhitePhaseShowsSourceUpsideDown(w: Wipe)
    ensures forall r :: 1 <= r <= w.Height() ==> w.Frame(w.Height())[r] == w.white(w.src[w.Height() - r])
    ensures forall r :: w.Height() < r < w.FrameCount() ==> w.Frame(w.Height())[r] == BlankRow(w.width)
  {
    FrameRows(w, w.Height());
  }

  /** After j + 1 black-phase steps, canvas rows H..H+j hold source rows
      0..j in order, the white-phase rows 1..H-1 are still there and the
      rows below H+j are blank. */
  lemma BlackPhaseProgress(w: Wipe, j: nat)
    requires j < w.Height()
    ensures var f := w.Frame(w.Height() + j + 1);
      && (forall r :: w.Height() <= r <= w.Height() + j ==> f[r] == w.black(w.src[r - w.Height()]))
      && (forall r :: 1 <= r < w.Height() ==> f[r] == w.white(w.src[w.Height() - r]))
      && (forall r :: w.Height() + j < r < w.FrameCount() ==> f[r] == BlankRow(w.width))
  {
    FrameRows(w, w.Height() + j + 1);
  }

  /** The last frame: row 0 blank, rows 1..H-1 the white copies upside down,
      rows H..2H-1 the black copies in source order. */
  lemma LastFrame(w: Wipe)
    requires 1 <= w.Height()
    ensures var f := w.Frame(w.FrameCount());
      && f[0] == BlankRow(w.width)
      && (forall r :: 1 <= r < w.Height() ==> f[r] == w.white(w.src[w.Height() - r]))
      && (forall r :: w.Height() <= r < w.FrameCount() ==> f[r] == w.black(w.src[r - w.Height()]))
  {
    FrameRows(w, w.FrameCount());
  }

  /** One enumeration of FramesIterator. `phase` and `y` are the state of
      its two loops (phase 1: the bottom-up white loop, phase 2: the top-down
      black loop, phase 3: finished); `currentFrame` is the canvas this
      enumeration allocated, yielded as every frame. */
  class FramesEnumerator {
    const source: BitmapData
    const white: RowQuantizer
    const black: RowQuantizer
    const currentFrame: BitmapData
    /** The source rows, which the enumeration never changes. */
    ghost const src: seq<Row>
    var phase: nat
    var y: int
    /** Copies done so far. */
    ghost var steps: nat

    /** The wipe this enumeration performs. */
    ghost function Spec(): Wipe {
      Wipe(src, source.width, white, black)
    }

    ghost predicate Valid()
      reads this, source, source.rows, currentFrame, currentFrame.rows
    {
      && source != currentFrame
      && source.rows != currentFrame.rows
      && source.rows[..] == src
      && currentFrame.width == source.width
      && currentFrame.rows.Length == 2 * |src|
      && 1 <= phase <= 3
      && (phase == 1 ==> -1 <= y < |src| && steps == |src| - 1 - y)
      && (phase == 2 ==> 0 <= y <= |src| && steps == |src| + y)
      && (phase == 3 ==> steps == 2 * |src|)
      && (currentFrame.disposed <==> phase == 3)
      && (forall r :: 0 <= r < 2 * |src| ==> currentFrame.rows[r] == Spec().RowAfter(steps, r))
    }

    /** Starting an enumeration allocates a blank canvas twice the source's height. */
    constructor (source: BitmapData, white: RowQuantizer, black: RowQuantizer)
      ensures Valid() && steps == 0
      ensures this.source == source && this.white == white && this.black == black
      ensures src == source.rows[..]
      ensures fresh(currentFrame) && fresh(currentFrame.rows)
    {
      this.source := source;
      this.white := white;
      this.black := black;
      src := source.rows[..];
      var canvas := new BitmapData(source.width, 2 * source.rows.Length);
      currentFrame := canvas;
      phase := 1;
      y := source.rows.Length - 1;
      steps := 0;
      new;
    }

    /** Advances to the next frame: copies one row onto the canvas and
        answers true, or, once both loops are done, disposes the canvas and
        answers false. An enumeration that has ended stays ended. */
    method MoveNext() returns (more: bool)
      requires Valid()
      modifies this`phase, this`y, this`steps, currentFrame, currentFrame.rows
      ensures Valid()
      ensures more <==> old(steps) < Spec().FrameCount()
      ensures more ==> steps == old(steps) + 1
      ensures !more ==> steps == Spec().FrameCount() && currentFrame.disposed
    {
      if phase == 1 && y < 0 {
        phase, y := 2, 0;
      }
      if phase == 1 {
        CopyWhiteRow();
        more := true;
      } else if phase == 2 && y < source.rows.Length {
        CopyBlackRow();
        more := true;
      } else if phase == 2 {
        phase := 3;
        currentFrame.Dispose();
        more := false;
      } else {
        more := false;
      }
    }

    /** A copy of the frame the enumeration is showing. */
    method Snapshot() returns (frame: seq<Row>)
      requires Valid()
      ensures frame == Spec().Frame(steps)
    {
      frame := currentFrame.rows[..];
      CanvasIsFrame();
    }

    /** The canvas is the frame after `steps` copies. */
    lemma CanvasIsFrame()
      requires Valid()
      ensures currentFrame.rows[..] == Spec().Frame(steps)
    {
      FrameRows(Spec(), steps);
    }

    /** One pass of the bottom-up loop: source row y, through the white
        quantizer, into canvas row H - y. */
    method CopyWhiteRow()
      requires Valid() && phase == 1 && y >= 0
      modifies this`y, this`steps, currentFrame.rows
      ensures Valid() && phase == 1
      ensures steps == old(steps) + 1
    {
      var height := source.rows.Length;
      var row := white(source.rows[y]);
      StepChangesOneRow(Spec(), steps);
      currentFrame.rows[height - y] := row;
      y := y - 1;
      steps := steps + 1;
    }

    /** One pass of the top-down loop: source row y, through the black
        quantizer, into canvas row y + H. */
    method CopyBlackRow()
      requires Valid() && phase == 2 && y < source.rows.Length
      modifies this`y, this`steps, currentFrame.rows
      ensures Valid() && phase == 2
      ensures steps == old(steps) + 1
    {
      var height := source.rows.Length;
      var row := black(source.rows[y]);
      StepChangesOneRow(Spec(), steps);
      currentFrame.rows[y + height] := row;
      y := y + 1;
      steps := steps + 1;
    }
  }

  /** frames.ToArray(): runs an enumeration to its end and collects every
      frame it yields. All of them are the one canvas, which is disposed
      when the array is complete and holds the last frame. */
  method CollectFrames(e: FramesEnumerator) returns (frames: seq<BitmapData>)
    requires e.Valid() && e.steps == 0
    modifies e, e.currentFrame, e.currentFrame.rows
    ensures e.Valid()
    ensures |frames| == e.Spec().FrameCount()
    ensures forall i :: 0 <= i < |frames| ==> frames[i] == e.currentFrame
    ensures e.currentFrame.disposed
    ensures e.currentFrame.rows[..] == e.Spec().Frame(e.Spec().FrameCount())
  {
    frames := [];
    var more := e.MoveNext();
    while more
      invariant e.Valid()
      invariant more ==> e.steps == |frames| + 1 <= e.Spec().FrameCount()
      invariant !more ==> e.steps == |frames| == e.Spec().FrameCount() && e.currentFrame.disposed
      invariant forall i :: 0 <= i < |frames| ==> frames[i] == e.currentFrame
      decreases e.Spec().FrameCount() - |frames|
    {
      frames := frames + [e.currentFrame];
      more := e.MoveNext();
    }
    e.CanvasIsFrame();
  }

  /** The encoder's pass over an enumeration: each frame is copied out as
      soon as it is yielded, so snapshot k is the canvas after k + 1 copies. */
  method Snapshots(e: FramesEnumerator) returns (snapshots: seq<seq<Row>>)
    requires e.Valid() && e.steps == 0
    modifies e, e.currentFrame, e.currentFrame.rows
    ensures e.Valid() && e.currentFrame.disposed && e.steps == e.Spec().FrameCount()
    ensures snapshots == e.Spec().Frames(e.Spec().FrameCount())
  {
    snapshots := [];
    var more := e.MoveNext();
    while more
      invariant e.Valid()
      invariant more ==> e.steps == |snapshots| + 1 <= e.Spec().FrameCount()
      invariant !more ==> e.steps == |snapshots| == e.Spec().FrameCount() && e.currentFrame.disposed
      invariant snapshots == e.Spec().Frames(|snapshots|)
      decreases e.Spec().FrameCount() - |snapshots|
    {
      snapshots, more := SnapshotAndAdvance(e, snapshots);
    }
  }

  /** One turn of the encoder's loop: copy the frame just yielded, then ask
      for the next one. */
  method SnapshotAndAdvance(e: FramesEnumerator, snapshots: seq<seq<Row>>)
    returns (taken: seq<seq<Row>>, more: bool)
    requires e.Valid() && e.steps == |snapshots| + 1 <= e.Spec().FrameCount()
    requires snapshots == e.Spec().Frames(|snapshots|)
    modifies e`phase, e`y, e`steps, e.currentFrame, e.currentFrame.rows
    ensures e.Valid()
    ensures |taken| == |snapshots| + 1 && taken == e.Spec().Frames(|taken|)
    ensures more ==> e.steps == |taken| + 1 <= e.Spec().FrameCount()
    ensures !more ==> e.steps == |taken| == e.Spec().FrameCount() && e.currentFrame.disposed
  {
    var frame := e.Snapshot();
    taken := snapshots + [frame];
    assert taken == e.Spec().Frames(|taken|);
    more := e.MoveNext();
  }

  /** Two enumerations of the same source, one after the other, as the test
      does (the encoder's pass, then ToArray). Each allocates its own canvas,
      so the second neither sees nor disturbs the first: both give the same
      frames, and the first canvas still holds the last frame afterwards. */
  method TraverseTwice(source: BitmapData, white: RowQuantizer, black: RowQuantizer)
    returns (first: seq<seq<Row>>, second: seq<seq<Row>>, canvas1: BitmapData, canvas2: BitmapData)
    ensures first == second == Wipe(source.rows[..], source.width, white, black).Frames(2 * source.rows.Length)
    ensures canvas1 != canvas2 && canvas1.rows != canvas2.rows
    ensures canvas1.rows[..] == canvas2.rows[..]
      == Wipe(source.rows[..], source.width, white, black).Frame(2 * source.rows.Length)
  {
    var e1 := new FramesEnumerator(source, white, black);
    first := Snapshots(e1);
    canvas1 := e1.currentFrame;
    var e2 := new FramesEnumerator(source, white, black);
    second := Snapshots(e2);
    canvas2 := e2.currentFrame;
    e1.CanvasIsFrame();
    e2.CanvasIsFrame();
  }

  /** DelaysIterator: 20 ms for every frame but the last, then 3 seconds. */
  method Delays(height: nat) returns (delays: seq<nat>)
    ensures height >= 1 ==> |delays| == 2 * height
    ensures height == 0 ==> delays == [FinalDelayMs]
    ensures delays[|delays| - 1] == FinalDelayMs
    ensures forall i :: 0 <= i < |delays| - 1 ==> delays[i] == FrameDelayMs
  {
    delays := [];
    var i := 0;
    while i < height * 2 - 1
      invariant 0 <= i && (height >= 1 ==> i <= height * 2 - 1)
      invariant height == 0 ==> i == 0
      invariant |delays| == i
      invariant forall j :: 0 <= j < i ==> delays[j] == FrameDelayMs
    {
      delays := delays + [FrameDelayMs];
      i := i + 1;
    }
    delays := delays + [FinalDelayMs];
  }

  /** The delays pair up with the frames of a traversal of the same source,
      and the last frame is held longer than every other. */
  method FramesWithDelays(source: BitmapData, white: RowQuantizer, black: RowQuantizer)
    returns (frames: seq<seq<Row>>, delays: seq<nat>)
    requires source.rows.Length >= 1
    ensures |frames| == |delays|
    ensures forall i :: 0 <= i < |delays| - 1 ==> delays[i] < delays[|delays| - 1]
  {
    var e := new FramesEnumerator(source, white, black);
    frames := Snapshots(e);
    delays := Delays(source.rows.Length);
  }
}
