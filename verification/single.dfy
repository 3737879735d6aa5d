/**
 `SingleAnimatedBitmap`: one stream holding a whole multi-frame image.
 `InitAsync` loads the image, disposes the stream when it owns it, then
 exports frame 0 until one frame is left, converting each exported frame,
 and finally converts the last one.

 The codec is an oracle: `Load` is what `Image.LoadAsync` produced, and
 `convert[i]` is what exporting and converting the i-th frame of the image
 produced (`ExportFrame`, `SaveAsync` into a pooled buffer, `new Bitmap`).
 */
module SingleAnimatedBitmap {
  import opened AnimatedBitmap

  /** The delay used for a frame whose metadata delay is 0. */
  const FallbackDelay := 10

  const Int32Max := 0x7FFF_FFFF

  newtype uint32 = x: int | 0 <= x < 0x1_0000_0000

  /** The WebP metadata of one image frame: its `FrameDelay`, an unsigned 32-bit value. */
  datatype FrameMetadata = FrameMetadata(frameDelay: uint32)

  /** The frames of a loaded image: an image always holds its root frame. */
  type FrameList = s: seq<FrameMetadata> | |s| >= 1 witness [FrameMetadata(0)]

  /** A loaded image: its frames in container order and its own size. */
  datatype Image = Image(frames: FrameList, size: Size)

  datatype Load = Loaded(image: Image) | LoadFault(code: int)

  /** An instance: its published fields, the stream (`None` once released) and the disposal-ownership flag. */
  datatype SingleBitmap = SingleBitmap(fields: Fields, stream: Option<Stream>, disposeStream: bool)

  /** The states a constructed instance can be in: the stream is held exactly until `InitAsync` has run. */
  predicate Valid(s: SingleBitmap) {
    && Consistent(s.fields)
    && (PhaseOf(s.fields) == Uninitialized <==> s.stream.Some?)
  }

  /** The constructor: a null stream (`None`) is rejected. */
  function New(stream: Option<Stream>, disposeStream: bool): (r: Result<SingleBitmap>)
    ensures r.Success? <==> stream.Some?
    ensures r.Failure? ==> r.error == ArgumentNull("stream")
    ensures r.Success? ==>
              && Valid(r.value)
              && PhaseOf(r.value.fields) == Uninitialized
              && r.value.stream == stream
              && r.value.disposeStream == disposeStream
  {
    match stream
    case None => Failure(ArgumentNull("stream"))
    case Some(_) => Success(SingleBitmap(Unpublished, stream, disposeStream))
  }

  /** C#'s unchecked `(int)` conversion of a `uint`: values above `int.MaxValue` wrap to negative ones. */
  function UncheckedInt32(d: uint32): (r: int)
    ensures -0x8000_0000 <= r <= Int32Max
    ensures (r - d as int) % 0x1_0000_0000 == 0
  {
    if d as int <= Int32Max then d as int else d as int - 0x1_0000_0000
  }

  /** The delay of one frame: 10 when its metadata delay is 0, otherwise the metadata delay cast to `int`. */
  function FrameDelay(d: uint32): (r: int)
    ensures d == 0 ==> r == FallbackDelay
    ensures 0 < d as int <= Int32Max ==> r == d as int
    ensures d as int <= Int32Max ==> r >= 1
  {
    if d < 1 then FallbackDelay else UncheckedInt32(d)
  }

  /** The cast is the only way a delay below 1 is published: a metadata delay of 2^31 yields a negative delay. */
  lemma DelayCastWraps()
    ensures FrameDelay(0x8000_0000) == -0x8000_0000
  {
  }

  /**
   Iteration `index` of `n` throws: the cancellation check (made before every
   frame but the last) fires, or exporting and converting the frame faults.
   */
  predicate Stops(token: Token, convert: seq<Decode>, n: nat, index: nat)
    requires index < n <= |convert|
  {
    (index < n - 1 && IsCancellationRequested(token, index)) || convert[index].Fault?
  }

  /** The exception of an iteration that stops; cancellation is checked first. */
  function StopError(token: Token, convert: seq<Decode>, n: nat, index: nat): Exception
    requires index < n <= |convert| && Stops(token, convert, n, index)
  {
    if index < n - 1 && IsCancellationRequested(token, index) then OperationCanceled
    else Codec(convert[index].code)
  }

  /** The first iteration in `from..n` that stops, or `n` if none does. */
  function FirstStop(token: Token, convert: seq<Decode>, from: nat, n: nat): (k: nat)
    requires from <= n <= |convert|
    ensures from <= k <= n
    ensures forall j | from <= j < k :: !Stops(token, convert, n, j)
    ensures k < n ==> Stops(token, convert, n, k)
    decreases n - from
  {
    if from == n then n
    else if Stops(token, convert, n, from) then from
    else FirstStop(token, convert, from + 1, n)
  }

  /** The frames and delays of every frame converted, or the exception that ended the export. */
  datatype Export = Exported(frames: seq<Bitmap>, delays: seq<int>) | ExportFaulted(error: Exception)

  /** Puts the output of earlier iterations in front of the output of later ones. */
  function Prepend(frames: seq<Bitmap>, delays: seq<int>, x: Export): Export {
    match x
    case Exported(fs, ds) => Exported(frames + fs, delays + ds)
    case ExportFaulted(e) => x
  }

  /**
   The export loop and the final conversion, from iteration `index` on: the
   frames still in the image are `frames[index..]`.
   */
  function ExportFrames(frames: FrameList, index: nat, convert: seq<Decode>, token: Token): (r: Export)
    requires index < |frames| <= |convert|
    ensures r.Exported? <==> forall j | index <= j < |frames| :: !Stops(token, convert, |frames|, j)
    ensures r.Exported? ==> |r.frames| == |r.delays| == |frames| - index
    decreases |frames| - index
  {
    var n := |frames|;
    var delay := FrameDelay(frames[index].frameDelay);
    if index == n - 1 then
      match convert[index]
      case Fault(code) =>
        assert Stops(token, convert, n, index);
        ExportFaulted(Codec(code))
      case Decoded(bitmap) => Exported([bitmap], [delay])
    else if IsCancellationRequested(token, index) then
      assert Stops(token, convert, n, index);
      ExportFaulted(OperationCanceled)
    else
      match convert[index]
      case Fault(code) =>
        assert Stops(token, convert, n, index);
        ExportFaulted(Codec(code))
      case Decoded(bitmap) =>
        Prepend([bitmap], [delay], ExportFrames(frames, index + 1, convert, token))
  }

  /** One `InitAsync` call: the instance afterwards, the `DisposeAsync` calls, the events fired. */
  datatype Run = Run(after: SingleBitmap, disposals: seq<Stream>, events: seq<Event>)

  /** The catch block once its disposal is done: the stream is dropped and only `IsFailed` is set. */
  function Fail(s: SingleBitmap, disposals: seq<Stream>, error: Exception): Run {
    Run(s.(fields := MarkFailed(s.fields), stream := None), disposals, [FailedEvent(error)])
  }

  /** The oracle has a conversion outcome for every frame of a loaded image. */
  predicate OracleCovers(load: Load, convert: seq<Decode>) {
    load.Loaded? ==> |load.image.frames| <= |convert|
  }

  /**
   `InitAsync`, as a function of the instance, the codec outcomes and the
   token. An owned stream is disposed exactly once whichever way the call
   ends: after the load, or in the catch block when the load faulted.
   */
  function Init(s: SingleBitmap, load: Load, convert: seq<Decode>, token: Token): (r: Run)
    requires OracleCovers(load, convert)
    ensures Terminal(r.after.fields)
    ensures Terminal(s.fields) ==> r == Run(s, [], [])
    ensures !Terminal(s.fields) ==>
              && r.after.stream.None?
              && |r.events| == 1
              && (r.events[0] == InitializedEvent <==> IsInitialized(r.after.fields))
              && r.disposals == (if s.disposeStream && s.stream.Some? then [s.stream.value] else [])
    ensures !s.disposeStream ==> r.disposals == []
  {
    if IsInitialized(s.fields) || IsFailed(s.fields) then Run(s, [], [])
    else
      match s.stream
      case None => Fail(s, [], NullReference("_stream"))
      case Some(stream) =>
        var disposed := if s.disposeStream then [stream] else [];
        match load
        case LoadFault(code) => Fail(s, disposed, Codec(code))
        case Loaded(image) =>
          match ExportFrames(image.frames, 0, convert, token)
          case ExportFaulted(error) => Fail(s, disposed, error)
          case Exported(frames, delays) =>
            var fields := Publish(s.fields, frames, delays, image.size);
            Run(s.(fields := fields, stream := None), disposed, [InitializedEvent])
  }

  lemma PrependTwice(f1: seq<Bitmap>, d1: seq<int>, f2: seq<Bitmap>, d2: seq<int>, x: Export)
    ensures Prepend(f1, d1, Prepend(f2, d2, x)) == Prepend(f1 + f2, d1 + d2, x)
  {
    match x
    case Exported(fs, ds) =>
      assert f1 + (f2 + fs) == (f1 + f2) + fs;
      assert d1 + (d2 + ds) == (d1 + d2) + ds;
    case ExportFaulted(_) =>
  }

  /** An iteration before the last that does not stop puts its frame and delay in front of the rest. */
  lemma ExportSkips(frames: FrameList, index: nat, convert: seq<Decode>, token: Token)
    requires index + 1 < |frames| <= |convert|
    requires !Stops(token, convert, |frames|, index)
    ensures ExportFrames(frames, index, convert, token)
         == Prepend([convert[index].bitmap], [FrameDelay(frames[index].frameDelay)],
                    ExportFrames(frames, index + 1, convert, token))
  {
  }

  /**
   The source's loop: `while (image.Frames.Count is not 1)` exports frame 0
   and converts it, then the one frame left is converted.
   */
  method ExportLoop(image: Image, convert: seq<Decode>, token: Token) returns (x: Export)
    requires |image.frames| <= |convert|
    ensures x == ExportFrames(image.frames, 0, convert, token)
  {
    var remaining: FrameList := image.frames;
    var frames: seq<Bitmap> := [];
    var delays: seq<int> := [];
    var index: nat := 0;
    while |remaining| != 1
      invariant index + |remaining| == |image.frames|
      invariant remaining == image.frames[index..]
      invariant ExportFrames(image.frames, 0, convert, token)
             == Prepend(frames, delays, ExportFrames(image.frames, index, convert, token))
      decreases |remaining|
    {
      if IsCancellationRequested(token, index) {
        return ExportFaulted(OperationCanceled);
      }
      var exportFrame := remaining[0];
      var delay := FrameDelay(exportFrame.frameDelay);
      var outcome := convert[index];
      if outcome.Fault? {
        return ExportFaulted(Codec(outcome.code));
      }
      ExportSkips(image.frames, index, convert, token);
      PrependTwice(frames, delays, [outcome.bitmap], [delay],
                   ExportFrames(image.frames, index + 1, convert, token));
      remaining := remaining[1..];
      frames := frames + [outcome.bitmap];
      delays := delays + [delay];
      index := index + 1;
    }
    var delay := FrameDelay(remaining[0].frameDelay);
    var outcome := convert[index];
    if outcome.Fault? {
      return ExportFaulted(Codec(outcome.code));
    }
    return Exported(frames + [outcome.bitmap], delays + [delay]);
  }

  /** `InitAsync`: the terminal-state guard, the load and disposal, the export loop, then publication or the catch block. */
  method InitAsync(s: SingleBitmap, load: Load, convert: seq<Decode>, token: Token) returns (r: Run)
    requires OracleCovers(load, convert)
    ensures r == Init(s, load, convert, token)
  {
    if IsInitialized(s.fields) || IsFailed(s.fields) {
      return Run(s, [], []);
    }
    if s.stream.None? {
      return Fail(s, [], NullReference("_stream"));
    }
    var stream := s.stream.value;
    var disposals: seq<Stream> := [];
    if load.LoadFault? {
      if s.disposeStream {
        disposals := disposals + [stream];
      }
      return Fail(s, disposals, Codec(load.code));
    }
    var image := load.image;
    if s.disposeStream {
      disposals := disposals + [stream];
    }
    var x := ExportLoop(image, convert, token);
    match x
    case ExportFaulted(error) =>
      r := Fail(s, disposals, error);
    case Exported(frames, delays) =>
      var fields := Publish(s.fields, frames, delays, image.size);
      r := Run(s.(fields := fields, stream := None), disposals, [InitializedEvent]);
  }

  /** When no iteration stops, frame i of the result is the conversion of image frame i, with that frame's delay. */
  lemma {:induction false} ExportCompletes(frames: FrameList, index: nat, convert: seq<Decode>, token: Token)
    requires index < |frames| <= |convert|
    requires forall j | index <= j < |frames| :: !Stops(token, convert, |frames|, j)
    ensures var x := ExportFrames(frames, index, convert, token);
      && x.Exported?
      && (forall i | 0 <= i < |frames| - index :: convert[index + i] == Decoded(x.frames[i]))
      && (forall i | 0 <= i < |frames| - index :: x.delays[i] == FrameDelay(frames[index + i].frameDelay))
    decreases |frames| - index
  {
    assert !Stops(token, convert, |frames|, index);
    var x := ExportFrames(frames, index, convert, token);
    if index + 1 < |frames| {
      ExportSkips(frames, index, convert, token);
      ExportCompletes(frames, index + 1, convert, token);
      var later := ExportFrames(frames, index + 1, convert, token);
      forall i | 0 <= i < |frames| - index
        ensures convert[index + i] == Decoded(x.frames[i])
        ensures x.delays[i] == FrameDelay(frames[index + i].frameDelay)
      {
        if i > 0 {
          assert x.frames[i] == later.frames[i - 1];
          assert x.delays[i] == later.delays[i - 1];
        }
      }
    }
  }

  /** When iteration `k` is the first to stop, the export ends with that iteration's exception. */
  lemma {:induction false} ExportAborts(frames: FrameList, index: nat, convert: seq<Decode>, token: Token, k: nat)
    requires index <= k < |frames| <= |convert|
    requires forall j | index <= j < k :: !Stops(token, convert, |frames|, j)
    requires Stops(token, convert, |frames|, k)
    ensures ExportFrames(frames, index, convert, token) == ExportFaulted(StopError(token, convert, |frames|, k))
    decreases k - index
  {
    if k > index {
      assert !Stops(token, convert, |frames|, index);
      ExportSkips(frames, index, convert, token);
      ExportAborts(frames, index + 1, convert, token, k);
    }
  }

  /**
   A successful `InitAsync` on a fresh instance: one frame per image frame,
   in container order, each with its metadata delay or the fallback, the
   image's own size, and one `Initialized` event.
   */
  lemma InitSucceeds(s: SingleBitmap, image: Image, convert: seq<Decode>, token: Token)
    requires Valid(s) && PhaseOf(s.fields) == Uninitialized
    requires |image.frames| <= |convert|
    requires forall j | 0 <= j < |image.frames| :: !Stops(token, convert, |image.frames|, j)
    ensures var r := Init(s, Loaded(image), convert, token);
            var frames := Frames(r.after.fields);
            var n := |image.frames|;
      && PhaseOf(r.after.fields) == Ready
      && frames.Success?
      && |frames.value| == |r.after.fields.delays| == r.after.fields.frameCount == n
      && (forall i | 0 <= i < n :: convert[i] == Decoded(frames.value[i]))
      && (forall i | 0 <= i < n :: r.after.fields.delays[i] == FrameDelay(image.frames[i].frameDelay))
      && r.after.fields.size == image.size
      && r.events == [InitializedEvent]
  {
    ExportCompletes(image.frames, 0, convert, token);
  }

  /** Every published delay is at least 1 when no metadata delay exceeds `int.MaxValue`. */
  lemma DelaysAtLeastOne(s: SingleBitmap, image: Image, convert: seq<Decode>, token: Token)
    requires Valid(s) && PhaseOf(s.fields) == Uninitialized
    requires |image.frames| <= |convert|
    requires forall i | 0 <= i < |image.frames| :: image.frames[i].frameDelay as int <= Int32Max
    ensures var r := Init(s, Loaded(image), convert, token);
      IsInitialized(r.after.fields) ==> AllPositive(r.after.fields.delays)
  {
    var n := |image.frames|;
    var k := FirstStop(token, convert, 0, n);
    if k == n {
      InitSucceeds(s, image, convert, token);
    } else {
      ExportAborts(image.frames, 0, convert, token, k);
    }
  }

  /** A fault while loading: nothing is published, the owned stream is disposed in the catch block. */
  lemma InitFailsOnLoad(s: SingleBitmap, code: int, convert: seq<Decode>, token: Token)
    requires Valid(s) && PhaseOf(s.fields) == Uninitialized
    ensures var r := Init(s, LoadFault(code), convert, token);
      && PhaseOf(r.after.fields) == Failed
      && Frames(r.after.fields) == Failure(InvalidOperation)
      && r.after.fields.delays == [] && r.after.fields.frameCount == 0
      && r.after.fields.size == EmptySize
      && r.events == [FailedEvent(Codec(code))]
  {
  }

  /**
   A fault or cancellation at frame `k`, after the load: nothing is
   published and one `Failed` event carries the exception. Cancellation is
   never observed at the last frame.
   */
  lemma InitFailsOnFrame(s: SingleBitmap, image: Image, convert: seq<Decode>, token: Token, k: nat)
    requires Valid(s) && PhaseOf(s.fields) == Uninitialized
    requires k < |image.frames| <= |convert|
    requires forall j | 0 <= j < k :: !Stops(token, convert, |image.frames|, j)
    requires Stops(token, convert, |image.frames|, k)
    ensures var r := Init(s, Loaded(image), convert, token);
      && PhaseOf(r.after.fields) == Failed
      && Frames(r.after.fields) == Failure(InvalidOperation)
      && r.after.fields.delays == [] && r.after.fields.frameCount == 0
      && r.after.fields.size == EmptySize
      && r.events == [FailedEvent(StopError(token, convert, |image.frames|, k))]
      && (k == |image.frames| - 1 ==> r.events == [FailedEvent(Codec(convert[k].code))])
  {
    ExportAborts(image.frames, 0, convert, token, k);
  }

  /** `InitAsync` keeps an instance in one of its reachable states and never leaves a terminal one. */
  lemma InitPreservesValid(s: SingleBitmap, load: Load, convert: seq<Decode>, token: Token)
    requires Valid(s) && OracleCovers(load, convert)
    ensures Valid(Init(s, load, convert, token).after)
    ensures PhaseOf(s.fields) != Uninitialized ==> Init(s, load, convert, token).after == s
  {
    if PhaseOf(s.fields) == Uninitialized && load.Loaded? {
      var n := |load.image.frames|;
      var k := FirstStop(token, convert, 0, n);
      if k == n {
        InitSucceeds(s, load.image, convert, token);
      } else {
        ExportAborts(load.image.frames, 0, convert, token, k);
      }
    }
  }

  /** A second `InitAsync` after the first loads nothing, disposes nothing and fires nothing. */
  lemma InitIsIdempotent(s: SingleBitmap, load: Load, convert: seq<Decode>, token: Token,
                         secondLoad: Load, secondConvert: seq<Decode>, secondToken: Token)
    requires OracleCovers(load, convert) && OracleCovers(secondLoad, secondConvert)
    ensures var r := Init(s, load, convert, token);
      Init(r.after, secondLoad, secondConvert, secondToken) == Run(r.after, [], [])
  {
  }

  /** A four-frame image without delay metadata: every frame gets the 10 ms fallback. */
  lemma ScenarioDefaultDelays(st: Stream, size: Size, f0: Bitmap, f1: Bitmap, f2: Bitmap, f3: Bitmap)
    ensures New(Some(st), true).Success?
    ensures var s := New(Some(st), true).value;
            var none := FrameMetadata(0);
            var r := Init(s, Loaded(Image([none, none, none, none], size)),
                          [Decoded(f0), Decoded(f1), Decoded(f2), Decoded(f3)], NoCancellation);
      && Frames(r.after.fields) == Success([f0, f1, f2, f3])
      && r.after.fields.delays == [10, 10, 10, 10]
      && r.disposals == [st]
  {
    var s := New(Some(st), true).value;
    var none := FrameMetadata(0);
    var image := Image([none, none, none, none], size);
    var convert := [Decoded(f0), Decoded(f1), Decoded(f2), Decoded(f3)];
    InitSucceeds(s, image, convert, NoCancellation);
    var r := Init(s, Loaded(image), convert, NoCancellation);
    var frames := Frames(r.after.fields).value;
    assert convert[0] == Decoded(frames[0]) && convert[1] == Decoded(frames[1]);
    assert convert[2] == Decoded(frames[2]) && convert[3] == Decoded(frames[3]);
    assert frames == [f0, f1, f2, f3];
    var delays := r.after.fields.delays;
    assert delays[0] == FrameDelay(image.frames[0].frameDelay) == 10;
    assert delays[1] == FrameDelay(image.frames[1].frameDelay) == 10;
    assert delays[2] == FrameDelay(image.frames[2].frameDelay) == 10;
    assert delays[3] == FrameDelay(image.frames[3].frameDelay) == 10;
    assert delays == [10, 10, 10, 10];
  }

  /** A token cancelled before the first frame: the load runs, no frame is converted, nothing is published. */
  lemma ScenarioCancelledBeforeFirstFrame(s: SingleBitmap, image: Image, convert: seq<Decode>)
    requires Valid(s) && PhaseOf(s.fields) == Uninitialized
    requires 2 <= |image.frames| <= |convert|
    ensures var r := Init(s, Loaded(image), convert, Token(Some(0)));
      && Frames(r.after.fields) == Failure(InvalidOperation)
      && r.events == [FailedEvent(OperationCanceled)]
  {
    InitFailsOnFrame(s, image, convert, Token(Some(0)), 0);
  }
}
