/**
 The shared vocabulary of the `IAnimatedBitmap` abstraction: opaque frame and
 stream values, the exceptions the three implementations raise, the codec
 oracle, the cooperative cancellation token, and the lazily published fields
 that the two asynchronous implementations (`MultiAnimatedBitmap` and
 `SingleAnimatedBitmap`) hold and flip exactly once.
 */
module AnimatedBitmap {

  datatype Option<+T> = None | Some(value: T)

  /** The outcome of a call that may throw: `Failure` carries the exception. */
  datatype Result<+T> = Success(value: T) | Failure(error: Exception)

  /** Avalonia's `Size`, kept opaque: it is only ever copied, never computed with. */
  datatype Size = Size(width: int, height: int)

  /** `default(Size)`, what `Size` reads before (and without) a successful initialization. */
  const EmptySize := Size(0, 0)

  /** A decoded Avalonia `Bitmap`; `id` stands for its pixel content. */
  datatype Bitmap = Bitmap(id: int, size: Size)

  /** An input stream; equality is object identity. */
  datatype Stream = Stream(id: int)

  /** The exceptions the implementations throw or catch. */
  datatype Exception =
    | ArgumentNull(paramName: string)
    | Argument(message: string)
    | InvalidOperation
    | NullReference(name: string)
    | IndexOutOfRange
    | OperationCanceled
    | Codec(code: int)

  /** The two events of `IAnimatedBitmap`; `FailedEvent` carries the caught exception. */
  datatype Event = InitializedEvent | FailedEvent(error: Exception)

  /** What one codec call produced: a frame, or a fault identified by an opaque code. */
  datatype Decode = Decoded(bitmap: Bitmap) | Fault(code: int)

  /**
   A cancellation token as seen by one `InitAsync` run. The explicit
   `IsCancellationRequested` tests of the run are numbered 0, 1, 2, ...;
   once cancellation is requested it stays requested.
   */
  datatype Token = Token(requestedFrom: Option<nat>)

  const NoCancellation := Token(None)

  predicate IsCancellationRequested(token: Token, checkPoint: nat) {
    token.requestedFrom.Some? && token.requestedFrom.value <= checkPoint
  }

  /**
   The backing fields an asynchronous implementation fills on success:
   the `IsInitialized` backing field, `IsFailed`, `Size`, `FrameCount`, the
   nullable `Frames` backing field and `Delays` (initially empty).
   */
  datatype Fields = Fields(
    initializedField: bool,
    isFailed: bool,
    size: Size,
    frameCount: int,
    framesField: Option<seq<Bitmap>>,
    delays: seq<int>)

  /** The fields of a freshly constructed instance. */
  const Unpublished := Fields(false, false, EmptySize, 0, None, [])

  /** The fields after the failure path ran on a fresh instance. */
  const FailedFields := Unpublished.(isFailed := true)

  /** The `IsInitialized` getter: the backing field, masked by `IsFailed`. */
  function IsInitialized(f: Fields): (r: bool)
    ensures f.isFailed ==> !r
    ensures r ==> f.initializedField
  {
    !IsFailed(f) && f.initializedField
  }

  function IsFailed(f: Fields): bool {
    f.isFailed
  }

  /** True when `InitAsync` returns at once. */
  predicate Terminal(f: Fields) {
    IsInitialized(f) || IsFailed(f)
  }

  /**
   The `Frames` getter. It throws `InvalidOperationException` on a reachable
   instance exactly when that instance is not ready, and a ready instance
   returns one frame per delay.
   */
  function Frames(f: Fields): (r: Result<seq<Bitmap>>)
    ensures r.Failure? ==> r.error == InvalidOperation
    ensures Consistent(f) ==> (r.Success? <==> IsInitialized(f))
    ensures Consistent(f) && r.Success? ==> |r.value| == |f.delays| == f.frameCount >= 1
  {
    match f.framesField
    case None => Failure(InvalidOperation)
    case Some(frames) => Success(frames)
  }

  datatype Phase = Uninitialized | Ready | Failed

  /** The state an observer reads off the two getters. */
  function PhaseOf(f: Fields): (p: Phase)
    ensures p == Ready <==> IsInitialized(f)
    ensures p == Failed <==> IsFailed(f)
  {
    if IsFailed(f) then Failed
    else if IsInitialized(f) then Ready
    else Uninitialized
  }

  /**
   The success publication: `Size`, `FrameCount`, `Delays`, `Frames`, then
   the `IsInitialized` backing field, in one step.
   */
  function Publish(f: Fields, frames: seq<Bitmap>, delays: seq<int>, size: Size): (g: Fields)
    ensures !IsFailed(f) ==> PhaseOf(g) == Ready
    ensures IsFailed(g) == IsFailed(f)
    ensures Frames(g) == Success(frames)
    ensures g.delays == delays && g.frameCount == |delays| && g.size == size
  {
    f.(size := size, frameCount := |delays|, delays := delays,
       framesField := Some(frames), initializedField := true)
  }

  /** The failure path: only `IsFailed` changes. */
  function MarkFailed(f: Fields): (g: Fields)
    ensures PhaseOf(g) == Failed
    ensures Frames(g) == Frames(f) && g.delays == f.delays
    ensures g.frameCount == f.frameCount && g.size == f.size
  {
    f.(isFailed := true)
  }

  /**
   The fields of a reachable instance: untouched before initialization,
   all-or-nothing publication after it.
   */
  predicate Consistent(f: Fields) {
    match PhaseOf(f)
    case Uninitialized => f == Unpublished
    case Failed => f == FailedFields
    case Ready =>
      && f.framesField.Some?
      && |f.framesField.value| == |f.delays| == f.frameCount
      && f.frameCount >= 1
  }

  /** Every delay is positive. */
  predicate AllPositive(delays: seq<int>) {
    forall i | 0 <= i < |delays| :: delays[i] >= 1
  }

  /** What a caller observes through `IAnimatedBitmap`. */
  datatype View = View(
    isInitialized: bool,
    isFailed: bool,
    size: Size,
    frameCount: int,
    frames: Result<seq<Bitmap>>,
    delays: seq<int>)

  /**
   The contract every implementation keeps: the two flags are exclusive,
   a ready instance has frames and delays of one common, positive length,
   and an instance that is not ready exposes no frame data.
   */
  predicate Honours(v: View) {
    && !(v.isInitialized && v.isFailed)
    && (v.isInitialized ==>
          v.frames.Success? && |v.frames.value| == |v.delays| == v.frameCount && v.frameCount >= 1)
    && (!v.isInitialized ==>
          v.frames.Failure? && v.delays == [] && v.frameCount == 0 && v.size == EmptySize)
  }

  function ViewOf(f: Fields): (v: View)
    ensures !(v.isInitialized && v.isFailed)
    ensures Consistent(f) ==> Honours(v)
  {
    View(IsInitialized(f), IsFailed(f), f.size, f.frameCount, Frames(f), f.delays)
  }
}
