# Avalonia.AnimatedImage: the `IAnimatedBitmap` state machine in Dafny

This project models the three implementations of `IAnimatedBitmap`, the
abstraction that turns image data into a list of decoded frames with
per-frame delays. They share one lifecycle: an instance starts
Uninitialized, and one `InitAsync` call takes it to exactly one of the
terminal states Ready or Failed.

- `AnimatedBitmapSimpleImpl` takes already decoded bitmaps. It validates
  and copies them, and is Ready from the start.
- `MultiAnimatedBitmap` holds one stream per frame. `InitAsync` drains the
  stream list from the front and decodes one stream per iteration. The
  `finally` block disposes each stream, and the catch block disposes the
  streams still in the list.
- `SingleAnimatedBitmap` holds one stream containing a whole animated image.
  `InitAsync` loads the image and releases the stream. It then exports and
  converts frame 0 until one frame is left, and converts that last frame.

The codec is replaced by oracles:

- `Decode` is the outcome of `new Bitmap(stream)`. In the single-container
  variant it is the outcome of exporting and converting one frame.
- `Load` is the outcome of `Image.LoadAsync`.

The cancellation token is a `Token`. Each explicit `IsCancellationRequested`
test has a number, and once a test reads true every later test does too.

An `InitAsync` call is modelled twice:

- as a recursive reference function (`Init`, over `Drain` or `ExportFrames`);
- as a method with the source's while loop (`InitAsync`, over `DrainLoop` or
  `ExportLoop`).

The methods are proved equal to the functions. A call yields a `Run`: the
instance afterwards, the ordered log of `DisposeAsync` calls, and the events
fired.

The two asynchronous variants keep their lazily published backing fields in
`AnimatedBitmap.Fields`:

- the `IsInitialized` backing field and `IsFailed`;
- `Size` and `FrameCount`;
- the nullable `Frames` backing field;
- `Delays`.

The getters are modelled as written, so `IsInitialized` is the backing field
masked by `IsFailed`. `Consistent` is the reachable-state invariant. `View`
and `Honours` state the common contract that callers rely on.

Files: `common.dfy` (module `AnimatedBitmap`), `simple.dfy`, `multi.dfy`,
`single.dfy`.

Two behaviours of the code are worth stating plainly:

- A reader might expect each owned stream to be disposed once, but in
  `MultiAnimatedBitmap` the stream whose decode faults is disposed twice.
  The `finally` block disposes it, the `RemoveAt(0)` is then skipped, and
  the catch block disposes it again. `InitFails` and `DisposalCounts` state
  this.
- Delays are not always positive. `AnimatedBitmapSimpleImpl` copies them
  unchanged (`DelaysNotNormalised`). In `SingleAnimatedBitmap`, a metadata
  delay above `int.MaxValue` wraps to a negative value (`DelayCastWraps`).

## Model

| member | source | states |
|---|---|---|
| AnimatedBitmap.IsInitialized | Avalonia.AnimatedImage/SingleAnimatedBitmap.cs:10-12 | a set `IsFailed` hides the initialized backing field, so the getter is never true together with `IsFailed` |
| AnimatedBitmap.Frames | Avalonia.AnimatedImage/MultiAnimatedBitmap.cs:18-23 | the `Frames` getter only ever throws invalid-operation; on a reachable instance it throws exactly when the instance is not ready, and a ready instance returns one frame per delay, `FrameCount` of them, at least one |
| AnimatedBitmap.PhaseOf | Avalonia.AnimatedImage/SingleAnimatedBitmap.cs:10-12 | the two getters define exactly one of Uninitialized, Ready and Failed: Ready iff `IsInitialized`, Failed iff `IsFailed` |
| AnimatedBitmap.Publish | Avalonia.AnimatedImage/SingleAnimatedBitmap.cs:63-67 | the success publication makes the instance Ready, with `Frames`, `Delays`, `FrameCount == |delays|` and `Size` all set in one step |
| AnimatedBitmap.MarkFailed | Avalonia.AnimatedImage/MultiAnimatedBitmap.cs:85 | the failure path makes the instance Failed and leaves frames, delays, frame count and size as they were |
| AnimatedBitmap.ViewOf | Avalonia.AnimatedImage/SingleAnimatedBitmap.cs:10-27 | the flags an observer reads are never both true, and a consistent instance honours the contract: equal lengths when ready, no frame data otherwise |
| AnimatedBitmapSimpleImpl.New | Avalonia.AnimatedImage/AnimatedBitmapSimpleImpl.cs:8-20 | null bitmaps, then null delays, raise argument-null. A count mismatch raises an argument error before emptiness is tested. Equal empty collections raise the other argument error. Otherwise frames and delays are the inputs in order, `FrameCount` is their count and `Size` is the first bitmap's |
| AnimatedBitmapSimpleImpl.ViewOf | Avalonia.AnimatedImage/AnimatedBitmapSimpleImpl.cs:22-35 | always initialized and never failed, `Frames` never throws, and a constructed instance honours the common contract |
| AnimatedBitmapSimpleImpl.InitAsync | Avalonia.AnimatedImage/AnimatedBitmapSimpleImpl.cs:41 | initialization changes nothing observable and fires no event |
| AnimatedBitmapSimpleImpl.DelaysNotNormalised | Avalonia.AnimatedImage/AnimatedBitmapSimpleImpl.cs:18 | any delay, non-positive ones included, reaches `Delays` unchanged |
| MultiAnimatedBitmap.New | Avalonia.AnimatedImage/MultiAnimatedBitmap.cs:31-37 | a null stream collection raises argument-null and an empty one an argument error. Construction succeeds iff streams are non-empty and hints are non-null. The new instance is Uninitialized and holds copies of the streams and hints |
| MultiAnimatedBitmap.HintDelay | Avalonia.AnimatedImage/MultiAnimatedBitmap.cs:54 | a delay is at least 1. It is the hint at that index when the hint exists and is positive; any other value is the 100 ms fallback, so missing and extra hints are harmless |
| MultiAnimatedBitmap.Drain | Avalonia.AnimatedImage/MultiAnimatedBitmap.cs:50-69 | the drain loop finishes iff no iteration is cancelled or faults, and then yields one frame and one delay per stream. Without ownership it disposes nothing |
| MultiAnimatedBitmap.DrainLoop | Avalonia.AnimatedImage/MultiAnimatedBitmap.cs:47-69 | the while loop, removing streams from the front, computes exactly the reference drain |
| MultiAnimatedBitmap.Catch | Avalonia.AnimatedImage/MultiAnimatedBitmap.cs:79-87 | the catch block disposes, in order, every owned stream still in the list, then drops the list and fails |
| MultiAnimatedBitmap.Init | Avalonia.AnimatedImage/MultiAnimatedBitmap.cs:39-88 | every call ends terminal, and a terminal instance is returned untouched with no disposal and no event. Otherwise the list is released, exactly one event fires (`Initialized` iff Ready), and nothing is disposed without ownership |
| MultiAnimatedBitmap.InitAsync | Avalonia.AnimatedImage/MultiAnimatedBitmap.cs:39-88 | the method with the source's loop computes exactly the reference `Init` |
| MultiAnimatedBitmap.DrainSkips | Avalonia.AnimatedImage/MultiAnimatedBitmap.cs:52-68 | an iteration that is neither cancelled nor faulted contributes its frame, its delay and its `finally` disposal ahead of the later iterations |
| MultiAnimatedBitmap.DrainCompletes | Avalonia.AnimatedImage/MultiAnimatedBitmap.cs:50-69 | with no stop, frame i is the decode of stream i and delay i is its hint delay. Every owned stream is disposed once, in list order |
| MultiAnimatedBitmap.DrainStopsHere | Avalonia.AnimatedImage/MultiAnimatedBitmap.cs:52-64 | a cancelled iteration throws before touching its stream. A faulting one throws after its `finally` disposed it; either way the whole remaining list stays |
| MultiAnimatedBitmap.DrainAborts | Avalonia.AnimatedImage/MultiAnimatedBitmap.cs:50-69 | when iteration k stops first, no later stream is decoded. The exception is that iteration's, and the list still holds streams k onward |
| MultiAnimatedBitmap.InitSucceeds | Avalonia.AnimatedImage/MultiAnimatedBitmap.cs:47-77 | on success `|Frames| == |Delays| == FrameCount ==` stream count, in stream order. `Size` is the first frame's, the list is released, owned streams are each disposed once and `Initialized` fires once |
| MultiAnimatedBitmap.InitFails | Avalonia.AnimatedImage/MultiAnimatedBitmap.cs:79-86 | on a stop at k nothing is published: `Frames` throws, `Delays` is empty, `FrameCount` is 0 and `Size` is default. `Failed` fires once with the exception. Disposals are streams before k, then stream k if its decode was attempted, then streams k onward |
| MultiAnimatedBitmap.DisposalCounts | Avalonia.AnimatedImage/MultiAnimatedBitmap.cs:60-66 | with owned distinct streams, each stream is disposed exactly once by the end of `InitAsync`, except the stream whose decode faulted, which is disposed twice |
| MultiAnimatedBitmap.InitPreservesValid | Avalonia.AnimatedImage/MultiAnimatedBitmap.cs:39-88 | initialization keeps an instance in a reachable state (Ready ones with positive delays) and never moves a terminal instance |
| MultiAnimatedBitmap.InitIsIdempotent | Avalonia.AnimatedImage/MultiAnimatedBitmap.cs:41-42 | a second `InitAsync` after the first decodes nothing, disposes nothing and fires nothing |
| MultiAnimatedBitmap.ScenarioFallbackHint | Avalonia.AnimatedImage/MultiAnimatedBitmap.cs:54 | two streams with hints `[0, 50]` give delays `[100, 50]` |
| MultiAnimatedBitmap.ScenarioSecondOfThreeFaults | Avalonia.AnimatedImage/MultiAnimatedBitmap.cs:55-66 | when the second of three owned streams faults, the instance fails. The disposal log is `[a, b, b, c]`, so the never-decoded third stream is disposed in cleanup |
| SingleAnimatedBitmap.New | Avalonia.AnimatedImage/SingleAnimatedBitmap.cs:33 | construction succeeds iff the stream is non-null; a null stream raises argument-null. The new instance is Uninitialized and holds the stream |
| SingleAnimatedBitmap.UncheckedInt32 | Avalonia.AnimatedImage/SingleAnimatedBitmap.cs:84 | the `(int)` cast of a `uint` yields a 32-bit signed value congruent to its input modulo 2^32 |
| SingleAnimatedBitmap.FrameDelay | Avalonia.AnimatedImage/SingleAnimatedBitmap.cs:84 | a zero metadata delay becomes 10 ms. A metadata delay up to `int.MaxValue` is kept, and then the delay is at least 1 |
| SingleAnimatedBitmap.DelayCastWraps | Avalonia.AnimatedImage/SingleAnimatedBitmap.cs:84 | a metadata delay of 2^31 publishes a negative delay, so the bound above is needed |
| SingleAnimatedBitmap.ExportFrames | Avalonia.AnimatedImage/SingleAnimatedBitmap.cs:52-61 | the export loop and last conversion finish iff no frame faults and no cancellation check before a non-last frame fires. They then yield one frame and delay per remaining image frame |
| SingleAnimatedBitmap.ExportSkips | Avalonia.AnimatedImage/SingleAnimatedBitmap.cs:52-59 | a non-last frame that is neither cancelled nor faulted contributes its converted frame and its delay ahead of the later frames |
| SingleAnimatedBitmap.ExportLoop | Avalonia.AnimatedImage/SingleAnimatedBitmap.cs:48-61 | the `while (image.Frames.Count is not 1)` loop exporting frame 0 computes exactly the reference export |
| SingleAnimatedBitmap.Init | Avalonia.AnimatedImage/SingleAnimatedBitmap.cs:35-77 | every call ends terminal, and a terminal instance is returned untouched. Otherwise the stream is released and exactly one event fires (`Initialized` iff Ready). An owned stream is disposed exactly once on every path and an unowned one never |
| SingleAnimatedBitmap.InitAsync | Avalonia.AnimatedImage/SingleAnimatedBitmap.cs:35-77 | the method with the source's load, dispose and loop computes exactly the reference `Init` |
| SingleAnimatedBitmap.ExportCompletes | Avalonia.AnimatedImage/SingleAnimatedBitmap.cs:52-61 | with no stop, output frame i is the conversion of image frame i, with that frame's delay, so output order is container order |
| SingleAnimatedBitmap.ExportAborts | Avalonia.AnimatedImage/SingleAnimatedBitmap.cs:52-61 | when frame k stops first, the export ends with that frame's exception, cancellation taking precedence |
| SingleAnimatedBitmap.InitSucceeds | Avalonia.AnimatedImage/SingleAnimatedBitmap.cs:48-68 | on success `|Frames| == |Delays| == FrameCount ==` the image's frame count, in container order. Each delay comes from its frame's metadata, `Size` is the image's own and `Initialized` fires once |
| SingleAnimatedBitmap.DelaysAtLeastOne | Avalonia.AnimatedImage/SingleAnimatedBitmap.cs:84 | when no metadata delay exceeds `int.MaxValue`, every published delay is at least 1 |
| SingleAnimatedBitmap.InitFailsOnLoad | Avalonia.AnimatedImage/SingleAnimatedBitmap.cs:70-76 | a load fault publishes nothing (`Frames` throws, `Delays` empty, `FrameCount` 0) and `Failed` fires with it |
| SingleAnimatedBitmap.InitFailsOnFrame | Avalonia.AnimatedImage/SingleAnimatedBitmap.cs:52-57 | a cancellation or conversion fault at frame k publishes nothing and fires `Failed` with that exception. At the last frame only a conversion fault can stop it |
| SingleAnimatedBitmap.InitPreservesValid | Avalonia.AnimatedImage/SingleAnimatedBitmap.cs:35-77 | initialization keeps an instance reachable (stream held iff Uninitialized) and never moves a terminal instance |
| SingleAnimatedBitmap.InitIsIdempotent | Avalonia.AnimatedImage/SingleAnimatedBitmap.cs:37-38 | a second `InitAsync` loads nothing, disposes nothing and fires nothing |
| SingleAnimatedBitmap.ScenarioDefaultDelays | Avalonia.AnimatedImage/SingleAnimatedBitmap.cs:84 | a four-frame image without delay metadata yields delays `[10, 10, 10, 10]`, and the owned stream is disposed once |
| SingleAnimatedBitmap.ScenarioCancelledBeforeFirstFrame | Avalonia.AnimatedImage/SingleAnimatedBitmap.cs:52-55 | a token cancelled before the first check fails the instance with a cancellation, and no frame data is exposed |

## Left out

- Codec work is an oracle outcome: ImageSharp `Image.LoadAsync`, `ExportFrame` and `SaveAsync` with the 32-bit transparent BMP encoder, and the Avalonia `Bitmap` constructor. Export, save and `new Bitmap` for one frame are merged into one outcome.
- The pooled memory stream (`RecyclableMemoryStreamManager`) is external. Only the success or fault of the step that uses it is modelled.
- Async mechanics are sequential: `Task.Run`, `await` and the token's internals. Cancellation observed inside a codec call is a fault outcome.
- Disposal of the loaded image and of the exported frames (`using`) is not modelled. Only stream disposal is tracked.
- Concurrent `InitAsync` calls on one instance are undefined behaviour, so a single caller is assumed.
- Event handlers are assumed not to throw. A throwing `Initialized` handler would flip a Ready instance to Failed after publication. Events are a log, not delegates.
- A `DisposeAsync` that throws is not modelled.
- `IsCancellable` is an inert settable flag with no behaviour and is not modelled.
- `Size` is an opaque pair copied from the first frame or the image. Avalonia's double-based arithmetic is not modelled.
- Null elements inside the input collections are not modelled, because `Bitmap` and `Stream` are non-null values here. In `AnimatedBitmapSimpleImpl`, a null first bitmap makes the constructor throw a null-reference exception when it reads `first.Size`; a later null bitmap is copied as given. In `MultiAnimatedBitmap` without stream ownership, a null stream makes the `new Bitmap` call fault, so the instance ends Failed like after any decode fault. With ownership, the `DisposeAsync` in the `finally` throws a null-reference exception, which the outer catch handles. The catch's `foreach` then calls `DisposeAsync` on the same null element, and that exception escapes `InitAsync`, leaving the instance neither Ready nor Failed.
- Caller mutation after construction has no counterpart, because Dafny sequences are immutable values. Copying is therefore implicit, and `New` states that the instance holds the inputs as given.
- MultiAnimatedBitmap.New: a null hint collection fails construction. The `?? throw ArgumentNullException` cannot be reached because a collection expression is never null. The failure comes from spreading the null collection, and is modelled as a null-reference exception. The exact exception type depends on the compiler's lowering.
- SingleAnimatedBitmap.DelaysAtLeastOne: requires every metadata delay to be at most `int.MaxValue`. Above that, the unchecked cast wraps, as `DelayCastWraps` shows. WebP frame durations are 24-bit, so real files stay below the bound.
- MultiAnimatedBitmap.DisposalCounts: counts are per list position and assume distinct stream objects. The exact ordered disposal log in `InitSucceeds` and `InitFails` holds without that assumption.
- The oracle must cover every stream or image frame (`OracleCovers`), and a loaded image has at least one frame, as ImageSharp images always hold their root frame.
