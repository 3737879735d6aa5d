/**
 `MultiAnimatedBitmap`: one stream per frame. `InitAsync` drains the pending
 stream list from the front, decoding one stream per iteration and disposing
 it in a `finally` when the instance owns its streams; a fault runs the catch
 block, which disposes whatever is still in the list.

 The codec call `new Bitmap(stream)` is an oracle: `outcomes[i]` is what
 decoding the i-th stream produces.
 */
module MultiAnimatedBitmap {
  import opened AnimatedBitmap

  const InvalidCount := "Invalid frameStreams.Count"

  /** The delay used when a stream has no positive delay hint. */
  const FallbackDelay := 100

  /**
   An instance: its published fields, the list of streams not yet consumed
   (`None` once `InitAsync` has finished), the copied delay hints and the
   disposal-ownership flag.
   */
  datatype MultiBitmap = MultiBitmap(
    fields: Fields,
    pending: Option<seq<Stream>>,
    hints: seq<int>,
    disposeStream: bool)

  /** The states a constructed instance can be in. */
  predicate Valid(m: MultiBitmap) {
    && Consistent(m.fields)
    && match PhaseOf(m.fields)
       case Uninitialized => m.pending.Some? && |m.pending.value| >= 1
       case Ready => m.pending.None? && AllPositive(m.fields.delays)
       case Failed => m.pending.None?
  }

  /**
   The constructor (the two field initializers, in declaration order).
   `None` is a null collection. A null hint collection makes the spread
   `[..delays]` fail before its `?? throw` can be reached.
   */
  function New(frameStreams: Option<seq<Stream>>, delays: Option<seq<int>>, disposeStream: bool): (r: Result<MultiBitmap>)
    ensures frameStreams.None? ==> r == Failure(ArgumentNull("frameStreams"))
    ensures frameStreams == Some([]) ==> r == Failure(Argument(InvalidCount))
    ensures r.Success? <==> frameStreams.Some? && |frameStreams.value| >= 1 && delays.Some?
    ensures r.Success? ==>
              && Valid(r.value)
              && PhaseOf(r.value.fields) == Uninitialized
              && r.value.pending == frameStreams
              && r.value.hints == delays.value
              && r.value.disposeStream == disposeStream
  {
    match frameStreams
    case None => Failure(ArgumentNull("frameStreams"))
    case Some(streams) =>
      if |streams| == 0 then Failure(Argument(InvalidCount))
      else
        match delays
        case None => Failure(NullReference("delays"))
        case Some(hints) => Success(MultiBitmap(Unpublished, Some(streams), hints, disposeStream))
  }

  /** `Enumerable.ElementAtOrDefault` on a list of `int`. */
  function ElementAtOrDefault(s: seq<int>, index: int): int {
    if 0 <= index < |s| then s[index] else 0
  }

  /** The delay of the frame at `index`: its hint when positive, else the fallback. */
  function HintDelay(hints: seq<int>, index: int): (d: int)
    ensures d >= 1
    ensures d != FallbackDelay ==> 0 <= index < |hints| && d == hints[index]
    ensures 0 <= index < |hints| && hints[index] > 0 ==> d == hints[index]
  {
    var delay := ElementAtOrDefault(hints, index);
    if delay > 0 then delay else FallbackDelay
  }

  /** Iteration `index` of the drain loop throws: the token is cancelled, or the decode faults. */
  predicate Stops(token: Token, outcomes: seq<Decode>, index: nat)
    requires index < |outcomes|
  {
    IsCancellationRequested(token, index) || outcomes[index].Fault?
  }

  /** The exception thrown by an iteration that stops; cancellation is checked first. */
  function StopError(token: Token, outcomes: seq<Decode>, index: nat): Exception
    requires index < |outcomes| && Stops(token, outcomes, index)
  {
    if IsCancellationRequested(token, index) then OperationCanceled
    else Codec(outcomes[index].code)
  }

  /** The first iteration in `from..n` that stops, or `n` if none does. */
  function FirstStop(token: Token, outcomes: seq<Decode>, from: nat, n: nat): (k: nat)
    requires from <= n <= |outcomes|
    ensures from <= k <= n
    ensures forall j | from <= j < k :: !Stops(token, outcomes, j)
    ensures k < n ==> Stops(token, outcomes, k)
    decreases n - from
  {
    if from == n then n
    else if Stops(token, outcomes, from) then from
    else FirstStop(token, outcomes, from + 1, n)
  }

  /**
   What the drain loop leaves behind: every stream decoded, or the exception
   with the list as it stood when it was thrown. `disposals` are the
   `finally` disposals, in order.
   */
  datatype DrainResult =
    | Drained(frames: seq<Bitmap>, delays: seq<int>, disposals: seq<Stream>)
    | Aborted(error: Exception, rest: seq<Stream>, disposals: seq<Stream>)

  /** Puts the output of earlier iterations in front of the output of later ones. */
  function Prepend(frames: seq<Bitmap>, delays: seq<int>, disposals: seq<Stream>, d: DrainResult): DrainResult {
    match d
    case Drained(fs, ds, dd) => Drained(frames + fs, delays + ds, disposals + dd)
    case Aborted(e, rest, dd) => Aborted(e, rest, disposals + dd)
  }

  /**
   The drain loop from iteration `index` on: the list still holds
   `streams[index..]`, the streams before `index` having been removed.
   */
  function Drain(streams: seq<Stream>, index: nat, hints: seq<int>, disposeStream: bool,
                 outcomes: seq<Decode>, token: Token): (r: DrainResult)
    requires index <= |streams| <= |outcomes|
    ensures r.Drained? <==> forall j | index <= j < |streams| :: !Stops(token, outcomes, j)
    ensures r.Drained? ==> |r.frames| == |r.delays| == |streams| - index
    ensures !disposeStream ==> r.disposals == []
    decreases |streams| - index
  {
    if index == |streams| then Drained([], [], [])
    else if IsCancellationRequested(token, index) then
      assert Stops(token, outcomes, index);
      Aborted(OperationCanceled, streams[index..], [])
    else
      var frameStream := streams[index];
      var disposed := if disposeStream then [frameStream] else [];
      match outcomes[index]
      case Fault(code) =>
        assert Stops(token, outcomes, index);
        Aborted(Codec(code), streams[index..], disposed)
      case Decoded(bitmap) =>
        Prepend([bitmap], [HintDelay(hints, index)], disposed,
                Drain(streams, index + 1, hints, disposeStream, outcomes, token))
  }

  /** One `InitAsync` call: the instance afterwards, the `DisposeAsync` calls in order, the events fired. */
  datatype Run = Run(after: MultiBitmap, disposals: seq<Stream>, events: seq<Event>)

  /** The catch block once its disposals are done: the list is dropped and only `IsFailed` is set. */
  function Fail(m: MultiBitmap, disposals: seq<Stream>, error: Exception): Run {
    Run(m.(fields := MarkFailed(m.fields), pending := None), disposals, [FailedEvent(error)])
  }

  /** The oracle has an outcome for every pending stream. */
  predicate OracleCovers(m: MultiBitmap, outcomes: seq<Decode>) {
    m.pending.Some? ==> |m.pending.value| <= |outcomes|
  }

  /** `InitAsync`, as a function of the instance, the codec outcomes and the token. */
  function Init(m: MultiBitmap, outcomes: seq<Decode>, token: Token): (r: Run)
    requires OracleCovers(m, outcomes)
    ensures Terminal(r.after.fields)
    ensures Terminal(m.fields) ==> r == Run(m, [], [])
    ensures !Terminal(m.fields) ==>
              && r.after.pending.None?
              && |r.events| == 1
              && (r.events[0] == InitializedEvent <==> IsInitialized(r.after.fields))
    ensures !m.disposeStream ==> r.disposals == []
  {
    if IsInitialized(m.fields) || IsFailed(m.fields) then Run(m, [], [])
    else
      match m.pending
      case None => Fail(m, [], NullReference("_frameStreams"))
      case Some(streams) =>
        match Drain(streams, 0, m.hints, m.disposeStream, outcomes, token)
        case Aborted(error, rest, disposals) =>
          Fail(m, disposals + (if m.disposeStream then rest else []), error)
        case Drained(frames, delays, disposals) =>
          if |frames| == 0 then Fail(m, disposals, IndexOutOfRange)
          else
            var fields := Publish(m.fields, frames, delays, frames[0].size);
            Run(m.(fields := fields, pending := None), disposals, [InitializedEvent])
  }

  /** The catch block: dispose the streams still in the list when owned, then fail. */
  method Catch(m: MultiBitmap, frameStreams: seq<Stream>, disposals: seq<Stream>, error: Exception) returns (r: Run)
    ensures r == Fail(m, disposals + (if m.disposeStream then frameStreams else []), error)
  {
    var disposed := disposals;
    if m.disposeStream {
      for i := 0 to |frameStreams|
        invariant disposed == disposals + frameStreams[..i]
      {
        disposed := disposed + [frameStreams[i]];
      }
      assert frameStreams[..|frameStreams|] == frameStreams;
    }
    r := Fail(m, disposed, error);
  }

  lemma PrependTwice(f1: seq<Bitmap>, d1: seq<int>, x1: seq<Stream>,
                     f2: seq<Bitmap>, d2: seq<int>, x2: seq<Stream>, d: DrainResult)
    ensures Prepend(f1, d1, x1, Prepend(f2, d2, x2, d)) == Prepend(f1 + f2, d1 + d2, x1 + x2, d)
  {
    match d
    case Drained(fs, ds, dd) =>
      assert f1 + (f2 + fs) == (f1 + f2) + fs;
      assert d1 + (d2 + ds) == (d1 + d2) + ds;
      assert x1 + (x2 + dd) == (x1 + x2) + dd;
    case Aborted(e, rest, dd) =>
      assert x1 + (x2 + dd) == (x1 + x2) + dd;
  }

  /** An iteration that does not stop puts its frame, delay and disposal in front of the rest of the loop. */
  lemma DrainSkips(streams: seq<Stream>, index: nat, hints: seq<int>, disposeStream: bool,
                   outcomes: seq<Decode>, token: Token)
    requires index < |streams| <= |outcomes|
    requires !Stops(token, outcomes, index)
    ensures Drain(streams, index, hints, disposeStream, outcomes, token)
         == Prepend([outcomes[index].bitmap], [HintDelay(hints, index)],
                    if disposeStream then [streams[index]] else [],
                    Drain(streams, index + 1, hints, disposeStream, outcomes, token))
  {
  }

  /** The source's drain loop: `while (_frameStreams.Count > 0)`, up to the first exception. */
  method DrainLoop(streams: seq<Stream>, hints: seq<int>, disposeStream: bool,
                   outcomes: seq<Decode>, token: Token) returns (d: DrainResult)
    requires |streams| <= |outcomes|
    ensures d == Drain(streams, 0, hints, disposeStream, outcomes, token)
  {
    var frameStreams := streams;
    var frames: seq<Bitmap> := [];
    var delays: seq<int> := [];
    var disposals: seq<Stream> := [];
    var index: nat := 0;
    while |frameStreams| > 0
      invariant index <= |streams| && frameStreams == streams[index..]
      invariant Drain(streams, 0, hints, disposeStream, outcomes, token)
             == Prepend(frames, delays, disposals, Drain(streams, index, hints, disposeStream, outcomes, token))
      decreases |frameStreams|
    {
      if IsCancellationRequested(token, index) {
        return Aborted(OperationCanceled, frameStreams, disposals);
      }
      var delay := HintDelay(hints, index);
      var frameStream := frameStreams[0];
      var outcome := outcomes[index];
      ghost var disposedBefore := disposals;
      ghost var step := if disposeStream then [frameStream] else [];
      if disposeStream {
        disposals := disposals + [frameStream];
      }
      if outcome.Fault? {
        return Aborted(Codec(outcome.code), frameStreams, disposals);
      }
      DrainSkips(streams, index, hints, disposeStream, outcomes, token);
      PrependTwice(frames, delays, disposedBefore, [outcome.bitmap], [delay], step,
                   Drain(streams, index + 1, hints, disposeStream, outcomes, token));
      frames := frames + [outcome.bitmap];
      delays := delays + [delay];
      frameStreams := frameStreams[1..];
      index := index + 1;
    }
    return Drained(frames, delays, disposals);
  }

  /** `InitAsync`: the terminal-state guard, the drain loop, then the success publication or the catch block. */
  method InitAsync(m: MultiBitmap, outcomes: seq<Decode>, token: Token) returns (r: Run)
    requires OracleCovers(m, outcomes)
    ensures r == Init(m, outcomes, token)
  {
    if IsInitialized(m.fields) || IsFailed(m.fields) {
      return Run(m, [], []);
    }
    if m.pending.None? {
      return Fail(m, [], NullReference("_frameStreams"));
    }
    var d := DrainLoop(m.pending.value, m.hints, m.disposeStream, outcomes, token);
    match d
    case Aborted(error, rest, disposals) =>
      r := Catch(m, rest, disposals, error);
    case Drained(frames, delays, disposals) =>
      if |frames| == 0 {
        return Fail(m, disposals, IndexOutOfRange);
      }
      var fields := Publish(m.fields, frames, delays, frames[0].size);
      r := Run(m.(fields := fields, pending := None), disposals, [InitializedEvent]);
  }

  /** When no iteration stops, the loop decodes every stream in order, with its hint delay, disposing each owned stream once. */
  lemma {:induction false} DrainCompletes(streams: seq<Stream>, index: nat, hints: seq<int>, disposeStream: bool,
                                          outcomes: seq<Decode>, token: Token)
    requires index <= |streams| <= |outcomes|
    requires forall j | index <= j < |streams| :: !Stops(token, outcomes, j)
    ensures var r := Drain(streams, index, hints, disposeStream, outcomes, token);
      && r.Drained?
      && (forall i | 0 <= i < |streams| - index :: outcomes[index + i] == Decoded(r.frames[i]))
      && (forall i | 0 <= i < |streams| - index :: r.delays[i] == HintDelay(hints, index + i))
      && r.disposals == (if disposeStream then streams[index..] else [])
    decreases |streams| - index
  {
    if index < |streams| {
      assert !Stops(token, outcomes, index);
      DrainSkips(streams, index, hints, disposeStream, outcomes, token);
      DrainCompletes(streams, index + 1, hints, disposeStream, outcomes, token);
      var r := Drain(streams, index, hints, disposeStream, outcomes, token);
      var later := Drain(streams, index + 1, hints, disposeStream, outcomes, token);
      forall i | 0 <= i < |streams| - index
        ensures outcomes[index + i] == Decoded(r.frames[i])
        ensures r.delays[i] == HintDelay(hints, index + i)
      {
        if i > 0 {
          assert r.frames[i] == later.frames[i - 1];
          assert r.delays[i] == later.delays[i - 1];
        }
      }
      assert streams[index..] == [streams[index]] + streams[index + 1..];
    }
  }

  /**
   The disposals of a loop whose first stopping iteration is `k`, made
   from iteration `index` on: the owned streams before `k`, and stream `k`
   too when its decode was attempted.
   */
  function AbortDisposals(streams: seq<Stream>, index: nat, disposeStream: bool, cancelled: bool, k: nat): seq<Stream>
    requires index <= k < |streams|
  {
    if disposeStream then streams[index..k] + (if cancelled then [] else [streams[k]]) else []
  }

  /** An iteration that stops throws at once, with the whole remaining list. */
  lemma DrainStopsHere(streams: seq<Stream>, index: nat, hints: seq<int>, disposeStream: bool,
                       outcomes: seq<Decode>, token: Token)
    requires index < |streams| <= |outcomes|
    requires Stops(token, outcomes, index)
    ensures Drain(streams, index, hints, disposeStream, outcomes, token)
         == Aborted(StopError(token, outcomes, index), streams[index..],
                    AbortDisposals(streams, index, disposeStream, IsCancellationRequested(token, index), index))
  {
    assert streams[index..index] == [];
  }

  /**
   When iteration `k` is the first to stop, the loop throws its exception
   with the list still holding stream `k` and the ones after it.
   */
  lemma {:induction false} DrainAborts(streams: seq<Stream>, index: nat, hints: seq<int>, disposeStream: bool,
                                       outcomes: seq<Decode>, token: Token, k: nat)
    requires index <= k < |streams| <= |outcomes|
    requires forall j | index <= j < k :: !Stops(token, outcomes, j)
    requires Stops(token, outcomes, k)
    ensures Drain(streams, index, hints, disposeStream, outcomes, token)
         == Aborted(StopError(token, outcomes, k), streams[k..],
                    AbortDisposals(streams, index, disposeStream, IsCancellationRequested(token, k), k))
    decreases k - index
  {
    if k == index {
      DrainStopsHere(streams, index, hints, disposeStream, outcomes, token);
    } else {
      assert !Stops(token, outcomes, index);
      DrainSkips(streams, index, hints, disposeStream, outcomes, token);
      DrainAborts(streams, index + 1, hints, disposeStream, outcomes, token, k);
      if disposeStream {
        assert streams[index..k] == [streams[index]] + streams[index + 1..k];
      }
    }
  }

  /**
   A successful `InitAsync` on a fresh instance: frame i is the decode of
   stream i, delay i its hint or the fallback, `Size` that of the first
   frame, every owned stream disposed in order, and one `Initialized` event.
   */
  lemma InitSucceeds(m: MultiBitmap, outcomes: seq<Decode>, token: Token)
    requires Valid(m) && PhaseOf(m.fields) == Uninitialized && OracleCovers(m, outcomes)
    requires forall j | 0 <= j < |m.pending.value| :: !Stops(token, outcomes, j)
    ensures var r := Init(m, outcomes, token);
            var streams := m.pending.value;
            var frames := Frames(r.after.fields);
      && PhaseOf(r.after.fields) == Ready
      && frames.Success?
      && |frames.value| == |r.after.fields.delays| == r.after.fields.frameCount == |streams|
      && (forall i | 0 <= i < |streams| :: outcomes[i] == Decoded(frames.value[i]))
      && (forall i | 0 <= i < |streams| :: r.after.fields.delays[i] == HintDelay(m.hints, i))
      && r.after.fields.size == frames.value[0].size
      && r.after.pending.None?
      && r.disposals == (if m.disposeStream then streams else [])
      && r.events == [InitializedEvent]
  {
    DrainCompletes(m.pending.value, 0, m.hints, m.disposeStream, outcomes, token);
    assert m.pending.value[0..] == m.pending.value;
  }

  /**
   A failed `InitAsync` on a fresh instance, first stopped at stream `k`:
   nothing is published, one `Failed` event carries the exception, and the
   owned streams are disposed in the order the `finally` and the catch block
   reach them. The stream whose decode faulted is disposed twice.
   */
  lemma InitFails(m: MultiBitmap, outcomes: seq<Decode>, token: Token, k: nat)
    requires Valid(m) && PhaseOf(m.fields) == Uninitialized && OracleCovers(m, outcomes)
    requires k < |m.pending.value|
    requires forall j | 0 <= j < k :: !Stops(token, outcomes, j)
    requires Stops(token, outcomes, k)
    ensures var r := Init(m, outcomes, token);
            var streams := m.pending.value;
      && PhaseOf(r.after.fields) == Failed
      && Frames(r.after.fields) == Failure(InvalidOperation)
      && r.after.fields.delays == [] && r.after.fields.frameCount == 0
      && r.after.fields.size == EmptySize
      && r.after.pending.None?
      && r.events == [FailedEvent(StopError(token, outcomes, k))]
      && r.disposals == (if m.disposeStream then
                           streams[..k] + (if IsCancellationRequested(token, k) then [] else [streams[k]]) + streams[k..]
                         else [])
  {
    DrainAborts(m.pending.value, 0, m.hints, m.disposeStream, outcomes, token, k);
    assert m.pending.value[0..k] == m.pending.value[..k];
  }

  /** The same stream object never appears twice in the list. */
  predicate Distinct(streams: seq<Stream>) {
    forall i, j | 0 <= i < j < |streams| :: streams[i] != streams[j]
  }

  lemma {:induction false} DistinctOccursOnce(streams: seq<Stream>, i: nat)
    requires Distinct(streams) && i < |streams|
    ensures multiset(streams)[streams[i]] == 1
    decreases |streams|
  {
    assert streams == [streams[0]] + streams[1..];
    var tail := streams[1..];
    if i == 0 {
      assert streams[0] !in tail by {
        forall j | 0 <= j < |tail| ensures tail[j] != streams[0] {
          assert tail[j] == streams[j + 1];
        }
      }
    } else {
      assert Distinct(tail) by {
        forall a, b | 0 <= a < b < |tail| ensures tail[a] != tail[b] {
          assert tail[a] == streams[a + 1] && tail[b] == streams[b + 1];
        }
      }
      assert tail[i - 1] == streams[i];
      DistinctOccursOnce(tail, i - 1);
      assert streams[0] != streams[i];
    }
  }

  /**
   With owned, distinct streams every stream is disposed exactly once by the
   end of `InitAsync`, except the stream whose decode faulted, which the
   `finally` and the catch block both dispose.
   */
  lemma DisposalCounts(m: MultiBitmap, outcomes: seq<Decode>, token: Token)
    requires Valid(m) && PhaseOf(m.fields) == Uninitialized && OracleCovers(m, outcomes)
    requires m.disposeStream && Distinct(m.pending.value)
    ensures var r := Init(m, outcomes, token);
            var streams := m.pending.value;
            var k := FirstStop(token, outcomes, 0, |streams|);
      forall i | 0 <= i < |streams| ::
        multiset(r.disposals)[streams[i]]
          == if i == k && !IsCancellationRequested(token, k) then 2 else 1
  {
    var streams := m.pending.value;
    var k := FirstStop(token, outcomes, 0, |streams|);
    var r := Init(m, outcomes, token);
    if k == |streams| {
      InitSucceeds(m, outcomes, token);
      forall i | 0 <= i < |streams| ensures multiset(r.disposals)[streams[i]] == 1 {
        DistinctOccursOnce(streams, i);
      }
    } else {
      InitFails(m, outcomes, token, k);
      assert streams[..k] + streams[k..] == streams;
      var extra: seq<Stream> := if IsCancellationRequested(token, k) then [] else [streams[k]];
      assert multiset(r.disposals) == multiset(streams) + multiset(extra) by {
        assert r.disposals == streams[..k] + extra + streams[k..];
        calc {
          multiset(r.disposals);
          multiset(streams[..k]) + multiset(extra) + multiset(streams[k..]);
          multiset(streams[..k] + streams[k..]) + multiset(extra);
        }
      }
      forall i | 0 <= i < |streams|
        ensures multiset(r.disposals)[streams[i]]
             == if i == k && !IsCancellationRequested(token, k) then 2 else 1
      {
        DistinctOccursOnce(streams, i);
        if i != k {
          assert streams[i] != streams[k];
        }
      }
    }
  }

  /** `InitAsync` keeps an instance in one of its reachable states and never leaves a terminal one. */
  lemma InitPreservesValid(m: MultiBitmap, outcomes: seq<Decode>, token: Token)
    requires Valid(m) && OracleCovers(m, outcomes)
    ensures Valid(Init(m, outcomes, token).after)
    ensures PhaseOf(m.fields) != Uninitialized ==> Init(m, outcomes, token).after == m
  {
    if PhaseOf(m.fields) == Uninitialized {
      var streams := m.pending.value;
      var k := FirstStop(token, outcomes, 0, |streams|);
      if k == |streams| {
        InitSucceeds(m, outcomes, token);
      } else {
        InitFails(m, outcomes, token, k);
      }
    }
  }

  /** A second `InitAsync` after the first decodes nothing, disposes nothing and fires nothing. */
  lemma InitIsIdempotent(m: MultiBitmap, first: seq<Decode>, firstToken: Token,
                         second: seq<Decode>, secondToken: Token)
    requires Valid(m) && OracleCovers(m, first)
    ensures var r := Init(m, first, firstToken);
      && OracleCovers(r.after, second)
      && Init(r.after, second, secondToken) == Run(r.after, [], [])
  {
    InitPreservesValid(m, first, firstToken);
  }

  /** Two streams with hints `[0, 50]`: the first frame falls back to 100 ms. */
  lemma ScenarioFallbackHint(a: Stream, b: Stream, fa: Bitmap, fb: Bitmap)
    ensures New(Some([a, b]), Some([0, 50]), true).Success?
    ensures var m := New(Some([a, b]), Some([0, 50]), true).value;
            var r := Init(m, [Decoded(fa), Decoded(fb)], NoCancellation);
      && Frames(r.after.fields) == Success([fa, fb])
      && r.after.fields.delays == [100, 50]
      && r.disposals == [a, b]
  {
    var m := New(Some([a, b]), Some([0, 50]), true).value;
    var outcomes := [Decoded(fa), Decoded(fb)];
    InitSucceeds(m, outcomes, NoCancellation);
    var r := Init(m, outcomes, NoCancellation);
    var frames := Frames(r.after.fields).value;
    assert outcomes[0] == Decoded(frames[0]) && outcomes[1] == Decoded(frames[1]);
    assert frames == [fa, fb];
    assert r.after.fields.delays[0] == HintDelay(m.hints, 0) == 100;
    assert r.after.fields.delays[1] == HintDelay(m.hints, 1) == 50;
    assert r.after.fields.delays == [100, 50];
  }

  /**
   Three owned streams whose second decode faults: the third stream, never
   decoded, is disposed by the catch block, and the second is disposed twice.
   */
  lemma ScenarioSecondOfThreeFaults(a: Stream, b: Stream, c: Stream, fa: Bitmap, fc: Bitmap, code: int)
    ensures New(Some([a, b, c]), Some([]), true).Success?
    ensures var m := New(Some([a, b, c]), Some([]), true).value;
            var r := Init(m, [Decoded(fa), Fault(code), Decoded(fc)], NoCancellation);
      && PhaseOf(r.after.fields) == Failed
      && Frames(r.after.fields) == Failure(InvalidOperation)
      && r.events == [FailedEvent(Codec(code))]
      && r.disposals == [a, b, b, c]
  {
    var m := New(Some([a, b, c]), Some([]), true).value;
    var outcomes := [Decoded(fa), Fault(code), Decoded(fc)];
    assert !Stops(NoCancellation, outcomes, 0);
    InitFails(m, outcomes, NoCancellation, 1);
    assert [a, b, c][..1] + [b] + [a, b, c][1..] == [a, b, b, c];
  }
}
