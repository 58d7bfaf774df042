/** The audio chunk recorder as a state machine: every synchronous callback is one step, and a timer, a worklet
    message or the end of an audio-graph transition may come at any point. */
module Recorder {
  import opened Bytes
  import opened WavWriter

  /** One call of `onChunkReady`. */
  datatype Chunk = Chunk(blob: seq<Byte>, index: nat, elapsed: int, duration: real)

  /** A chunk and the session that delivered it. */
  datatype Delivery = Delivery(session: nat, chunk: Chunk)

  /** What became of a run of samples that left the buffer. */
  datatype Run = Flushed(session: nat, rate: SampleRate, samples: seq<real>) | Discarded(samples: seq<real>)

  type SampleRate = n: nat | n > 0 witness 16000

  /** The recorder's refs and audio graphs, with everything that happened since it exists: the number of resets, the
      samples accepted, the runs of samples that left the buffer, and the chunks delivered. `tracked` says that a ref
      holds the last worklet; `untracked` counts the live worklets that a later start has overwritten in that ref. */
  datatype State = State(paused: bool, tracked: bool, untracked: nat, elapsed: nat, chunkIndex: nat,
        lastChunkElapsed: real, buffers: seq<seq<real>>, sampleCount: nat, sampleRate: SampleRate,
        session: nat, accepted: seq<real>, runs: seq<Run>, delivered: seq<Delivery>)

  datatype Event =
    | Samples(chunk: seq<real>)   // a worklet message
    | Tick                        // the one-second timer
    | ChunkTimer                  // the chunk interval
    | Paused                      // the context was suspended
    | Resumed                     // the context runs again
    | StopBegins                  // stop: flush and detach the tracked worklet
    | StopEnds                    // stop: the graph is closed
    | StartBegins                 // start: detach the tracked worklet
    | Started(rate: SampleRate)   // start: the new graph is running and tracked

  const SMALLEST_BLOB := 1000

  function Maximum(a: real, b: real): real { if b > a then b else a }
  function MaximumInt(a: int, b: int): int { if b > a then b else a }

  /** `Math.round`. */
  function Round(x: real): int { (x + 0.5).Floor }

  function Duration(samples: nat, rate: SampleRate): real { Maximum(samples as real / rate as real, 1.0) }

  function ResetBuffer(s: State): State { s.(buffers := [], sampleCount := 0) }

  function EmitChunk(s: State, blob: seq<Byte>, snapshot: int, duration: real): State {
    if |blob| <= SMALLEST_BLOB then s
    else
      s.(delivered := s.delivered + [Delivery(s.session, Chunk(blob, s.chunkIndex, snapshot, duration))],
         chunkIndex := s.chunkIndex + 1)
  }

  function FlushChunk(s: State): State {
    if s.sampleCount == 0 then s
    else
      var duration := Duration(s.sampleCount, s.sampleRate);
      var samples := Flatten(s.buffers);
      var s1 := ResetBuffer(s).(runs := s.runs + [Flushed(s.session, s.sampleRate, samples)],
          lastChunkElapsed := s.lastChunkElapsed + duration);
      EmitChunk(s1, WavBytes(samples, s.sampleRate), MaximumInt(s1.elapsed, Round(s1.lastChunkElapsed)), duration)
  }

  /** A reset begins a new session; what is still buffered is discarded. */
  function Reset(s: State): State {
    ResetBuffer(s).(paused := false, elapsed := 0, chunkIndex := 0, lastChunkElapsed := 0.0,
                    session := s.session + 1, runs := s.runs + [Discarded(Flatten(s.buffers))])
  }

  /** Some worklet delivers samples. */
  predicate IsLive(s: State) { s.tracked || s.untracked > 0 }

  function Step(s: State, e: Event): State {
    match e
    case Samples(chunk) =>
      if s.paused || !IsLive(s) then s
      else s.(buffers := s.buffers + [chunk], sampleCount := s.sampleCount + |chunk|, accepted := s.accepted + chunk)
    case Tick => s.(elapsed := s.elapsed + 1)
    case ChunkTimer => if s.paused then s else FlushChunk(s)
    case Paused => FlushChunk(s.(paused := true))
    case Resumed => s.(paused := false)
    case StopBegins => FlushChunk(s).(tracked := false)
    case StopEnds => Reset(s)
    case StartBegins => s.(tracked := false)
    case Started(rate) =>
      Reset(s).(tracked := true, untracked := s.untracked + (if s.tracked then 1 else 0), sampleRate := rate)
  }

  const INITIAL := State(false, false, 0, 0, 0, 0.0, [], 0, 16000, 0, [], [], [])

  function After(s: State, events: seq<Event>): State {
    if events == [] then s else Step(After(s, events[..|events| - 1]), events[|events| - 1])
  }

  // ----- the hook's callbacks over its refs

  class AudioRecorder {
    var isPausedRef: bool
    var tracked: bool
    var untracked: nat
    var elapsedRef: nat
    var chunkIndexRef: nat
    var lastChunkElapsedRef: real
    var chunkBuffersRef: seq<seq<real>>
    var chunkSampleCountRef: nat
    var sampleRateRef: SampleRate
    ghost var session: nat
    ghost var accepted: seq<real>
    ghost var runs: seq<Run>
    ghost var delivered: seq<Delivery>

    ghost function Abs(): State
      reads this
    {
      State(isPausedRef, tracked, untracked, elapsedRef, chunkIndexRef, lastChunkElapsedRef, chunkBuffersRef,
          chunkSampleCountRef, sampleRateRef, session, accepted, runs, delivered)
    }

    ghost predicate Valid()
      reads this
    {
      Inv(Abs())
    }

    constructor ()
      ensures Abs() == INITIAL && Valid()
    {
      isPausedRef, tracked, untracked, elapsedRef, chunkIndexRef, lastChunkElapsedRef := false, false, 0, 0, 0, 0.0;
      chunkBuffersRef, chunkSampleCountRef, sampleRateRef := [], 0, 16000;
      session, accepted, runs, delivered := 0, [], [], [];
      new;
      InitialInv();
    }

    method ResetChunkBuffer()
      modifies `chunkBuffersRef, `chunkSampleCountRef
      ensures Abs() == ResetBuffer(old(Abs()))
    {
      chunkBuffersRef := [];
      chunkSampleCountRef := 0;
    }

    method Emit(blob: seq<Byte>, elapsedSnapshot: int, durationSeconds: real)
      modifies `chunkIndexRef, `delivered
      ensures Abs() == EmitChunk(old(Abs()), blob, elapsedSnapshot, durationSeconds)
    {
      if |blob| <= SMALLEST_BLOB {
        return;
      }
      delivered := delivered + [Delivery(session, Chunk(blob, chunkIndexRef, elapsedSnapshot, durationSeconds))];
      chunkIndexRef := chunkIndexRef + 1;
    }

    method Flush()
      requires Valid()
      modifies this
      ensures Abs() == FlushChunk(old(Abs())) && Valid()
    {
      hide WavBytes, Flatten, Round, Inv;
      FlushKeepsInv(Abs());
      InvCounts(Abs());
      if chunkSampleCountRef == 0 {
        return;
      }
      var durationSeconds := Duration(chunkSampleCountRef, sampleRateRef);
      var blob, _ := CreateWavBlob(chunkBuffersRef, sampleRateRef);
      runs := runs + [Flushed(session, sampleRateRef, Flatten(chunkBuffersRef))];
      ResetChunkBuffer();
      lastChunkElapsedRef := lastChunkElapsedRef + durationSeconds;
      var elapsedSnapshot := MaximumInt(elapsedRef, Round(lastChunkElapsedRef));
      Emit(blob.value, elapsedSnapshot, durationSeconds);
    }

    method OnWorkletMessage(chunk: seq<real>)
      requires Valid()
      modifies this
      ensures Abs() == Step(old(Abs()), Samples(chunk)) && Valid()
    {
      hide Inv;
      StepKeepsInv(Abs(), Samples(chunk));
      if isPausedRef || !(tracked || untracked > 0) {
        return;
      }
      chunkBuffersRef := chunkBuffersRef + [chunk];
      chunkSampleCountRef := chunkSampleCountRef + |chunk|;
      accepted := accepted + chunk;
    }

    method OnTick()
      requires Valid()
      modifies this
      ensures Abs() == Step(old(Abs()), Tick) && Valid()
    {
      hide Inv;
      StepKeepsInv(Abs(), Tick);
      elapsedRef := elapsedRef + 1;
    }

    method OnChunkTimer()
      requires Valid()
      modifies this
      ensures Abs() == Step(old(Abs()), ChunkTimer) && Valid()
    {
      if !isPausedRef {
        Flush();
      }
    }

    method OnPaused()
      requires Valid()
      modifies this
      ensures Abs() == Step(old(Abs()), Event.Paused) && Valid()
    {
      hide Inv, FlushChunk;
      PauseKeepsInv(Abs());
      isPausedRef := true;
      Flush();
    }

    method OnResumed()
      requires Valid()
      modifies this
      ensures Abs() == Step(old(Abs()), Resumed) && Valid()
    {
      hide Inv;
      StepKeepsInv(Abs(), Resumed);
      isPausedRef := false;
    }

    method OnStopBegins()
      requires Valid()
      modifies this
      ensures Abs() == Step(old(Abs()), StopBegins) && Valid()
    {
      hide Inv, FlushChunk;
      StepKeepsInv(Abs(), StopBegins);
      Flush();
      tracked := false;
    }

    method ResetRecorderState()
      requires Valid()
      modifies this
      ensures Abs() == Step(old(Abs()), StopEnds) && Valid()
    {
      hide Inv, FlushChunk;
      StepKeepsInv(Abs(), StopEnds);
      isPausedRef := false;
      elapsedRef := 0;
      chunkIndexRef := 0;
      lastChunkElapsedRef := 0.0;
      session, runs := session + 1, runs + [Discarded(Flatten(chunkBuffersRef))];
      ResetChunkBuffer();
    }

    method OnStartBegins()
      requires Valid()
      modifies this
      ensures Abs() == Step(old(Abs()), StartBegins) && Valid()
    {
      hide Inv;
      StepKeepsInv(Abs(), StartBegins);
      tracked := false;
    }

    method OnStarted(rate: SampleRate)
      requires Valid()
      modifies this
      ensures Abs() == Step(old(Abs()), Started(rate)) && Valid()
    {
      hide Inv, FlushChunk;
      StepKeepsInv(Abs(), Started(rate));
      ResetRecorderState();
      if tracked {
        untracked := untracked + 1;
      }
      tracked := true;
      sampleRateRef := rate;
    }
  }

  // ----- the invariant of every run

  /** All samples that left the buffer, in order. */
  function AllSamples(runs: seq<Run>): seq<real> {
    if runs == [] then [] else AllSamples(runs[..|runs| - 1]) + runs[|runs| - 1].samples
  }

  /** The flushed runs whose WAV exceeds the smallest blob: more than 478 samples. */
  function Large(runs: seq<Run>): (r: seq<Run>)
    ensures forall x | x in r :: x.Flushed? && |x.samples| > 478
  {
    if runs == [] then []
    else
      var last := runs[|runs| - 1];
      Large(runs[..|runs| - 1]) + (if last.Flushed? && |last.samples| > 478 then [last] else [])
  }

  /** How many chunks a session delivered. */
  function CountOf(delivered: seq<Delivery>, session: nat): nat {
    if delivered == [] then 0
    else
      CountOf(delivered[..|delivered| - 1], session) + (if delivered[|delivered| - 1].session == session then 1 else 0)
  }

  /** Delivery `i` is the WAV of the `i`th large run, numbered within its session. */
  ghost predicate DeliversAt(s: State, i: nat)
    requires i < |s.delivered| == |Large(s.runs)|
  {
    var d, run := s.delivered[i], Large(s.runs)[i];
    && run.Flushed?
    && d.session == run.session && d.chunk.blob == WavBytes(run.samples, run.rate)
    && d.chunk.index == CountOf(s.delivered[..i], d.session)
  }

  ghost predicate DeliversLarge(s: State) {
    |s.delivered| == |Large(s.runs)| && forall i: nat | i < |s.delivered| :: DeliversAt(s, i)
  }

  ghost predicate SnapshotsGrow(s: State) {
    && (forall i | 0 <= i < |s.delivered| :: s.delivered[i].session <= s.session)
    && (forall i, j | 0 <= i < j < |s.delivered| && s.delivered[i].session == s.delivered[j].session ::
          s.delivered[i].chunk.elapsed <= s.delivered[j].chunk.elapsed)
    && (forall i | 0 <= i < |s.delivered| && s.delivered[i].session == s.session ::
          s.delivered[i].chunk.elapsed <= MaximumInt(s.elapsed, Round(s.lastChunkElapsed)))
  }

  ghost predicate Inv(s: State) {
    && s.sampleCount == |Flatten(s.buffers)|
    && s.accepted == AllSamples(s.runs) + Flatten(s.buffers)
    && s.chunkIndex == CountOf(s.delivered, s.session)
    && DeliversLarge(s) && SnapshotsGrow(s)
  }

  lemma InvCounts(s: State)
    requires Inv(s)
    ensures s.sampleCount == |Flatten(s.buffers)|
  {
  }

  lemma FlattenAppend(parts: seq<seq<real>>, last: seq<real>)
    ensures Flatten(parts + [last]) == Flatten(parts) + last
    ensures Flatten([]) == []
  {
    assert (parts + [last])[..|parts|] == parts;
  }

  lemma RunsAppend(runs: seq<Run>, last: Run)
    ensures AllSamples(runs + [last]) == AllSamples(runs) + last.samples
    ensures Large(runs + [last]) == Large(runs) + (if last.Flushed? && |last.samples| > 478 then [last] else [])
  {
    assert (runs + [last])[..|runs|] == runs;
  }

  lemma CountAppend(delivered: seq<Delivery>, d: Delivery, session: nat)
    ensures CountOf(delivered + [d], session) == CountOf(delivered, session) + (if d.session == session then 1 else 0)
  {
    assert (delivered + [d])[..|delivered|] == delivered;
  }

  lemma BlobSize(samples: seq<real>, rate: nat)
    ensures |WavBytes(samples, rate)| > SMALLEST_BLOB <==> |samples| > 478
  {
    HeaderSize(rate, |samples|);
  }

  /** One more large run and its delivery. */
  lemma {:induction false} DeliverOne(s: State, run: Run, d: Delivery, after: State)
    requires DeliversLarge(s) && run.Flushed? && |run.samples| > 478
    requires d.session == run.session && d.chunk.blob == WavBytes(run.samples, run.rate)
             && d.chunk.index == CountOf(s.delivered, run.session)
    requires after.runs == s.runs + [run] && after.delivered == s.delivered + [d]
    ensures DeliversLarge(after)
  {
    hide WavBytes, CountOf, Large;
    RunsAppend(s.runs, run);
    forall i: nat | i < |after.delivered| ensures DeliversAt(after, i) {
      if i < |s.delivered| {
        assert DeliversAt(s, i);
        assert after.delivered[..i] == s.delivered[..i];
      } else {
        assert after.delivered[..i] == s.delivered;
      }
    }
  }

  lemma DeliverNone(s: State, run: Run, after: State)
    requires DeliversLarge(s) && !(run.Flushed? && |run.samples| > 478)
    requires after.runs == s.runs + [run] && after.delivered == s.delivered
    ensures DeliversLarge(after)
  {
    hide WavBytes, CountOf, Large;
    RunsAppend(s.runs, run);
    assert Large(s.runs) + [] == Large(s.runs);
    forall i: nat | i < |after.delivered| ensures DeliversAt(after, i) {
      assert DeliversAt(s, i);
    }
  }

  lemma {:induction false} FlushDelivers(s: State)
    requires Inv(s)
    ensures DeliversLarge(FlushChunk(s)) && FlushChunk(s).chunkIndex == CountOf(FlushChunk(s).delivered, s.session)
  {
    hide Flatten, WavBytes, Duration, Round, SnapshotsGrow, Large, CountOf, DeliversLarge;
    if s.sampleCount > 0 {
      var samples := Flatten(s.buffers);
      var run, after := Flushed(s.session, s.sampleRate, samples), FlushChunk(s);
      BlobSize(samples, s.sampleRate);
      if |samples| > 478 {
        var d := after.delivered[|s.delivered|];
        CountAppend(s.delivered, d, s.session);
        DeliverOne(s, run, d, after);
      } else {
        DeliverNone(s, run, after);
      }
    }
  }

  lemma FlushSnapshots(s: State)
    requires Inv(s)
    ensures SnapshotsGrow(FlushChunk(s))
  {
    hide Flatten, WavBytes, DeliversLarge, Duration, AllSamples, CountOf;
    if s.sampleCount > 0 {
      var duration := Duration(s.sampleCount, s.sampleRate);
      assert duration >= 1.0 by { DurationIsPositive(s.sampleCount, s.sampleRate); }
      assert Round(s.lastChunkElapsed) <= Round(s.lastChunkElapsed + duration);
    }
  }

  lemma DurationIsPositive(samples: nat, rate: SampleRate)
    ensures Duration(samples, rate) >= 1.0
  {
  }

  lemma FlushConserves(s: State)
    requires s.sampleCount == |Flatten(s.buffers)| && s.accepted == AllSamples(s.runs) + Flatten(s.buffers)
    ensures var after := FlushChunk(s);
            && after.sampleCount == |Flatten(after.buffers)| && after.session == s.session
            && after.accepted == AllSamples(after.runs) + Flatten(after.buffers)
  {
    hide WavBytes, Flatten, Duration, Round, Large, AllSamples;
    FlattenAppend([], []);
    RunsAppend(s.runs, Flushed(s.session, s.sampleRate, Flatten(s.buffers)));
  }

  lemma {:induction false} FlushKeepsInv(s: State)
    requires Inv(s)
    ensures Inv(FlushChunk(s))
  {
    hide FlushChunk, DeliversLarge, SnapshotsGrow, Flatten, AllSamples, CountOf;
    FlushConserves(s);
    FlushDelivers(s);
    FlushSnapshots(s);
  }

  lemma {:induction false} NothingCounted(delivered: seq<Delivery>, session: nat)
    requires forall i | 0 <= i < |delivered| :: delivered[i].session < session
    ensures CountOf(delivered, session) == 0
  {
    if delivered != [] {
      NothingCounted(delivered[..|delivered| - 1], session);
    }
  }

  lemma ResetKeepsInv(s: State)
    requires Inv(s)
    ensures Inv(Reset(s))
  {
    hide DeliversLarge, WavBytes, Large, AllSamples, CountOf, Round;
    var run := Discarded(Flatten(s.buffers));
    RunsAppend(s.runs, run);
    DeliverNone(s, run, Reset(s));
    NothingCounted(s.delivered, s.session + 1);
  }

  lemma StepKeepsInv(s: State, e: Event)
    requires Inv(s)
    ensures Inv(Step(s, e))
  {
    hide FlushChunk, Reset, Flatten, WavBytes, Large, AllSamples, CountOf, Round;
    match e
    case Samples(chunk) => FlattenAppend(s.buffers, chunk); DeliversAlike(s, Step(s, e));
    case Tick => TickKeepsInv(s);
    case ChunkTimer => FlushKeepsInv(s);
    case Paused => PauseKeepsInv(s); FlushKeepsInv(s.(paused := true));
    case Resumed => DeliversAlike(s, Step(s, e));
    case StopBegins => FlushKeepsInv(s); DeliversAlike(FlushChunk(s), Step(s, e));
    case StopEnds => ResetKeepsInv(s);
    case StartBegins => DeliversAlike(s, Step(s, e));
    case Started(rate) => ResetKeepsInv(s); DeliversAlike(Reset(s), Step(s, e));
  }

  lemma DeliversAlike(s: State, after: State)
    requires DeliversLarge(s) && after.delivered == s.delivered && after.runs == s.runs
    ensures DeliversLarge(after)
  {
    hide WavBytes, Large, CountOf;
    forall i: nat | i < |after.delivered| ensures DeliversAt(after, i) {
      assert DeliversAt(s, i);
    }
  }

  lemma PauseKeepsInv(s: State)
    requires Inv(s)
    ensures Inv(s.(paused := true))
  {
    hide Flatten, WavBytes, Large, AllSamples, CountOf, Round;
    DeliversAlike(s, s.(paused := true));
  }

  lemma TickKeepsInv(s: State)
    requires Inv(s)
    ensures Inv(Step(s, Tick))
  {
    hide FlushChunk, Reset, Flatten, WavBytes, Large, AllSamples, CountOf, Round;
    DeliversAlike(s, Step(s, Tick));
  }

  lemma {:induction false} RunKeepsInv(events: seq<Event>)
    ensures Inv(After(INITIAL, events))
  {
    hide Inv, Step;
    if events == [] {
      InitialInv();
    } else {
      RunKeepsInv(events[..|events| - 1]);
      StepKeepsInv(After(INITIAL, events[..|events| - 1]), events[|events| - 1]);
    }
  }

  lemma InitialInv()
    ensures Inv(INITIAL)
  {
  }

  // ----- conservation

  function Total(runs: seq<Run>): nat {
    if runs == [] then 0 else Total(runs[..|runs| - 1]) + |runs[|runs| - 1].samples|
  }

  function FlushCount(runs: seq<Run>): nat {
    if runs == [] then 0 else FlushCount(runs[..|runs| - 1]) + (if runs[|runs| - 1].Flushed? then 1 else 0)
  }

  /** The samples of flushed runs too short to be delivered. */
  function DroppedCount(runs: seq<Run>): nat {
    if runs == [] then 0
    else
      var last := runs[|runs| - 1];
      DroppedCount(runs[..|runs| - 1]) + (if last.Flushed? && |last.samples| <= 478 then |last.samples| else 0)
  }

  /** The samples that resets threw away. */
  function DiscardedCount(runs: seq<Run>): nat {
    if runs == [] then 0
    else DiscardedCount(runs[..|runs| - 1]) + (if runs[|runs| - 1].Discarded? then |runs[|runs| - 1].samples| else 0)
  }

  lemma {:induction false} RunTotals(runs: seq<Run>)
    ensures |AllSamples(runs)| == Total(Large(runs)) + DroppedCount(runs) + DiscardedCount(runs)
    ensures DroppedCount(runs) <= 478 * FlushCount(runs)
  {
    if runs != [] {
      var front, last := runs[..|runs| - 1], runs[|runs| - 1];
      RunTotals(front);
      var large := Large(runs);
      if last.Flushed? && |last.samples| > 478 {
        assert large == Large(front) + [last];
        assert large[..|large| - 1] == Large(front) && large[|large| - 1] == last;
      } else {
        assert large == Large(front);
      }
    }
  }

  /** The conservation theorem, over every run of steps and all its sessions. The accepted samples are, in order,
      those of the runs that were flushed or discarded, followed by those still buffered. The deliveries are exactly
      the WAV files of the flushed runs of more than 478 samples, numbered in each session from zero without gaps; so
      accepted samples are delivered, dropped, discarded or buffered, with at most 478 dropped per flush. Within a
      session elapsed snapshots never decrease. */
  lemma {:induction false} RecorderConserves(events: seq<Event>)
    ensures var s := After(INITIAL, events);
            && s.accepted == AllSamples(s.runs) + Flatten(s.buffers)
            && DeliversLarge(s)
            && |s.accepted| == Total(Large(s.runs)) + DroppedCount(s.runs) + DiscardedCount(s.runs)
                 + |Flatten(s.buffers)|
            && DroppedCount(s.runs) <= 478 * FlushCount(s.runs)
            && (forall i, j | 0 <= i < j < |s.delivered| && s.delivered[i].session == s.delivered[j].session ::
                  s.delivered[i].chunk.elapsed <= s.delivered[j].chunk.elapsed)
  {
    hide After, Flatten, DeliversLarge, AllSamples, Large;
    RunKeepsInv(events);
    RunTotals(After(INITIAL, events).runs);
  }

  // ----- what the end of stopping discards

  /** The step puts samples into the buffer. */
  predicate Accepts(s: State, e: Event) { e.Samples? && e.chunk != [] && IsLive(s) && !s.paused }

  /** The step empties the buffer, by a flush or a reset. */
  predicate Clears(s: State, e: Event) {
    e.Paused? || e.StopBegins? || e.StopEnds? || e.Started? || (e.ChunkTimer? && !s.paused)
  }

  /** Step `i` accepted samples and no later step emptied the buffer. */
  ghost predicate LeftOver(s: State, events: seq<Event>, i: nat)
    requires i < |events|
  {
    && Accepts(After(s, events[..i]), events[i])
    && forall j | i < j < |events| :: !Clears(After(s, events[..j]), events[j])
  }

  lemma StepBuffers(s: State, e: Event)
    requires Inv(s)
    ensures Flatten(Step(s, e).buffers) != [] <==> Accepts(s, e) || (Flatten(s.buffers) != [] && !Clears(s, e))
  {
    hide WavBytes, Duration, Round, DeliversLarge, SnapshotsGrow, Flatten, AllSamples, CountOf;
    FlattenAppend([], []);
    if e.Samples? {
      FlattenAppend(s.buffers, e.chunk);
    }
  }

  lemma {:induction false} AfterKeepsInv(s: State, events: seq<Event>)
    requires Inv(s)
    ensures Inv(After(s, events))
  {
    hide Inv, Step;
    if events != [] {
      AfterKeepsInv(s, events[..|events| - 1]);
      StepKeepsInv(After(s, events[..|events| - 1]), events[|events| - 1]);
    }
  }

  lemma LeftOverStep(s: State, events: seq<Event>, i: nat)
    requires i < |events| - 1
    ensures LeftOver(s, events, i) <==>
              LeftOver(s, events[..|events| - 1], i) && !Clears(After(s, events[..|events| - 1]), events[|events| - 1])
  {
    hide After, Accepts, Clears;
    var n := |events| - 1;
    var front := events[..n];
    forall j | 0 <= j < n ensures front[..j] == events[..j] && front[j] == events[j] {
    }
  }

  /** Samples are buffered exactly when some step accepted them and nothing emptied the buffer since. */
  lemma {:induction false} BufferedExactlyWhen(s: State, events: seq<Event>)
    requires Inv(s) && Flatten(s.buffers) == []
    ensures Flatten(After(s, events).buffers) != [] <==> exists i: nat :: i < |events| && LeftOver(s, events, i)
  {
    hide Inv, Step, Accepts, Clears, LeftOver;
    if events != [] {
      var n := |events| - 1;
      var before, e := After(s, events[..n]), events[n];
      AfterKeepsInv(s, events[..n]);
      BufferedExactlyWhen(s, events[..n]);
      StepBuffers(before, e);
      forall i: nat | i < n
        ensures LeftOver(s, events, i) <==> LeftOver(s, events[..n], i) && !Clears(before, e)
      {
        LeftOverStep(s, events, i);
      }
      LastLeftOver(s, events);
    }
  }

  lemma LastLeftOver(s: State, events: seq<Event>)
    requires events != []
    ensures LeftOver(s, events, |events| - 1) <==> Accepts(After(s, events[..|events| - 1]), events[|events| - 1])
  {
    hide After, Accepts;
  }

  /** Between the beginning and the end of stopping anything may happen. The reset at the end discards what is
      buffered then, and discards nothing exactly when no samples were accepted in between without being flushed or
      reset since. */
  lemma {:induction false} StoppingDiscardsExactlyWhen(s: State, events: seq<Event>)
    requires Inv(s)
    ensures var stopping := Step(s, StopBegins);
            var before := After(stopping, events);
            && Step(before, StopEnds).runs == before.runs + [Discarded(Flatten(before.buffers))]
            && (Flatten(before.buffers) != [] <==> exists i: nat :: i < |events| && LeftOver(stopping, events, i))
  {
    hide Inv, FlushChunk, LeftOver, Flatten, After, Clears, Accepts;
    StepKeepsInv(s, StopBegins);
    StopEmptiesBuffer(s);
    BufferedExactlyWhen(Step(s, StopBegins), events);
  }

  lemma StopEmptiesBuffer(s: State)
    requires Inv(s)
    ensures Flatten(Step(s, StopBegins).buffers) == [] && (s.untracked == 0 ==> Quiet(Step(s, StopBegins)))
    ensures Step(s, StopBegins).untracked == s.untracked
  {
    hide WavBytes, Duration, Round, DeliversLarge, SnapshotsGrow, AllSamples, CountOf;
  }

  /** No live worklet and nothing buffered. */
  ghost predicate Quiet(s: State) { !IsLive(s) && s.sampleCount == 0 }

  lemma QuietStaysQuiet(s: State, e: Event)
    requires Quiet(s) && !e.Started?
    ensures Quiet(Step(s, e))
  {
    hide WavBytes, Flatten, Duration;
  }

  lemma {:induction false} RunStaysQuiet(s: State, events: seq<Event>)
    requires Quiet(s) && NoStart(events)
    ensures Quiet(After(s, events))
  {
    hide Step, Quiet;
    if events != [] {
      var n := |events| - 1;
      assert events[n] in events && forall e | e in events[..n] :: e in events;
      RunStaysQuiet(s, events[..n]);
      QuietStaysQuiet(After(s, events[..n]), events[n]);
    }
  }

  lemma QuietIsEmpty(s: State)
    requires Inv(s) && Quiet(s)
    ensures Flatten(s.buffers) == []
  {
  }

  // ----- which worklets are live

  ghost predicate NoStart(events: seq<Event>) { forall e | e in events :: !e.Started? }

  /** The step detaches the tracked worklet. */
  predicate Detaches(e: Event) { e.StartBegins? || e.StopBegins? }

  ghost predicate NoDetach(events: seq<Event>, lo: int, hi: int) {
    forall k | lo < k < hi && 0 <= k < |events| :: !Detaches(events[k])
  }

  /** A graph was started and not detached since. */
  ghost predicate LastStartStands(events: seq<Event>) {
    exists i :: 0 <= i < |events| && events[i].Started? && NoDetach(events, i, |events|)
  }

  /** Two graphs were started without a detach between them. */
  ghost predicate StartsOverlap(events: seq<Event>) {
    exists i, j :: 0 <= i < j < |events| && events[i].Started? && events[j].Started? && NoDetach(events, i, j)
  }

  lemma GraphStep(s: State, e: Event)
    ensures Step(s, e).tracked == (e.Started? || (s.tracked && !Detaches(e)))
    ensures Step(s, e).untracked == s.untracked + (if e.Started? && s.tracked then 1 else 0)
  {
    hide WavBytes, Flatten, Duration;
  }

  lemma NoDetachInPrefix(events: seq<Event>, n: nat, lo: int, hi: int)
    requires hi <= n <= |events|
    ensures NoDetach(events[..n], lo, hi) == NoDetach(events, lo, hi)
  {
    assert forall k | 0 <= k < n :: events[..n][k] == events[k];
  }

  lemma StandsStep(events: seq<Event>)
    requires events != []
    ensures var n := |events| - 1;
            LastStartStands(events) <==> events[n].Started? || (LastStartStands(events[..n]) && !Detaches(events[n]))
  {
    var n := |events| - 1;
    if LastStartStands(events) {
      var i :| 0 <= i < |events| && events[i].Started? && NoDetach(events, i, |events|);
      NoDetachInPrefix(events, n, i, n);
      if i < n {
        assert events[..n][i].Started? && NoDetach(events[..n], i, n);
      }
    }
    if LastStartStands(events[..n]) && !Detaches(events[n]) {
      var i :| 0 <= i < n && events[..n][i].Started? && NoDetach(events[..n], i, n);
      NoDetachInPrefix(events, n, i, n);
      assert events[i].Started? && NoDetach(events, i, |events|);
    }
    assert NoDetach(events, n, |events|);
  }

  lemma OverlapStep(events: seq<Event>)
    requires events != []
    ensures var n := |events| - 1;
            StartsOverlap(events) <==>
                StartsOverlap(events[..n]) || (events[n].Started? && LastStartStands(events[..n]))
  {
    var n := |events| - 1;
    if StartsOverlap(events) {
      var i, j :| 0 <= i < j < |events| && events[i].Started? && events[j].Started? && NoDetach(events, i, j);
      NoDetachInPrefix(events, n, i, j);
      assert events[..n][i].Started?;
    }
    if StartsOverlap(events[..n]) {
      var i, j :| 0 <= i < j < n && events[..n][i].Started? && events[..n][j].Started? && NoDetach(events[..n], i, j);
      NoDetachInPrefix(events, n, i, j);
      assert events[i].Started? && events[j].Started?;
    }
    if events[n].Started? && LastStartStands(events[..n]) {
      var i :| 0 <= i < n && events[..n][i].Started? && NoDetach(events[..n], i, n);
      NoDetachInPrefix(events, n, i, n);
      assert events[i].Started?;
    }
  }

  /** A ref holds a live worklet exactly when the last start was not detached, and an untracked one is live exactly when
      two starts overlapped. */
  lemma {:induction false} LiveExactlyWhen(events: seq<Event>)
    ensures After(INITIAL, events).tracked <==> LastStartStands(events)
    ensures After(INITIAL, events).untracked > 0 <==> StartsOverlap(events)
  {
    hide Step, StartsOverlap, LastStartStands, Detaches;
    if events == [] {
      NothingStarted();
    } else {
      var n := |events| - 1;
      LiveExactlyWhen(events[..n]);
      GraphStep(After(INITIAL, events[..n]), events[n]);
      StandsStep(events);
      OverlapStep(events);
    }
  }

  lemma NothingStarted()
    ensures !LastStartStands([]) && !StartsOverlap([])
  {
  }

  lemma AfterNext(s: State, events: seq<Event>, n: nat)
    requires n < |events|
    ensures After(s, events[..n + 1]) == Step(After(s, events[..n]), events[n])
    ensures After(s, events[..0]) == s
  {
    hide Step;
    assert events[..n + 1][..n] == events[..n];
  }

  lemma AfterTwo(s: State, e: Event, f: Event)
    ensures After(s, [e, f]) == Step(Step(s, e), f)
  {
    hide Step;
    AfterNext(s, [e, f], 0);
    AfterNext(s, [e, f], 1);
    assert [e, f][..2] == [e, f];
  }

  /** What the end of stopping would discard, after these steps from the beginning of stopping. */
  function LostAtEnd(history: seq<Event>, events: seq<Event>): seq<real> {
    Flatten(After(Step(After(INITIAL, history), StopBegins), events).buffers)
  }

  lemma BufferAfterSamples(s: State, first: Event, samples: Event)
    requires Inv(s) && samples.Samples? && samples.chunk != [] && IsLive(Step(s, first)) && !Step(s, first).paused
    ensures Flatten(After(s, [first, samples]).buffers) != []
  {
    hide Inv, Step, Flatten, After;
    AfterTwo(s, first, samples);
    StepKeepsInv(s, first);
    StepBuffers(Step(s, first), samples);
  }

  /** Without a new start before the end of stopping, the final reset never discards a sample, whatever else happens, if
      and only if no two starts overlapped before: otherwise a worklet that no ref holds goes on delivering. */
  lemma {:induction false} StoppingLosesNothing(history: seq<Event>)
    ensures (forall events | NoStart(events) :: LostAtEnd(history, events) == []) <==> !StartsOverlap(history)
  {
    hide Inv, Step, Flatten, Quiet, After, StartsOverlap, NoStart;
    var s := After(INITIAL, history);
    var stopping := Step(s, StopBegins);
    RunKeepsInv(history);
    LiveExactlyWhen(history);
    StepKeepsInv(s, StopBegins);
    StopEmptiesBuffer(s);
    if !StartsOverlap(history) {
      forall events | NoStart(events) ensures LostAtEnd(history, events) == [] {
        RunStaysQuiet(stopping, events);
        AfterKeepsInv(stopping, events);
        QuietIsEmpty(After(stopping, events));
      }
    } else {
      ResumedIsLive(stopping);
      BufferAfterSamples(stopping, Resumed, Samples([0.5]));
      assert NoStart([Resumed, Samples([0.5])]) by { SamplesDoNotStart(); }
      assert LostAtEnd(history, [Resumed, Samples([0.5])]) != [];
    }
  }

  lemma ResumedIsLive(s: State)
    requires s.untracked > 0
    ensures IsLive(Step(s, Resumed)) && !Step(s, Resumed).paused
  {
  }

  lemma SamplesDoNotStart()
    ensures NoStart([Resumed, Samples([0.5])])
  {
  }

  /** With a new start before the end of stopping, some samples can always be lost. */
  lemma RestartCanLoseSamples(history: seq<Event>)
    ensures LostAtEnd(history, [Started(16000), Samples([0.5])]) != []
  {
    hide Inv, Flatten, After, FlushChunk;
    var stopping := Step(After(INITIAL, history), StopBegins);
    RunKeepsInv(history);
    StepKeepsInv(After(INITIAL, history), StopBegins);
    BufferAfterSamples(stopping, Started(16000), Samples([0.5]));
  }

  // ----- two runs that lose samples

  const NO_SAMPLES := Discarded([])

  /** The recorder in session `n`, with these samples buffered and these runs behind it. */
  function InSession(n: nat, tracked: bool, untracked: nat, samples: seq<real>, runs: seq<Run>): State {
    var buffers := if samples == [] then [] else [samples];
    State(false, tracked, untracked, 0, 0, 0.0, buffers, |samples|, 16000, n, samples, runs, [])
  }

  lemma StartStep(n: nat, tracked: bool, untracked: nat, runs: seq<Run>)
    ensures Step(InSession(n, tracked, untracked, [], runs), Started(16000)) ==
              InSession(n + 1, true, untracked + (if tracked then 1 else 0), [], runs + [NO_SAMPLES])
    ensures Step(InSession(n, tracked, untracked, [], runs), StopBegins) == InSession(n, false, untracked, [], runs)
    ensures Step(InSession(n, tracked, untracked, [], runs), StartBegins) == InSession(n, false, untracked, [], runs)
  {
    hide FlushChunk, WavBytes;
    assert FlushChunk(InSession(n, tracked, untracked, [], runs)) ==
        InSession(n, tracked, untracked, [], runs) by { NothingToFlush(n, tracked, untracked, runs); }
  }

  lemma NothingToFlush(n: nat, tracked: bool, untracked: nat, runs: seq<Run>)
    ensures FlushChunk(InSession(n, tracked, untracked, [], runs)) == InSession(n, tracked, untracked, [], runs)
  {
  }

  lemma LoseStep(n: nat, tracked: bool, untracked: nat, runs: seq<Run>)
    requires tracked || untracked > 0
    ensures var s := Step(InSession(n, tracked, untracked, [], runs), Samples([0.5]));
            s == InSession(n, tracked, untracked, [0.5], runs)
            && Step(s, StopEnds).runs == runs + [Discarded([0.5])] && Step(s, StopEnds).accepted == [0.5]
                 && Step(s, StopEnds).delivered == []
  {
    FlattenAppend([], [0.5]);
    assert [] + [[0.5]] == [[0.5]] && [] + [0.5] == [0.5];
    hide Flatten, FlushChunk, WavBytes;
  }

  lemma OneDiscarded()
    ensures [] + [NO_SAMPLES] == [NO_SAMPLES] && [NO_SAMPLES] + [NO_SAMPLES] == [NO_SAMPLES, NO_SAMPLES]
    ensures DiscardedCount([NO_SAMPLES, NO_SAMPLES] + [Discarded([0.5])]) == 1
  {
    var runs := [NO_SAMPLES, NO_SAMPLES] + [Discarded([0.5])];
    assert runs[..2] == [NO_SAMPLES, NO_SAMPLES] && [NO_SAMPLES, NO_SAMPLES][..1] == [NO_SAMPLES]
        && [NO_SAMPLES][..0] == [];
    assert DiscardedCount([NO_SAMPLES]) == 0 && DiscardedCount([NO_SAMPLES, NO_SAMPLES]) == 0;
  }

  const RESTART := [Started(16000), StopBegins, Started(16000), Samples([0.5]), StopEnds]

  /** A recording that starts while the last one is still being stopped loses the samples it has buffered. */
  lemma RestartLosesSamples()
    ensures var s := After(INITIAL, RESTART); s.accepted == [0.5] && DiscardedCount(s.runs) == 1 && s.delivered == []
  {
    hide Step, After;
    OneDiscarded();
    StartStep(0, false, 0, []);
    StartStep(1, true, 0, [NO_SAMPLES]);
    StartStep(1, false, 0, [NO_SAMPLES]);
    LoseStep(2, true, 0, [NO_SAMPLES, NO_SAMPLES]);
    assert INITIAL == InSession(0, false, 0, [], []);
    hide InSession;
    AfterNext(INITIAL, RESTART, 0);
    AfterNext(INITIAL, RESTART, 1);
    AfterNext(INITIAL, RESTART, 2);
    AfterNext(INITIAL, RESTART, 3);
    AfterNext(INITIAL, RESTART, 4);
    assert RESTART[..5] == RESTART;
  }

  const DOUBLE_START := [StartBegins, StartBegins, Started(16000), Started(16000), StopBegins, Samples([0.5]), StopEnds]

  /** Two starts that both detach before either has its graph leave a worklet that stopping does not detach: its samples
      are accepted while the recording is being stopped, and discarded. */
  lemma DoubleStartLosesSamples()
    ensures var s := After(INITIAL, DOUBLE_START);
        s.accepted == [0.5] && DiscardedCount(s.runs) == 1 && s.delivered == []
    ensures StartsOverlap(DOUBLE_START[..4]) && NoStart(DOUBLE_START[5..])
  {
    hide Step, After;
    OneDiscarded();
    StartStep(0, false, 0, []);
    StartStep(1, true, 0, [NO_SAMPLES]);
    StartStep(2, true, 1, [NO_SAMPLES, NO_SAMPLES]);
    LoseStep(2, false, 1, [NO_SAMPLES, NO_SAMPLES]);
    assert INITIAL == InSession(0, false, 0, [], []);
    hide InSession;
    AfterNext(INITIAL, DOUBLE_START, 0);
    AfterNext(INITIAL, DOUBLE_START, 1);
    AfterNext(INITIAL, DOUBLE_START, 2);
    AfterNext(INITIAL, DOUBLE_START, 3);
    AfterNext(INITIAL, DOUBLE_START, 4);
    AfterNext(INITIAL, DOUBLE_START, 5);
    AfterNext(INITIAL, DOUBLE_START, 6);
    assert DOUBLE_START[..7] == DOUBLE_START;
    assert DOUBLE_START[..4][2].Started? && DOUBLE_START[..4][3].Started? && NoDetach(DOUBLE_START[..4], 2, 3);
  }
}
