/** What the recorder's registers hold after any run of steps, read off the steps themselves, and what that makes of
    each chunk it delivers: its duration and its place in the recording. */
module RecorderRegisters {
  import opened WavWriter
  import opened Recorder

  // ----- what the registers hold

  /** The step begins a new session. */
  predicate Resets(e: Event) { e.StopEnds? || e.Started? }

  ghost predicate NoneBehind(events: seq<Event>, i: int, stops: Event -> bool) {
    forall j | i < j < |events| && j >= 0 :: !stops(events[j])
  }

  /** The last step that paused, resumed or began a session paused the recorder. */
  ghost predicate LastPaused(events: seq<Event>) {
    exists i :: 0 <= i < |events| && events[i].Paused? && NoneBehind(events, i, (e: Event) => e.Resumed? || Resets(e))
  }

  /** The sample rate of the last graph that was started, and 16000 before the first. */
  ghost predicate IsLastRate(events: seq<Event>, rate: SampleRate) {
    || (rate == 16000 && NoneBehind(events, -1, (e: Event) => e.Started?))
    || (exists i :: 0 <= i < |events| && events[i] == Started(rate) && NoneBehind(events, i, (e: Event) => e.Started?))
  }

  /** The timer ticks since the last reset. */
  function TicksSinceReset(events: seq<Event>): nat {
    if events == [] || Resets(events[|events| - 1]) then 0
    else TicksSinceReset(events[..|events| - 1]) + (if events[|events| - 1] == Tick then 1 else 0)
  }

  function ResetCount(events: seq<Event>): nat {
    if events == [] then 0
    else ResetCount(events[..|events| - 1]) + (if Resets(events[|events| - 1]) then 1 else 0)
  }

  /** How long a run of samples counts: its length, but at least a second. */
  function SecondsOf(samples: nat, rate: SampleRate): real {
    if samples < rate then 1.0 else samples as real / rate as real
  }

  /** What the flushed runs of a session count together. */
  function SessionSeconds(runs: seq<Run>, session: nat): real {
    if runs == [] then 0.0
    else
      var last := runs[|runs| - 1];
      SessionSeconds(runs[..|runs| - 1], session)
        + (if last.Flushed? && last.session == session then SecondsOf(|last.samples|, last.rate) else 0.0)
  }

  lemma DurationIs(samples: nat, rate: SampleRate)
    ensures Duration(samples, rate) == SecondsOf(samples, rate)
  {
    var x, r := samples as real, rate as real;
    if samples < rate {
      assert x / r <= r / r == 1.0;
    } else {
      assert x / r >= r / r == 1.0;
    }
  }

  lemma StepRegisters(s: State, e: Event)
    ensures var s' := Step(s, e);
            && s'.paused == (e.Paused? || (s.paused && !e.Resumed? && !Resets(e)))
            && s'.sampleRate == (if e.Started? then e.rate else s.sampleRate)
            && s'.elapsed == (if Resets(e) then 0 else s.elapsed + (if e == Tick then 1 else 0))
            && s'.session == s.session + (if Resets(e) then 1 else 0)
  {
    hide WavBytes, Flatten, Duration;
  }

  lemma PausedStep(events: seq<Event>)
    requires events != []
    ensures var n := |events| - 1;
            LastPaused(events) <==>
                events[n].Paused? || (LastPaused(events[..n]) && !events[n].Resumed? && !Resets(events[n]))
  {
    var n := |events| - 1;
    var front := events[..n];
    var stops := (e: Event) => e.Resumed? || Resets(e);
    assert NoneBehind(events, n, stops);
    if LastPaused(front) && !stops(events[n]) {
      var i :| 0 <= i < n && front[i].Paused? && NoneBehind(front, i, (e: Event) => e.Resumed? || Resets(e));
      assert forall j | i < j < n :: front[j] == events[j];
      assert events[i].Paused? && NoneBehind(events, i, (e: Event) => e.Resumed? || Resets(e));
    }
    if LastPaused(events) && !events[n].Paused? {
      var i :| 0 <= i <= n && events[i].Paused? && NoneBehind(events, i, (e: Event) => e.Resumed? || Resets(e));
      assert forall j | i < j < n :: front[j] == events[j];
      assert front[i].Paused? && NoneBehind(front, i, (e: Event) => e.Resumed? || Resets(e));
    }
  }

  lemma RateStep(events: seq<Event>, rate: SampleRate)
    requires events != []
    ensures var n := |events| - 1;
            (events[n].Started? ==> IsLastRate(events, events[n].rate))
            && (!events[n].Started? && IsLastRate(events[..n], rate) ==> IsLastRate(events, rate))
  {
    var n := |events| - 1;
    var front := events[..n];
    assert NoneBehind(events, n, (e: Event) => e.Started?);
    assert forall j | 0 <= j < n :: front[j] == events[j];
    if !events[n].Started? && IsLastRate(front, rate) && !NoneBehind(front, -1, (e: Event) => e.Started?) {
      var i :| 0 <= i < n && front[i] == Started(rate) && NoneBehind(front, i, (e: Event) => e.Started?);
      assert events[i] == Started(rate) && NoneBehind(events, i, (e: Event) => e.Started?);
    }
  }

  /** After any run the recorder is paused exactly when the last step about that paused it, has the rate of the last
      started graph, counts the ticks of its session, and has counted the sessions. */
  lemma {:induction false} RegistersHold(events: seq<Event>)
    ensures var s := After(INITIAL, events);
            && s.paused == LastPaused(events) && IsLastRate(events, s.sampleRate)
            && s.elapsed == TicksSinceReset(events) && s.session == ResetCount(events)
  {
    hide Step, LastPaused, IsLastRate;
    if events == [] {
      NothingYet();
    } else {
      var n := |events| - 1;
      RegistersHold(events[..n]);
      StepRegisters(After(INITIAL, events[..n]), events[n]);
      PausedStep(events);
      RateStep(events, After(INITIAL, events[..n]).sampleRate);
    }
  }

  lemma NothingYet()
    ensures !LastPaused([]) && IsLastRate([], 16000)
  {
  }

  // ----- what a flush does

  /** The step flushes the buffer: the chunk timer unless paused, a pause, and the beginning of stopping. */
  predicate Flushes(paused: bool, e: Event) { (e.ChunkTimer? && !paused) || e.Paused? || e.StopBegins? }

  lemma StepRuns(s: State, e: Event)
    requires Inv(s)
    ensures Step(s, e).runs == s.runs
              + (if Resets(e) then [Discarded(Flatten(s.buffers))]
                 else if Flushes(s.paused, e) && Flatten(s.buffers) != [] then
                   [Flushed(s.session, s.sampleRate, Flatten(s.buffers))]
                 else [])
  {
    hide WavBytes, Duration, Flatten, Round, DeliversLarge, SnapshotsGrow, AllSamples, CountOf;
  }

  lemma SecondsAppend(runs: seq<Run>, last: Run, session: nat)
    ensures SessionSeconds(runs + [last], session) == SessionSeconds(runs, session)
              + (if last.Flushed? && last.session == session then SecondsOf(|last.samples|, last.rate) else 0.0)
  {
    assert (runs + [last])[..|runs|] == runs;
  }

  ghost predicate RunsWithin(runs: seq<Run>, session: nat) {
    forall i | 0 <= i < |runs| && runs[i].Flushed? :: runs[i].session <= session
  }

  lemma {:induction false} NothingInNewSession(runs: seq<Run>, session: nat)
    requires RunsWithin(runs, session)
    ensures SessionSeconds(runs, session + 1) == 0.0
  {
    if runs != [] {
      NothingInNewSession(runs[..|runs| - 1], session);
    }
  }

  lemma StepSeconds(s: State, e: Event)
    requires Inv(s)
    ensures Step(s, e).lastChunkElapsed ==
              if Resets(e) then 0.0
              else if Flushes(s.paused, e) && Flatten(s.buffers) != [] then
                s.lastChunkElapsed + SecondsOf(|Flatten(s.buffers)|, s.sampleRate)
              else s.lastChunkElapsed
  {
    hide WavBytes, Duration, Flatten, Round, DeliversLarge, SnapshotsGrow, AllSamples, CountOf, SecondsOf;
    DurationIs(s.sampleCount, s.sampleRate);
  }

  /** The recorder has added up what the flushed runs of its session count. */
  lemma {:induction false} SecondsHold(events: seq<Event>)
    ensures var s := After(INITIAL, events);
            s.lastChunkElapsed == SessionSeconds(s.runs, s.session) && RunsWithin(s.runs, s.session)
  {
    hide Step, Flatten, SecondsOf, Inv, SessionSeconds;
    if events == [] {
      NoSeconds();
    } else {
      var n := |events| - 1;
      var s, e := After(INITIAL, events[..n]), events[n];
      SecondsHold(events[..n]);
      RunKeepsInv(events[..n]);
      StepRegisters(s, e);
      StepRuns(s, e);
      StepSeconds(s, e);
      NothingInNewSession(s.runs, s.session);
      SecondsAppend(s.runs, Discarded(Flatten(s.buffers)), s.session + 1);
      SecondsAppend(s.runs, Flushed(s.session, s.sampleRate, Flatten(s.buffers)), s.session);
      assert s.runs + [] == s.runs;
    }
  }

  lemma NoSeconds()
    ensures SessionSeconds([], 0) == 0.0
  {
  }

  /** The positions of the flushed runs. */
  ghost function FlushedAt(runs: seq<Run>): set<int> { set i | 0 <= i < |runs| && runs[i].Flushed? }

  lemma {:induction false} FlushCountIs(runs: seq<Run>)
    ensures FlushCount(runs) == |FlushedAt(runs)|
  {
    if runs != [] {
      var n := |runs| - 1;
      FlushCountIs(runs[..n]);
      assert FlushedAt(runs) == FlushedAt(runs[..n]) + (if runs[n].Flushed? then {n} else {});
    }
  }

  /** Each flush drops at most 478 samples, those of a run too short to be delivered. */
  lemma DroppedAtMost(events: seq<Event>)
    ensures var s := After(INITIAL, events);
            |s.accepted| <= Total(Large(s.runs)) + 478 * |FlushedAt(s.runs)| + DiscardedCount(s.runs)
              + |Flatten(s.buffers)|
  {
    hide After, Flatten, DeliversLarge, AllSamples, Large, Total, FlushCount, DroppedCount, DiscardedCount, FlushedAt;
    RecorderConserves(events);
    FlushCountIs(After(INITIAL, events).runs);
  }

  // ----- what a delivery carries

  /** The nearest whole number, halves going up. */
  predicate IsRounded(x: real, n: int) { n as real - 0.5 <= x < n as real + 0.5 }

  /** A delivered chunk counts at least a second, and its place is the ticks of the session or the rounded total of what
      the session's runs count up to this one, whichever is more. */
  lemma DeliveryTells(events: seq<Event>, e: Event)
    requires |After(INITIAL, events + [e]).delivered| > |After(INITIAL, events).delivered|
    ensures var s, s' := After(INITIAL, events), After(INITIAL, events + [e]);
            var samples := Flatten(s.buffers);
            && |s'.delivered| == |s.delivered| + 1 && Flushes(LastPaused(events), e) && |samples| > 478
            && var chunk := s'.delivered[|s.delivered|].chunk;
               && chunk.blob == WavBytes(samples, s.sampleRate)
               && chunk.duration == SecondsOf(|samples|, s.sampleRate)
               && exists n :: IsRounded(SessionSeconds(s'.runs, s'.session), n)
                    && chunk.elapsed == if n > TicksSinceReset(events) then n else TicksSinceReset(events)
  {
    hide Inv, Flatten, SecondsOf, SessionSeconds, WavBytes, LastPaused, IsLastRate;
    assert (events + [e])[..|events|] == events;
    var s, s' := After(INITIAL, events), After(INITIAL, events + [e]);
    RunKeepsInv(events);
    RegistersHold(events);
    SecondsHold(events + [e]);
    FlushTells(s, e);
    RoundIs(s'.lastChunkElapsed);
    assert IsRounded(SessionSeconds(s'.runs, s'.session), Round(s'.lastChunkElapsed));
  }

  lemma RoundIs(x: real)
    ensures IsRounded(x, Round(x))
  {
  }

  lemma FlushTells(s: State, e: Event)
    requires Inv(s) && |Step(s, e).delivered| > |s.delivered|
    ensures var s', samples := Step(s, e), Flatten(s.buffers);
            && |s'.delivered| == |s.delivered| + 1 && Flushes(s.paused, e) && |samples| > 478
            && var chunk := s'.delivered[|s.delivered|].chunk;
               && chunk.blob == WavBytes(samples, s.sampleRate)
               && chunk.duration == SecondsOf(|samples|, s.sampleRate)
               && chunk.elapsed == MaximumInt(s.elapsed, Round(s'.lastChunkElapsed))
  {
    hide WavBytes, Duration, Flatten, Round, DeliversLarge, SnapshotsGrow, AllSamples, CountOf, SecondsOf;
    DurationIs(s.sampleCount, s.sampleRate);
    BlobSize(Flatten(s.buffers), s.sampleRate);
  }
}
