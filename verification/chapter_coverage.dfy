/** How chapters tile a transcript: their shape and length, and which speech they cover. */
module ChapterCoverage {
  import opened ChapterBoundary
  import opened ChapterBuilder

  // ----- shape

  lemma {:induction false} EveryChapterIsATurn(C: real, finalize: bool, segs: seq<Segment>, windowStart: real,
        index: nat, k: nat)
    requires segs != [] && k < |ChaptersFrom(C, finalize, segs, windowStart, index)|
    ensures var c := ChaptersFrom(C, finalize, segs, windowStart, index)[k];
            && c.windowStart < MaxEnd(segs)
            && TakeTurn(C, finalize, segs, c.windowStart, c.index) == Emit(c, c.windowEnd)
    decreases Remaining(MaxEnd(segs), windowStart)
  {
    hide ChaptersFrom, TakeTurn, MaxEnd, Remaining;
    Unfold(C, finalize, segs, windowStart, index);
    TurnAdvances(C, finalize, segs, windowStart, index);
    TurnEmits(C, finalize, segs, windowStart, index);
    match TakeTurn(C, finalize, segs, windowStart, index)
    case Stop =>
    case Skip(next) => EveryChapterIsATurn(C, finalize, segs, next, index, k);
    case Emit(chapter, next) =>
      if k > 0 {
        EveryChapterIsATurn(C, finalize, segs, next, index + 1, k - 1);
      }
  }

  /** Chapters are numbered from zero, tile disjoint nonempty windows in order, and render exactly the segments
      overlapping their window. A chapter closed by the end of the meeting ends exactly at the last timestamp
      and is no longer than the nominal window. */
  lemma ChaptersTile(C: real, finalize: bool, segs: seq<Segment>)
    requires segs != []
    ensures var cs := ChapterSummaries(C, finalize, segs);
            && (forall k | 0 <= k < |cs| :: cs[k].index == k && 0.0 <= cs[k].windowStart && WellFormed(segs, cs[k]))
            && (forall k, l | 0 <= k < l < |cs| :: cs[k].windowEnd <= cs[l].windowStart)
            && (forall k | 0 <= k < |cs| && ClosedByEnd(C, finalize, segs, cs[k]) ::
                  cs[k].windowEnd == MaxEnd(segs) && cs[k].windowEnd - cs[k].windowStart <= C)
  {
    hide ChaptersFrom, TakeTurn, MaxEnd, SegmentsIn, Window;
    var cs := ChapterSummaries(C, finalize, segs);
    ChaptersAreOrdered(C, finalize, segs, 0.0, 0);
    assert cs == ChaptersFrom(C, finalize, segs, 0.0, 0);
    forall k | 0 <= k < |cs|
      ensures WellFormed(segs, cs[k])
      ensures ClosedByEnd(C, finalize, segs, cs[k]) ==>
                cs[k].windowEnd == MaxEnd(segs) && cs[k].windowEnd - cs[k].windowStart <= C
    {
      EveryChapterIsATurn(C, finalize, segs, 0.0, 0, k);
      TurnEmits(C, finalize, segs, cs[k].windowStart, cs[k].index);
    }
  }

  // ----- length

  ghost predicate WithinBand(C: real, c: Chapter) {
    C - BOUNDARY_ADJUSTMENT <= c.windowEnd - c.windowStart <= C + BOUNDARY_ADJUSTMENT
  }

  ghost predicate LengthsWithinBand(C: real) {
    forall segs: seq<Segment>, finalize: bool, c: Chapter
      | AllTimed(segs) && segs != [] && c in ChapterSummaries(C, finalize, segs)
          && !ClosedByEnd(C, finalize, segs, c) ::
      WithinBand(C, c)
  }

  lemma {:induction false} TurnLength(C: real, finalize: bool, segs: seq<Segment>, windowStart: real, index: nat)
    requires segs != [] && windowStart < MaxEnd(segs) && !MeetingEnded(C, finalize, segs, windowStart)
    requires 75.0 <= C <= 465.0
    ensures var turn := TakeTurn(C, finalize, segs, windowStart, index); turn.Emit? ==> WithinBand(C, turn.chapter)
  {
    hide MaxEnd, Ends, SegmentsIn, ValidCandidates, ResolveBoundary, KeepPartialWindow;
    var target := Min(windowStart + C, MaxEnd(segs));
    ResolvedWindowLength(windowStart, target, ValidCandidates(target, Ends(segs)));
  }

  /** A first window without nearby boundaries is cut to the 120 to 420 second range. */
  lemma ClampedFirstChapter(C: real) returns (segs: seq<Segment>, c: Chapter)
    requires !(75.0 <= C <= 465.0)
    ensures AllTimed(segs) && segs != [] && c in ChapterSummaries(C, false, segs) && !WithinBand(C, c)
  {
    hide ChaptersFrom, Preferred;
    var end := if C < 75.0 then 1000.0 else C + 100.0;
    segs := [Segment("a", "", 0.0, end)];
    assert MaxEnd(segs) == end && Ends(segs) == [end];
    assert Abs(end - C) > BOUNDARY_ADJUSTMENT;
    assert ValidCandidates(C, [end]) == ValidCandidates(C, []);
    var chapterEnd := ClampWindowEnd(0.0, C, false);
    assert 0.0 + C == C && Window(C, false, segs, 0.0).windowEnd == chapterEnd;
    assert segs[0] in SegmentsIn(segs, 0.0, chapterEnd);
    Unfold(C, false, segs, 0.0, 0);
    c := TakeTurn(C, false, segs, 0.0, 0).chapter;
    assert c == ChapterSummaries(C, false, segs)[0];
  }

  /** Chapters not closed by the end of the meeting stay within 45 seconds of the nominal length, for every
      transcript, exactly for nominal lengths from 75 to 465 seconds. */
  lemma LengthBand(C: real)
    ensures LengthsWithinBand(C) <==> 75.0 <= C <= 465.0
  {
    hide ChaptersFrom, TakeTurn, MaxEnd;
    if 75.0 <= C <= 465.0 {
      forall segs: seq<Segment>, finalize: bool, c: Chapter
        | AllTimed(segs) && segs != [] && c in ChapterSummaries(C, finalize, segs) && !ClosedByEnd(C, finalize, segs, c)
        ensures WithinBand(C, c)
      {
        var k :| 0 <= k < |ChapterSummaries(C, finalize, segs)| && ChapterSummaries(C, finalize, segs)[k] == c;
        EveryChapterIsATurn(C, finalize, segs, 0.0, 0, k);
        TurnLength(C, finalize, segs, c.windowStart, c.index);
      }
    } else {
      var segs, c := ClampedFirstChapter(C);
      assert !ClosedByEnd(C, false, segs, c);
    }
  }

  // ----- coverage

  ghost predicate SpeaksAt(s: Segment, time: real) { s.start <= time < s.end }

  ghost predicate CoveredAt(cs: seq<Chapter>, s: Segment, time: real) {
    exists k :: 0 <= k < |cs| && cs[k].windowStart <= time < cs[k].windowEnd && s in cs[k].segments
  }

  /** A skipped window overlaps no speech: a boundary chosen before the nominal end belongs to a segment that
      would have been in the window. */
  lemma {:induction false} SkippedWindowIsSilent(C: real, finalize: bool, segs: seq<Segment>, windowStart: real,
        index: nat, s: Segment, time: real)
    requires segs != [] && AllTimed(segs) && C <= MAX_CHAPTER_WINDOW && windowStart < MaxEnd(segs)
    requires TakeTurn(C, finalize, segs, windowStart, index).Skip?
    requires s in segs && windowStart <= time < TakeTurn(C, finalize, segs, windowStart, index).next
    ensures !SpeaksAt(s, time)
  {
    hide MaxEnd, Ends, SegmentsIn, ValidCandidates, ResolveBoundary, KeepPartialWindow;
    var target := Min(windowStart + C, MaxEnd(segs));
    var chapterEnd := Min(Window(C, finalize, segs, windowStart).windowEnd, MaxEnd(segs));
    var inside := SegmentsIn(segs, windowStart, chapterEnd);
    assert forall x | x in segs :: x !in inside;
    assert MaxEnd(segs) in Ends(segs);
    var last :| last in segs && last.end == MaxEnd(segs);
    assert Timed(last) && last !in inside;
    if MeetingEnded(C, finalize, segs, windowStart) {
      EndedWindowReachesTheEnd(C, segs, windowStart);
    } else {
      var cs := ValidCandidates(target, Ends(segs));
      ResolvedWindowLength(windowStart, target, cs);
      var p :| Abs(p - target) <= BOUNDARY_ADJUSTMENT && (p == target || p in cs)
            && ResolveBoundary(windowStart, target, cs, false) == ClampWindowEnd(windowStart, p, false);
      if p in cs {
        assert p in Ends(segs);
        var x :| x in segs && x.end == p;
        assert Timed(x) && x !in inside;
      }
    }
  }

  lemma {:induction false} LoopCovers(C: real, finalize: bool, segs: seq<Segment>, windowStart: real, index: nat,
        s: Segment, time: real)
    requires segs != [] && AllTimed(segs) && C <= MAX_CHAPTER_WINDOW
    requires s in segs && SpeaksAt(s, time) && windowStart <= time < StopFrom(C, finalize, segs, windowStart, index)
    ensures CoveredAt(ChaptersFrom(C, finalize, segs, windowStart, index), s, time)
    decreases Remaining(MaxEnd(segs), windowStart)
  {
    hide ChaptersFrom, TakeTurn, MaxEnd, Remaining, SegmentsIn;
    Unfold(C, finalize, segs, windowStart, index);
    TurnAdvances(C, finalize, segs, windowStart, index);
    TurnEmits(C, finalize, segs, windowStart, index);
    match TakeTurn(C, finalize, segs, windowStart, index)
    case Skip(next) =>
      if time < next {
        SkippedWindowIsSilent(C, finalize, segs, windowStart, index, s, time);
      }
      LoopCovers(C, finalize, segs, next, index, s, time);
    case Emit(chapter, next) =>
      var rest := ChaptersFrom(C, finalize, segs, next, index + 1);
      var all := [chapter] + rest;
      if time < next {
        assert all[0] == chapter && s in chapter.segments;
      } else {
        LoopCovers(C, finalize, segs, next, index + 1, s, time);
        var k :| 0 <= k < |rest| && rest[k].windowStart <= time < rest[k].windowEnd && s in rest[k].segments;
        assert all[k + 1] == rest[k];
      }
  }

  ghost predicate CoversSpeech(C: real) {
    forall segs: seq<Segment>, finalize: bool, s: Segment, time: real
      | AllTimed(segs) && s in segs && SpeaksAt(s, time) && time < StopPoint(C, finalize, segs) ::
      CoveredAt(ChapterSummaries(C, finalize, segs), s, time)
  }

  /** Beyond the maximum chapter length, a silent first window makes the loop jump over later speech. */
  lemma LongWindowsSkipSpeech(C: real) returns (segs: seq<Segment>)
    requires C > MAX_CHAPTER_WINDOW
    ensures AllTimed(segs) && |segs| == 1 && SpeaksAt(segs[0], MAX_CHAPTER_WINDOW)
    ensures MAX_CHAPTER_WINDOW < StopPoint(C, false, segs) && ChapterSummaries(C, false, segs) == []
  {
    hide Preferred;
    segs := [Segment("a", "", 420.0, C + 100.0)];
    assert MaxEnd(segs) == C + 100.0 && Ends(segs) == [C + 100.0];
    assert ValidCandidates(C, Ends(segs)) == [];
    assert 0.0 + C == C && Window(C, false, segs, 0.0).windowEnd == 420.0;
    assert SegmentsIn(segs, 0.0, 420.0) == [];
    assert TakeTurn(C, false, segs, 0.0, 0) == Skip(C);
    assert TakeTurn(C, false, segs, C, 0) == Stop;
    Unfold(C, false, segs, 0.0, 0);
    Unfold(C, false, segs, C, 0);
    assert StopFrom(C, false, segs, C, 0) == C;
  }

  /** Every moment of speech before the stopping point lies in a chapter that renders its segment, for every
      transcript, exactly when the nominal window is at most the maximum chapter length. */
  lemma CoverageThreshold(C: real)
    ensures CoversSpeech(C) <==> C <= MAX_CHAPTER_WINDOW
  {
    hide ChaptersFrom, StopFrom, MaxEnd;
    if C <= MAX_CHAPTER_WINDOW {
      forall segs: seq<Segment>, finalize: bool, s: Segment, time: real
        | AllTimed(segs) && s in segs && SpeaksAt(s, time) && time < StopPoint(C, finalize, segs)
        ensures CoveredAt(ChapterSummaries(C, finalize, segs), s, time)
      {
        assert Timed(s);
        LoopCovers(C, finalize, segs, 0.0, 0, s, time);
      }
    } else {
      var segs := LongWindowsSkipSpeech(C);
      assert segs[0] in segs;
    }
  }

  // ----- how much is left behind the stopping point

  lemma UnfoldStop(C: real, finalize: bool, segs: seq<Segment>, windowStart: real, index: nat)
    requires segs != []
    ensures StopFrom(C, finalize, segs, windowStart, index) ==
              if windowStart >= MaxEnd(segs) then windowStart
              else match TakeTurn(C, finalize, segs, windowStart, index)
              case Stop => windowStart
              case Skip(next) => StopFrom(C, finalize, segs, next, index)
              case Emit(chapter, next) => StopFrom(C, finalize, segs, next, index + 1)
  {
  }

  /** The loop stops at the last timestamp, or where the rest is too short for a window while recording, or where the
      rest is a partial window that is not kept. */
  ghost predicate StopsFor(C: real, finalize: bool, segs: seq<Segment>, stop: real)
    requires segs != []
  {
    || stop >= MaxEnd(segs)
    || (!finalize && MaxEnd(segs) - stop < C)
    || (finalize && MaxEnd(segs) - stop <= C && SegmentsIn(segs, stop, MaxEnd(segs)) != []
          && IsSparse(SegmentsIn(segs, stop, MaxEnd(segs))))
  }

  lemma StopReason(C: real, finalize: bool, segs: seq<Segment>, windowStart: real, index: nat)
    requires segs != [] && TakeTurn(C, finalize, segs, windowStart, index).Stop?
    ensures StopsFor(C, finalize, segs, windowStart)
  {
    hide MaxEnd, Ends, SegmentsIn, KeepPartialWindow, IsSparse, ValidCandidates, ResolveBoundary;
    if MeetingEnded(C, finalize, segs, windowStart) {
      EndedWindowReachesTheEnd(C, segs, windowStart);
      KeptExactlyWhen(SegmentsIn(segs, windowStart, MaxEnd(segs)));
    }
  }

  lemma {:induction false} LoopStopsFor(C: real, finalize: bool, segs: seq<Segment>, windowStart: real, index: nat)
    requires segs != []
    ensures StopsFor(C, finalize, segs, StopFrom(C, finalize, segs, windowStart, index))
    decreases Remaining(MaxEnd(segs), windowStart)
  {
    hide StopFrom, TakeTurn, MaxEnd, Remaining, SegmentsIn, KeepPartialWindow;
    UnfoldStop(C, finalize, segs, windowStart, index);
    if windowStart < MaxEnd(segs) {
      TurnAdvances(C, finalize, segs, windowStart, index);
      match TakeTurn(C, finalize, segs, windowStart, index)
      case Stop => StopReason(C, finalize, segs, windowStart, index);
      case Skip(next) => LoopStopsFor(C, finalize, segs, next, index);
      case Emit(chapter, next) => LoopStopsFor(C, finalize, segs, next, index + 1);
    }
  }

  /** What coverage up to the stopping point leaves out: while recording less than one nominal window, and at the end of
      the meeting nothing or one partial window that is not kept. */
  lemma UncoveredTail(C: real, finalize: bool, segs: seq<Segment>)
    requires segs != []
    ensures StopsFor(C, finalize, segs, StopPoint(C, finalize, segs))
  {
    hide StopFrom, StopsFor;
    LoopStopsFor(C, finalize, segs, 0.0, 0);
  }
}
