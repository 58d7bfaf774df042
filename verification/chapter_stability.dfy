/** What happens to chapters already materialised when the transcript grows or the meeting is finalised.
    Every refresh rebuilds all chapters, so stability is a property of the whole loop. */
module ChapterStability {
  import opened ChapterBoundary
  import opened ChapterBuilder

  /** New transcript: everything in it starts at or after the last known timestamp. */
  ghost predicate Follows(segs: seq<Segment>, added: seq<Segment>) {
    forall s | s in added :: Timed(s) && (segs != [] ==> MaxEnd(segs) <= s.start)
  }

  lemma {:induction false} SegmentsInAppend(segs: seq<Segment>, added: seq<Segment>, lo: real, hi: real)
    requires forall s | s in added :: hi <= s.start
    ensures SegmentsIn(segs + added, lo, hi) == SegmentsIn(segs, lo, hi)
    decreases |segs|, |added|
  {
    if segs != [] {
      assert (segs + added)[1..] == segs[1..] + added;
      SegmentsInAppend(segs[1..], added, lo, hi);
    } else if added != [] {
      assert segs + added == added && [] + added[1..] == added[1..];
      SegmentsInAppend([], added[1..], lo, hi);
    }
  }

  lemma {:induction false} MaxEndAppend(segs: seq<Segment>, added: seq<Segment>)
    requires segs != [] && Follows(segs, added)
    ensures MaxEnd(segs) <= MaxEnd(segs + added)
    ensures added != [] ==> MaxEnd(segs) < MaxEnd(segs + added)
  {
    hide MaxEnd, Ends;
    assert MaxEnd(segs) in Ends(segs);
    var s :| s in segs && s.end == MaxEnd(segs);
    assert s in segs + added;
    if added != [] {
      assert added[0] in segs + added;
    }
  }

  /** A window whose nominal end has been reached resolves to the same payload after an append. */
  lemma {:induction false} WindowIsStable(C: real, finalize: bool, segs: seq<Segment>, added: seq<Segment>,
        windowStart: real)
    requires segs != [] && Follows(segs, added)
    requires windowStart + C <= MaxEnd(segs) && (finalize ==> added != [])
    ensures Window(C, finalize, segs + added, windowStart) == Window(C, false, segs, windowStart)
    ensures !MeetingEnded(C, finalize, segs + added, windowStart)
  {
    hide MaxEnd, Ends, BuildWindowPayload, ValidCandidates;
    MaxEndAppend(segs, added);
    var cs, cs' := Ends(segs), Ends(segs + added);
    forall c | c in cs ensures c in cs' {
      var s :| s in segs && s.end == c;
      assert s in segs + added;
    }
    forall c | c in cs' ensures c in cs || MaxEnd(segs) <= c {
      var s :| s in segs + added && s.end == c;
      assert s in segs || s in added;
    }
    LaterBoundariesAreIgnored(windowStart, windowStart + C, cs, cs', MaxEnd(segs));
  }

  /** With windows of at least the minimum length, a reached window never extends past the last timestamp. */
  lemma ReachedWindowEnds(C: real, segs: seq<Segment>, windowStart: real)
    requires segs != [] && C >= MIN_CHAPTER_WINDOW && windowStart + C <= MaxEnd(segs)
    ensures Window(C, false, segs, windowStart).windowEnd <= MaxEnd(segs)
  {
    hide MaxEnd, Ends, ResolveBoundary, ValidCandidates;
    var cs := ValidCandidates(windowStart + C, Ends(segs));
    ResolvedWindowLength(windowStart, windowStart + C, cs);
    var p :| Abs(p - (windowStart + C)) <= BOUNDARY_ADJUSTMENT
          && ResolveBoundary(windowStart, windowStart + C, cs, false) == ClampWindowEnd(windowStart, p, false)
          && (p == windowStart + C || p in cs);
    if p in cs {
      var s :| s in segs && s.end == p;
    }
  }

  lemma {:induction false} TurnIsStable(C: real, finalize: bool, segs: seq<Segment>, added: seq<Segment>,
        windowStart: real, index: nat)
    requires segs != [] && Follows(segs, added) && C >= MIN_CHAPTER_WINDOW
    requires (finalize ==> added != []) && !TakeTurn(C, false, segs, windowStart, index).Stop?
    ensures TakeTurn(C, finalize, segs + added, windowStart, index) == TakeTurn(C, false, segs, windowStart, index)
    ensures MaxEnd(segs) <= MaxEnd(segs + added)
  {
    hide MaxEnd, SegmentsIn, Window, KeepPartialWindow, IsSparse;
    MaxEndAppend(segs, added);
    WindowIsStable(C, finalize, segs, added, windowStart);
    ReachedWindowEnds(C, segs, windowStart);
    SegmentsInAppend(segs, added, windowStart, Window(C, false, segs, windowStart).windowEnd);
  }

  lemma {:induction false} LoopIsStable(C: real, finalize: bool, segs: seq<Segment>, added: seq<Segment>,
        windowStart: real, index: nat)
    requires segs != [] && Follows(segs, added) && C >= MIN_CHAPTER_WINDOW
    requires finalize ==> added != []
    ensures ChaptersFrom(C, false, segs, windowStart, index) <=
              ChaptersFrom(C, finalize, segs + added, windowStart, index)
    decreases Remaining(MaxEnd(segs), windowStart)
  {
    hide ChaptersFrom, TakeTurn, MaxEnd, Remaining;
    Unfold(C, false, segs, windowStart, index);
    if windowStart < MaxEnd(segs) && !TakeTurn(C, false, segs, windowStart, index).Stop? {
      Unfold(C, finalize, segs + added, windowStart, index);
      TurnAdvances(C, false, segs, windowStart, index);
      TurnIsStable(C, finalize, segs, added, windowStart, index);
      match TakeTurn(C, false, segs, windowStart, index)
      case Skip(next) => LoopIsStable(C, finalize, segs, added, next, index);
      case Emit(chapter, next) => LoopIsStable(C, finalize, segs, added, next, index + 1);
    }
  }

  /** Chapters built while recording survive every later refresh over more transcript, including the final one. */
  lemma {:induction false} ChaptersSurviveAppends(C: real, finalize: bool, segs: seq<Segment>, added: seq<Segment>)
    requires Follows(segs, added) && C >= MIN_CHAPTER_WINDOW
    requires finalize ==> added != []
    ensures ChapterSummaries(C, false, segs) <= ChapterSummaries(C, finalize, segs + added)
  {
    if segs != [] {
      LoopIsStable(C, finalize, segs, added, 0.0, 0);
    }
  }

  // ----- the exact range of window lengths

  ghost predicate StableUnderAppends(C: real) {
    forall finalize: bool, segs: seq<Segment>, added: seq<Segment> | AllTimed(segs) && Follows(segs, added)
        && (finalize ==> added != []) ::
      ChapterSummaries(C, false, segs) <= ChapterSummaries(C, finalize, segs + added)
  }

  /** A window shorter than the minimum closes early at the last timestamp, and later at the minimum length. */
  lemma {:induction false} ShortWindowsAreUnstable(C: real) returns (segs: seq<Segment>, added: seq<Segment>)
    requires C < MIN_CHAPTER_WINDOW
    ensures AllTimed(segs) && Follows(segs, added)
    ensures !(ChapterSummaries(C, false, segs) <= ChapterSummaries(C, false, segs + added))
  {
    var e := if C > 0.0 then C else 60.0;
    var first, second := Segment("a", "", 0.0, e), Segment("b", "", e, 300.0);
    segs, added := [first], [second];
    assert MaxEnd(segs) == e;
    ShortWindow(C, segs, e);
    assert segs + added == [first, second];
    assert (segs + added)[1..] == [second];
    assert MaxEnd(segs + added) == 300.0;
    ShortWindow(C, segs + added, MIN_CHAPTER_WINDOW);
  }

  /** The first chapter of a transcript that starts at zero, for a window below the minimum length. */
  lemma {:induction false} ShortWindow(C: real, segs: seq<Segment>, end: real)
    requires C < MIN_CHAPTER_WINDOW && segs != [] && segs[0].start == 0.0 && segs[0].end > 0.0 && C <= MaxEnd(segs)
    requires end == Min(MIN_CHAPTER_WINDOW, MaxEnd(segs)) && end > 0.0
    requires forall s | s in segs && Abs(s.end - C) <= BOUNDARY_ADJUSTMENT :: s.end <= MIN_CHAPTER_WINDOW
    ensures var cs := ChapterSummaries(C, false, segs); |cs| > 0 && cs[0].windowEnd == end
  {
    hide ChaptersFrom, MaxEnd, SegmentsIn, ValidCandidates, ResolveBoundary, Ends, KeepPartialWindow, IsSparse;
    Unfold(C, false, segs, 0.0, 0);
    var cs := ValidCandidates(C, Ends(segs));
    ResolvedWindowLength(0.0, C, cs);
    var p :| Abs(p - C) <= BOUNDARY_ADJUSTMENT && ResolveBoundary(0.0, C, cs, false) == ClampWindowEnd(0.0, p, false)
          && (p == C || p in cs);
    if p in cs {
      var s :| s in segs && s.end == p;
    }
    assert 0.0 + C == C;
    assert segs[0] in SegmentsIn(segs, 0.0, end);
  }

  /** Appending transcript keeps all earlier chapters, whatever the transcripts and also for the final refresh,
      exactly when the nominal window is at least the minimum chapter length. */
  lemma StabilityThreshold(C: real)
    ensures StableUnderAppends(C) <==> C >= MIN_CHAPTER_WINDOW
  {
    if C >= MIN_CHAPTER_WINDOW {
      forall finalize: bool, segs: seq<Segment>, added: seq<Segment>
        | AllTimed(segs) && Follows(segs, added) && (finalize ==> added != [])
        ensures ChapterSummaries(C, false, segs) <= ChapterSummaries(C, finalize, segs + added)
      {
        ChaptersSurviveAppends(C, finalize, segs, added);
      }
    } else {
      var segs, added := ShortWindowsAreUnstable(C);
    }
  }

  // ----- finalising without new transcript

  /** The nominal end of the last chapter built while recording falls exactly on the last timestamp, and that
      chapter is too sparse to be kept as a partial window (or the nominal window exceeds the maximum length,
      so the final chapter is longer). */
  ghost predicate LostAtEnd(C: real, segs: seq<Segment>, chapters: seq<Chapter>)
    requires segs != []
  {
    && chapters != []
    && chapters[|chapters| - 1].windowStart + C == MaxEnd(segs)
    && (C > MAX_CHAPTER_WINDOW || IsSparse(chapters[|chapters| - 1].segments))
  }

  ghost predicate LosesLastChapter(C: real, segs: seq<Segment>) {
    segs != [] && LostAtEnd(C, segs, ChapterSummaries(C, false, segs))
  }

  lemma ExactWindow(C: real, segs: seq<Segment>, windowStart: real)
    requires segs != [] && C <= MAX_CHAPTER_WINDOW
    requires windowStart < MaxEnd(segs) && windowStart + C == MaxEnd(segs)
    ensures Window(C, false, segs, windowStart).windowEnd >= MaxEnd(segs)
    ensures Window(C, true, segs, windowStart).windowEnd == MaxEnd(segs)
    ensures Window(C, true, segs, windowStart).source == Window(C, false, segs, windowStart).source
  {
    hide MaxEnd, Ends, ValidCandidates, Preferred;
    var last := MaxEnd(segs);
    EndedWindowReachesTheEnd(C, segs, windowStart);
    var near := ValidCandidates(last, Ends(segs));
    assert last in near;
    ValidTwice(last, near);
    assert Abs(Preferred(last, near) - last) <= Abs(last - last);
  }

  lemma ConsPrefix<T>(x: T, a: seq<T>, b: seq<T>)
    ensures [x] + a <= [x] + b <==> a <= b
  {
    assert ([x] + a)[1..] == a && ([x] + b)[1..] == b;
    if a <= b {
      assert [x] + b == ([x] + a) + b[|a|..];
    }
  }

  lemma {:induction false} FinalizeExactWindow(C: real, segs: seq<Segment>, windowStart: real, index: nat)
    requires segs != [] && C <= MAX_CHAPTER_WINDOW
    requires windowStart < MaxEnd(segs) && windowStart + C == MaxEnd(segs)
    ensures var recorded := ChaptersFrom(C, false, segs, windowStart, index);
            recorded <= ChaptersFrom(C, true, segs, windowStart, index) <==> !LostAtEnd(C, segs, recorded)
  {
    hide ChaptersFrom, MaxEnd, SegmentsIn, KeepPartialWindow, IsSparse, Window;
    Unfold(C, false, segs, windowStart, index);
    Unfold(C, true, segs, windowStart, index);
    ExactWindow(C, segs, windowStart);
    KeptExactlyWhen(SegmentsIn(segs, windowStart, MaxEnd(segs)));
    Unfold(C, false, segs, MaxEnd(segs), index);
    Unfold(C, true, segs, MaxEnd(segs), index);
    Unfold(C, false, segs, MaxEnd(segs), index + 1);
    Unfold(C, true, segs, MaxEnd(segs), index + 1);
  }

  lemma {:induction false} FinalizeLongWindow(C: real, segs: seq<Segment>, windowStart: real, index: nat)
    requires segs != [] && C > MAX_CHAPTER_WINDOW
    requires windowStart < MaxEnd(segs) && windowStart + C == MaxEnd(segs)
    ensures var recorded := ChaptersFrom(C, false, segs, windowStart, index);
            recorded <= ChaptersFrom(C, true, segs, windowStart, index) <==> !LostAtEnd(C, segs, recorded)
  {
    hide ChaptersFrom, MaxEnd, SegmentsIn, KeepPartialWindow, IsSparse, ValidCandidates, ResolveBoundary, Ends;
    Unfold(C, false, segs, windowStart, index);
    Unfold(C, true, segs, windowStart, index);
    EndedWindowReachesTheEnd(C, segs, windowStart);
    ResolvedWindowLength(windowStart, MaxEnd(segs), ValidCandidates(MaxEnd(segs), Ends(segs)));
    var turn := TakeTurn(C, false, segs, windowStart, index);
    assert !turn.Stop?;
    Unfold(C, false, segs, turn.next, index);
    Unfold(C, false, segs, turn.next, index + 1);
    if turn.Emit? {
      assert turn.next < MaxEnd(segs) < turn.next + C;
      assert ChaptersFrom(C, false, segs, windowStart, index) == [turn.chapter];
      var final := ChaptersFrom(C, true, segs, windowStart, index);
      Unfold(C, true, segs, MaxEnd(segs), index);
      assert |final| > 0 ==> final[0].windowEnd == MaxEnd(segs);
    } else {
      assert turn.next >= MaxEnd(segs);
    }
  }

  lemma NothingIsLost(C: real, segs: seq<Segment>)
    requires segs != []
    ensures !LostAtEnd(C, segs, [])
  {
  }

  lemma LostBehind(C: real, segs: seq<Segment>, chapter: Chapter, rest: seq<Chapter>)
    requires segs != [] && chapter.windowStart + C != MaxEnd(segs)
    ensures LostAtEnd(C, segs, [chapter] + rest) == LostAtEnd(C, segs, rest)
  {
    hide MaxEnd, KeepPartialWindow, IsSparse;
    if rest != [] {
      assert ([chapter] + rest)[|rest|] == rest[|rest| - 1];
    }
  }

  lemma {:induction false} FinalizeLoop(C: real, segs: seq<Segment>, windowStart: real, index: nat)
    requires segs != []
    ensures var recorded := ChaptersFrom(C, false, segs, windowStart, index);
            recorded <= ChaptersFrom(C, true, segs, windowStart, index) <==> !LostAtEnd(C, segs, recorded)
    decreases Remaining(MaxEnd(segs), windowStart)
  {
    hide ChaptersFrom, MaxEnd, Remaining, TakeTurn, KeepPartialWindow, IsSparse, LostAtEnd;
    NothingIsLost(C, segs);
    if windowStart < MaxEnd(segs) && windowStart + C == MaxEnd(segs) {
      if C <= MAX_CHAPTER_WINDOW {
        FinalizeExactWindow(C, segs, windowStart, index);
      } else {
        FinalizeLongWindow(C, segs, windowStart, index);
      }
    } else {
      Unfold(C, false, segs, windowStart, index);
      if windowStart < MaxEnd(segs) {
        SameTurn(C, segs, windowStart, index);
        Unfold(C, true, segs, windowStart, index);
        TurnAdvances(C, false, segs, windowStart, index);
        TurnEmits(C, false, segs, windowStart, index);
        match TakeTurn(C, false, segs, windowStart, index)
        case Stop =>
        case Skip(next) => FinalizeLoop(C, segs, next, index);
        case Emit(chapter, next) =>
          FinalizeLoop(C, segs, next, index + 1);
          LostBehind(C, segs, chapter, ChaptersFrom(C, false, segs, next, index + 1));
          ConsPrefix(chapter, ChaptersFrom(C, false, segs, next, index + 1),
              ChaptersFrom(C, true, segs, next, index + 1));
      }
    }
  }

  lemma SameTurn(C: real, segs: seq<Segment>, windowStart: real, index: nat)
    requires segs != [] && windowStart + C != MaxEnd(segs)
    ensures var turn := TakeTurn(C, false, segs, windowStart, index);
            (turn.Stop? <==> windowStart + C > MaxEnd(segs)) &&
            (!turn.Stop? ==> TakeTurn(C, true, segs, windowStart, index) == turn)
  {
    hide MaxEnd, SegmentsIn, KeepPartialWindow, IsSparse, BuildWindowPayload, ValidCandidates;
  }

  /** Finalising the same transcript keeps the recorded chapters exactly when the last of them is not lost. */
  lemma FinalizeKeepsChapters(C: real, segs: seq<Segment>)
    ensures ChapterSummaries(C, false, segs) <= ChapterSummaries(C, true, segs) <==> !LosesLastChapter(C, segs)
  {
    if segs != [] {
      FinalizeLoop(C, segs, 0.0, 0);
    }
  }

  lemma LastOfCons<T>(x: T, rest: seq<T>)
    ensures ([x] + rest)[|rest|] == (if rest == [] then x else rest[|rest| - 1])
    ensures ([x] + rest)[..|rest|] == (if rest == [] then [] else [x] + rest[..|rest| - 1])
  {
  }

  lemma {:induction false} LostExactWindow(C: real, segs: seq<Segment>, windowStart: real, index: nat)
    requires segs != [] && C <= MAX_CHAPTER_WINDOW && windowStart < MaxEnd(segs) && windowStart + C == MaxEnd(segs)
    requires LostAtEnd(C, segs, ChaptersFrom(C, false, segs, windowStart, index))
    ensures |ChaptersFrom(C, false, segs, windowStart, index)| == 1
            && ChaptersFrom(C, true, segs, windowStart, index) == []
  {
    hide ChaptersFrom, MaxEnd, SegmentsIn, KeepPartialWindow, IsSparse, Window;
    Unfold(C, false, segs, windowStart, index);
    Unfold(C, true, segs, windowStart, index);
    ExactWindow(C, segs, windowStart);
    KeptExactlyWhen(SegmentsIn(segs, windowStart, MaxEnd(segs)));
    Unfold(C, false, segs, MaxEnd(segs), index);
    Unfold(C, false, segs, MaxEnd(segs), index + 1);
  }

  lemma {:induction false} LostLoop(C: real, segs: seq<Segment>, windowStart: real, index: nat)
    requires segs != [] && C <= MAX_CHAPTER_WINDOW
    requires LostAtEnd(C, segs, ChaptersFrom(C, false, segs, windowStart, index))
    ensures var recorded := ChaptersFrom(C, false, segs, windowStart, index);
            ChaptersFrom(C, true, segs, windowStart, index) == recorded[..|recorded| - 1]
    decreases Remaining(MaxEnd(segs), windowStart)
  {
    hide ChaptersFrom, MaxEnd, Remaining, TakeTurn, KeepPartialWindow, IsSparse, LostAtEnd;
    NothingIsLost(C, segs);
    if windowStart + C == MaxEnd(segs) {
      Unfold(C, false, segs, windowStart, index);
      LostExactWindow(C, segs, windowStart, index);
    } else {
      Unfold(C, false, segs, windowStart, index);
      Unfold(C, true, segs, windowStart, index);
      SameTurn(C, segs, windowStart, index);
      TurnAdvances(C, false, segs, windowStart, index);
      TurnEmits(C, false, segs, windowStart, index);
      match TakeTurn(C, false, segs, windowStart, index)
      case Stop =>
      case Skip(next) => LostLoop(C, segs, next, index);
      case Emit(chapter, next) =>
        var rest := ChaptersFrom(C, false, segs, next, index + 1);
        LostBehind(C, segs, chapter, rest);
        LastOfCons(chapter, rest);
        LostLoop(C, segs, next, index + 1);
    }
  }

  /** When the last chapter is lost at the end, the others remain. */
  lemma FinalizeDropsLastChapter(C: real, segs: seq<Segment>)
    requires LosesLastChapter(C, segs) && C <= MAX_CHAPTER_WINDOW
    ensures var recorded := ChapterSummaries(C, false, segs);
            recorded != [] && ChapterSummaries(C, true, segs) == recorded[..|recorded| - 1]
  {
    LostLoop(C, segs, 0.0, 0);
  }

  const SPARSE := Segment("a", "we decided", 0.0, 300.0)

  /** With the default window of 300 seconds, one five-minute segment is a chapter while recording and none at
      the end of the meeting. */
  lemma FinalizeCanLoseAChapter()
    ensures var segs, c := [SPARSE], Chapter(0, 0.0, 300.0, SemanticAdjustment, [SPARSE]);
            AllTimed(segs) && ChapterSummaries(300.0, false, segs) == [c] && ChapterSummaries(300.0, true, segs) == []
  {
    var segs := [SPARSE];
    assert MaxEnd(segs) == 300.0;
    ExactWindow(300.0, segs, 0.0);
    assert segs[1..] == [] && SegmentsIn(segs, 0.0, 300.0) == [SPARSE];
    assert 300.0 in Ends(segs);
    NominalWindow(300.0, segs, 0.0);
    Unfold(300.0, false, segs, 0.0, 0);
    Unfold(300.0, true, segs, 0.0, 0);
    Unfold(300.0, false, segs, 300.0, 1);
  }
}
