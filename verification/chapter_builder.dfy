/** The chapter loop over a transcript: what it emits, where it stops, and which properties hold for
    which nominal window length `C`. */
module ChapterBuilder {
  import opened ChapterBoundary
  import opened Words
  import Sorting

  datatype Segment = Segment(id: string, text: string, start: real, end: real)

  /** A chapter is its window and the segments it renders; title, summary and extracted texts are functions of these. */
  datatype Chapter = Chapter(index: nat, windowStart: real, windowEnd: real, source: BoundarySource,
        segments: seq<Segment>)

  const MIN_PARTIAL_WINDOW_SEGMENTS := 2
  const MIN_PARTIAL_WINDOW_WORDS := 6

  /** A segment that takes time, starting no earlier than the meeting. */
  predicate Timed(segment: Segment) { 0.0 <= segment.start < segment.end }

  ghost predicate AllTimed(segs: seq<Segment>) { forall s | s in segs :: Timed(s) }

  function Ends(segs: seq<Segment>): (r: seq<real>)
    ensures forall s | s in segs :: s.end in r
    ensures forall e | e in r :: exists s :: s in segs && s.end == e
  {
    if segs == [] then [] else [segs[0].end] + Ends(segs[1..])
  }

  function MaxEnd(segs: seq<Segment>): (m: real)
    requires segs != []
    ensures m in Ends(segs) && forall s | s in segs :: s.end <= m
  {
    if |segs| == 1 then segs[0].end else Max(segs[0].end, MaxEnd(segs[1..]))
  }

  /** The segments overlapping the open window (lo, hi), in transcript order. */
  function SegmentsIn(segs: seq<Segment>, lo: real, hi: real): (r: seq<Segment>)
    ensures forall s :: s in r <==> s in segs && s.start < hi && s.end > lo
  {
    if segs == [] then []
    else
      var rest := SegmentsIn(segs[1..], lo, hi);
      assert forall s :: s in segs <==> s == segs[0] || s in segs[1..];
      if segs[0].start < hi && segs[0].end > lo then [segs[0]] + rest else rest
  }

  predicate StandsAt(text: string, word: string, i: nat) { i + |word| <= |text| && text[i..i + |word|] == word }

  /** Python's `word in text`. */
  predicate Contains(text: string, word: string) { exists i :: 0 <= i <= |text| && StandsAt(text, word, i) }

  function JoinTexts(segs: seq<Segment>): string {
    if segs == [] then "" else if |segs| == 1 then segs[0].text else segs[0].text + " " + JoinTexts(segs[1..])
  }

  predicate KeepPartialWindow(segs: seq<Segment>) {
    |segs| >= MIN_PARTIAL_WINDOW_SEGMENTS && WordCount(JoinTexts(segs)) >= MIN_PARTIAL_WINDOW_WORDS
  }

  /** What the segments say, one after another, splits into these words. */
  ghost predicate Says(segs: seq<Segment>, words: seq<string>) {
    if segs == [] then words == []
    else exists n: nat :: n <= |words| && SplitsInto(segs[0].text, words[..n]) && Says(segs[1..], words[n..])
  }

  /** Fewer than two segments, or fewer than six words. */
  ghost predicate IsSparse(segs: seq<Segment>) { |segs| < 2 || exists words :: |words| < 6 && Says(segs, words) }

  lemma {:induction false} SaidWords(segs: seq<Segment>, words: seq<string>)
    requires Says(segs, words)
    ensures WordCount(JoinTexts(segs)) == |words|
  {
    hide WordCount, SplitsInto;
    if segs == [] {
      NoWords();
    } else {
      var n: nat :| n <= |words| && SplitsInto(segs[0].text, words[..n]) && Says(segs[1..], words[n..]);
      WordsAreCounted(segs[0].text, words[..n]);
      SaidWords(segs[1..], words[n..]);
      if |segs| > 1 {
        CountOfJoined(segs[0].text, JoinTexts(segs[1..]));
      }
    }
  }

  lemma {:induction false} SomethingIsSaid(segs: seq<Segment>) returns (words: seq<string>)
    ensures Says(segs, words)
  {
    hide SplitsInto;
    words := [];
    if segs != [] {
      var first := EveryTextSplits(segs[0].text);
      var rest := SomethingIsSaid(segs[1..]);
      words := first + rest;
      assert words[..|first|] == first && words[|first|..] == rest;
    }
  }

  /** A window at the end of the meeting is kept exactly when it has at least two segments that say at least six
      words. */
  lemma KeptExactlyWhen(segs: seq<Segment>)
    ensures KeepPartialWindow(segs) <==> |segs| >= 2 && exists words :: |words| >= 6 && Says(segs, words)
    ensures KeepPartialWindow(segs) <==> !IsSparse(segs)
  {
    hide WordCount, JoinTexts, Says;
    var words := SomethingIsSaid(segs);
    forall words | Says(segs, words) ensures WordCount(JoinTexts(segs)) == |words| {
      SaidWords(segs, words);
    }
  }

  // ----- one turn of the loop

  datatype Turn = Stop | Skip(next: real) | Emit(chapter: Chapter, next: real)

  predicate MeetingEnded(C: real, finalize: bool, segs: seq<Segment>, windowStart: real)
    requires segs != []
  {
    finalize && windowStart + C >= MaxEnd(segs)
  }

  function Window(C: real, finalize: bool, segs: seq<Segment>, windowStart: real): WindowPayload
    requires segs != []
  {
    var target := Min(windowStart + C, MaxEnd(segs));
    BuildWindowPayload(windowStart, target, ValidCandidates(target, Ends(segs)),
        MeetingEnded(C, finalize, segs, windowStart))
  }

  function TakeTurn(C: real, finalize: bool, segs: seq<Segment>, windowStart: real, index: nat): Turn
    requires segs != []
  {
    if windowStart + C > MaxEnd(segs) && !finalize then Stop
    else
      var window := Window(C, finalize, segs, windowStart);
      var chapterEnd := Min(window.windowEnd, MaxEnd(segs));
      var inside := SegmentsIn(segs, windowStart, chapterEnd);
      if inside == [] then Skip(Max(chapterEnd, windowStart + C))
      else if MeetingEnded(C, finalize, segs, windowStart) && !KeepPartialWindow(inside) then Stop
      else Emit(Chapter(index, windowStart, chapterEnd, window.source, inside), chapterEnd)
  }

  /** When the meeting has ended the resolver returns the last timestamp: it is a candidate at distance zero. */
  lemma {:induction false} EndedWindowReachesTheEnd(C: real, segs: seq<Segment>, windowStart: real)
    requires segs != [] && windowStart + C >= MaxEnd(segs)
    ensures Window(C, true, segs, windowStart).windowEnd == MaxEnd(segs)
  {
    hide MaxEnd, Ends, ValidCandidates, ResolveBoundary;
    var last := MaxEnd(segs);
    NominalCandidateWins(windowStart, last, ValidCandidates(last, Ends(segs)));
  }

  /** A segment that ends exactly at the nominal end of a window of 120 to 420 seconds closes it there. */
  lemma NominalWindow(C: real, segs: seq<Segment>, windowStart: real)
    requires segs != [] && MIN_CHAPTER_WINDOW <= C <= MAX_CHAPTER_WINDOW
    requires windowStart + C <= MaxEnd(segs) && windowStart + C in Ends(segs)
    ensures Window(C, false, segs, windowStart) == WindowPayload(windowStart, windowStart + C, SemanticAdjustment)
  {
    hide MaxEnd, Ends, ValidCandidates, Preferred;
    var target := windowStart + C;
    var near := ValidCandidates(target, Ends(segs));
    assert target in near;
    ValidTwice(target, near);
    assert Abs(Preferred(target, near) - target) <= Abs(target - target);
  }

  /** Bounds the turns still to come; it drops whenever the window start advances by 120 seconds or to the end. */
  function Remaining(end: real, windowStart: real): nat {
    if windowStart < end then (end - windowStart).Floor + 1 else 0
  }

  /** Every turn that does not stop moves the window start on by at least 120 seconds or to the end of the
      transcript, for every window length (even zero or negative) and with or without finalization. */
  lemma {:induction false} TurnAdvances(C: real, finalize: bool, segs: seq<Segment>, windowStart: real, index: nat)
    requires segs != [] && windowStart < MaxEnd(segs)
    ensures var turn := TakeTurn(C, finalize, segs, windowStart, index);
            && (!turn.Stop? ==> turn.next >= windowStart + MIN_CHAPTER_WINDOW || turn.next >= MaxEnd(segs))
            && (!turn.Stop? ==> Remaining(MaxEnd(segs), turn.next) < Remaining(MaxEnd(segs), windowStart))
  {
    hide MaxEnd, SegmentsIn, ValidCandidates, Preferred, KeepPartialWindow;
    if MeetingEnded(C, finalize, segs, windowStart) {
      EndedWindowReachesTheEnd(C, segs, windowStart);
    }
  }

  // ----- the whole loop

  function ChaptersFrom(C: real, finalize: bool, segs: seq<Segment>, windowStart: real, index: nat): seq<Chapter>
    requires segs != []
    decreases Remaining(MaxEnd(segs), windowStart)
  {
    if windowStart >= MaxEnd(segs) then []
    else
      TurnAdvances(C, finalize, segs, windowStart, index);
      match TakeTurn(C, finalize, segs, windowStart, index)
      case Stop => []
      case Skip(next) => ChaptersFrom(C, finalize, segs, next, index)
      case Emit(chapter, next) => [chapter] + ChaptersFrom(C, finalize, segs, next, index + 1)
  }

  lemma Unfold(C: real, finalize: bool, segs: seq<Segment>, windowStart: real, index: nat)
    requires segs != []
    ensures ChaptersFrom(C, finalize, segs, windowStart, index) ==
            if windowStart >= MaxEnd(segs) then []
            else match TakeTurn(C, finalize, segs, windowStart, index)
            case Stop => []
            case Skip(next) => ChaptersFrom(C, finalize, segs, next, index)
            case Emit(chapter, next) => [chapter] + ChaptersFrom(C, finalize, segs, next, index + 1)
  {
  }

  /** One turn behind the chapters built before it. */
  lemma AppendTurn(C: real, finalize: bool, segs: seq<Segment>, windowStart: real, index: nat, before: seq<Chapter>)
    requires segs != []
    ensures before + ChaptersFrom(C, finalize, segs, windowStart, index) ==
            if windowStart >= MaxEnd(segs) then before
            else match TakeTurn(C, finalize, segs, windowStart, index)
            case Stop => before
            case Skip(next) => before + ChaptersFrom(C, finalize, segs, next, index)
            case Emit(chapter, next) => before + [chapter] + ChaptersFrom(C, finalize, segs, next, index + 1)
  {
    hide ChaptersFrom, TakeTurn, MaxEnd;
    Unfold(C, finalize, segs, windowStart, index);
  }

  /** Where the loop leaves `window_start`. */
  function StopFrom(C: real, finalize: bool, segs: seq<Segment>, windowStart: real, index: nat): real
    requires segs != []
    decreases Remaining(MaxEnd(segs), windowStart)
  {
    if windowStart >= MaxEnd(segs) then windowStart
    else
      TurnAdvances(C, finalize, segs, windowStart, index);
      match TakeTurn(C, finalize, segs, windowStart, index)
      case Stop => windowStart
      case Skip(next) => StopFrom(C, finalize, segs, next, index)
      case Emit(chapter, next) => StopFrom(C, finalize, segs, next, index + 1)
  }

  function ChapterSummaries(C: real, finalize: bool, segs: seq<Segment>): seq<Chapter> {
    if segs == [] then [] else ChaptersFrom(C, finalize, segs, 0.0, 0)
  }

  function StopPoint(C: real, finalize: bool, segs: seq<Segment>): real {
    if segs == [] then 0.0 else StopFrom(C, finalize, segs, 0.0, 0)
  }

  function ChapterKey(): Chapter -> real { (c: Chapter) => c.index as real }

  // ----- order and shape of the chapters

  ghost predicate ClosedByEnd(C: real, finalize: bool, segs: seq<Segment>, c: Chapter)
    requires segs != []
  {
    MeetingEnded(C, finalize, segs, c.windowStart)
  }

  /** A chapter renders exactly the segments overlapping its nonempty window. */
  ghost predicate WellFormed(segs: seq<Segment>, c: Chapter)
    requires segs != []
  {
    && c.windowStart < c.windowEnd <= MaxEnd(segs)
    && c.segments == SegmentsIn(segs, c.windowStart, c.windowEnd) != []
  }

  /** The chapter a turn emits: it starts at the window start, and when the meeting's end closes it, it ends
      exactly at the last timestamp and is no longer than `C`. */
  lemma {:induction false} TurnEmits(C: real, finalize: bool, segs: seq<Segment>, windowStart: real, index: nat)
    requires segs != [] && windowStart < MaxEnd(segs)
    ensures var turn := TakeTurn(C, finalize, segs, windowStart, index);
            turn.Emit? ==>
              && turn.chapter.index == index && turn.chapter.windowStart == windowStart
              && turn.next == turn.chapter.windowEnd
              && WellFormed(segs, turn.chapter)
              && (ClosedByEnd(C, finalize, segs, turn.chapter) ==>
                    turn.chapter.windowEnd == MaxEnd(segs) && turn.chapter.windowEnd - windowStart <= C)
  {
    hide MaxEnd, SegmentsIn, ValidCandidates, Preferred, KeepPartialWindow;
    if MeetingEnded(C, finalize, segs, windowStart) {
      EndedWindowReachesTheEnd(C, segs, windowStart);
    }
  }

  /** Chapters are numbered without gaps and their windows follow each other without overlap. */
  lemma {:induction false} ChaptersAreOrdered(C: real, finalize: bool, segs: seq<Segment>, windowStart: real,
        index: nat)
    requires segs != []
    ensures var cs := ChaptersFrom(C, finalize, segs, windowStart, index);
            && (forall k | 0 <= k < |cs| :: cs[k].index == index + k && cs[k].windowStart >= windowStart)
            && (forall k, l | 0 <= k < l < |cs| :: cs[k].windowEnd <= cs[l].windowStart)
    decreases Remaining(MaxEnd(segs), windowStart)
  {
    hide TakeTurn, MaxEnd;
    if windowStart < MaxEnd(segs) {
      Unfold(C, finalize, segs, windowStart, index);
      TurnAdvances(C, finalize, segs, windowStart, index);
      TurnEmits(C, finalize, segs, windowStart, index);
      match TakeTurn(C, finalize, segs, windowStart, index)
      case Stop =>
      case Skip(next) =>
        ChaptersAreOrdered(C, finalize, segs, next, index);
      case Emit(chapter, next) =>
        ChaptersAreOrdered(C, finalize, segs, next, index + 1);
    }
  }

  lemma {:induction false} OrderingChangesNothing(C: real, finalize: bool, segs: seq<Segment>)
    ensures Sorting.StableSort(ChapterKey(), ChapterSummaries(C, finalize, segs)) == ChapterSummaries(C, finalize, segs)
  {
    hide ChaptersFrom, MaxEnd;
    var chapters := ChapterSummaries(C, finalize, segs);
    if segs != [] {
      assert chapters == ChaptersFrom(C, finalize, segs, 0.0, 0);
      ChaptersAreOrdered(C, finalize, segs, 0.0, 0);
      assert forall k | 0 <= k < |chapters| :: chapters[k].index == 0 + k;
    }
    assert forall c: Chapter :: ChapterKey()(c) == c.index as real;
    Sorting.SortOfSorted(ChapterKey(), chapters);
  }

  /** The loop as the server runs it, ending with the repository's chapter ordering. */
  method BuildChapterSummaries(C: real, finalize: bool, segs: seq<Segment>) returns (chapters: seq<Chapter>)
    ensures chapters == ChapterSummaries(C, finalize, segs)
  {
    hide ChaptersFrom, TakeTurn, Remaining, MaxEnd, ChapterKey;
    chapters := [];
    if segs != [] {
      var maxTimestamp := MaxEnd(segs);
      var chapterIndex := 0;
      var windowStart := 0.0;
      while windowStart < maxTimestamp
        invariant chapters + ChaptersFrom(C, finalize, segs, windowStart, chapterIndex) ==
            ChapterSummaries(C, finalize, segs)
        decreases Remaining(maxTimestamp, windowStart)
      {
        AppendTurn(C, finalize, segs, windowStart, chapterIndex, chapters);
        TurnAdvances(C, finalize, segs, windowStart, chapterIndex);
        match TakeTurn(C, finalize, segs, windowStart, chapterIndex)
        case Stop =>
          assert chapters == ChapterSummaries(C, finalize, segs);
          break;
        case Skip(next) =>
          windowStart := next;
        case Emit(chapter, next) =>
          chapters := chapters + [chapter];
          chapterIndex := chapterIndex + 1;
          windowStart := next;
      }
      AppendTurn(C, finalize, segs, windowStart, chapterIndex, chapters);
      assert chapters == ChapterSummaries(C, finalize, segs);
    }
    OrderingChangesNothing(C, finalize, segs);
    chapters := Sorting.StableSort(ChapterKey(), chapters);
  }
}
