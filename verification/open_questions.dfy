/** Open questions: whether one is kept depends on what is said later in the same chapter, so they do not reach the
    merge across chapters in chronological order. */
module OpenQuestions {
  import opened Options
  import opened ChapterBoundary
  import opened ChapterBuilder
  import opened RecordDedupe
  import opened DedupeComponents
  import opened Materializer
  import opened MentionOrder

  /** How texts are read: which ask something, which only rhetorically, which later words settle a question, and the
      digest of a text. */
  datatype Wording = Wording(asks: string -> bool, rhetorical: string -> bool, settles: string -> bool,
        digest: string -> nat)

  function QuestionItem(w: Wording, s: Segment, settled: bool): Item {
    Item(s.text, w.digest(s.text), [s.id],
        Signals(false, false, false, false, false, w.rhetorical(s.text), settled, settled),
         None, 0.61, Some(s.start), Some(s.end))
  }

  /** The questions of a window, each settled or not by everything that is said behind it in the window. */
  function Questions(w: Wording, window: seq<Segment>): seq<Item> {
    if window == [] then []
    else
      var s, later := window[0], window[1..];
      (if s.text != "" && w.asks(s.text) then [QuestionItem(w, s, w.settles(JoinTexts(later)))] else [])
          + Questions(w, later)
  }

  function QuestionExtraction(w: Wording): Extraction {
    (kind: Kind, window: seq<Segment>) => if kind.OpenQuestion? then Questions(w, window) else []
  }

  lemma {:induction false} QuestionSource(w: Wording, window: seq<Segment>, item: Item)
    requires item in Questions(w, window)
    ensures exists s :: s in window && ItemOf(item, s)
  {
    if item in Questions(w, window[1..]) {
      QuestionSource(w, window[1..], item);
      var s :| s in window[1..] && ItemOf(item, s);
      assert s in window;
    } else {
      assert window[0] in window && ItemOf(item, window[0]);
    }
  }

  lemma QuestionsAreSourced(w: Wording)
    ensures SourcedFor(QuestionExtraction(w), OpenQuestion)
  {
    forall window, item | item in QuestionExtraction(w)(OpenQuestion, window)
      ensures exists s :: s in window && ItemOf(item, s)
    {
      QuestionSource(w, window, item);
    }
  }

  /** Open questions of equal text are disjoint, and merging them again changes nothing, exactly when no chapter's
      question bridges two components of the questions before it. */
  lemma {:induction false} QuestionsDisjointExactlyWhen(C: real, finalize: bool, w: Wording, transcript: seq<Segment>)
    requires AllTimed(transcript) && UniqueIds(transcript)
    ensures var segs := OrderedSegments(transcript);
            var stream := Stream(QuestionExtraction(w), OpenQuestion, segs, ChapterSummaries(C, finalize, segs));
            var out := GeneratedRecords(C, finalize, QuestionExtraction(w), OpenQuestion, transcript);
            && (Dedupe(AcrossChapters, out) == out <==> Bridgeless(stream))
            && (Disjoint(out) <==> Bridgeless(stream))
  {
    hide Dedupe, Stream, ChapterSummaries, OrderedSegments, SourcedFor, Bridgeless, Disjoint, QuestionExtraction;
    QuestionsAreSourced(w);
    DisjointExactlyWhenBridgeless(C, finalize, QuestionExtraction(w), OpenQuestion, transcript);
  }

  // ----- a meeting in which the condition fails

  /** On the texts below, what the source's patterns say. */
  function English(): Wording { Wording(t => '?' in t, _ => false, t => Contains(t, " owns "), _ => 7) }

  const LONG := Segment("s", "who?", 100.0, 700.0)
  const FIRST_ANSWER := Segment("r", "ann owns it", 200.0, 210.0)
  const EARLY := Segment("a", "who?", 250.0, 300.0)
  const SECOND_ANSWER := Segment("q", "ann owns it", 400.0, 410.0)
  const MIDDLE := Segment("b", "who?", 550.0, 600.0)
  const CLOSING := Segment("z", "bye", 800.0, 900.0)
  const MEETING := [LONG, FIRST_ANSWER, EARLY, SECOND_ANSWER, MIDDLE, CLOSING]

  lemma FirstStaysFirst(s: Segment, segs: seq<Segment>)
    requires OrderedSegments(segs) == segs && (segs != [] ==> s.start <= segs[0].start)
    ensures OrderedSegments([s] + segs) == [s] + segs
  {
    assert ([s] + segs)[1..] == segs;
  }

  lemma MeetingIsOrdered()
    ensures AllTimed(MEETING) && UniqueIds(MEETING) && OrderedSegments(MEETING) == MEETING
  {
    hide OrderedSegments, UniqueIds;
    MeetingIdsDiffer();
    MeetingParts();
    NothingIsOrdered();
    FirstStaysFirst(CLOSING, []);
    FirstStaysFirst(MIDDLE, [CLOSING]);
    FirstStaysFirst(SECOND_ANSWER, [MIDDLE, CLOSING]);
    FirstStaysFirst(EARLY, [SECOND_ANSWER, MIDDLE, CLOSING]);
    FirstStaysFirst(FIRST_ANSWER, [EARLY, SECOND_ANSWER, MIDDLE, CLOSING]);
    FirstStaysFirst(LONG, [FIRST_ANSWER, EARLY, SECOND_ANSWER, MIDDLE, CLOSING]);
  }

  lemma NothingIsOrdered()
    ensures OrderedSegments([]) == []
  {
  }

  lemma MeetingParts()
    ensures [CLOSING] + [] == [CLOSING] && [MIDDLE] + [CLOSING] == [MIDDLE, CLOSING]
    ensures [SECOND_ANSWER] + [MIDDLE, CLOSING] == [SECOND_ANSWER, MIDDLE, CLOSING]
    ensures [EARLY] + [SECOND_ANSWER, MIDDLE, CLOSING] == [EARLY, SECOND_ANSWER, MIDDLE, CLOSING]
    ensures [FIRST_ANSWER] + [EARLY, SECOND_ANSWER, MIDDLE, CLOSING] ==
        [FIRST_ANSWER, EARLY, SECOND_ANSWER, MIDDLE, CLOSING]
    ensures [LONG] + [FIRST_ANSWER, EARLY, SECOND_ANSWER, MIDDLE, CLOSING] == MEETING
  {
  }

  lemma MeetingIdsDiffer()
    ensures UniqueIds(MEETING)
  {
    var ids := "sraqbz";
    forall s, t | s in MEETING && t in MEETING && s.id == t.id ensures s == t {
      var i :| 0 <= i < 6 && MEETING[i] == s;
      var j :| 0 <= j < 6 && MEETING[j] == t;
      assert s.id[0] == ids[i] && t.id[0] == ids[j];
    }
  }

  lemma MeetingEnds()
    ensures MaxEnd(MEETING) == 900.0 && 300.0 in Ends(MEETING) && 600.0 in Ends(MEETING) && 900.0 in Ends(MEETING)
  {
    hide MaxEnd, Ends;
    assert EARLY in MEETING && MIDDLE in MEETING && CLOSING in MEETING;
    assert MaxEnd(MEETING) in Ends(MEETING);
    var s :| s in MEETING && s.end == MaxEnd(MEETING);
  }

  function Pick(s: Segment, lo: real, hi: real): seq<Segment> { if s.start < hi && s.end > lo then [s] else [] }

  lemma PickFirst(s: Segment, segs: seq<Segment>, lo: real, hi: real)
    ensures SegmentsIn([s] + segs, lo, hi) == Pick(s, lo, hi) + SegmentsIn(segs, lo, hi)
    ensures SegmentsIn([], lo, hi) == []
  {
    assert ([s] + segs)[1..] == segs;
  }

  lemma {:induction false} PickEach(lo: real, hi: real)
    ensures SegmentsIn(MEETING, lo, hi) ==
              Pick(LONG, lo, hi) + (Pick(FIRST_ANSWER, lo, hi) + (Pick(EARLY, lo, hi)
                + (Pick(SECOND_ANSWER, lo, hi) + (Pick(MIDDLE, lo, hi) + Pick(CLOSING, lo, hi)))))
  {
    hide SegmentsIn, Pick;
    PickFirst(CLOSING, [], lo, hi);
    PickFirst(MIDDLE, [CLOSING], lo, hi);
    PickFirst(SECOND_ANSWER, [MIDDLE, CLOSING], lo, hi);
    PickFirst(EARLY, [SECOND_ANSWER, MIDDLE, CLOSING], lo, hi);
    PickFirst(FIRST_ANSWER, [EARLY, SECOND_ANSWER, MIDDLE, CLOSING], lo, hi);
    PickFirst(LONG, [FIRST_ANSWER, EARLY, SECOND_ANSWER, MIDDLE, CLOSING], lo, hi);
    MeetingParts();
    assert Pick(CLOSING, lo, hi) + [] == Pick(CLOSING, lo, hi);
  }

  lemma MeetingWindows()
    ensures SegmentsIn(MEETING, 0.0, 300.0) == [LONG, FIRST_ANSWER, EARLY]
    ensures SegmentsIn(MEETING, 300.0, 600.0) == [LONG, SECOND_ANSWER, MIDDLE]
    ensures SegmentsIn(MEETING, 600.0, 900.0) == [LONG, CLOSING]
  {
    hide SegmentsIn;
    PickEach(0.0, 300.0);
    PickEach(300.0, 600.0);
    PickEach(600.0, 900.0);
  }

  function MeetingChapter(k: nat): Chapter
    requires k < 3
  {
    var start := if k == 0 then 0.0 else if k == 1 then 300.0 else 600.0;
    Chapter(k, start, start + 300.0, SemanticAdjustment, SegmentsIn(MEETING, start, start + 300.0))
  }

  lemma {:induction false} MeetingTurn(k: nat)
    requires k < 3
    ensures var c := MeetingChapter(k); TakeTurn(300.0, false, MEETING, c.windowStart, k) == Emit(c, c.windowEnd)
  {
    hide SegmentsIn, Window, MaxEnd, Ends, KeepPartialWindow;
    MeetingEnds();
    MeetingWindows();
    NominalWindow(300.0, MEETING, MeetingChapter(k).windowStart);
  }

  lemma ThreeTurns(segs: seq<Segment>, c0: Chapter, c1: Chapter, c2: Chapter)
    requires segs != [] && MaxEnd(segs) == 900.0
    requires c0.windowEnd == 300.0 && c1.windowEnd == 600.0 && c2.windowEnd == 900.0
    requires TakeTurn(300.0, false, segs, 0.0, 0) == Emit(c0, c0.windowEnd)
    requires TakeTurn(300.0, false, segs, 300.0, 1) == Emit(c1, c1.windowEnd)
    requires TakeTurn(300.0, false, segs, 600.0, 2) == Emit(c2, c2.windowEnd)
    ensures ChapterSummaries(300.0, false, segs) == [c0, c1, c2]
  {
    hide TakeTurn, MaxEnd, ChaptersFrom;
    Unfold(300.0, false, segs, 0.0, 0);
    Unfold(300.0, false, segs, 300.0, 1);
    Unfold(300.0, false, segs, 600.0, 2);
    Unfold(300.0, false, segs, 900.0, 3);
    assert ChaptersFrom(300.0, false, segs, 600.0, 2) == [c2];
    assert ChaptersFrom(300.0, false, segs, 300.0, 1) == [c1, c2];
    assert ChaptersFrom(300.0, false, segs, 0.0, 0) == [c0, c1, c2];
  }

  lemma MeetingChapters()
    ensures ChapterSummaries(300.0, false, MEETING) == [MeetingChapter(0), MeetingChapter(1), MeetingChapter(2)]
  {
    hide TakeTurn, MaxEnd, ChapterSummaries, MeetingChapter;
    MeetingEnds();
    MeetingTurn(0);
    MeetingTurn(1);
    MeetingTurn(2);
    MeetingTimes();
    ThreeTurns(MEETING, MeetingChapter(0), MeetingChapter(1), MeetingChapter(2));
  }

  lemma MeetingTimes()
    ensures MeetingChapter(0).windowStart == 0.0
            && MeetingChapter(0).windowEnd == MeetingChapter(1).windowStart == 300.0
    ensures MeetingChapter(1).windowEnd == MeetingChapter(2).windowStart == 600.0
            && MeetingChapter(2).windowEnd == 900.0
  {
  }

  // ----- what its chapters contribute

  function Asked(k: nat, s: Segment): Record {
    Record(RecordId(k, OpenQuestion, 7), k, s.text, 7, None, [s.id], Draft, 0.61, Some(s.start), Some(s.end))
  }

  lemma Settled()
    ensures English().settles("ann owns it who?") && !English().settles("") && !English().settles("bye")
  {
    assert StandsAt("ann owns it who?", " owns ", 3);
  }

  lemma QuestionStep(w: Wording, s: Segment, later: seq<Segment>)
    ensures Questions(w, [s] + later) ==
              (if s.text != "" && w.asks(s.text) then [QuestionItem(w, s, w.settles(JoinTexts(later)))] else [])
                  + Questions(w, later)
    ensures Questions(w, []) == []
  {
    assert ([s] + later)[1..] == later;
  }

  /** The long question is settled in a chapter where somebody answers behind it; the one at the chapter's end is
      not. */
  lemma AnsweredChapter(answer: Segment, last: Segment)
    requires answer.text == "ann owns it" && last.text == "who?"
    ensures Questions(English(), [LONG, answer, last]) ==
        [QuestionItem(English(), LONG, true), QuestionItem(English(), last, false)]
  {
    var w := English();
    Settled();
    QuestionStep(w, last, []);
    QuestionStep(w, answer, [last]);
    QuestionStep(w, LONG, [answer, last]);
    assert [last] + [] == [last] && [answer] + [last] == [answer, last]
        && [LONG] + [answer, last] == [LONG, answer, last];
    assert JoinTexts([]) == "" && JoinTexts([last]) == "who?";
    assert [answer, last][1..] == [last];
    assert JoinTexts([answer, last]) == "ann owns it who?";
    assert '?' in "who?" && '?' !in "ann owns it" by { assert "who?"[3] == '?'; }
    hide English, Questions, QuestionItem, JoinTexts, Contains;
  }

  lemma LastChapter()
    ensures Questions(English(), [LONG, CLOSING]) == [QuestionItem(English(), LONG, false)]
  {
    var w := English();
    Settled();
    QuestionStep(w, CLOSING, []);
    QuestionStep(w, LONG, [CLOSING]);
    assert [CLOSING] + [] == [CLOSING] && [LONG] + [CLOSING] == [LONG, CLOSING];
    assert JoinTexts([CLOSING]) == "bye";
    assert '?' in "who?" && '?' !in "bye" by { assert "who?"[3] == '?'; }
    hide English, Questions, QuestionItem, JoinTexts, Contains;
  }

  /** Of a settled question and an open one, only the open one is drafted. */
  lemma OneDraft(k: nat, s: Segment)
    ensures var settled, open := QuestionItem(English(), LONG, true), QuestionItem(English(), s, false);
            && ChapterRecords(OpenQuestion, k, [open]) == [Asked(k, s)]
            && ChapterRecords(OpenQuestion, k, [settled, open]) == [Asked(k, s)]
  {
    hide Dedupe;
    var settled, open := QuestionItem(English(), LONG, true), QuestionItem(English(), s, false);
    assert [open][1..] == [] && [settled, open][1..] == [open];
    assert Drafts(OpenQuestion, k, [open]) == [Asked(k, s)];
    SingleRetained(SameId, Asked(k, s));
  }

  lemma StreamSteps(extract: Extraction, segs: seq<Segment>, c0: Chapter, c1: Chapter, c2: Chapter)
    ensures Stream(extract, OpenQuestion, segs, [c0, c1, c2]) ==
              ChapterRecords(OpenQuestion, c0.index,
                  extract(OpenQuestion, SegmentsIn(segs, c0.windowStart, c0.windowEnd)))
                + ChapterRecords(OpenQuestion, c1.index,
                    extract(OpenQuestion, SegmentsIn(segs, c1.windowStart, c1.windowEnd)))
                + ChapterRecords(OpenQuestion, c2.index,
                    extract(OpenQuestion, SegmentsIn(segs, c2.windowStart, c2.windowEnd)))
  {
    hide ChapterRecords, SegmentsIn;
    assert [c0, c1, c2][..2] == [c0, c1] && [c0, c1][..1] == [c0] && [c0][..0] == [];
    var none: seq<Chapter> := [];
    assert Stream(extract, OpenQuestion, segs, none) == [];
    var r0 := ChapterRecords(OpenQuestion, c0.index,
        extract(OpenQuestion, SegmentsIn(segs, c0.windowStart, c0.windowEnd)));
    assert Stream(extract, OpenQuestion, segs, [c0]) == [] + r0 == r0;
    assert Stream(extract, OpenQuestion, segs, [c0, c1]) ==
             r0 + ChapterRecords(OpenQuestion, c1.index,
                 extract(OpenQuestion, SegmentsIn(segs, c1.windowStart, c1.windowEnd)));
  }

  lemma MeetingStream()
    ensures Stream(QuestionExtraction(English()), OpenQuestion, MEETING, ChapterSummaries(300.0, false, MEETING))
         == [Asked(0, EARLY), Asked(1, MIDDLE), Asked(2, LONG)]
  {
    hide ChapterSummaries, ChapterRecords, SegmentsIn, English, Asked, Stream, Questions, QuestionItem;
    MeetingChapters();
    MeetingWindows();
    AnsweredChapter(FIRST_ANSWER, EARLY);
    AnsweredChapter(SECOND_ANSWER, MIDDLE);
    LastChapter();
    OneDraft(0, EARLY);
    OneDraft(1, MIDDLE);
    OneDraft(2, LONG);
    StreamSteps(QuestionExtraction(English()), MEETING, MeetingChapter(0), MeetingChapter(1), MeetingChapter(2));
  }

  /** The long question, settled in the first two chapters, is open in the third and bridges the two that were asked
      last in theirs. The merge joins it to the first of them only, so the generated questions of one text overlap and
      a second merge changes them. */
  lemma QuestionsNeedAnotherRun()
    ensures AllTimed(MEETING) && UniqueIds(MEETING)
    ensures var out := GeneratedRecords(300.0, false, QuestionExtraction(English()), OpenQuestion, MEETING);
            && |out| == 2 && |Dedupe(AcrossChapters, out)| == 1
            && out[0].key == out[1].key && WindowsOverlap(out[0], out[1])
  {
    hide ChapterSummaries, Stream, QuestionExtraction, OrderedSegments, Dedupe, Absorb, AllTimed, UniqueIds;
    MeetingIsOrdered();
    MeetingStream();
    AskedMatch();
    BridgeNeedsAnotherRun(Asked(0, EARLY), Asked(1, MIDDLE), Asked(2, LONG));
  }

  lemma AskedMatch()
    ensures var a, b, c := Asked(0, EARLY), Asked(1, MIDDLE), Asked(2, LONG);
            && !Matches(AcrossChapters, a, b) && Matches(AcrossChapters, a, c)
            && Matches(AcrossChapters, Absorb(AcrossChapters, a, c), b)
            && Absorb(AcrossChapters, a, c).key == b.key && WindowsOverlap(Absorb(AcrossChapters, a, c), b)
  {
    var a, b := Asked(0, EARLY), Asked(1, MIDDLE);
    assert "a"[0] != "b"[0];
    assert a.refs == ["a"] && b.refs == ["b"];
    assert !SharesReference(a, b);
  }
}
