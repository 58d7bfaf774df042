/** The generated records of a meeting: the record stream of its chapters, merged across chapters. Extraction
    is an arbitrary function of a chapter's segments whose items each come from one of those segments. */
module Materializer {
  import opened Options
  import opened Sorting
  import opened ChapterBoundary
  import opened ChapterBuilder
  import opened ChapterStability
  import opened ChapterCoverage
  import opened RecordDedupe
  import opened DedupePartition

  type Extraction = (Kind, seq<Segment>) -> seq<Item>

  /** The item carries the reference and the window of the segment. */
  predicate ItemOf(item: Item, s: Segment) {
    item.refs == [s.id] && item.start == Some(s.start) && item.end == Some(s.end)
  }

  ghost predicate Sourced(extract: Extraction) {
    forall kind, segs, item | item in extract(kind, segs) :: exists s :: s in segs && ItemOf(item, s)
  }

  function StartKey(): Segment -> real { (s: Segment) => s.start }

  function OrderedSegments(transcript: seq<Segment>): seq<Segment> { StableSort(StartKey(), transcript) }

  /** The records all chapters contribute, in chapter order. */
  function Stream(extract: Extraction, kind: Kind, segs: seq<Segment>, chapters: seq<Chapter>): seq<Record> {
    if chapters == [] then []
    else
      var c := chapters[|chapters| - 1];
      Stream(extract, kind, segs, chapters[..|chapters| - 1])
        + ChapterRecords(kind, c.index, extract(kind, SegmentsIn(segs, c.windowStart, c.windowEnd)))
  }

  function GeneratedRecords(C: real, finalize: bool, extract: Extraction, kind: Kind,
        transcript: seq<Segment>): seq<Record>
  {
    var segs := OrderedSegments(transcript);
    Dedupe(AcrossChapters, Stream(extract, kind, segs, ChapterSummaries(C, finalize, segs)))
  }

  /** One kind of the materialisation as the server builds it. */
  method BuildGeneratedRecords(C: real, finalize: bool, extract: Extraction, kind: Kind, transcript: seq<Segment>)
    returns (records: seq<Retained>)
    ensures Values(records) == GeneratedRecords(C, finalize, extract, kind, transcript)
  {
    hide Dedupe, ChapterSummaries, SegmentsIn, ChapterRecords, OrderedSegments;
    var segs := OrderedSegments(transcript);
    var chapters := BuildChapterSummaries(C, finalize, segs);
    var stream := [];
    for n := 0 to |chapters|
      invariant stream == Stream(extract, kind, segs, chapters[..n])
    {
      var window := SegmentsIn(segs, chapters[n].windowStart, chapters[n].windowEnd);
      stream := stream + ChapterRecords(kind, chapters[n].index, extract(kind, window));
      assert chapters[..n + 1][..n] == chapters[..n];
    }
    assert chapters[..|chapters|] == chapters;
    records := DedupeInPlace(AcrossChapters, stream);
  }

  // ----- what one chapter contributes

  /** The item is drafted for this kind: every one but a rhetorical, resolved or answered open question. */
  predicate Eligible(kind: Kind, item: Item) {
    kind.OpenQuestion? ==> !item.signals.rhetorical && !item.signals.resolved && !item.signals.answerDetected
  }

  lemma {:induction false} SameIdGroup(records: seq<Record>, k: nat, i: nat)
    requires k < |Dedupe(SameId, records)| && i in Groups(SameId, records)[k]
    ensures i < |records| && records[i].id == Dedupe(SameId, records)[k].id
  {
    var n := |records| - 1;
    var before := Groups(SameId, records[..n]);
    if k < |before| && i in before[k] {
      SameIdGroup(records[..n], k, i);
    }
  }

  lemma {:induction false} SameIdDistinct(records: seq<Record>)
    ensures DistinctIds(Dedupe(SameId, records))
  {
    if records != [] {
      var n := |records| - 1;
      SameIdDistinct(records[..n]);
      var kept := Dedupe(SameId, records[..n]);
      var f := FirstMatch(SameId, kept, records[n]);
      assert forall j | 0 <= j < f :: !Matches(SameId, kept[j], records[n]);
    }
  }

  /** A record of a chapter has the chapter's id for its text and spans exactly the chapter's items of that text. */
  ghost predicate Spans(r: Record, kind: Kind, chapter: nat, items: seq<Item>) {
    && r.id == RecordId(chapter, kind, r.key)
    && (exists item :: item in items && Eligible(kind, item) && item.key == r.key && item.start == r.start)
    && (exists item :: item in items && Eligible(kind, item) && item.key == r.key && item.end == r.end)
    && (forall x | x in r.refs :: exists item ::
         item in items && Eligible(kind, item) && item.key == r.key && x in item.refs)
    && (forall item | item in items && Eligible(kind, item) && item.key == r.key ::
          && (item.start.Some? ==> r.start.Some? && r.start.value <= item.start.value)
          && (item.end.Some? ==> r.end.Some? && item.end.value <= r.end.value))
  }

  lemma DraftsOf(kind: Kind, chapter: nat, items: seq<Item>, d: Record) returns (item: Item)
    requires d in Drafts(kind, chapter, items)
    ensures item in items && Eligible(kind, item) && d == DraftRecord(kind, chapter, item)
  {
    item :| item in items && (kind.OpenQuestion? ==> Unresolved(item)) && d == DraftRecord(kind, chapter, item);
  }

  lemma {:induction false} GroupDraft(kind: Kind, chapter: nat, items: seq<Item>, k: nat,
        m: Record) returns (item: Item)
    requires k < |ChapterRecords(kind, chapter, items)|
    requires var drafts := Drafts(kind, chapter, items);
             Within(Groups(SameId, drafts)[k], |drafts|) && m in Members(drafts, Groups(SameId, drafts)[k])
    ensures item in items && Eligible(kind, item) && m == DraftRecord(kind, chapter, item)
    ensures m.id == ChapterRecords(kind, chapter, items)[k].id
  {
    hide Dedupe, Groups, Drafts;
    var drafts := Drafts(kind, chapter, items);
    var g := Groups(SameId, drafts)[k];
    var p :| 0 <= p < |g| && Members(drafts, g)[p] == m;
    SameIdGroup(drafts, k, g[p]);
    item := DraftsOf(kind, chapter, items, m);
  }

  /** An item's draft went into the record with its id. */
  lemma ItemIsMember(kind: Kind, chapter: nat, items: seq<Item>, k: nat, item: Item)
    requires k < |ChapterRecords(kind, chapter, items)| && item in items && Eligible(kind, item)
    requires ChapterRecords(kind, chapter, items)[k].id == RecordId(chapter, kind, item.key)
    ensures var drafts := Drafts(kind, chapter, items);
            Within(Groups(SameId, drafts)[k], |drafts|)
                && DraftRecord(kind, chapter, item) in Members(drafts, Groups(SameId, drafts)[k])
  {
    hide Dedupe, Groups, Drafts, RetainsGroup;
    var drafts := Drafts(kind, chapter, items);
    var groups := Groups(SameId, drafts);
    DedupePartitions(SameId, drafts);
    SameIdDistinct(drafts);
    var d := DraftRecord(kind, chapter, item);
    DraftOf(kind, chapter, items, item);
    var i: nat :| i < |drafts| && drafts[i] == d;
    assert Held(groups, i);
    var l :| 0 <= l < |groups| && i in groups[l];
    SameIdGroup(drafts, l, i);
    assert l == k;
    var p :| 0 <= p < |groups[k]| && groups[k][p] == i;
    assert Members(drafts, groups[k])[p] == d;
  }

  lemma DraftOf(kind: Kind, chapter: nat, items: seq<Item>, item: Item)
    requires item in items && Eligible(kind, item)
    ensures DraftRecord(kind, chapter, item) in Drafts(kind, chapter, items)
  {
  }

  lemma ItemWithin(kind: Kind, chapter: nat, items: seq<Item>, k: nat, item: Item)
    requires k < |ChapterRecords(kind, chapter, items)| && item in items && Eligible(kind, item)
    requires ChapterRecords(kind, chapter, items)[k].id == RecordId(chapter, kind, item.key)
    ensures var r := ChapterRecords(kind, chapter, items)[k];
            && (item.start.Some? ==> r.start.Some? && r.start.value <= item.start.value)
            && (item.end.Some? ==> r.end.Some? && item.end.value <= r.end.value)
  {
    hide Dedupe, Groups, Drafts, Members, TakesFirst;
    ItemIsMember(kind, chapter, items, k, item);
    var drafts := Drafts(kind, chapter, items);
    DedupePartitions(SameId, drafts);
    assert RetainsGroup(SameId, drafts, k);
  }

  lemma RefsComeFromItems(kind: Kind, chapter: nat, items: seq<Item>, k: nat, x: string)
    requires k < |ChapterRecords(kind, chapter, items)| && x in ChapterRecords(kind, chapter, items)[k].refs
    ensures var r := ChapterRecords(kind, chapter, items)[k];
            exists item ::
                item in items && Eligible(kind, item) && RecordId(chapter, kind, item.key) == r.id && x in item.refs
  {
    hide Dedupe, Groups, Drafts, Members, TakesFirst;
    var drafts := Drafts(kind, chapter, items);
    DedupePartitions(SameId, drafts);
    assert RetainsGroup(SameId, drafts, k);
    var m :| m in Members(drafts, Groups(SameId, drafts)[k]) && x in m.refs;
    var item := GroupDraft(kind, chapter, items, k, m);
  }

  lemma WindowComesFromItems(kind: Kind, chapter: nat, items: seq<Item>, k: nat)
    requires k < |ChapterRecords(kind, chapter, items)|
    ensures var r := ChapterRecords(kind, chapter, items)[k];
            && r.id == RecordId(chapter, kind, r.key)
            && (exists item :: item in items && Eligible(kind, item) && item.key == r.key && item.start == r.start)
            && (exists item :: item in items && Eligible(kind, item) && item.key == r.key && item.end == r.end)
  {
    hide Dedupe, Groups, Drafts, Members, TakesFirst;
    var drafts := Drafts(kind, chapter, items);
    var r := ChapterRecords(kind, chapter, items)[k];
    DedupePartitions(SameId, drafts);
    assert RetainsGroup(SameId, drafts, k);
    var members := Members(drafts, Groups(SameId, drafts)[k]);
    var first := GroupDraft(kind, chapter, items, k, members[0]);
    var s :| s in members && s.start == r.start;
    var si := GroupDraft(kind, chapter, items, k, s);
    var e :| e in members && e.end == r.end;
    var ei := GroupDraft(kind, chapter, items, k, e);
  }

  lemma ChapterRecordSpans(kind: Kind, chapter: nat, items: seq<Item>, k: nat)
    requires k < |ChapterRecords(kind, chapter, items)|
    ensures Spans(ChapterRecords(kind, chapter, items)[k], kind, chapter, items)
  {
    hide ChapterRecords, Eligible;
    WindowComesFromItems(kind, chapter, items, k);
    var r := ChapterRecords(kind, chapter, items)[k];
    forall x | x in r.refs
      ensures exists item :: item in items && Eligible(kind, item) && item.key == r.key && x in item.refs
    {
      RefsComeFromItems(kind, chapter, items, k, x);
    }
    forall item | item in items && Eligible(kind, item) && item.key == r.key
      ensures (item.start.Some? ==> r.start.Some? && r.start.value <= item.start.value)
      ensures (item.end.Some? ==> r.end.Some? && item.end.value <= r.end.value)
    {
      ItemWithin(kind, chapter, items, k, item);
    }
  }

  // ----- every refresh keeps earlier records

  lemma {:induction false} StreamOfPrefix(extract: Extraction, kind: Kind, segs: seq<Segment>, chapters: seq<Chapter>,
        more: seq<Chapter>)
    ensures Stream(extract, kind, segs, chapters) <= Stream(extract, kind, segs, chapters + more)
  {
    hide ChapterRecords, SegmentsIn;
    if more == [] {
      assert chapters + more == chapters;
    } else {
      StreamOfPrefix(extract, kind, segs, chapters, more[..|more| - 1]);
      assert (chapters + more)[..|chapters + more| - 1] == chapters + more[..|more| - 1];
    }
  }

  /** Chapters that end before the added transcript contribute the same records. */
  lemma {:induction false} StreamIsStable(extract: Extraction, kind: Kind, segs: seq<Segment>, added: seq<Segment>,
        chapters: seq<Chapter>)
    requires segs != [] && Follows(segs, added) && forall c | c in chapters :: c.windowEnd <= MaxEnd(segs)
    ensures Stream(extract, kind, segs + added, chapters) == Stream(extract, kind, segs, chapters)
  {
    hide ChapterRecords, SegmentsIn, MaxEnd;
    if chapters != [] {
      var c := chapters[|chapters| - 1];
      assert c in chapters;
      assert forall d | d in chapters[..|chapters| - 1] :: d in chapters;
      StreamIsStable(extract, kind, segs, added, chapters[..|chapters| - 1]);
      SegmentsInAppend(segs, added, c.windowStart, c.windowEnd);
    }
  }

  lemma ChapterRecordStarts(kind: Kind, chapter: nat, items: seq<Item>)
    requires forall item | item in items :: item.start.Some?
    ensures KnownStarts(ChapterRecords(kind, chapter, items))
  {
    hide Dedupe, Drafts;
    DedupeStarts(SameId, Drafts(kind, chapter, items));
  }

  lemma {:induction false} StreamStarts(extract: Extraction, kind: Kind, segs: seq<Segment>, chapters: seq<Chapter>)
    requires Sourced(extract)
    ensures KnownStarts(Stream(extract, kind, segs, chapters))
  {
    hide ChapterRecords, SegmentsIn;
    if chapters != [] {
      var c := chapters[|chapters| - 1];
      StreamStarts(extract, kind, segs, chapters[..|chapters| - 1]);
      ChapterRecordStarts(kind, c.index, extract(kind, SegmentsIn(segs, c.windowStart, c.windowEnd)));
    }
  }

  lemma {:induction false} OrderedAppend(transcript: seq<Segment>, added: seq<Segment>)
    requires AllTimed(transcript) && Follows(transcript, added)
    ensures OrderedSegments(transcript + added) == OrderedSegments(transcript) + OrderedSegments(added)
    ensures Follows(OrderedSegments(transcript), OrderedSegments(added))
    ensures (OrderedSegments(transcript) == [] <==> transcript == []) && (OrderedSegments(added) == [] <==> added == [])
  {
    hide MaxEnd, StableSort;
    var key := StartKey();
    forall x, y | x in transcript && y in added ensures key(x) <= key(y) {
      assert x.end <= MaxEnd(transcript);
    }
    SortOfAppend(key, transcript, added);
    StableSortSorts(key, transcript);
    StableSortSorts(key, added);
    if transcript != [] {
      MaxEndOfSameMembers(transcript, OrderedSegments(transcript));
    }
  }

  lemma MaxEndOfSameMembers(segs: seq<Segment>, segs': seq<Segment>)
    requires segs != [] && segs' != [] && forall s :: s in segs' <==> s in segs
    ensures MaxEnd(segs) == MaxEnd(segs')
  {
    hide MaxEnd, Ends;
    assert MaxEnd(segs) in Ends(segs) && MaxEnd(segs') in Ends(segs');
    var a :| a in segs && a.end == MaxEnd(segs);
    var b :| b in segs' && b.end == MaxEnd(segs');
  }

  /** The id-stability theorem. Rebuilding everything over a longer transcript, or for the final time, keeps every
      generated record in its place with its id, its chapter and its promotion; finalising without any new
      transcript needs the last chapter not to be lost. */
  lemma {:induction false} RefreshKeepsRecords(C: real, finalize: bool, extract: Extraction, kind: Kind,
        transcript: seq<Segment>, added: seq<Segment>)
    requires AllTimed(transcript) && Follows(transcript, added) && Sourced(extract) && C >= MIN_CHAPTER_WINDOW
    requires finalize && added == [] ==> !LosesLastChapter(C, OrderedSegments(transcript))
    ensures Grows(GeneratedRecords(C, false, extract, kind, transcript),
        GeneratedRecords(C, finalize, extract, kind, transcript + added))
  {
    hide Dedupe, Stream, ChapterSummaries, OrderedSegments, Grows, SegmentsIn;
    var segs, segs' := OrderedSegments(transcript), OrderedSegments(transcript + added);
    OrderedAppend(transcript, added);
    var chapters, chapters' := ChapterSummaries(C, false, segs), ChapterSummaries(C, finalize, segs');
    var stream, stream' := Stream(extract, kind, segs, chapters), Stream(extract, kind, segs', chapters');
    assert chapters <= chapters' && stream <= stream' by {
      RefreshKeepsStream(C, finalize, extract, kind, segs, OrderedSegments(added));
    }
    StreamStarts(extract, kind, segs', chapters');
    assert stream + stream'[|stream|..] == stream';
    assert forall r | r in stream'[|stream|..] :: r in stream';
    StreamStarts(extract, kind, segs, chapters);
    DedupeGrows(AcrossChapters, stream, stream'[|stream|..]);
  }

  lemma {:induction false} RefreshKeepsStream(C: real, finalize: bool, extract: Extraction, kind: Kind,
        segs: seq<Segment>, added: seq<Segment>)
    requires Follows(segs, added) && C >= MIN_CHAPTER_WINDOW
    requires finalize && added == [] ==> !LosesLastChapter(C, segs)
    ensures var chapters, chapters' := ChapterSummaries(C, false, segs), ChapterSummaries(C, finalize, segs + added);
            && chapters <= chapters'
            && Stream(extract, kind, segs, chapters) <= Stream(extract, kind, segs + added, chapters')
  {
    hide Stream, ChaptersFrom, SegmentsIn;
    var chapters, chapters' := ChapterSummaries(C, false, segs), ChapterSummaries(C, finalize, segs + added);
    if segs == [] {
      EmptyStream(extract, kind, segs);
    } else {
      if finalize && added == [] {
        assert segs + added == segs;
        FinalizeKeepsChapters(C, segs);
      } else {
        ChaptersSurviveAppends(C, finalize, segs, added);
      }
      ChaptersTile(C, false, segs);
      StreamIsStable(extract, kind, segs, added, chapters);
      StreamOfPrefix(extract, kind, segs + added, chapters, chapters'[|chapters|..]);
      assert chapters + chapters'[|chapters|..] == chapters';
    }
  }

  lemma EmptyStream(extract: Extraction, kind: Kind, segs: seq<Segment>)
    ensures Stream(extract, kind, segs, []) == []
  {
  }

  // ----- ids are unique

  lemma ChapterRecordIds(kind: Kind, chapter: nat, items: seq<Item>)
    ensures DistinctIds(ChapterRecords(kind, chapter, items))
    ensures forall r | r in ChapterRecords(kind, chapter, items) :: r.id == RecordId(chapter, kind, r.key)
  {
    hide Dedupe, Drafts;
    SameIdDistinct(Drafts(kind, chapter, items));
    forall r | r in ChapterRecords(kind, chapter, items) ensures r.id == RecordId(chapter, kind, r.key) {
      var k: nat :| k < |ChapterRecords(kind, chapter, items)| && ChapterRecords(kind, chapter, items)[k] == r;
      ChapterRecordSpans(kind, chapter, items, k);
    }
  }

  lemma {:induction false} StreamIds(extract: Extraction, kind: Kind, segs: seq<Segment>, chapters: seq<Chapter>)
    requires forall i | 0 <= i < |chapters| :: chapters[i].index == i
    ensures DistinctIds(Stream(extract, kind, segs, chapters))
    ensures forall r | r in Stream(extract, kind, segs, chapters) :: r.id.chapter < |chapters|
  {
    hide ChapterRecords, SegmentsIn;
    if chapters != [] {
      var n := |chapters| - 1;
      var front := Stream(extract, kind, segs, chapters[..n]);
      StreamIds(extract, kind, segs, chapters[..n]);
      var items := extract(kind, SegmentsIn(segs, chapters[n].windowStart, chapters[n].windowEnd));
      ChapterRecordIds(kind, n, items);
      var all := Stream(extract, kind, segs, chapters);
      assert all == front + ChapterRecords(kind, n, items);
      forall i, j | 0 <= i < j < |all| ensures all[i].id != all[j].id {
        if i < |front| <= j {
          assert front[i] in front && all[j] in ChapterRecords(kind, n, items);
        }
      }
    }
  }

  /** The ids of the generated records of one kind are pairwise distinct. */
  lemma {:induction false} GeneratedIdsAreUnique(C: real, finalize: bool, extract: Extraction, kind: Kind,
        transcript: seq<Segment>)
    ensures DistinctIds(GeneratedRecords(C, finalize, extract, kind, transcript))
  {
    hide Dedupe, Stream, ChaptersFrom, SegmentsIn, StableSort;
    var segs := OrderedSegments(transcript);
    var chapters := ChapterSummaries(C, finalize, segs);
    if segs != [] {
      ChaptersTile(C, finalize, segs);
    }
    StreamIds(extract, kind, segs, chapters);
    DedupeKeepsIdsDistinct(AcrossChapters, Stream(extract, kind, segs, chapters));
  }

  // ----- finalising without new transcript

  lemma ChapterRecordChapter(kind: Kind, chapter: nat, items: seq<Item>, r: Record)
    requires r in ChapterRecords(kind, chapter, items)
    ensures r.chapter == chapter && r.id.chapter == chapter
  {
    hide Dedupe, Groups, Drafts, Members, TakesFirst, Summarises;
    var k: nat :| k < |ChapterRecords(kind, chapter, items)| && ChapterRecords(kind, chapter, items)[k] == r;
    var drafts := Drafts(kind, chapter, items);
    DedupePartitions(SameId, drafts);
    assert RetainsGroup(SameId, drafts, k);
    var members := Members(drafts, Groups(SameId, drafts)[k]);
    var item := GroupDraft(kind, chapter, items, k, members[0]);
  }

  lemma {:induction false} StreamChapters(extract: Extraction, kind: Kind, segs: seq<Segment>, chapters: seq<Chapter>,
        r: Record)
    requires (forall i | 0 <= i < |chapters| :: chapters[i].index == i) && r in Stream(extract, kind, segs, chapters)
    ensures r.chapter == r.id.chapter < |chapters|
  {
    hide ChapterRecords, SegmentsIn;
    var n := |chapters| - 1;
    if r in Stream(extract, kind, segs, chapters[..n]) {
      StreamChapters(extract, kind, segs, chapters[..n], r);
    } else {
      ChapterRecordChapter(kind, n, extract(kind, SegmentsIn(segs, chapters[n].windowStart, chapters[n].windowEnd)), r);
    }
  }

  ghost predicate KeepsIds(before: seq<Record>, after: seq<Record>) { forall r | r in before :: HasId(after, r.id) }

  ghost predicate HasId(records: seq<Record>, id: RecordId) { exists r :: r in records && r.id == id }

  /** Some retained record belongs to this chapter. */
  ghost predicate HasChapter(records: seq<Record>, chapter: int) { exists r :: r in records && r.chapter == chapter }

  lemma GrownKeepsIds(before: seq<Record>, after: seq<Record>)
    requires Grows(before, after)
    ensures KeepsIds(before, after)
  {
    forall r | r in before ensures HasId(after, r.id) {
      var k :| 0 <= k < |before| && before[k] == r;
      assert after[k] in after;
    }
  }

  /** Without the records of the last chapter, all earlier ids are kept exactly when no retained record belongs to
      it. */
  lemma {:induction false} DroppingAChapter(front: seq<Record>, last: seq<Record>, chapter: nat)
    requires KnownStarts(front) && KnownStarts(last)
    requires forall r | r in front :: r.chapter == r.id.chapter < chapter
    requires forall r | r in last :: r.chapter == r.id.chapter == chapter
    ensures var before, after := Dedupe(AcrossChapters, front + last), Dedupe(AcrossChapters, front);
            KeepsIds(before, after) <==> !HasChapter(before, chapter)
  {
    hide Dedupe;
    var before, after := Dedupe(AcrossChapters, front + last), Dedupe(AcrossChapters, front);
    DedupeGrows(AcrossChapters, front, last);
    forall r | r in after ensures r.chapter == r.id.chapter < chapter {
      KeptFromInput(front, r);
    }
    forall k: nat | |after| <= k < |before| ensures before[k].chapter == before[k].id.chapter == chapter {
      AddedComeFromLater(AcrossChapters, front, last, k);
    }
    forall k: nat | k < |after| ensures before[k].chapter < chapter && before[k].id == after[k].id {
      assert after[k] in after;
    }
    TailHasChapter(before, |after|, chapter);
    if HasChapter(before, chapter) {
      var r :| r in before && r.chapter == chapter;
      var k: nat :| k < |before| && before[k] == r;
      assert !HasId(after, r.id);
    } else {
      forall r | r in before ensures HasId(after, r.id) {
        var k: nat :| k < |before| && before[k] == r;
        assert after[k] in after;
      }
    }
  }

  lemma TailHasChapter(records: seq<Record>, n: nat, chapter: nat)
    requires n <= |records| && forall k: nat | n <= k < |records| :: records[k].chapter == chapter
    ensures n < |records| ==> HasChapter(records, chapter)
  {
    if n < |records| {
      assert records[n] in records;
    }
  }

  lemma {:induction false} KeptFromInput(records: seq<Record>, r: Record)
    requires KnownStarts(records) && r in Dedupe(AcrossChapters, records)
    ensures exists x :: x in records && x.id == r.id && x.chapter == r.chapter
  {
    hide Dedupe;
    var nothing: seq<Record> := [];
    assert nothing + records == records;
    var k: nat :| k < |Dedupe(AcrossChapters, records)| && Dedupe(AcrossChapters, records)[k] == r;
    NothingRetained();
    AddedComeFromLater(AcrossChapters, nothing, records, k);
  }

  lemma NothingRetained()
    ensures Dedupe(AcrossChapters, []) == []
  {
  }

  /** The exact condition on records for finalising without new transcript: with windows up to the maximum length every
      generated record keeps its id if and only if the last chapter is not lost or no record belongs to it. */
  lemma {:induction false} FinalizeKeepsRecordsExactlyWhen(C: real, extract: Extraction, kind: Kind,
        transcript: seq<Segment>)
    requires Sourced(extract) && C <= MAX_CHAPTER_WINDOW
    ensures var segs := OrderedSegments(transcript);
            var before, after := GeneratedRecords(C, false, extract, kind, transcript),
                GeneratedRecords(C, true, extract, kind, transcript);
            KeepsIds(before, after) <==>
              !LosesLastChapter(C, segs) || !HasChapter(before, |ChapterSummaries(C, false, segs)| - 1)
  {
    hide Dedupe, Stream, ChapterSummaries, OrderedSegments, Sourced, LosesLastChapter, KeepsIds, HasChapter, Grows,
        MaxEnd, KnownStarts;
    var segs := OrderedSegments(transcript);
    var chapters, chapters' := ChapterSummaries(C, false, segs), ChapterSummaries(C, true, segs);
    StreamStarts(extract, kind, segs, chapters);
    StreamStarts(extract, kind, segs, chapters');
    if !LosesLastChapter(C, segs) {
      FinalizeKeepsChapters(C, segs);
      StreamOfPrefix(extract, kind, segs, chapters, chapters'[|chapters|..]);
      assert chapters + chapters'[|chapters|..] == chapters';
      var stream, stream' := Stream(extract, kind, segs, chapters), Stream(extract, kind, segs, chapters');
      assert stream' == stream + stream'[|stream|..];
      TailStarts(stream', |stream|);
      DedupeGrows(AcrossChapters, stream, stream'[|stream|..]);
      GrownKeepsIds(Dedupe(AcrossChapters, stream), Dedupe(AcrossChapters, stream'));
    } else {
      FinalizeDropsLastChapter(C, segs);
      LostChapterRecords(C, extract, kind, segs, chapters);
    }
  }

  lemma TailStarts(records: seq<Record>, n: nat)
    requires KnownStarts(records) && n <= |records|
    ensures KnownStarts(records[n..]) && KnownStarts(records[..n])
  {
    assert forall r | r in records[n..] :: r in records;
    assert forall r | r in records[..n] :: r in records;
  }

  lemma {:induction false} LostChapterRecords(C: real, extract: Extraction, kind: Kind, segs: seq<Segment>,
        chapters: seq<Chapter>)
    requires Sourced(extract) && chapters == ChapterSummaries(C, false, segs) != []
    ensures KeepsIds(Dedupe(AcrossChapters, Stream(extract, kind, segs, chapters)),
                     Dedupe(AcrossChapters, Stream(extract, kind, segs, chapters[..|chapters| - 1]))) <==>
              !HasChapter(Dedupe(AcrossChapters, Stream(extract, kind, segs, chapters)), |chapters| - 1)
  {
    hide Dedupe, ChaptersFrom, ChapterRecords, SegmentsIn, Sourced, KeepsIds, HasChapter, MaxEnd, Ends;
    var n := |chapters| - 1;
    ChaptersTile(C, false, segs);
    StreamStarts(extract, kind, segs, chapters);
    var front := Stream(extract, kind, segs, chapters[..n]);
    var last := ChapterRecords(kind, n,
        extract(kind, SegmentsIn(segs, chapters[n].windowStart, chapters[n].windowEnd)));
    assert Stream(extract, kind, segs, chapters) == front + last;
    TailStarts(front + last, |front|);
    assert (front + last)[..|front|] == front && (front + last)[|front|..] == last;
    forall r | r in front ensures r.chapter == r.id.chapter < n {
      StreamChapters(extract, kind, segs, chapters[..n], r);
    }
    forall r | r in last ensures r.chapter == r.id.chapter == n {
      ChapterRecordChapter(kind, n, extract(kind, SegmentsIn(segs, chapters[n].windowStart, chapters[n].windowEnd)), r);
    }
    DroppingAChapter(front, last, n);
  }

  // ----- a record that finalising loses

  /** The decisions among the items of a window, for texts in which "decided" is the only word of decision. */
  function DecidedExtraction(): Extraction {
    (kind: Kind, window: seq<Segment>) => if kind.Decision? then Decisions(window) else []
  }

  function DecisionItem(s: Segment): Item {
    Item(s.text, 7, [s.id], Signals(true, true, true, false, false, false, false, false), None, 0.93, Some(s.start),
        Some(s.end))
  }

  function Decisions(window: seq<Segment>): seq<Item> {
    if window == [] then []
    else (if Contains(window[0].text, "decided") then [DecisionItem(window[0])] else []) + Decisions(window[1..])
  }

  /** One five-minute segment with one decision: a generated record while recording, none at the end of the meeting. */
  lemma FinalizeCanLoseARecord()
    ensures var before := GeneratedRecords(300.0, false, DecidedExtraction(), Decision, [SPARSE]);
            && |before| == 1 && before[0].chapter == 0 && before[0].text == "we decided" && before[0].refs == ["a"]
            && before[0].review.Promoted? && before[0].confidence == 0.93
            && before[0].start == Some(0.0) && before[0].end == Some(300.0)
    ensures GeneratedRecords(300.0, true, DecidedExtraction(), Decision, [SPARSE]) == []
  {
    hide ChapterSummaries, Dedupe, SegmentsIn, Drafts;
    FinalizeCanLoseAChapter();
    SparseMeeting();
    var c := Chapter(0, 0.0, 300.0, SemanticAdjustment, [SPARSE]);
    var r := DraftRecord(Decision, 0, DecisionItem(SPARSE));
    SingleDraft(0, DecisionItem(SPARSE));
    assert [c][..0] == [];
    assert Stream(DecidedExtraction(), Decision, [SPARSE], [c]) == [] + [r] == [r];
    SingleRetained(AcrossChapters, r);
    NothingRetained();
  }

  lemma SparseMeeting()
    ensures OrderedSegments([SPARSE]) == [SPARSE] && SegmentsIn([SPARSE], 0.0, 300.0) == [SPARSE]
    ensures Decisions([SPARSE]) == [DecisionItem(SPARSE)]
  {
    var nothing: seq<Segment> := [];
    assert [SPARSE][1..] == nothing;
    assert StandsAt(SPARSE.text, "decided", 3);
    assert StableSort(StartKey(), nothing) == []
        && StableSort(StartKey(), [SPARSE]) == Insert(StartKey(), SPARSE, nothing) == [SPARSE] + nothing;
    assert Decisions(nothing) == [];
  }

  lemma SingleRetained(rule: Rule, r: Record)
    ensures Dedupe(rule, [r]) == [r]
  {
    hide Absorb, Matches;
    var nothing: seq<Record> := [];
    assert [r][..|[r]| - 1] == nothing && [r][|[r]| - 1] == r;
    assert Dedupe(rule, nothing) == [] && FirstMatch(rule, nothing, r) == 0;
    assert Dedupe(rule, [r]) == nothing + [r];
  }

  lemma SingleDraft(chapter: nat, item: Item)
    ensures ChapterRecords(Decision, chapter, [item]) == [DraftRecord(Decision, chapter, item)]
  {
    hide Dedupe;
    var nothing: seq<Item> := [];
    assert [item][1..] == nothing;
    assert Drafts(Decision, chapter, nothing) == [];
    assert Drafts(Decision, chapter, [item]) == [DraftRecord(Decision, chapter, item)];
    SingleRetained(SameId, DraftRecord(Decision, chapter, item));
  }
}
