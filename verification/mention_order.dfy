/** What the stream of a meeting's chapters means for the merge across chapters: for every kind the exact condition
    under which generated records are the components of overlapping mentions, and that kinds extracted segment by
    segment meet it. */
module MentionOrder {
  import opened Options
  import opened Sorting
  import opened ChapterBuilder
  import opened ChapterCoverage
  import opened RecordDedupe
  import opened DedupeComponents
  import opened Materializer

  /** What is extracted from a window is what its segments mention, each on its own. */
  ghost predicate PerSegment(extract: Extraction, kind: Kind, mentions: Segment -> seq<Item>) {
    && (forall s, item | item in mentions(s) :: ItemOf(item, s))
    && (forall segs, item :: item in extract(kind, segs) <==> exists s :: s in segs && item in mentions(s))
  }

  ghost predicate UniqueIds(segs: seq<Segment>) { forall s, t | s in segs && t in segs && s.id == t.id :: s == t }

  /** Each item of this kind comes from a segment of the window. */
  ghost predicate SourcedFor(extract: Extraction, kind: Kind) {
    forall segs, item | item in extract(kind, segs) :: exists s :: s in segs && ItemOf(item, s)
  }

  /** The record has a window that contains the segments it refers to. */
  ghost predicate Anchored(r: Record, segs: seq<Segment>) {
    && Windowed(r)
    && forall x | x in r.refs :: exists s :: s in segs && s.id == x && r.start.value <= s.start && s.end <= r.end.value
  }

  lemma ChapterRecordAnchored(extract: Extraction, kind: Kind, segs: seq<Segment>, c: Chapter, k: nat)
    requires SourcedFor(extract, kind) && AllTimed(segs)
    requires k < |ChapterRecords(kind, c.index, extract(kind, SegmentsIn(segs, c.windowStart, c.windowEnd)))|
    ensures Anchored(ChapterRecords(kind, c.index, extract(kind, SegmentsIn(segs, c.windowStart, c.windowEnd)))[k],
        segs)
  {
    hide ChapterRecords, SegmentsIn;
    var window := SegmentsIn(segs, c.windowStart, c.windowEnd);
    var items := extract(kind, window);
    var r := ChapterRecords(kind, c.index, items)[k];
    ChapterRecordSpans(kind, c.index, items, k);
    var first :| first in items && Eligible(kind, first) && first.key == r.key && first.start == r.start;
    var s :| s in window && ItemOf(first, s);
    assert Timed(s);
    forall x | x in r.refs
      ensures exists t :: t in segs && t.id == x && r.start.value <= t.start && t.end <= r.end.value
    {
      var item :| item in items && Eligible(kind, item) && item.key == r.key && x in item.refs;
      var t :| t in window && ItemOf(item, t);
    }
  }

  lemma {:induction false} StreamAnchored(extract: Extraction, kind: Kind, segs: seq<Segment>, chapters: seq<Chapter>,
        r: Record)
    requires SourcedFor(extract, kind) && AllTimed(segs) && r in Stream(extract, kind, segs, chapters)
    ensures Anchored(r, segs)
  {
    hide ChapterRecords, SegmentsIn, Anchored, SourcedFor;
    var n := |chapters| - 1;
    var c := chapters[n];
    if r in Stream(extract, kind, segs, chapters[..n]) {
      StreamAnchored(extract, kind, segs, chapters[..n], r);
    } else {
      var records := ChapterRecords(kind, c.index, extract(kind, SegmentsIn(segs, c.windowStart, c.windowEnd)));
      var k: nat :| k < |records| && records[k] == r;
      ChapterRecordAnchored(extract, kind, segs, c, k);
    }
  }

  lemma AnchoredOverlap(segs: seq<Segment>, a: Record, b: Record)
    requires UniqueIds(segs) && AllTimed(segs) && Anchored(a, segs) && Anchored(b, segs) && SharesReference(a, b)
    ensures WindowsOverlap(a, b)
  {
    var x :| x in a.refs && x in b.refs;
    var s :| s in segs && s.id == x && a.start.value <= s.start && s.end <= a.end.value;
    var t :| t in segs && t.id == x && b.start.value <= t.start && t.end <= b.end.value;
    assert s == t && Timed(s);
  }

  lemma StreamIsRegular(extract: Extraction, kind: Kind, segs: seq<Segment>, chapters: seq<Chapter>)
    requires SourcedFor(extract, kind) && AllTimed(segs) && UniqueIds(segs)
    ensures Regular(Stream(extract, kind, segs, chapters))
  {
    hide Stream, SourcedFor, UniqueIds, AllTimed, SharesReference, WindowsOverlap;
    var stream := Stream(extract, kind, segs, chapters);
    forall r | r in stream ensures Anchored(r, segs) {
      StreamAnchored(extract, kind, segs, chapters, r);
    }
    forall a, b | a in stream && b in stream && a.key == b.key && SharesReference(a, b) ensures WindowsOverlap(a, b) {
      AnchoredOverlap(segs, a, b);
    }
  }

  /** No two records of equal text overlap or share a reference. */
  ghost predicate Disjoint(out: seq<Record>) {
    forall k, l | 0 <= k < |out| && 0 <= l < |out| && k != l && out[k].key == out[l].key ::
      !WindowsOverlap(out[k], out[l]) && !SharesReference(out[k], out[l])
  }

  /** The exact condition for every kind, open questions included: generated records of equal text are disjoint, and
      merging them again changes nothing, exactly when no chapter's record bridges two components of the records
      before it. */
  lemma {:induction false} DisjointExactlyWhenBridgeless(C: real, finalize: bool, extract: Extraction, kind: Kind,
        transcript: seq<Segment>)
    requires SourcedFor(extract, kind) && AllTimed(transcript) && UniqueIds(transcript)
    ensures var segs := OrderedSegments(transcript);
            var stream := Stream(extract, kind, segs, ChapterSummaries(C, finalize, segs));
            var out := GeneratedRecords(C, finalize, extract, kind, transcript);
            && (Dedupe(AcrossChapters, out) == out <==> Bridgeless(stream))
            && (Disjoint(out) <==> Bridgeless(stream))
  {
    hide Dedupe, Stream, ChapterSummaries, StableSort, SourcedFor, Regular, Bridgeless, WindowsOverlap, SharesReference;
    var segs := OrderedSegments(transcript);
    StableSortSorts(StartKey(), transcript);
    var stream := Stream(extract, kind, segs, ChapterSummaries(C, finalize, segs));
    StreamIsRegular(extract, kind, segs, ChapterSummaries(C, finalize, segs));
    SecondRunExactlyWhenBridgeless(stream);
    RetainedAreDisjoint(stream);
  }

  /** `r` merges what the window (lo, hi) of the transcript says about its text. */
  ghost predicate Gathers(r: Record, kind: Kind, mentions: Segment -> seq<Item>, segs: seq<Segment>, lo: real, hi: real)
  {
    && Anchored(r, segs)
    && (exists s, item ::
         s in segs && s.start < hi && s.end > lo && item in mentions(s) && Eligible(kind, item) && item.key == r.key
          && r.start == Some(s.start))
    && (forall s, item | s in segs && s.start < hi && s.end > lo && item in mentions(s) && Eligible(kind, item)
         && item.key == r.key ::
          r.start.value <= s.start && s.end <= r.end.value)
  }

  lemma MentionedBy(extract: Extraction, kind: Kind, mentions: Segment -> seq<Item>, window: seq<Segment>,
        item: Item) returns (s: Segment)
    requires PerSegment(extract, kind, mentions) && item in extract(kind, window)
    ensures s in window && item in mentions(s) && ItemOf(item, s)
  {
    s :| s in window && item in mentions(s);
  }

  lemma {:induction false} ChapterRecordGathers(extract: Extraction, kind: Kind, mentions: Segment -> seq<Item>,
        segs: seq<Segment>, c: Chapter, k: nat)
    requires PerSegment(extract, kind, mentions) && AllTimed(segs)
    requires k < |ChapterRecords(kind, c.index, extract(kind, SegmentsIn(segs, c.windowStart, c.windowEnd)))|
    ensures Gathers(ChapterRecords(kind, c.index, extract(kind, SegmentsIn(segs, c.windowStart, c.windowEnd)))[k],
                    kind, mentions, segs, c.windowStart, c.windowEnd)
  {
    hide ChapterRecords, SegmentsIn;
    var window := SegmentsIn(segs, c.windowStart, c.windowEnd);
    var items := extract(kind, window);
    var r := ChapterRecords(kind, c.index, items)[k];
    PerSegmentIsSourced(extract, kind, mentions);
    ChapterRecordAnchored(extract, kind, segs, c, k);
    ChapterRecordSpans(kind, c.index, items, k);
    var first :| first in items && Eligible(kind, first) && first.key == r.key && first.start == r.start;
    var s := MentionedBy(extract, kind, mentions, window, first);
    forall t, item | t in segs && t.start < c.windowEnd && t.end > c.windowStart && item in mentions(t)
        && Eligible(kind, item) && item.key == r.key
      ensures r.start.value <= t.start && t.end <= r.end.value
    {
      assert t in window && item in items && ItemOf(item, t);
    }
  }

  /** Records of equal text from an earlier and a later chapter: the earlier one starts no later, because a
      segment of the later window that starts before it lies in the earlier window as well. */
  lemma {:induction false} EarlierChapterStartsFirst(kind: Kind, mentions: Segment -> seq<Item>, segs: seq<Segment>,
        a: Record, lo: real, hi: real, b: Record, lo': real, hi': real)
    requires Gathers(a, kind, mentions, segs, lo, hi) && Gathers(b, kind, mentions, segs, lo', hi')
    requires lo < hi <= lo' && a.key == b.key
    ensures a.start.value <= b.start.value
  {
    var s, mention :|
        s in segs && s.start < hi && s.end > lo && mention in mentions(s) && Eligible(kind, mention)
            && mention.key == a.key
                   && a.start == Some(s.start);
    var t, item :|
        t in segs && t.start < hi' && t.end > lo' && item in mentions(t) && Eligible(kind, item) && item.key == b.key
                && b.start == Some(t.start);
    if t.start < hi {
      assert t.end > lo;
    }
  }

  /** Some chapter gathered the record. */
  ghost predicate FromChapter(r: Record, kind: Kind, mentions: Segment -> seq<Item>, segs: seq<Segment>, c: Chapter) {
    Gathers(r, kind, mentions, segs, c.windowStart, c.windowEnd)
  }

  ghost predicate InOrderOf(chapters: seq<Chapter>) {
    && (forall k | 0 <= k < |chapters| :: chapters[k].index == k && chapters[k].windowStart < chapters[k].windowEnd)
    && (forall k, l | 0 <= k < l < |chapters| :: chapters[k].windowEnd <= chapters[l].windowStart)
  }

  lemma {:induction false} StreamGathers(extract: Extraction, kind: Kind, mentions: Segment -> seq<Item>,
        segs: seq<Segment>, chapters: seq<Chapter>, r: Record)
    requires PerSegment(extract, kind, mentions) && AllTimed(segs) && r in Stream(extract, kind, segs, chapters)
    ensures exists k :: 0 <= k < |chapters| && FromChapter(r, kind, mentions, segs, chapters[k])
  {
    hide ChapterRecords, SegmentsIn, Gathers, PerSegment;
    var n := |chapters| - 1;
    var c := chapters[n];
    if r in Stream(extract, kind, segs, chapters[..n]) {
      StreamGathers(extract, kind, mentions, segs, chapters[..n], r);
      var k :| 0 <= k < n && FromChapter(r, kind, mentions, segs, chapters[..n][k]);
      assert chapters[k] == chapters[..n][k];
    } else {
      var records := ChapterRecords(kind, c.index, extract(kind, SegmentsIn(segs, c.windowStart, c.windowEnd)));
      var k: nat :| k < |records| && records[k] == r;
      ChapterRecordGathers(extract, kind, mentions, segs, c, k);
      assert FromChapter(r, kind, mentions, segs, chapters[n]);
    }
  }

  ghost predicate StartsInOrder(records: seq<Record>) {
    forall i, j | 0 <= i < j < |records| && records[i].key == records[j].key ::
      records[i].start.Some? && records[j].start.Some? && records[i].start.value <= records[j].start.value
  }

  /** A record of an earlier chapter starts no later than one of equal text of chapter `c`. */
  lemma {:induction false} EarlierRecordStartsFirst(extract: Extraction, kind: Kind, mentions: Segment -> seq<Item>,
        segs: seq<Segment>, chapters: seq<Chapter>, c: Chapter,
                                 a: Record, k: nat)
    requires PerSegment(extract, kind, mentions) && AllTimed(segs) && InOrderOf(chapters + [c])
             && a in Stream(extract, kind, segs, chapters)
    requires var last := ChapterRecords(kind, c.index, extract(kind, SegmentsIn(segs, c.windowStart, c.windowEnd)));
             k < |last| && last[k].key == a.key
    ensures var b := ChapterRecords(kind, c.index, extract(kind, SegmentsIn(segs, c.windowStart, c.windowEnd)))[k];
            a.start.Some? && b.start.Some? && a.start.value <= b.start.value
  {
    hide Stream, ChapterRecords, SegmentsIn, Gathers, PerSegment;
    StreamGathers(extract, kind, mentions, segs, chapters, a);
    var i :| 0 <= i < |chapters| && FromChapter(a, kind, mentions, segs, chapters[i]);
    assert (chapters + [c])[i] == chapters[i] && (chapters + [c])[|chapters|] == c;
    ChapterRecordGathers(extract, kind, mentions, segs, c, k);
    EarlierAcross(kind, mentions, segs, a, chapters[i],
        ChapterRecords(kind, c.index, extract(kind, SegmentsIn(segs, c.windowStart, c.windowEnd)))[k], c);
  }

  lemma {:induction false} StreamStartsInOrder(extract: Extraction, kind: Kind, mentions: Segment -> seq<Item>,
        segs: seq<Segment>, chapters: seq<Chapter>)
    requires PerSegment(extract, kind, mentions) && AllTimed(segs) && InOrderOf(chapters)
    ensures StartsInOrder(Stream(extract, kind, segs, chapters))
  {
    hide ChapterRecords, SegmentsIn, PerSegment, AllTimed;
    if chapters != [] {
      var n := |chapters| - 1;
      var c := chapters[n];
      assert chapters == chapters[..n] + [c];
      var front := Stream(extract, kind, segs, chapters[..n]);
      StreamStartsInOrder(extract, kind, mentions, segs, chapters[..n]);
      var items := extract(kind, SegmentsIn(segs, c.windowStart, c.windowEnd));
      var last := ChapterRecords(kind, c.index, items);
      ChapterRecordIds(kind, c.index, items);
      var all := Stream(extract, kind, segs, chapters);
      assert all == front + last;
      assert forall p | 0 <= p < |last| :: last[p] in last && last[p].id == RecordId(c.index, kind, last[p].key);
      forall i, j | 0 <= i < j < |all| && all[i].key == all[j].key
        ensures all[i].start.Some? && all[j].start.Some? && all[i].start.value <= all[j].start.value
      {
        if i < |front| <= j {
          EarlierRecordStartsFirst(extract, kind, mentions, segs, chapters[..n], c, front[i], j - |front|);
        }
      }
    }
  }

  lemma {:induction false} EarlierAcross(kind: Kind, mentions: Segment -> seq<Item>, segs: seq<Segment>, a: Record,
        c: Chapter, b: Record, d: Chapter)
    requires FromChapter(a, kind, mentions, segs, c) && FromChapter(b, kind, mentions, segs, d) && a.key == b.key
    requires c.windowStart < c.windowEnd <= d.windowStart
    ensures a.start.Some? && b.start.Some? && a.start.value <= b.start.value
  {
    EarlierChapterStartsFirst(kind, mentions, segs, a, c.windowStart, c.windowEnd, b, d.windowStart, d.windowEnd);
  }

  /** The stream of a kind extracted segment by segment is chronological, so the generated records of that kind are
      exactly the components of overlapping mentions, pairwise disjoint, and a second merge changes nothing. */
  lemma {:induction false} StreamIsChronological(C: real, finalize: bool, extract: Extraction, kind: Kind,
        mentions: Segment -> seq<Item>, transcript: seq<Segment>)
    requires PerSegment(extract, kind, mentions) && AllTimed(transcript) && UniqueIds(transcript)
    ensures var segs := OrderedSegments(transcript);
            var stream := Stream(extract, kind, segs, ChapterSummaries(C, finalize, segs));
            Chronological(stream) && GroupsAreComponents(stream)
    ensures var out := GeneratedRecords(C, finalize, extract, kind, transcript);
            Dedupe(AcrossChapters, out) == out && Disjoint(out)
  {
    hide Dedupe, Stream, ChaptersFrom, StableSort, PerSegment, SegmentsIn, MaxEnd, Regular, Disjoint, Bridgeless,
        GroupsAreComponents;
    var segs := OrderedSegments(transcript);
    StableSortSorts(StartKey(), transcript);
    var chapters := ChapterSummaries(C, finalize, segs);
    if segs != [] {
      ChaptersTile(C, finalize, segs);
    }
    var stream := Stream(extract, kind, segs, chapters);
    PerSegmentIsSourced(extract, kind, mentions);
    StreamIsRegular(extract, kind, segs, chapters);
    StreamStartsInOrder(extract, kind, mentions, segs, chapters);
    SecondDedupeChangesNothing(stream);
    ChronologicalIsBridgeless(stream);
    DisjointExactlyWhenBridgeless(C, finalize, extract, kind, transcript);
  }

  lemma {:induction false} PerSegmentIsSourced(extract: Extraction, kind: Kind, mentions: Segment -> seq<Item>)
    requires PerSegment(extract, kind, mentions)
    ensures SourcedFor(extract, kind)
  {
    forall segs, item | item in extract(kind, segs) ensures exists s :: s in segs && ItemOf(item, s) {
      var s := MentionedBy(extract, kind, mentions, segs, item);
    }
  }
}
