/** What a generated record takes from the items behind it: whether it is promoted and why, its text, its owner and
    its confidence, for the records of one chapter and for those of a meeting. */
module Promotion {
  import opened ChapterBuilder
  import opened RecordDedupe
  import opened DedupePartition
  import opened Materializer

  /** The item's signals promote it: a restated decision or one proposed and agreed, an action item with an owner or a
      commitment, and never an open question. */
  ghost predicate Qualifies(kind: Kind, signals: Signals) {
    || (kind == Decision && (signals.restatement || (signals.proposal && signals.agreement)))
    || (kind == ActionItem && (signals.owner || signals.commitment))
  }

  ghost predicate IsReason(kind: Kind, reason: string) {
    reason == if kind == Decision then "decision evidence: proposal + agreement/restatement"
              else "action item evidence: assigned or committed"
  }

  /** The item is drafted and has the record's text. */
  ghost predicate IsBehind(kind: Kind, items: seq<Item>, r: Record, item: Item) {
    item in items && Eligible(kind, item) && item.key == r.key
  }

  ghost predicate Carries(r: Record, kind: Kind, chapter: nat, items: seq<Item>) {
    && r.id == RecordId(chapter, kind, r.key) && r.chapter == chapter
    && (exists item :: IsBehind(kind, items, r, item) && item.text == r.text)
    && (exists item :: IsBehind(kind, items, r, item) && item.confidence == r.confidence)
    && (forall item | IsBehind(kind, items, r, item) :: item.confidence <= r.confidence)
    && (exists item :: IsBehind(kind, items, r, item) && item.owner == r.owner)
    && (forall item | IsBehind(kind, items, r, item) && item.owner.Some? && item.owner.value != "" ::
          r.owner.Some? && r.owner.value != "")
    && (forall item, x | IsBehind(kind, items, r, item) && x in item.refs :: x in r.refs)
  }

  ghost predicate PromotedBy(r: Record, kind: Kind, items: seq<Item>) {
    && (r.review.Promoted? <==> exists item :: IsBehind(kind, items, r, item) && Qualifies(kind, item.signals))
    && (r.review.Promoted? ==> IsReason(kind, r.review.reason))
  }

  // ----- the records of a chapter

  /** One draft and its item. */
  ghost predicate Drafted(d: Record, kind: Kind, chapter: nat, item: Item) {
    && d.id == RecordId(chapter, kind, item.key) && d.chapter == chapter && d.key == item.key && d.text == item.text
    && d.confidence == item.confidence && d.owner == item.owner && d.refs == item.refs
    && (d.review.Promoted? <==> Qualifies(kind, item.signals))
    && (d.review.Promoted? ==> IsReason(kind, d.review.reason))
  }

  lemma DraftIsDrafted(kind: Kind, chapter: nat, item: Item)
    ensures Drafted(DraftRecord(kind, chapter, item), kind, chapter, item)
  {
  }

  /** A member of a chapter record's group is the draft of an item behind the record. */
  lemma ItemOfMember(kind: Kind, chapter: nat, items: seq<Item>, k: nat, m: Record) returns (item: Item)
    requires k < |ChapterRecords(kind, chapter, items)|
    requires var drafts := Drafts(kind, chapter, items);
             Within(Groups(SameId, drafts)[k], |drafts|) && m in Members(drafts, Groups(SameId, drafts)[k])
    ensures IsBehind(kind, items, ChapterRecords(kind, chapter, items)[k], item) && Drafted(m, kind, chapter, item)
  {
    hide Dedupe, Groups, Drafts, Members, Drafted, Eligible;
    item := GroupDraft(kind, chapter, items, k, m);
    DraftIsDrafted(kind, chapter, item);
    ChapterRecordSpans(kind, chapter, items, k);
  }

  lemma MemberOfItem(kind: Kind, chapter: nat, items: seq<Item>, k: nat, item: Item) returns (m: Record)
    requires k < |ChapterRecords(kind, chapter, items)|
    requires IsBehind(kind, items, ChapterRecords(kind, chapter, items)[k], item)
    ensures var drafts := Drafts(kind, chapter, items);
            Within(Groups(SameId, drafts)[k], |drafts|) && m in Members(drafts, Groups(SameId, drafts)[k])
    ensures Drafted(m, kind, chapter, item)
  {
    hide Dedupe, Groups, Drafts, Members, Drafted, Eligible;
    ChapterRecordSpans(kind, chapter, items, k);
    ItemIsMember(kind, chapter, items, k, item);
    DraftIsDrafted(kind, chapter, item);
    m := DraftRecord(kind, chapter, item);
  }

  lemma {:induction false} FirstOwnerIs(members: seq<Record>)
    requires members != []
    ensures exists m :: m in members && m.owner == FirstOwner(members)
    ensures forall m | m in members && m.owner.Some? && m.owner.value != "" ::
              FirstOwner(members).Some? && FirstOwner(members).value != ""
  {
    assert members[0] in members;
    if |members| > 1 {
      FirstOwnerIs(members[1..]);
      assert forall m :: m in members <==> m == members[0] || m in members[1..];
    }
  }

  /** A record of a chapter is promoted exactly when an item behind it qualifies, for the reason of its kind. */
  lemma ChapterPromotedExactlyWhen(kind: Kind, chapter: nat, items: seq<Item>, k: nat)
    requires k < |ChapterRecords(kind, chapter, items)|
    ensures PromotedBy(ChapterRecords(kind, chapter, items)[k], kind, items)
  {
    hide Dedupe, Groups, Drafts, Members, TakesFirst, HasHull, Qualifies, IsReason, IsBehind;
    var drafts := Drafts(kind, chapter, items);
    var r := ChapterRecords(kind, chapter, items)[k];
    DedupePartitions(SameId, drafts);
    assert RetainsGroup(SameId, drafts, k);
    var source :| source in Members(drafts, Groups(SameId, drafts)[k]) && source.review == r.review;
    var from := ItemOfMember(kind, chapter, items, k, source);
    if item :| IsBehind(kind, items, r, item) && Qualifies(kind, item.signals) {
      var m := MemberOfItem(kind, chapter, items, k, item);
    }
  }

  /** Its text and owner are those of an item behind it, with an owner if one has it, its confidence is the largest, and
      it has all their references. */
  lemma ChapterRecordCarries(kind: Kind, chapter: nat, items: seq<Item>, k: nat)
    requires k < |ChapterRecords(kind, chapter, items)|
    ensures Carries(ChapterRecords(kind, chapter, items)[k], kind, chapter, items)
  {
    hide Dedupe, Groups, Drafts, Members, Qualifies, IsReason, IsBehind, Drafted, Summarises, TakesFirst;
    var drafts := Drafts(kind, chapter, items);
    var r := ChapterRecords(kind, chapter, items)[k];
    DedupePartitions(SameId, drafts);
    assert RetainsGroup(SameId, drafts, k);
    ChapterRecordSpans(kind, chapter, items, k);
    ChapterRecordChapter(kind, chapter, items, r);
    var members := Members(drafts, Groups(SameId, drafts)[k]);
    var t, c, o := MembersGive(r, members);
    var ti := ItemOfMember(kind, chapter, items, k, t);
    var ci := ItemOfMember(kind, chapter, items, k, c);
    var oi := ItemOfMember(kind, chapter, items, k, o);
    DraftedFields(t, kind, chapter, ti);
    DraftedFields(c, kind, chapter, ci);
    DraftedFields(o, kind, chapter, oi);
    forall item | IsBehind(kind, items, r, item)
      ensures item.confidence <= r.confidence
      ensures item.owner.Some? && item.owner.value != "" ==> r.owner.Some? && r.owner.value != ""
      ensures forall x | x in item.refs :: x in r.refs
    {
      var m := MemberOfItem(kind, chapter, items, k, item);
      DraftedFields(m, kind, chapter, item);
    }
  }

  lemma DraftedFields(d: Record, kind: Kind, chapter: nat, item: Item)
    requires Drafted(d, kind, chapter, item)
    ensures d.text == item.text && d.confidence == item.confidence && d.owner == item.owner && d.refs == item.refs
  {
  }

  lemma MembersGive(r: Record, members: seq<Record>) returns (t: Record, c: Record, o: Record)
    requires members != [] && Summarises(r, members) && TakesFirst(r, members)
    ensures t in members && t.text == r.text
    ensures c in members && c.confidence == r.confidence
    ensures o in members && o.owner == r.owner
    ensures forall m | m in members ::
              && m.confidence <= r.confidence
              && (m.owner.Some? && m.owner.value != "" ==> r.owner.Some? && r.owner.value != "")
              && forall x | x in m.refs :: x in r.refs
  {
    hide FirstPromotion, AllRefs, Distinct, FirstOwner;
    FirstOwnerIs(members);
    t := members[0];
    c :| c in members && c.confidence == r.confidence;
    o :| o in members && o.owner == r.owner;
  }

  /** Every item that is drafted has a record of its text. */
  lemma EveryItemHasARecord(kind: Kind, chapter: nat, items: seq<Item>, item: Item)
    requires item in items && Eligible(kind, item)
    ensures exists r :: r in ChapterRecords(kind, chapter, items) && r.id == RecordId(chapter, kind, item.key)
  {
    hide Dedupe, Groups, Drafts;
    var drafts := Drafts(kind, chapter, items);
    DraftOf(kind, chapter, items, item);
    var i: nat :| i < |drafts| && drafts[i] == DraftRecord(kind, chapter, item);
    DedupePartitions(SameId, drafts);
    var groups := Groups(SameId, drafts);
    assert Held(groups, i);
    var k :| 0 <= k < |groups| && i in groups[k];
    SameIdGroup(drafts, k, i);
    assert ChapterRecords(kind, chapter, items)[k] in ChapterRecords(kind, chapter, items);
  }

  // ----- the records of a meeting

  lemma {:induction false} StreamComesFrom(extract: Extraction, kind: Kind, segs: seq<Segment>, chapters: seq<Chapter>,
        r: Record) returns (n: nat)
    requires r in Stream(extract, kind, segs, chapters)
    ensures n < |chapters| && r in ChapterRecords(kind, chapters[n].index, ItemsOf(extract, kind, segs, chapters[n]))
  {
    hide ChapterRecords, SegmentsIn;
    n := |chapters| - 1;
    if r in Stream(extract, kind, segs, chapters[..n]) {
      n := StreamComesFrom(extract, kind, segs, chapters[..n], r);
    }
  }

  function ItemsOf(extract: Extraction, kind: Kind, segs: seq<Segment>, c: Chapter): seq<Item> {
    extract(kind, SegmentsIn(segs, c.windowStart, c.windowEnd))
  }

  /** The item was drafted in chapter `c`, whose record of that text went into the meeting's record `k`. */
  ghost predicate WentInto(extract: Extraction, kind: Kind, segs: seq<Segment>, chapters: seq<Chapter>, k: nat,
        c: Chapter, item: Item)
    requires k < |Groups(AcrossChapters, Stream(extract, kind, segs, chapters))|
  {
    var stream := Stream(extract, kind, segs, chapters);
    && c in chapters && item in ItemsOf(extract, kind, segs, c) && Eligible(kind, item)
    && exists i: nat ::
         i < |stream| && i in Groups(AcrossChapters, stream)[k] && stream[i].id == RecordId(c.index, kind, item.key)
  }

  lemma IdHasChapter(kind: Kind, chapters: seq<Chapter>, n: nat, c: Chapter, id: RecordId, key: nat)
    requires (forall i | 0 <= i < |chapters| :: chapters[i].index == i) && n < |chapters| && c in chapters
    requires id.chapter == chapters[n].index && id == RecordId(c.index, kind, key)
    ensures c == chapters[n]
  {
  }

  /** What went into a meeting's record, one item and one chapter's record at a time. */
  lemma {:induction false} MemberItems(extract: Extraction, kind: Kind, segs: seq<Segment>, chapters: seq<Chapter>,
        k: nat, i: nat)
    requires forall n | 0 <= n < |chapters| :: chapters[n].index == n
    requires var stream := Stream(extract, kind, segs, chapters);
             k < |Groups(AcrossChapters, stream)| && i < |stream| && i in Groups(AcrossChapters, stream)[k]
    ensures var m := Stream(extract, kind, segs, chapters)[i];
            && (m.review.Promoted? <==>
                  exists c, item :: WentInto(extract, kind, segs, chapters, k, c, item)
                    && RecordId(c.index, kind, item.key) == m.id && Qualifies(kind, item.signals))
            && (m.review.Promoted? ==> IsReason(kind, m.review.reason))
  {
    hide Dedupe, Groups, Stream, ChapterRecords, Eligible, Qualifies, IsReason, SegmentsIn, ItemsOf;
    var stream := Stream(extract, kind, segs, chapters);
    var m := stream[i];
    var n := StreamComesFrom(extract, kind, segs, chapters, m);
    var c, items := chapters[n], ItemsOf(extract, kind, segs, chapters[n]);
    var j: nat :| j < |ChapterRecords(kind, c.index, items)| && ChapterRecords(kind, c.index, items)[j] == m;
    ChapterPromotedExactlyWhen(kind, c.index, items, j);
    ChapterRecordCarries(kind, c.index, items, j);
    if m.review.Promoted? {
      var item :| IsBehind(kind, items, m, item) && Qualifies(kind, item.signals);
      assert WentInto(extract, kind, segs, chapters, k, c, item);
    }
    if c', item :| WentInto(extract, kind, segs, chapters, k, c', item)
                   && RecordId(c'.index, kind, item.key) == m.id && Qualifies(kind, item.signals) {
      IdHasChapter(kind, chapters, n, c', m.id, item.key);
      assert IsBehind(kind, items, m, item);
    }
  }

  /** A record of a meeting is promoted exactly when one of the items absorbed into it qualifies, for the reason of its
      kind. */
  lemma {:induction false} MeetingPromotedExactlyWhen(C: real, finalize: bool, extract: Extraction, kind: Kind,
        transcript: seq<Segment>, k: nat)
    requires k < |GeneratedRecords(C, finalize, extract, kind, transcript)|
    ensures var segs := OrderedSegments(transcript);
            var chapters := ChapterSummaries(C, finalize, segs);
            var r := GeneratedRecords(C, finalize, extract, kind, transcript)[k];
            && (r.review.Promoted? <==>
                  exists c, item ::
                      WentInto(extract, kind, segs, chapters, k, c, item) && Qualifies(kind, item.signals))
            && (r.review.Promoted? ==> IsReason(kind, r.review.reason))
  {
    hide Dedupe, Groups, Stream, ChapterSummaries, OrderedSegments, WentInto, Qualifies, IsReason, TakesFirst, HasHull;
    var segs := OrderedSegments(transcript);
    var chapters := ChapterSummaries(C, finalize, segs);
    var stream := Stream(extract, kind, segs, chapters);
    ChapterIndices(C, finalize, segs);
    DedupePartitions(AcrossChapters, stream);
    assert RetainsGroup(AcrossChapters, stream, k);
    var g := Groups(AcrossChapters, stream)[k];
    var r := Dedupe(AcrossChapters, stream)[k];
    forall i: nat | i < |stream| && i in g
      ensures stream[i].review.Promoted? <==>
                exists c, item :: WentInto(extract, kind, segs, chapters, k, c, item)
                  && RecordId(c.index, kind, item.key) == stream[i].id && Qualifies(kind, item.signals)
      ensures stream[i].review.Promoted? ==> IsReason(kind, stream[i].review.reason)
    {
      MemberItems(extract, kind, segs, chapters, k, i);
    }
    var source :| source in Members(stream, g) && source.review == r.review;
    var p :| 0 <= p < |g| && Members(stream, g)[p] == source;
    assert stream[g[p]] == source;
    if c, item :| WentInto(extract, kind, segs, chapters, k, c, item) && Qualifies(kind, item.signals) {
      var i := WentThrough(extract, kind, segs, chapters, k, c, item);
      var q :| 0 <= q < |g| && g[q] == i;
      assert Members(stream, g)[q] == stream[i];
    }
  }

  lemma WentThrough(extract: Extraction, kind: Kind, segs: seq<Segment>, chapters: seq<Chapter>, k: nat, c: Chapter,
        item: Item) returns (i: nat)
    requires k < |Groups(AcrossChapters, Stream(extract, kind, segs, chapters))|
    requires WentInto(extract, kind, segs, chapters, k, c, item)
    ensures var stream := Stream(extract, kind, segs, chapters);
            && i < |stream| && i in Groups(AcrossChapters, stream)[k]
            && stream[i].id == RecordId(c.index, kind, item.key)
  {
    var stream := Stream(extract, kind, segs, chapters);
    i :| i < |stream| && i in Groups(AcrossChapters, stream)[k] && stream[i].id == RecordId(c.index, kind, item.key);
  }

  lemma ChapterIndices(C: real, finalize: bool, segs: seq<Segment>)
    ensures forall n | 0 <= n < |ChapterSummaries(C, finalize, segs)| ::
              ChapterSummaries(C, finalize, segs)[n].index == n
  {
    hide ChaptersFrom, MaxEnd;
    var chapters := ChapterSummaries(C, finalize, segs);
    if segs != [] {
      assert chapters == ChaptersFrom(C, finalize, segs, 0.0, 0);
      ChaptersAreOrdered(C, finalize, segs, 0.0, 0);
      forall n | 0 <= n < |chapters| ensures chapters[n].index == n {
        assert chapters[n].index == 0 + n;
      }
    }
  }
}
