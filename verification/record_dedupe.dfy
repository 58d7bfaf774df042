/** Generated draft records and the two folds that merge them: by id within one chapter, and by text with a
    shared evidence reference or an overlapping source window across chapters. */
module RecordDedupe {
  import opened Options

  datatype Kind = Decision | ActionItem | OpenQuestion

  datatype Signals = Signals(proposal: bool, agreement: bool, restatement: bool, owner: bool, commitment: bool,
                             rhetorical: bool, resolved: bool, answerDetected: bool)

  /** An extracted item; `key` is the digest of its normalised text. */
  datatype Item = Item(text: string, key: nat, refs: seq<string>, signals: Signals, owner: Option<string>,
                       confidence: real, start: Option<real>, end: Option<real>)

  datatype Review = Draft | Promoted(reason: string)

  datatype RecordId = RecordId(chapter: nat, kind: Kind, key: nat)

  datatype Record = Record(id: RecordId, chapter: nat, text: string, key: nat, owner: Option<string>, refs: seq<string>,
                           review: Review, confidence: real, start: Option<real>, end: Option<real>)

  // ----- drafting

  function ReviewOf(kind: Kind, signals: Signals): Review {
    match kind
    case Decision =>
      if (signals.proposal || signals.restatement) && (signals.agreement || signals.restatement)
      then Promoted("decision evidence: proposal + agreement/restatement") else Draft
    case ActionItem =>
      if signals.owner || signals.commitment then Promoted("action item evidence: assigned or committed") else Draft
    case OpenQuestion => Draft
  }

  predicate Unresolved(item: Item) {
    !item.signals.rhetorical && !item.signals.resolved && !item.signals.answerDetected
  }

  function DraftRecord(kind: Kind, chapter: nat, item: Item): Record {
    Record(RecordId(chapter, kind, item.key), chapter, item.text, item.key, item.owner, item.refs,
           ReviewOf(kind, item.signals), item.confidence, item.start, item.end)
  }

  // ----- merging one record into a retained one

  /** `list(dict.fromkeys(s))`: the first occurrence of every element. */
  function Distinct(s: seq<string>): (r: seq<string>)
    ensures forall x :: x in r <==> x in s
    ensures forall i, j | 0 <= i < j < |r| :: r[i] != r[j]
  {
    if s == [] then []
    else
      var front, last := s[..|s| - 1], s[|s| - 1];
      assert s == front + [last];
      if last in front then Distinct(front) else Distinct(front) + [last]
  }

  function Earliest(a: Option<real>, b: Option<real>): Option<real> {
    if a.None? then b else if b.None? then a else if b.value < a.value then b else a
  }

  function Latest(a: Option<real>, b: Option<real>): Option<real> {
    if a.None? then b else if b.None? then a else if b.value > a.value then b else a
  }

  predicate Truthy(s: Option<string>) { s.Some? && s.value != "" }

  /** Both folds merge a retained record `e` and a new record `r` in this way. */
  function MergeFields(e: Record, r: Record): Record {
    e.(refs := Distinct(e.refs + r.refs),
       confidence := if r.confidence > e.confidence then r.confidence else e.confidence,
       owner := if Truthy(e.owner) then e.owner else r.owner,
       start := Earliest(e.start, r.start),
       end := Latest(e.end, r.end),
       review := if e.review.Promoted? then e.review else r.review)
  }

  /** The fold across chapters may also move the record to the new chapter, judging by the merged start. */
  function MoveToEarlierChapter(merged: Record, r: Record): Record {
    if merged.chapter != r.chapter &&
       (merged.start.None? || (r.start.Some? && r.start.value < merged.start.value))
    then merged.(chapter := r.chapter, id := r.id)
    else merged
  }

  datatype Rule = SameId | AcrossChapters

  function Absorb(rule: Rule, e: Record, r: Record): Record {
    match rule
    case SameId => MergeFields(e, r)
    case AcrossChapters => MoveToEarlierChapter(MergeFields(e, r), r)
  }

  /** The merged start is never after the absorbed one, so a retained record changes identity exactly when
      both windows are missing and the chapters differ. */
  lemma AbsorbKeepsIdentity(e: Record, r: Record)
    ensures var m := Absorb(AcrossChapters, e, r);
            (m.chapter == e.chapter && m.id == e.id) <==>
              (e.start.Some? || r.start.Some? || e.chapter == r.chapter)
  {
  }

  predicate WindowsOverlap(e: Record, r: Record) {
    e.start.Some? && e.end.Some? && r.start.Some? && r.end.Some? && e.start.value <= r.end.value
        && r.start.value <= e.end.value
  }

  predicate SharesReference(e: Record, r: Record) { exists x :: x in e.refs && x in r.refs }

  predicate Matches(rule: Rule, e: Record, r: Record) {
    match rule
    case SameId => e.id == r.id
    case AcrossChapters => e.key == r.key && (SharesReference(e, r) || WindowsOverlap(e, r))
  }

  // ----- the fold

  function FirstMatch(rule: Rule, kept: seq<Record>, r: Record): (i: nat)
    ensures i <= |kept|
    ensures i < |kept| ==> Matches(rule, kept[i], r)
    ensures forall j | 0 <= j < i :: !Matches(rule, kept[j], r)
  {
    if kept == [] || Matches(rule, kept[0], r) then 0
    else
      var i := FirstMatch(rule, kept[1..], r);
      assert forall j | 1 <= j < 1 + i :: kept[j] == kept[1..][j - 1];
      1 + i
  }

  function Keep(rule: Rule, kept: seq<Record>, r: Record): seq<Record> {
    var i := FirstMatch(rule, kept, r);
    if i == |kept| then kept + [r] else kept[i := Absorb(rule, kept[i], r)]
  }

  function Dedupe(rule: Rule, records: seq<Record>): seq<Record> {
    if records == [] then [] else Keep(rule, Dedupe(rule, records[..|records| - 1]), records[|records| - 1])
  }

  /** A retained record, updated in place. */
  class Retained {
    var id: RecordId
    var chapter: nat
    var text: string
    var key: nat
    var owner: Option<string>
    var refs: seq<string>
    var review: Review
    var confidence: real
    var start: Option<real>
    var end: Option<real>

    function Value(): Record
      reads this
    {
      Record(id, chapter, text, key, owner, refs, review, confidence, start, end)
    }

    constructor (r: Record)
      ensures Value() == r
    {
      id, chapter, text, key, owner := r.id, r.chapter, r.text, r.key, r.owner;
      refs, review, confidence, start, end := r.refs, r.review, r.confidence, r.start, r.end;
    }

    method Merge(r: Record)
      modifies this
      ensures Value() == MergeFields(old(Value()), r)
    {
      hide Distinct, Earliest, Latest;
      refs := Distinct(refs + r.refs);
      confidence := if r.confidence > confidence then r.confidence else confidence;
      owner := if Truthy(owner) then owner else r.owner;
      start := Earliest(start, r.start);
      end := Latest(end, r.end);
      if review.Draft? && r.review.Promoted? {
        review := r.review;
      }
    }

    method TakeIn(rule: Rule, r: Record)
      modifies this
      ensures Value() == Absorb(rule, old(Value()), r)
    {
      hide MergeFields;
      Merge(r);
      if rule.AcrossChapters? && chapter != r.chapter {
        if start.None? || (r.start.Some? && r.start.value < start.value) {
          chapter := r.chapter;
          id := r.id;
        }
      }
    }
  }

  function Values(kept: seq<Retained>): (r: seq<Record>)
    reads kept
    ensures |r| == |kept| && forall i | 0 <= i < |kept| :: r[i] == kept[i].Value()
  {
    seq(|kept|, i requires 0 <= i < |kept| reads kept => kept[i].Value())
  }

  method FindMatch(rule: Rule, kept: seq<Retained>, r: Record) returns (i: nat)
    ensures i == FirstMatch(rule, Values(kept), r)
  {
    i := 0;
    while i < |kept| && !Matches(rule, kept[i].Value(), r)
      invariant 0 <= i <= |kept|
      invariant forall j | 0 <= j < i :: !Matches(rule, kept[j].Value(), r)
    {
      i := i + 1;
    }
  }

  /** The fold as the server runs it, over freshly copied records. */
  method DedupeInPlace(rule: Rule, records: seq<Record>) returns (kept: seq<Retained>)
    ensures Values(kept) == Dedupe(rule, records)
    ensures fresh(kept) && forall i, j | 0 <= i < j < |kept| :: kept[i] != kept[j]
  {
    hide Absorb, Matches, FirstMatch;
    kept := [];
    for n := 0 to |records|
      invariant fresh(kept) && forall i, j | 0 <= i < j < |kept| :: kept[i] != kept[j]
      invariant Values(kept) == Dedupe(rule, records[..n])
    {
      var r := records[n];
      assert records[..n + 1][..n] == records[..n];
      var i := FindMatch(rule, kept, r);
      if i == |kept| {
        var copy := new Retained(r);
        kept := kept + [copy];
      } else {
        kept[i].TakeIn(rule, r);
      }
      assert Values(kept) == Keep(rule, Dedupe(rule, records[..n]), r);
    }
    assert records[..|records|] == records;
  }

  /** What a chapter contributes for one kind: draft every item, then merge equal ids. */
  function ChapterRecords(kind: Kind, chapter: nat, items: seq<Item>): seq<Record> {
    Dedupe(SameId, Drafts(kind, chapter, items))
  }

  function Drafts(kind: Kind, chapter: nat, items: seq<Item>): (r: seq<Record>)
    ensures forall x :: x in r <==>
        exists item ::
            item in items && (kind.OpenQuestion? ==> Unresolved(item)) && x == DraftRecord(kind, chapter, item)
  {
    if items == [] then []
    else
      var rest := Drafts(kind, chapter, items[1..]);
      assert forall item :: item in items <==> item == items[0] || item in items[1..];
      if kind.OpenQuestion? && !Unresolved(items[0]) then rest else [DraftRecord(kind, chapter, items[0])] + rest
  }
}
