/** The fixed state windows of a meeting: one record per window of `W` seconds, at least one, that some segment
    touches. Unlike chapters, the windows never move, but the last one ends at the last timestamp. */
module StateRecords {
  import opened ChapterBoundary
  import opened ChapterBuilder
  import opened ChapterStability

  /** A state record is its window and the segments it renders; bullets, topics and items are functions of these. */
  datatype StateRecord = StateRecord(windowStart: real, windowEnd: real, segments: seq<Segment>)

  /** The two whole seconds in a record's id. */
  function IdOf(r: StateRecord): (int, int) { (r.windowStart.Floor, r.windowEnd.Floor) }

  /** The segments that touch [lo, hi): one ending exactly at `lo` counts. */
  function Touching(segs: seq<Segment>, lo: real, hi: real): seq<Segment> {
    if segs == [] then []
    else (if segs[0].start < hi && segs[0].end >= lo then [segs[0]] else []) + Touching(segs[1..], lo, hi)
  }

  function RecordsOf(W: real, segs: seq<Segment>, start: real): seq<StateRecord>
    requires segs != []
  {
    var inside := Touching(segs, start, start + W);
    if inside == [] then [] else [StateRecord(start, Min(start + W, MaxEnd(segs)), inside)]
  }

  /** A positive whole number of seconds brings the loop closer to the last timestamp. */
  lemma WindowAdvances(W: real, segs: seq<Segment>, start: real)
    requires W >= 1.0 && segs != [] && start < MaxEnd(segs)
    ensures Remaining(MaxEnd(segs), start + W) < Remaining(MaxEnd(segs), start)
  {
    hide MaxEnd;
  }

  function RecordsFrom(W: real, segs: seq<Segment>, start: real): seq<StateRecord>
    requires W >= 1.0 && segs != []
    decreases Remaining(MaxEnd(segs), start)
  {
    if start >= MaxEnd(segs) then []
    else
      WindowAdvances(W, segs, start);
      RecordsOf(W, segs, start) + RecordsFrom(W, segs, start + W)
  }

  lemma RecordsStep(W: real, segs: seq<Segment>, start: real, before: seq<StateRecord>)
    requires W >= 1.0 && segs != []
    ensures before + RecordsFrom(W, segs, start) ==
              if start >= MaxEnd(segs) then before
              else before + RecordsOf(W, segs, start) + RecordsFrom(W, segs, start + W)
  {
    hide MaxEnd, RecordsOf, Remaining;
  }

  function Records(W: real, segs: seq<Segment>): seq<StateRecord>
    requires W >= 1.0
  {
    if segs == [] then [] else RecordsFrom(W, segs, 0.0)
  }

  /** The loop as the server runs it. */
  method BuildStateRecords(W: real, segs: seq<Segment>) returns (records: seq<StateRecord>)
    requires W >= 1.0
    ensures records == Records(W, segs)
  {
    hide MaxEnd, Remaining, Touching, RecordsFrom;
    records := [];
    if segs == [] {
      return;
    }
    var last := MaxEnd(segs);
    var windowStart := 0.0;
    assert records + RecordsFrom(W, segs, windowStart) == RecordsFrom(W, segs, windowStart);
    while windowStart < last
      invariant records + RecordsFrom(W, segs, windowStart) == Records(W, segs)
      decreases Remaining(last, windowStart)
    {
      WindowAdvances(W, segs, windowStart);
      RecordsStep(W, segs, windowStart, records);
      var windowEnd := windowStart + W;
      var inside := Touching(segs, windowStart, windowEnd);
      if inside != [] {
        records := records + [StateRecord(windowStart, Min(windowEnd, last), inside)];
      }
      windowStart := windowEnd;
    }
    RecordsStep(W, segs, windowStart, records);
  }

  // ----- membership and appends

  lemma {:induction false} TouchingMembers(segs: seq<Segment>, lo: real, hi: real, s: Segment)
    ensures s in Touching(segs, lo, hi) <==> s in segs && s.start < hi && s.end >= lo
  {
    if segs != [] {
      TouchingMembers(segs[1..], lo, hi, s);
    }
  }

  lemma {:induction false} TouchingAppend(segs: seq<Segment>, added: seq<Segment>, lo: real, hi: real)
    ensures Touching(segs + added, lo, hi) == Touching(segs, lo, hi) + Touching(added, lo, hi)
  {
    if segs == [] {
      assert segs + added == added;
    } else {
      assert (segs + added)[1..] == segs[1..] + added;
      TouchingAppend(segs[1..], added, lo, hi);
    }
  }

  lemma {:induction false} LaterDoNotTouch(added: seq<Segment>, lo: real, hi: real)
    requires forall s | s in added :: hi <= s.start
    ensures Touching(added, lo, hi) == []
  {
    if added != [] {
      LaterDoNotTouch(added[1..], lo, hi);
    }
  }

  /** The window that reaches past the last timestamp is never empty. */
  lemma LastWindowIsTouched(segs: seq<Segment>, lo: real, hi: real)
    requires segs != [] && AllTimed(segs) && lo < MaxEnd(segs) <= hi
    ensures Touching(segs, lo, hi) != []
  {
    hide MaxEnd, Ends, Touching;
    var s :| s in segs && s.end == MaxEnd(segs);
    TouchingMembers(segs, lo, hi, s);
  }

  // ----- every moment is covered

  /** Every segment is rendered by the record of each window it touches before the last timestamp. */
  lemma {:induction false} StateWindowsCover(W: real, segs: seq<Segment>, start: real, s: Segment, time: real)
    requires W >= 1.0 && s in segs && s.start <= time <= s.end && start <= time < MaxEnd(segs)
    ensures exists r :: r in RecordsFrom(W, segs, start) && s in r.segments && r.windowStart <= time < r.windowStart + W
                        && r.windowEnd == Min(r.windowStart + W, MaxEnd(segs))
    decreases Remaining(MaxEnd(segs), start)
  {
    hide MaxEnd, Remaining, Touching;
    WindowAdvances(W, segs, start);
    if time < start + W {
      TouchingMembers(segs, start, start + W, s);
      assert RecordsOf(W, segs, start)[0] in RecordsFrom(W, segs, start);
    } else {
      StateWindowsCover(W, segs, start + W, s, time);
    }
  }

  lemma SpacedBehind(W: real, front: seq<StateRecord>, start: real, rs: seq<StateRecord>)
    requires W >= 1.0 && Spaced(W, start + W, rs) && |front| <= 1
    requires forall r | r in front :: r.windowStart == start < r.windowEnd
    ensures Spaced(W, start, front + rs)
  {
  }

  ghost predicate Spaced(W: real, start: real, rs: seq<StateRecord>) {
    && (forall k | 0 <= k < |rs| :: start <= rs[k].windowStart < rs[k].windowEnd)
    && (forall k, l | 0 <= k < l < |rs| :: rs[k].windowStart + W <= rs[l].windowStart)
  }

  lemma {:induction false} StartsAreSpaced(W: real, segs: seq<Segment>, start: real)
    requires W >= 1.0 && segs != []
    ensures Spaced(W, start, RecordsFrom(W, segs, start))
    decreases Remaining(MaxEnd(segs), start)
  {
    hide MaxEnd, Remaining, Touching;
    if start < MaxEnd(segs) {
      WindowAdvances(W, segs, start);
      StartsAreSpaced(W, segs, start + W);
      SpacedBehind(W, RecordsOf(W, segs, start), start, RecordsFrom(W, segs, start + W));
    }
  }

  /** Windows of at least one second have pairwise different record ids. */
  lemma StateIdsDiffer(W: real, segs: seq<Segment>, k: nat, l: nat)
    requires W >= 1.0 && k < l < |Records(W, segs)|
    ensures IdOf(Records(W, segs)[k]) != IdOf(Records(W, segs)[l])
  {
    hide RecordsFrom;
    StartsAreSpaced(W, segs, 0.0);
  }

  // ----- what a refresh keeps

  ghost predicate Complete(W: real, r: StateRecord) { r.windowEnd == r.windowStart + W }

  /** `new'` is `old'` after more transcript: complete windows are unchanged, and an incomplete one keeps its start
      and its segments but ends later, with more of them behind. */
  ghost predicate Continues(W: real, old': seq<StateRecord>, new': seq<StateRecord>) {
    && |old'| <= |new'|
    && forall k | 0 <= k < |old'| ::
         && (Complete(W, old'[k]) ==> new'[k] == old'[k])
         && (!Complete(W, old'[k]) ==>
               && k == |old'| - 1 && new'[k].windowStart == old'[k].windowStart
               && old'[k].windowEnd < new'[k].windowEnd && old'[k].segments <= new'[k].segments)
  }

  lemma CompleteWindowIsStable(W: real, segs: seq<Segment>, added: seq<Segment>, start: real)
    requires W >= 1.0 && segs != [] && Follows(segs, added) && start + W <= MaxEnd(segs)
    ensures RecordsOf(W, segs + added, start) == RecordsOf(W, segs, start)
    ensures forall r | r in RecordsOf(W, segs, start) :: Complete(W, r)
  {
    hide MaxEnd, Touching;
    MaxEndAppend(segs, added);
    TouchingAppend(segs, added, start, start + W);
    LaterDoNotTouch(added, start, start + W);
    var none: seq<Segment> := [];
    assert Touching(segs, start, start + W) + none == Touching(segs, start, start + W);
  }

  lemma {:induction false} LastWindowContinues(W: real, segs: seq<Segment>, added: seq<Segment>, start: real)
    requires W >= 1.0 && segs != [] && AllTimed(segs) && Follows(segs, added) && added != []
             && start < MaxEnd(segs) < start + W
    ensures |RecordsFrom(W, segs, start)| == 1
            && Continues(W, RecordsFrom(W, segs, start), RecordsFrom(W, segs + added, start))
  {
    hide MaxEnd, Touching, Remaining, Ends, AllTimed, Follows, RecordsFrom, Continues;
    MaxEndAppend(segs, added);
    TouchingAppend(segs, added, start, start + W);
    LastWindowIsTouched(segs, start, start + W);
    FirstRecord(W, segs, start);
    FirstRecord(W, segs + added, start);
    var r := StateRecord(start, MaxEnd(segs), Touching(segs, start, start + W));
    var r' := StateRecord(start, Min(start + W, MaxEnd(segs + added)), Touching(segs + added, start, start + W));
    OneContinues(W, r, r', RecordsFrom(W, segs + added, start + W));
  }

  /** The record of a touched window comes first, and alone when it is the last window. */
  lemma FirstRecord(W: real, segs: seq<Segment>, start: real)
    requires W >= 1.0 && segs != [] && start < MaxEnd(segs) && Touching(segs, start, start + W) != []
    ensures var r := StateRecord(start, Min(start + W, MaxEnd(segs)), Touching(segs, start, start + W));
            && RecordsFrom(W, segs, start) == [r] + RecordsFrom(W, segs, start + W)
            && (start + W >= MaxEnd(segs) ==> RecordsFrom(W, segs, start) == [r])
  {
    hide MaxEnd, Touching, Remaining;
    if start + W >= MaxEnd(segs) {
      assert RecordsFrom(W, segs, start + W) == [];
    }
  }

  lemma OneContinues(W: real, r: StateRecord, r': StateRecord, behind: seq<StateRecord>)
    requires !Complete(W, r) && r'.windowStart == r.windowStart && r.windowEnd < r'.windowEnd
    requires r.segments <= r'.segments
    ensures Continues(W, [r], [r'] + behind)
  {
  }

  lemma ContinuesBehind(W: real, front: seq<StateRecord>, old': seq<StateRecord>, new': seq<StateRecord>)
    requires Continues(W, old', new') && |front| <= 1 && forall r | r in front :: Complete(W, r)
    ensures Continues(W, front + old', front + new')
  {
  }

  lemma {:induction false} RecordsContinue(W: real, segs: seq<Segment>, added: seq<Segment>, start: real)
    requires W >= 1.0 && segs != [] && AllTimed(segs) && Follows(segs, added) && added != []
    ensures Continues(W, RecordsFrom(W, segs, start), RecordsFrom(W, segs + added, start))
    decreases Remaining(MaxEnd(segs), start)
  {
    hide MaxEnd, Remaining, Touching, RecordsOf, Continues;
    if start >= MaxEnd(segs) {
      NothingContinues(W, RecordsFrom(W, segs + added, start));
    } else if start + W <= MaxEnd(segs) {
      MaxEndAppend(segs, added);
      WindowAdvances(W, segs, start);
      WindowAdvances(W, segs + added, start);
      RecordsContinue(W, segs, added, start + W);
      CompleteWindowIsStable(W, segs, added, start);
      AtMostOne(W, segs, start);
      ContinuesBehind(W, RecordsOf(W, segs, start), RecordsFrom(W, segs, start + W),
          RecordsFrom(W, segs + added, start + W));
    } else {
      LastWindowContinues(W, segs, added, start);
    }
  }

  lemma NothingContinues(W: real, new': seq<StateRecord>)
    ensures Continues(W, [], new')
  {
  }

  lemma AtMostOne(W: real, segs: seq<Segment>, start: real)
    requires segs != []
    ensures |RecordsOf(W, segs, start)| <= 1
  {
  }

  /** Appending transcript continues the state records, and keeps them all exactly when every one of them is of a
      complete window. */
  lemma {:induction false} StateRecordsSurviveAppends(W: real, segs: seq<Segment>, added: seq<Segment>)
    requires W >= 1.0 && AllTimed(segs) && Follows(segs, added) && added != []
    ensures Continues(W, Records(W, segs), Records(W, segs + added))
    ensures Records(W, segs) <= Records(W, segs + added) <==> forall r | r in Records(W, segs) :: Complete(W, r)
  {
    hide RecordsFrom;
    if segs == [] {
      NothingContinues(W, Records(W, segs + added));
    } else {
      RecordsContinue(W, segs, added, 0.0);
    }
    KeepsExactlyComplete(W, Records(W, segs), Records(W, segs + added));
  }

  lemma KeepsExactlyComplete(W: real, old': seq<StateRecord>, new': seq<StateRecord>)
    requires Continues(W, old', new')
    ensures old' <= new' <==> forall r | r in old' :: Complete(W, r)
  {
    if old' <= new' {
      forall r | r in old' ensures Complete(W, r) {
        var k :| 0 <= k < |old'| && old'[k] == r;
        assert old'[k] == new'[k];
      }
    }
  }
}
