/** Where a chapter window ends: the clamp and the nearby-boundary resolver of the chapter worker.
    Times are seconds on the real line. */
module ChapterBoundary {
  const MIN_CHAPTER_WINDOW := 120.0
  const MAX_CHAPTER_WINDOW := 420.0
  const BOUNDARY_ADJUSTMENT := 45.0

  function Abs(x: real): real { if x < 0.0 then -x else x }
  function Min(x: real, y: real): real { if y < x then y else x }
  function Max(x: real, y: real): real { if y > x then y else x }

  function ClampWindowEnd(windowStart: real, proposedEnd: real, meetingEnded: bool): real {
    if meetingEnded then proposedEnd
    else Min(Max(proposedEnd, windowStart + MIN_CHAPTER_WINDOW), windowStart + MAX_CHAPTER_WINDOW)
  }

  /** The candidates within the adjustment distance of the nominal end, in order. */
  function ValidCandidates(nominalEnd: real, candidates: seq<real>): (r: seq<real>)
    ensures forall c :: c in r <==> c in candidates && Abs(c - nominalEnd) <= BOUNDARY_ADJUSTMENT
  {
    if candidates == [] then []
    else
      var rest := ValidCandidates(nominalEnd, candidates[1..]);
      assert forall c :: c in candidates <==> c == candidates[0] || c in candidates[1..];
      if Abs(candidates[0] - nominalEnd) <= BOUNDARY_ADJUSTMENT then [candidates[0]] + rest else rest
  }

  /** Tuple comparison of the resolver's sort key (distance, lies after nominal, value). */
  predicate KeyBelow(nominalEnd: real, a: real, b: real) {
    var da, db := Abs(a - nominalEnd), Abs(b - nominalEnd);
    || da < db
    || (da == db && !(a > nominalEnd) && b > nominalEnd)
    || (da == db && (a > nominalEnd <==> b > nominalEnd) && a < b)
  }

  /** Nothing in `cs` is nearer to the nominal end than `r`, and of two at equal distance `r` is the earlier. */
  ghost predicate Closest(nominalEnd: real, cs: seq<real>, r: real) {
    && r in cs
    && forall c | c in cs ::
         Abs(r - nominalEnd) < Abs(c - nominalEnd) || (Abs(r - nominalEnd) == Abs(c - nominalEnd) && r <= c)
  }

  /** Python's `min` under that key: the first candidate no other key lies below. */
  function Preferred(nominalEnd: real, cs: seq<real>): (r: real)
    requires cs != []
    ensures Closest(nominalEnd, cs, r)
  {
    if |cs| == 1 then cs[0]
    else
      var rest := Preferred(nominalEnd, cs[1..]);
      assert forall c :: c in cs <==> c == cs[0] || c in cs[1..];
      if KeyBelow(nominalEnd, rest, cs[0]) then rest else cs[0]
  }

  lemma ClosestIsUnique(nominalEnd: real, cs: seq<real>, cs': seq<real>, r: real, r': real)
    requires Closest(nominalEnd, cs, r) && Closest(nominalEnd, cs', r')
    requires r in cs' && r' in cs
    ensures r == r'
  {
  }

  function ResolveBoundary(windowStart: real, nominalEnd: real, candidates: seq<real>, meetingEnded: bool): real {
    var normalized := ClampWindowEnd(windowStart, nominalEnd, meetingEnded);
    var valid := ValidCandidates(nominalEnd, candidates);
    if valid == [] then normalized
    else ClampWindowEnd(windowStart, Preferred(nominalEnd, valid), meetingEnded)
  }

  datatype BoundarySource = SemanticAdjustment | FixedWindow
  datatype WindowPayload = WindowPayload(windowStart: real, windowEnd: real, source: BoundarySource)

  function BuildWindowPayload(windowStart: real, nominalEnd: real, candidates: seq<real>,
        meetingEnded: bool): WindowPayload
  {
    WindowPayload(
      windowStart,
      ResolveBoundary(windowStart, nominalEnd, candidates, meetingEnded),
      if ValidCandidates(nominalEnd, candidates) != [] then SemanticAdjustment else FixedWindow)
  }

  /** Unless the meeting has ended, every resolved end is a window of 120 to 420 seconds that moved at most
      45 seconds away from the nominal end before it was clamped. */
  lemma ResolvedWindowLength(windowStart: real, nominalEnd: real, candidates: seq<real>)
    ensures var e := ResolveBoundary(windowStart, nominalEnd, candidates, false);
            && windowStart + MIN_CHAPTER_WINDOW <= e <= windowStart + MAX_CHAPTER_WINDOW
            && exists p :: Abs(p - nominalEnd) <= BOUNDARY_ADJUSTMENT && e == ClampWindowEnd(windowStart, p, false)
                           && (p == nominalEnd || p in candidates)
  {
    var valid := ValidCandidates(nominalEnd, candidates);
    var p := if valid == [] then nominalEnd else Preferred(nominalEnd, valid);
    assert Abs(p - nominalEnd) <= BOUNDARY_ADJUSTMENT;
  }

  /** Once the meeting has ended, a candidate exactly at the nominal end is the end that is chosen. */
  lemma NominalCandidateWins(windowStart: real, nominalEnd: real, candidates: seq<real>)
    requires nominalEnd in candidates
    ensures ResolveBoundary(windowStart, nominalEnd, candidates, true) == nominalEnd
  {
    hide ValidCandidates, Preferred;
    var valid := ValidCandidates(nominalEnd, candidates);
    assert nominalEnd in valid;
    var p := Preferred(nominalEnd, valid);
    assert Abs(p - nominalEnd) <= Abs(nominalEnd - nominalEnd);
  }

  lemma {:induction false} ValidTwice(nominalEnd: real, candidates: seq<real>)
    requires forall c | c in candidates :: Abs(c - nominalEnd) <= BOUNDARY_ADJUSTMENT
    ensures ValidCandidates(nominalEnd, candidates) == candidates
  {
    if candidates != [] {
      assert candidates[0] in candidates;
      assert forall c | c in candidates[1..] :: c in candidates;
      ValidTwice(nominalEnd, candidates[1..]);
    }
  }

  /** Boundaries added at or beyond a known boundary `last`, itself not before the nominal end, cannot change
      the resolved window: `last` is at least as near and no later. The caller and the resolver both filter. */
  lemma LaterBoundariesAreIgnored(windowStart: real, nominalEnd: real, cs: seq<real>, cs': seq<real>, last: real)
    requires last in cs && nominalEnd <= last
    requires forall c | c in cs :: c in cs'
    requires forall c | c in cs' :: c in cs || last <= c
    ensures BuildWindowPayload(windowStart, nominalEnd, ValidCandidates(nominalEnd, cs'), false)
         == BuildWindowPayload(windowStart, nominalEnd, ValidCandidates(nominalEnd, cs), false)
  {
    hide ValidCandidates, Preferred;
    var v, v' := ValidCandidates(nominalEnd, cs), ValidCandidates(nominalEnd, cs');
    ValidTwice(nominalEnd, v);
    ValidTwice(nominalEnd, v');
    assert forall c | c in v :: c in v';
    assert forall c | c in v' :: c in v || (last in v && last <= c);
    if v != [] {
      assert v[0] in v;
      var p, p' := Preferred(nominalEnd, v), Preferred(nominalEnd, v');
      ClosestIsUnique(nominalEnd, v, v', p, p');
    }
  }
}
