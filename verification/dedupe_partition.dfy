/** For any arrival order, both folds partition their input: every record is absorbed by exactly one retained
    record, which summarises exactly the records it absorbed. */
module DedupePartition {
  import opened Options
  import opened RecordDedupe

  /** The positions absorbed by each retained record, in arrival order. */
  function Groups(rule: Rule, records: seq<Record>): (g: seq<seq<nat>>)
    ensures |g| == |Dedupe(rule, records)|
  {
    if records == [] then []
    else
      var n := |records| - 1;
      var before := Groups(rule, records[..n]);
      var i := FirstMatch(rule, Dedupe(rule, records[..n]), records[n]);
      if i == |before| then before + [[n]] else before[i := before[i] + [n]]
  }

  /** `i` belongs to some group. */
  ghost predicate Held(groups: seq<seq<nat>>, i: nat) { exists k :: 0 <= k < |groups| && i in groups[k] }

  ghost predicate Ascending(g: seq<nat>, n: nat) {
    && (forall i | 0 <= i < |g| :: g[i] < n)
    && (forall i, j | 0 <= i < j < |g| :: g[i] < g[j])
  }

  /** Nonempty ascending groups of positions below `n`, in the order of their first members, that hold every
      position exactly once. */
  ghost predicate IsPartition(groups: seq<seq<nat>>, n: nat) {
    && (forall k | 0 <= k < |groups| :: groups[k] != [] && Ascending(groups[k], n))
    && (forall i: nat | i < n :: Held(groups, i))
    && (forall k, l | 0 <= k < l < |groups| :: groups[k][0] < groups[l][0])
    && (forall k, l, i | 0 <= k < l < |groups| && i in groups[k] :: i !in groups[l])
  }

  lemma PartitionBelow(groups: seq<seq<nat>>, n: nat, k: nat)
    requires IsPartition(groups, n) && k < |groups|
    ensures n !in groups[k] && forall i | i in groups[k] :: i < n
  {
    assert Ascending(groups[k], n);
  }

  lemma PartitionOpens(groups: seq<seq<nat>>, n: nat)
    requires IsPartition(groups, n)
    ensures IsPartition(groups + [[n]], n + 1)
  {
    var after := groups + [[n]];
    forall k | 0 <= k < |after| ensures after[k] != [] && Ascending(after[k], n + 1) {
      assert k < |groups| ==> Ascending(groups[k], n);
    }
    forall i: nat | i < n + 1 ensures Held(after, i) {
      if i < n {
        assert Held(groups, i);
        var k :| 0 <= k < |groups| && i in groups[k];
        assert after[k] == groups[k];
      } else {
        assert i in after[|groups|];
      }
    }
    forall k | 0 <= k < |groups| ensures after[k] == groups[k] && n !in groups[k] && groups[k][0] < n {
      PartitionBelow(groups, n, k);
      assert groups[k][0] in groups[k];
    }
  }

  lemma PartitionJoins(groups: seq<seq<nat>>, n: nat, g: nat)
    requires IsPartition(groups, n) && g < |groups|
    ensures IsPartition(groups[g := groups[g] + [n]], n + 1)
  {
    var after := groups[g := groups[g] + [n]];
    forall k | 0 <= k < |after|
      ensures after[k] != [] && Ascending(after[k], n + 1) && after[k][0] == groups[k][0]
      ensures forall i | i in after[k] :: i in groups[k] || (k == g && i == n)
    {
      assert Ascending(groups[k], n);
    }
    forall i: nat | i < n + 1 ensures Held(after, i) {
      if i < n {
        assert Held(groups, i);
        var k :| 0 <= k < |groups| && i in groups[k];
        assert i in after[k];
      } else {
        assert after[g][|groups[g]|] == n;
        assert i in after[g];
      }
    }
    forall k, l, i | 0 <= k < l < |after| && i in after[k] ensures i !in after[l] {
      PartitionBelow(groups, n, k);
      PartitionBelow(groups, n, l);
    }
  }

  lemma {:induction false} GroupsPartition(rule: Rule, records: seq<Record>)
    ensures IsPartition(Groups(rule, records), |records|)
  {
    if records != [] {
      hide IsPartition, Dedupe;
      var n := |records| - 1;
      GroupsPartition(rule, records[..n]);
      var i := FirstMatch(rule, Dedupe(rule, records[..n]), records[n]);
      if i == |Groups(rule, records[..n])| {
        PartitionOpens(Groups(rule, records[..n]), n);
      } else {
        PartitionJoins(Groups(rule, records[..n]), n, i);
      }
    } else {
      assert Groups(rule, records) == [];
    }
  }

  // ----- what a retained record summarises

  ghost predicate Within(g: seq<nat>, n: nat) { g != [] && forall i | 0 <= i < |g| :: g[i] < n }

  /** The records at the given positions. */
  function Members(records: seq<Record>, g: seq<nat>): (r: seq<Record>)
    requires Within(g, |records|)
    ensures |r| == |g| && forall i | 0 <= i < |g| :: r[i] == records[g[i]]
  {
    seq(|g|, i requires 0 <= i < |g| => records[g[i]])
  }

  function AbsorbAll(rule: Rule, members: seq<Record>): Record
    requires members != []
  {
    if |members| == 1 then members[0]
    else Absorb(rule, AbsorbAll(rule, members[..|members| - 1]), members[|members| - 1])
  }

  /** What the last record does to the retained records and their groups. */
  lemma LastStep(rule: Rule, records: seq<Record>)
    requires records != []
    ensures var n, kept, groups := |records| - 1, Dedupe(rule, records[..|records| - 1]),
        Groups(rule, records[..|records| - 1]);
            var f := FirstMatch(rule, kept, records[n]);
            && Dedupe(rule, records) ==
                 (if f == |kept| then kept + [records[n]] else kept[f := Absorb(rule, kept[f], records[n])])
            && Groups(rule, records) == (if f == |kept| then groups + [[n]] else groups[f := groups[f] + [n]])
  {
    hide Absorb, FirstMatch;
  }

  lemma MembersOfPrefix(records: seq<Record>, n: nat, g: seq<nat>)
    requires n <= |records| && Within(g, n)
    ensures Members(records, g) == Members(records[..n], g)
  {
  }

  lemma MembersGrow(records: seq<Record>, n: nat, g: seq<nat>)
    requires n < |records| && Within(g, n)
    ensures Within(g + [n], |records|) && Members(records, g + [n]) == Members(records[..n], g) + [records[n]]
  {
  }

  lemma {:induction false} RetainedIsItsGroup(rule: Rule, records: seq<Record>, k: nat)
    requires k < |Dedupe(rule, records)|
    ensures var g := Groups(rule, records)[k];
            Within(g, |records|) && Dedupe(rule, records)[k] == AbsorbAll(rule, Members(records, g))
  {
    if records == [] {
      assert false;
    } else {
      hide Absorb, FirstMatch, Dedupe, Groups, Members;
      var n := |records| - 1;
      var before := Groups(rule, records[..n]);
      LastStep(rule, records);
      if k < |before| {
        RetainedIsItsGroup(rule, records[..n], k);
        MembersOfPrefix(records, n, before[k]);
        MembersGrow(records, n, before[k]);
        var members := Members(records[..n], before[k]);
        assert (members + [records[n]])[..|members|] == members;
      } else {
        assert Members(records, [n]) == [records[n]];
      }
    }
  }

  /** The union of references, the largest confidence, the hull of the windows, promoted iff a member was. */
  ghost predicate Summarises(out: Record, members: seq<Record>)
    requires members != []
  {
    && (forall x :: x in out.refs <==> exists m :: m in members && x in m.refs)
    && HasHull(out, members)
    && (out.review.Promoted? <==> exists m :: m in members && m.review.Promoted?)
    && (exists m :: m in members && m.review == out.review)
    && out.text == members[0].text && out.key == members[0].key
  }

  ghost predicate HasHull(out: Record, members: seq<Record>) {
    && (exists m :: m in members && m.confidence == out.confidence)
    && (exists m :: m in members && m.start == out.start)
    && (exists m :: m in members && m.end == out.end)
    && (forall m | m in members ::
          && m.confidence <= out.confidence
          && (m.start.Some? ==> out.start.Some? && out.start.value <= m.start.value)
          && (m.end.Some? ==> out.end.Some? && m.end.value <= out.end.value))
  }

  lemma HullGrows(rule: Rule, e: Record, front: seq<Record>, r: Record)
    requires HasHull(e, front)
    ensures HasHull(Absorb(rule, e, r), front + [r])
  {
    hide Distinct;
    var members := front + [r];
    assert forall m :: m in members <==> m in front || m == r;
    var a :| a in front && a.confidence == e.confidence;
    var b :| b in front && b.start == e.start;
    var c :| c in front && c.end == e.end;
    assert a in members && b in members && c in members && r in members;
  }

  lemma AbsorbSummarises(rule: Rule, e: Record, front: seq<Record>, r: Record)
    requires front != [] && Summarises(e, front)
    ensures Summarises(Absorb(rule, e, r), front + [r])
  {
    HullGrows(rule, e, front, r);
    hide HasHull, Distinct;
    var out, members := Absorb(rule, e, r), front + [r];
    assert forall m :: m in members <==> m in front || m == r;
    forall x ensures x in out.refs <==> exists m :: m in members && x in m.refs {
      assert x in out.refs <==> x in e.refs || x in r.refs;
      if x in r.refs { assert r in members; }
    }
    var a :| a in front && a.review == e.review;
    assert a in members && r in members;
  }

  lemma {:induction false} GroupSummary(rule: Rule, members: seq<Record>)
    requires members != []
    ensures Summarises(AbsorbAll(rule, members), members)
  {
    if |members| == 1 {
      assert members == [members[0]];
    } else {
      hide Summarises, Absorb;
      var front, r := members[..|members| - 1], members[|members| - 1];
      GroupSummary(rule, front);
      AbsorbSummarises(rule, AbsorbAll(rule, front), front, r);
      assert front + [r] == members;
    }
  }

  /** The owner of the first member that has one. */
  function FirstOwner(members: seq<Record>): Option<string>
    requires members != []
  {
    if |members| == 1 || Truthy(members[0].owner) then members[0].owner else FirstOwner(members[1..])
  }

  /** The review of the first promoted member. */
  function FirstPromotion(members: seq<Record>): Review {
    if members == [] then Draft
    else if members[0].review.Promoted? then members[0].review
    else FirstPromotion(members[1..])
  }

  function AllRefs(members: seq<Record>): seq<string> {
    if members == [] then [] else members[0].refs + AllRefs(members[1..])
  }

  /** Owner and promotion come from the first member with one; merged references appear in the order they came. */
  ghost predicate TakesFirst(out: Record, members: seq<Record>)
    requires members != []
  {
    && out.owner == FirstOwner(members) && out.review == FirstPromotion(members)
    && (|members| > 1 ==> out.refs == Distinct(AllRefs(members)))
  }

  lemma {:induction false} FirstsOfAppend(front: seq<Record>, r: Record)
    requires front != []
    ensures FirstOwner(front + [r]) == if Truthy(FirstOwner(front)) then FirstOwner(front) else r.owner
    ensures FirstPromotion(front + [r]) == if FirstPromotion(front).Promoted? then FirstPromotion(front) else r.review
    ensures AllRefs(front + [r]) == AllRefs(front) + r.refs
  {
    hide Truthy;
    var all := front + [r];
    if |front| == 1 {
      assert all[1..] == [r] && front[1..] == [] && [r][1..] == [];
      assert FirstPromotion([r]) == r.review && AllRefs([r]) == r.refs;
    } else {
      assert all[1..] == front[1..] + [r];
      FirstsOfAppend(front[1..], r);
    }
  }

  lemma SameStep(s: seq<string>, s': seq<string>, x: string)
    requires Distinct(s) == Distinct(s')
    ensures Distinct(s + [x]) == Distinct(s' + [x])
  {
    assert (s + [x])[..|s|] == s && (s' + [x])[..|s'|] == s';
    assert x in s <==> x in Distinct(s);
    assert x in s' <==> x in Distinct(s');
  }

  lemma {:induction false} DistinctTwice(a: seq<string>, b: seq<string>)
    ensures Distinct(Distinct(a) + b) == Distinct(a + b)
  {
    if b == [] {
      assert Distinct(a) + b == Distinct(a) && a + b == a;
      DistinctFixed(Distinct(a));
    } else {
      var front, x := b[..|b| - 1], b[|b| - 1];
      DistinctTwice(a, front);
      SameStep(Distinct(a) + front, a + front, x);
      AppendLast(Distinct(a), b);
      AppendLast(a, b);
    }
  }

  lemma AppendLast(a: seq<string>, b: seq<string>)
    requires b != []
    ensures a + b[..|b| - 1] + [b[|b| - 1]] == a + b
  {
  }

  lemma {:induction false} DistinctFixed(s: seq<string>)
    requires forall i, j | 0 <= i < j < |s| :: s[i] != s[j]
    ensures Distinct(s) == s
  {
    if s != [] {
      DistinctFixed(s[..|s| - 1]);
      assert s[|s| - 1] !in s[..|s| - 1];
      assert s == s[..|s| - 1] + [s[|s| - 1]];
    }
  }

  lemma {:induction false} GroupTakesFirst(rule: Rule, members: seq<Record>)
    requires members != []
    ensures TakesFirst(AbsorbAll(rule, members), members)
  {
    hide Distinct, Truthy, FirstOwner, FirstPromotion, AllRefs;
    if |members| == 1 {
      SingleFirsts(members);
    } else {
      var front, r := members[..|members| - 1], members[|members| - 1];
      GroupTakesFirst(rule, front);
      FirstsOfAppend(front, r);
      assert front + [r] == members;
      if |front| == 1 {
        SingleFirsts(front);
      } else {
        DistinctTwice(AllRefs(front), r.refs);
      }
    }
  }

  lemma SingleFirsts(members: seq<Record>)
    requires |members| == 1
    ensures FirstOwner(members) == members[0].owner && FirstPromotion(members) == members[0].review
            && AllRefs(members) == members[0].refs
  {
    assert members[1..] == [];
  }

  lemma {:induction false} GroupIdentity(rule: Rule, members: seq<Record>)
    requires members != [] && (rule.SameId? || members[0].start.Some?)
    ensures var out := AbsorbAll(rule, members);
            out.id == members[0].id && out.chapter == members[0].chapter && (members[0].start.Some? ==> out.start.Some?)
  {
    hide Distinct;
    if |members| > 1 {
      GroupIdentity(rule, members[..|members| - 1]);
    }
  }

  /** The partition theorem: the groups of absorbed positions partition the input, and each retained record
      summarises its group; with a known window start it also keeps the identity of its first member. */
  lemma {:induction false} DedupePartitions(rule: Rule, records: seq<Record>)
    ensures IsPartition(Groups(rule, records), |records|)
    ensures forall k | 0 <= k < |Dedupe(rule, records)| :: RetainsGroup(rule, records, k)
  {
    hide IsPartition, Summarises, TakesFirst, Dedupe, Groups, AbsorbAll;
    GroupsPartition(rule, records);
    forall k | 0 <= k < |Dedupe(rule, records)| ensures RetainsGroup(rule, records, k) {
      RetainedIsItsGroup(rule, records, k);
      var members := Members(records, Groups(rule, records)[k]);
      GroupSummary(rule, members);
      GroupTakesFirst(rule, members);
      if rule.SameId? || members[0].start.Some? {
        GroupIdentity(rule, members);
      }
    }
  }

  ghost predicate RetainsGroup(rule: Rule, records: seq<Record>, k: nat)
    requires k < |Dedupe(rule, records)|
  {
    var out, g := Dedupe(rule, records)[k], Groups(rule, records)[k];
    && Within(g, |records|)
    && var members := Members(records, g);
    && Summarises(out, members) && TakesFirst(out, members)
    && (rule.SameId? || members[0].start.Some? ==> out.id == members[0].id && out.chapter == members[0].chapter)
  }

  ghost predicate DistinctIds(records: seq<Record>) {
    forall i, j | 0 <= i < j < |records| :: records[i].id != records[j].id
  }

  ghost predicate KnownStarts(records: seq<Record>) { forall r | r in records :: r.start.Some? }

  /** A merged record carries the id of one of its members. */
  lemma {:induction false} IdOfMember(rule: Rule, members: seq<Record>) returns (i: nat)
    requires members != []
    ensures i < |members| && AbsorbAll(rule, members).id == members[i].id
  {
    hide Distinct;
    var n := |members| - 1;
    i := n;
    if n > 0 && AbsorbAll(rule, members).id != members[n].id {
      i := IdOfMember(rule, members[..n]);
    }
  }

  lemma IdOfRetained(rule: Rule, records: seq<Record>, k: nat) returns (i: nat)
    requires k < |Dedupe(rule, records)|
    ensures i < |records| && i in Groups(rule, records)[k] && Dedupe(rule, records)[k].id == records[i].id
  {
    hide Dedupe, Groups, AbsorbAll;
    RetainedIsItsGroup(rule, records, k);
    var g := Groups(rule, records)[k];
    var p := IdOfMember(rule, Members(records, g));
    i := g[p];
  }

  /** Merging never makes two retained records share an id. */
  lemma DedupeKeepsIdsDistinct(rule: Rule, records: seq<Record>)
    requires DistinctIds(records)
    ensures DistinctIds(Dedupe(rule, records))
  {
    hide Dedupe, Groups;
    GroupsPartition(rule, records);
    var out := Dedupe(rule, records);
    forall k: nat, l: nat | k < l < |out| ensures out[k].id != out[l].id {
      var i := IdOfRetained(rule, records, k);
      var j := IdOfRetained(rule, records, l);
    }
  }

  // ----- growth

  /** Every earlier retained record is still there, in the same place, with the same id, at least as confident,
      and promoted if it was. */
  ghost predicate Grows(before: seq<Record>, after: seq<Record>) {
    && |before| <= |after|
    && forall k | 0 <= k < |before| ::
         && after[k].id == before[k].id && after[k].chapter == before[k].chapter
         && after[k].confidence >= before[k].confidence
         && (before[k].review.Promoted? ==> after[k].review == before[k].review)
         && (before[k].start.Some? ==> after[k].start.Some?)
  }

  lemma KeepGrows(rule: Rule, kept: seq<Record>, r: Record)
    requires KnownStarts(kept)
    ensures Grows(kept, Keep(rule, kept, r))
    ensures r.start.Some? ==> KnownStarts(Keep(rule, kept, r))
  {
    var i := FirstMatch(rule, kept, r);
    var after := Keep(rule, kept, r);
    if i < |kept| {
      assert kept[i] in kept;
    }
    if r.start.Some? {
      forall x | x in after ensures x.start.Some? {
        var k :| 0 <= k < |after| && after[k] == x;
        assert k < |kept| ==> kept[k] in kept;
      }
    }
  }

  lemma {:induction false} DedupeStarts(rule: Rule, records: seq<Record>)
    requires KnownStarts(records)
    ensures KnownStarts(Dedupe(rule, records))
  {
    hide Keep;
    if records != [] {
      var n := |records| - 1;
      assert records[n] in records;
      assert forall r | r in records[..n] :: r in records;
      DedupeStarts(rule, records[..n]);
      KeepGrows(rule, Dedupe(rule, records[..n]), records[n]);
    }
  }

  /** Records arriving later never remove, reorder or rename what is already retained. */
  lemma {:induction false} DedupeGrows(rule: Rule, records: seq<Record>, more: seq<Record>)
    requires KnownStarts(records) && KnownStarts(more)
    ensures Grows(Dedupe(rule, records), Dedupe(rule, records + more))
    ensures KnownStarts(Dedupe(rule, records + more))
  {
    hide Keep;
    DedupeStarts(rule, records);
    if more == [] {
      assert records + more == records;
    } else {
      var n := |more| - 1;
      assert forall r | r in more[..n] :: r in more;
      assert more[n] in more;
      DedupeGrows(rule, records, more[..n]);
      var all := records + more;
      assert all[..|all| - 1] == records + more[..n] && all[|all| - 1] == more[n];
      KeepGrows(rule, Dedupe(rule, records + more[..n]), more[n]);
    }
  }

  /** What later records add to the retained ones carries the id and chapter of a later record. */
  lemma {:induction false} AddedComeFromLater(rule: Rule, records: seq<Record>, more: seq<Record>, k: nat)
    requires KnownStarts(records) && KnownStarts(more)
    requires |Dedupe(rule, records)| <= k < |Dedupe(rule, records + more)|
    ensures exists r ::
        r in more && Dedupe(rule, records + more)[k].id == r.id && Dedupe(rule, records + more)[k].chapter == r.chapter
  {
    hide Keep;
    assert more == [] ==> records + more == records;
    if more != [] {
      var n := |more| - 1;
      assert forall r | r in more[..n] :: r in more;
      assert more[n] in more;
      DedupeGrows(rule, records, more[..n]);
      var all := records + more;
      assert all[..|all| - 1] == records + more[..n] && all[|all| - 1] == more[n];
      var kept := Dedupe(rule, records + more[..n]);
      KeepGrows(rule, kept, more[n]);
      KeepAdds(rule, kept, more[n]);
      if k < |kept| {
        AddedComeFromLater(rule, records, more[..n], k);
      }
    }
  }

  lemma KeepAdds(rule: Rule, kept: seq<Record>, r: Record)
    ensures |Keep(rule, kept, r)| == |kept| || Keep(rule, kept, r) == kept + [r]
  {
  }
}
