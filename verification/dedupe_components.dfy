/** When the fold across chapters computes the connected components of window overlap, and when a second run of it
    changes nothing: exactly when no record bridges two components of the records before it. */
module DedupeComponents {
  import opened RecordDedupe
  import opened DedupePartition

  predicate Windowed(r: Record) { r.start.Some? && r.end.Some? && r.start.value <= r.end.value }

  /** Equal text and overlapping windows. */
  predicate Linked(a: Record, b: Record) { a.key == b.key && WindowsOverlap(a, b) }

  /** Records have windows, and share a reference only if their windows overlap. */
  ghost predicate Regular(records: seq<Record>) {
    && (forall r | r in records :: Windowed(r))
    && (forall a, b | a in records && b in records && a.key == b.key && SharesReference(a, b) :: WindowsOverlap(a, b))
  }

  /** Regular records of equal text arrive by window start. */
  ghost predicate Chronological(records: seq<Record>) {
    && Regular(records)
    && (forall i, j | 0 <= i < j < |records| && records[i].key == records[j].key ::
          records[i].start.Some? && records[j].start.Some? && records[i].start.value <= records[j].start.value)
  }

  ghost predicate IsPath(records: seq<Record>, path: seq<nat>) {
    && path != [] && Within(path, |records|)
    && forall p | 0 <= p < |path| - 1 :: Linked(records[path[p]], records[path[p + 1]])
  }

  /** A chain of overlapping windows of equal text leads from record `i` to record `j`. */
  ghost predicate Connected(records: seq<Record>, i: nat, j: nat) {
    exists path :: IsPath(records, path) && path[0] == i && path[|path| - 1] == j
  }

  /** Whichever two records a later one is linked to are already connected among the records before it. */
  ghost predicate Bridgeless(records: seq<Record>) {
    forall n: nat, i: nat, j: nat | i < n && j < n < |records| && Linked(records[i], records[n])
        && Linked(records[j], records[n]) ::
      Connected(records[..n], i, j)
  }

  ghost predicate SameGroup(groups: seq<seq<nat>>, i: nat, j: nat) {
    exists k :: 0 <= k < |groups| && i in groups[k] && j in groups[k]
  }

  // ----- chains

  lemma ConnectedBack(records: seq<Record>, i: nat, j: nat)
    requires Connected(records, i, j)
    ensures Connected(records, j, i)
  {
    var path :| IsPath(records, path) && path[0] == i && path[|path| - 1] == j;
    var back := seq(|path|, p requires 0 <= p < |path| => path[|path| - 1 - p]);
    forall p | 0 <= p < |back| - 1 ensures Linked(records[back[p]], records[back[p + 1]]) {
      assert Linked(records[path[|path| - 2 - p]], records[path[|path| - 2 - p + 1]]);
    }
    assert IsPath(records, back);
  }

  lemma ConnectedThrough(records: seq<Record>, i: nat, j: nat, k: nat)
    requires Connected(records, i, j) && Connected(records, j, k)
    ensures Connected(records, i, k)
  {
    var a :| IsPath(records, a) && a[0] == i && a[|a| - 1] == j;
    var b :| IsPath(records, b) && b[0] == j && b[|b| - 1] == k;
    var path := a + b[1..];
    forall p | 0 <= p < |path| - 1 ensures Linked(records[path[p]], records[path[p + 1]]) {
      if p >= |a| - 1 {
        assert path[p] == b[p - (|a| - 1)] && path[p + 1] == b[p - (|a| - 1) + 1];
      }
    }
    assert IsPath(records, path);
  }

  lemma ConnectedStep(records: seq<Record>, i: nat, j: nat)
    requires i < |records| && j < |records|
    requires Linked(records[i], records[j])
    ensures Connected(records, i, j)
  {
    assert IsPath(records, [i, j]);
  }

  lemma ConnectedInPrefix(records: seq<Record>, n: nat, i: nat, j: nat)
    requires n <= |records| && Connected(records[..n], i, j)
    ensures Connected(records, i, j)
  {
    var path :| IsPath(records[..n], path) && path[0] == i && path[|path| - 1] == j;
    assert IsPath(records, path);
  }

  lemma RegularPrefix(records: seq<Record>, n: nat)
    requires n <= |records| && Regular(records)
    ensures Regular(records[..n])
  {
    assert forall r | r in records[..n] :: r in records;
  }

  // ----- what a retained record covers

  /** Some record of the group overlaps, or shares a reference with, `x`. */
  ghost predicate Touches(records: seq<Record>, g: seq<nat>, x: Record) {
    exists i: nat :: i < |records| && i in g && WindowsOverlap(records[i], x)
  }

  ghost predicate Shares(records: seq<Record>, g: seq<nat>, x: Record) {
    exists i: nat :: i < |records| && i in g && SharesReference(records[i], x)
  }

  /** The hull of two overlapping windows overlaps what either of them overlaps. */
  lemma AbsorbCovers(e: Record, r: Record, x: Record)
    requires Windowed(e) && Windowed(r) && Windowed(x) && WindowsOverlap(e, r)
    ensures var m := Absorb(AcrossChapters, e, r);
            && Windowed(m) && m.key == e.key
            && (WindowsOverlap(m, x) <==> WindowsOverlap(e, x) || WindowsOverlap(r, x))
            && (SharesReference(m, x) <==> SharesReference(e, x) || SharesReference(r, x))
  {
    var m := Absorb(AcrossChapters, e, r);
    assert forall y :: y in m.refs <==> y in e.refs || y in r.refs;
    hide Distinct;
  }

  lemma TouchesLater(records: seq<Record>, n: nat, g: seq<nat>, x: Record)
    requires |records| == n + 1 && forall i | i in g :: i < n
    ensures Touches(records, g, x) == Touches(records[..n], g, x) && Shares(records, g, x) == Shares(records[..n], g, x)
    ensures Touches(records, g + [n], x) <==> Touches(records[..n], g, x) || WindowsOverlap(records[n], x)
    ensures Shares(records, g + [n], x) <==> Shares(records[..n], g, x) || SharesReference(records[n], x)
  {
    hide WindowsOverlap, SharesReference;
    assert forall i | i in g :: records[i] == records[..n][i];
    assert forall i | i in g :: i in g + [n];
    assert n in g + [n];
  }

  /** A retained record overlaps, and shares references with, exactly what the records of its group do. */
  lemma {:induction false} RetainedCovers(records: seq<Record>, k: nat, x: Record)
    requires Regular(records) && k < |Dedupe(AcrossChapters, records)| && Windowed(x)
    ensures var out, g := Dedupe(AcrossChapters, records)[k], Groups(AcrossChapters, records)[k];
            && Windowed(out)
            && (WindowsOverlap(out, x) <==> Touches(records, g, x))
            && (SharesReference(out, x) <==> Shares(records, g, x))
  {
    hide Windowed, WindowsOverlap, SharesReference, Touches, Shares, Absorb;
    var n := |records| - 1;
    var before, r := records[..n], records[n];
    var kept, groups := Dedupe(AcrossChapters, before), Groups(AcrossChapters, before);
    var f := FirstMatch(AcrossChapters, kept, r);
    assert r in records;
    RegularPrefix(records, n);
    GroupsPartition(AcrossChapters, before);
    if k < |kept| {
      PartitionBelow(groups, n, k);
      RetainedCovers(before, k, x);
      TouchesLater(records, n, groups[k], x);
      if k == f {
        RetainedCovers(before, k, r);
        MatchedOverlaps(records, k);
        AbsorbCovers(kept[k], r, x);
      }
    } else {
      TouchesLater(records, n, [], x);
      NothingTouches(before, x);
      assert [] + [n] == [n];
    }
  }

  lemma NothingTouches(records: seq<Record>, x: Record)
    ensures !Touches(records, [], x) && !Shares(records, [], x)
  {
  }

  /** The last record overlaps the retained record that it matches. */
  lemma {:induction false} MatchedOverlaps(records: seq<Record>, k: nat)
    requires records != [] && Regular(records)
    requires var before, r := records[..|records| - 1], records[|records| - 1];
             && k < |Dedupe(AcrossChapters, before)|
             && Matches(AcrossChapters, Dedupe(AcrossChapters, before)[k], r)
             && (WindowsOverlap(Dedupe(AcrossChapters, before)[k], r) <==>
                  Touches(before, Groups(AcrossChapters, before)[k], r))
             && (SharesReference(Dedupe(AcrossChapters, before)[k], r) <==>
                  Shares(before, Groups(AcrossChapters, before)[k], r))
    ensures WindowsOverlap(Dedupe(AcrossChapters, records[..|records| - 1])[k], records[|records| - 1])
  {
    hide Dedupe, Groups, WindowsOverlap, SharesReference;
    var before, r := records[..|records| - 1], records[|records| - 1];
    var e := Dedupe(AcrossChapters, before)[k];
    if SharesReference(e, r) {
      var i: nat :| i < |before| && i in Groups(AcrossChapters, before)[k] && SharesReference(before[i], r);
      GroupKeys(before, k, i);
      assert before[i] == records[i] && records[i] in records && r in records;
    }
  }

  lemma {:induction false} GroupKeys(records: seq<Record>, k: nat, i: nat)
    requires k < |Dedupe(AcrossChapters, records)| && i in Groups(AcrossChapters, records)[k]
    ensures i < |records| && records[i].key == Dedupe(AcrossChapters, records)[k].key
  {
    var n := |records| - 1;
    var before := Groups(AcrossChapters, records[..n]);
    var f := FirstMatch(AcrossChapters, Dedupe(AcrossChapters, records[..n]), records[n]);
    if k < |before| && i in before[k] {
      GroupKeys(records[..n], k, i);
    }
  }

  /** A retained record matches exactly what some record of its group is linked to. */
  lemma {:induction false} RetainedMatches(records: seq<Record>, k: nat, x: Record)
    requires Regular(records) && k < |Dedupe(AcrossChapters, records)| && Windowed(x)
    requires forall r | r in records && r.key == x.key && SharesReference(r, x) :: WindowsOverlap(r, x)
    ensures Matches(AcrossChapters, Dedupe(AcrossChapters, records)[k], x) <==>
              exists i: nat :: i < |records| && i in Groups(AcrossChapters, records)[k] && Linked(records[i], x)
  {
    hide Dedupe, Groups, WindowsOverlap, SharesReference;
    RetainedCovers(records, k, x);
    var e, g := Dedupe(AcrossChapters, records)[k], Groups(AcrossChapters, records)[k];
    forall i: nat | i < |records| && i in g ensures records[i].key == e.key && records[i] in records {
      GroupKeys(records, k, i);
    }
  }

  lemma MatchIsSymmetric(a: Record, b: Record)
    ensures Matches(AcrossChapters, a, b) <==> Matches(AcrossChapters, b, a)
  {
    assert SharesReference(a, b) <==> SharesReference(b, a);
  }

  lemma LinkIsSymmetric(a: Record, b: Record)
    ensures Linked(a, b) <==> Linked(b, a)
  {
  }

  /** A record matches a retained one by overlap, and exactly when it is linked to a record of its group. */
  lemma LinkToRetained(records: seq<Record>, l: nat, i: nat)
    requires Regular(records) && l < |Dedupe(AcrossChapters, records)| && i < |records|
    ensures var e := Dedupe(AcrossChapters, records)[l];
            && (Linked(records[i], e) <==>
                 exists j: nat ::
                     j < |records| && j in Groups(AcrossChapters, records)[l] && Linked(records[i], records[j]))
            && (records[i].key == e.key && SharesReference(records[i], e) ==> WindowsOverlap(records[i], e))
  {
    hide Dedupe, Groups, Windowed, WindowsOverlap, SharesReference;
    var e, g, r := Dedupe(AcrossChapters, records)[l], Groups(AcrossChapters, records)[l], records[i];
    assert r in records;
    RetainedMatches(records, l, r);
    RetainedCovers(records, l, r);
    OverlapIsSymmetric(e, r);
    forall j: nat | j < |records| && j in g
      ensures Linked(records[j], r) <==> Linked(r, records[j])
      ensures SharesReference(records[j], r) ==> e.key == r.key ==> WindowsOverlap(records[j], r)
    {
      LinkIsSymmetric(records[j], r);
      GroupKeys(records, l, j);
      assert records[j] in records;
    }
  }

  lemma OverlapIsSymmetric(a: Record, b: Record)
    ensures WindowsOverlap(a, b) <==> WindowsOverlap(b, a)
    ensures SharesReference(a, b) <==> SharesReference(b, a)
  {
  }

  lemma RetainedIsWindowed(records: seq<Record>, k: nat)
    requires Regular(records) && k < |Dedupe(AcrossChapters, records)|
    ensures Windowed(Dedupe(AcrossChapters, records)[k])
  {
    hide Matches, Absorb;
    assert records[0] in records;
    RetainedCovers(records, k, records[0]);
  }

  /** Two retained records match exactly when a link leads from one group to the other. */
  lemma {:induction false} RetainedMatchByLink(records: seq<Record>, k: nat, l: nat)
    requires Regular(records) && k < |Dedupe(AcrossChapters, records)| && l < |Dedupe(AcrossChapters, records)|
    ensures var groups := Groups(AcrossChapters, records);
            Matches(AcrossChapters, Dedupe(AcrossChapters, records)[k], Dedupe(AcrossChapters, records)[l]) <==>
              exists i: nat, j: nat ::
                  i < |records| && j < |records| && i in groups[k] && j in groups[l] && Linked(records[i], records[j])
  {
    hide Dedupe, Groups, Windowed, WindowsOverlap, SharesReference, Matches, Linked;
    var e := Dedupe(AcrossChapters, records)[l];
    RetainedIsWindowed(records, l);
    forall i: nat | i < |records|
      ensures Linked(records[i], e) <==>
          exists j: nat :: j < |records| && j in Groups(AcrossChapters, records)[l] && Linked(records[i], records[j])
      ensures records[i].key == e.key && SharesReference(records[i], e) ==> WindowsOverlap(records[i], e)
    {
      LinkToRetained(records, l, i);
    }
    RetainedMatches(records, k, e);
  }

  // ----- groups are connected

  lemma SameGroupThrough(groups: seq<seq<nat>>, n: nat, i: nat, j: nat, k: nat)
    requires IsPartition(groups, n) && SameGroup(groups, i, j) && SameGroup(groups, j, k)
    ensures SameGroup(groups, i, k)
  {
    var a :| 0 <= a < |groups| && i in groups[a] && j in groups[a];
    var b :| 0 <= b < |groups| && j in groups[b] && k in groups[b];
    assert a == b;
  }

  lemma HeldIsReflexive(groups: seq<seq<nat>>, n: nat, i: nat)
    requires IsPartition(groups, n) && i < n
    ensures SameGroup(groups, i, i)
  {
    assert Held(groups, i);
  }

  lemma ConnectedSelf(records: seq<Record>, i: nat)
    requires i < |records|
    ensures Connected(records, i, i)
  {
    assert IsPath(records, [i]);
  }

  /** A chain leads from the first record of a group to each of its records. */
  lemma {:induction false} GroupIsConnected(records: seq<Record>, k: nat, i: nat)
    requires Regular(records) && k < |Groups(AcrossChapters, records)| && i in Groups(AcrossChapters, records)[k]
    ensures Connected(records, Groups(AcrossChapters, records)[k][0], i)
  {
    hide IsPath, Matches, Keep, Windowed, WindowsOverlap, SharesReference;
    var n := |records| - 1;
    var before := Groups(AcrossChapters, records[..n]);
    RegularPrefix(records, n);
    GroupsPartition(AcrossChapters, records[..n]);
    if k == |before| {
      ConnectedSelf(records, n);
    } else if i in before[k] {
      GroupIsConnected(records[..n], k, i);
      ConnectedInPrefix(records, n, before[k][0], i);
    } else {
      assert records[n] in records;
      RetainedMatches(records[..n], k, records[n]);
      var m: nat :| m < n && m in before[k] && Linked(records[..n][m], records[n]);
      GroupIsConnected(records[..n], k, m);
      ConnectedInPrefix(records, n, before[k][0], m);
      ConnectedStep(records, m, n);
      ConnectedThrough(records, before[k][0], m, n);
    }
  }

  lemma SameGroupIsConnected(records: seq<Record>, i: nat, j: nat)
    requires Regular(records) && SameGroup(Groups(AcrossChapters, records), i, j)
    ensures Connected(records, i, j)
  {
    hide Groups, Regular, Connected;
    var groups := Groups(AcrossChapters, records);
    var k :| 0 <= k < |groups| && i in groups[k] && j in groups[k];
    GroupIsConnected(records, k, i);
    GroupIsConnected(records, k, j);
    ConnectedBack(records, groups[k][0], i);
    ConnectedThrough(records, i, groups[k][0], j);
  }

  // ----- retained records are apart exactly when no link leaves a group

  /** No retained record matches another one. */
  ghost predicate Apart(kept: seq<Record>) {
    forall k, l | 0 <= k < |kept| && 0 <= l < |kept| && k != l :: !Matches(AcrossChapters, kept[k], kept[l])
  }

  ghost predicate LinksStay(records: seq<Record>) {
    forall i: nat, j: nat | i < |records| && j < |records| && Linked(records[i], records[j]) ::
      SameGroup(Groups(AcrossChapters, records), i, j)
  }

  lemma OneGroup(groups: seq<seq<nat>>, n: nat, i: nat, j: nat, k: nat, l: nat)
    requires IsPartition(groups, n) && SameGroup(groups, i, j)
    requires k < |groups| && l < |groups| && i in groups[k] && j in groups[l]
    ensures k == l
  {
    var m :| 0 <= m < |groups| && i in groups[m] && j in groups[m];
  }

  lemma {:induction false} ApartExactlyWhenLinksStay(records: seq<Record>)
    requires Regular(records)
    ensures Apart(Dedupe(AcrossChapters, records)) <==> LinksStay(records)
  {
    hide Dedupe, Groups, Regular, Linked, Matches;
    var kept, groups := Dedupe(AcrossChapters, records), Groups(AcrossChapters, records);
    GroupsPartition(AcrossChapters, records);
    if Apart(kept) {
      forall i: nat, j: nat | i < |records| && j < |records| && Linked(records[i], records[j])
        ensures SameGroup(groups, i, j)
      {
        assert Held(groups, i) && Held(groups, j);
        var k :| 0 <= k < |groups| && i in groups[k];
        var l :| 0 <= l < |groups| && j in groups[l];
        RetainedMatchByLink(records, k, l);
      }
    }
    if LinksStay(records) {
      forall k, l | 0 <= k < |kept| && 0 <= l < |kept| && k != l ensures !Matches(AcrossChapters, kept[k], kept[l]) {
        RetainedMatchByLink(records, k, l);
        if Matches(AcrossChapters, kept[k], kept[l]) {
          var i: nat, j: nat :|
              i < |records| && j < |records| && i in groups[k] && j in groups[l] && Linked(records[i], records[j]);
          OneGroup(groups, |records|, i, j, k, l);
        }
      }
    }
  }

  lemma {:induction false} PathStaysInGroup(records: seq<Record>, path: seq<nat>)
    requires LinksStay(records) && IsPath(records, path)
    ensures SameGroup(Groups(AcrossChapters, records), path[0], path[|path| - 1])
  {
    hide Groups, IsPartition, Linked;
    var groups := Groups(AcrossChapters, records);
    GroupsPartition(AcrossChapters, records);
    if |path| == 1 {
      HeldIsReflexive(groups, |records|, path[0]);
    } else {
      assert Linked(records[path[0]], records[path[0 + 1]]);
      forall p | 0 <= p < |path[1..]| - 1 ensures Linked(records[path[1..][p]], records[path[1..][p + 1]]) {
        assert Linked(records[path[p + 1]], records[path[p + 1 + 1]]);
      }
      PathStaysInGroup(records, path[1..]);
      SameGroupThrough(groups, |records|, path[0], path[1], path[|path| - 1]);
    }
  }

  /** Two records end up in the same retained record exactly when a chain of overlapping windows of equal text
      connects them. */
  ghost predicate GroupsAreComponents(records: seq<Record>) {
    forall i: nat, j: nat | i < |records| && j < |records| ::
      SameGroup(Groups(AcrossChapters, records), i, j) <==> Connected(records, i, j)
  }

  lemma {:induction false} ComponentsExactlyWhenLinksStay(records: seq<Record>)
    requires Regular(records)
    ensures GroupsAreComponents(records) <==> LinksStay(records)
  {
    hide Groups, Regular, SameGroup, Linked;
    if LinksStay(records) {
      forall i: nat, j: nat | i < |records| && j < |records|
        ensures SameGroup(Groups(AcrossChapters, records), i, j) <==> Connected(records, i, j)
      {
        if Connected(records, i, j) {
          var path :| IsPath(records, path) && path[0] == i && path[|path| - 1] == j;
          PathStaysInGroup(records, path);
        }
        if SameGroup(Groups(AcrossChapters, records), i, j) {
          SameGroupIsConnected(records, i, j);
        }
      }
    }
    if GroupsAreComponents(records) {
      forall i: nat, j: nat | i < |records| && j < |records| && Linked(records[i], records[j])
        ensures SameGroup(Groups(AcrossChapters, records), i, j)
      {
        ConnectedStep(records, i, j);
      }
    }
  }

  // ----- no link leaves a group exactly when no record is a bridge

  /** The records linked to record `n` are connected among those before it. */
  ghost predicate NoBridgeAt(records: seq<Record>, n: nat)
    requires n < |records|
  {
    forall i: nat, j: nat | i < n && j < n && Linked(records[i], records[n]) && Linked(records[j], records[n]) ::
        Connected(records[..n], i, j)
  }

  lemma BridgelessEverywhere(records: seq<Record>)
    ensures Bridgeless(records) <==> forall m: nat | m < |records| :: NoBridgeAt(records, m)
  {
    hide Connected, Linked;
    if Bridgeless(records) {
      forall m: nat | m < |records| ensures NoBridgeAt(records, m) {
      }
    }
    if forall m: nat | m < |records| :: NoBridgeAt(records, m) {
      forall n: nat, i: nat, j: nat | i < n && j < n < |records| && Linked(records[i], records[n])
          && Linked(records[j], records[n])
        ensures Connected(records[..n], i, j)
      {
        assert NoBridgeAt(records, n);
      }
    }
  }

  lemma {:induction false} BridgelessStep(records: seq<Record>)
    requires records != []
    ensures Bridgeless(records) <==> Bridgeless(records[..|records| - 1]) && NoBridgeAt(records, |records| - 1)
  {
    hide Connected, Linked, Bridgeless;
    var n := |records| - 1;
    forall m: nat | m < n ensures NoBridgeAt(records, m) == NoBridgeAt(records[..n], m) {
      assert records[..n][..m] == records[..m];
    }
    BridgelessEverywhere(records);
    BridgelessEverywhere(records[..n]);
  }

  lemma GroupsStep(records: seq<Record>)
    requires records != []
    ensures var n, before, after := |records| - 1, Groups(AcrossChapters, records[..|records| - 1]),
        Groups(AcrossChapters, records);
            && |before| <= |after| <= |before| + 1
            && (forall k | 0 <= k < |before| :: after[k] == before[k] || after[k] == before[k] + [n])
            && (|before| < |after| ==> after[|before|] == [n])
  {
    hide Dedupe, Matches;
  }

  /** The last record changes nothing about which earlier ones belong together. */
  lemma {:induction false} GroupsOfPrefix(records: seq<Record>, i: nat, j: nat)
    requires records != [] && i < |records| - 1 && j < |records| - 1
    ensures SameGroup(Groups(AcrossChapters, records), i, j) <==>
        SameGroup(Groups(AcrossChapters, records[..|records| - 1]), i, j)
  {
    hide Dedupe, Groups;
    GroupsStep(records);
    var before, after := Groups(AcrossChapters, records[..|records| - 1]), Groups(AcrossChapters, records);
    forall k | 0 <= k < |before| ensures (i in after[k] <==> i in before[k]) && (j in after[k] <==> j in before[k]) {
    }
  }

  lemma MatchedGroupGrows(records: seq<Record>)
    requires records != []
    ensures var n, kept := |records| - 1, Dedupe(AcrossChapters, records[..|records| - 1]);
            var f := FirstMatch(AcrossChapters, kept, records[n]);
            f < |kept| ==>
              && f < |Groups(AcrossChapters, records)|
              && Groups(AcrossChapters, records)[f] == Groups(AcrossChapters, records[..n])[f] + [n]
  {
    hide Dedupe, Matches, FirstMatch;
  }

  /** A record linked to an earlier one matches some retained record, and is linked to a record of its group. */
  lemma {:induction false} LinkedIsMatched(records: seq<Record>, r: Record, i: nat) returns (m: nat)
    requires Regular(records) && Windowed(r) && i < |records| && Linked(records[i], r)
    requires forall x | x in records && x.key == r.key && SharesReference(x, r) :: WindowsOverlap(x, r)
    ensures var f := FirstMatch(AcrossChapters, Dedupe(AcrossChapters, records), r);
            && f < |Groups(AcrossChapters, records)| && m < |records|
            && m in Groups(AcrossChapters, records)[f] && Linked(records[m], r)
  {
    hide Dedupe, Groups, Matches, Windowed, Linked, SharesReference, WindowsOverlap;
    var groups := Groups(AcrossChapters, records);
    GroupsPartition(AcrossChapters, records);
    assert Held(groups, i);
    var k: nat :| k < |groups| && i in groups[k];
    RetainedMatches(records, k, r);
    var f := FirstMatch(AcrossChapters, Dedupe(AcrossChapters, records), r);
    RetainedMatches(records, f, r);
    m :| m < |records| && m in groups[f] && Linked(records[m], r);
  }

  /** The last record joins the first retained record that some record linked to it belongs to. */
  lemma {:induction false} LastJoins(records: seq<Record>, i: nat) returns (m: nat)
    requires records != [] && Regular(records) && i < |records| - 1 && Linked(records[i], records[|records| - 1])
    ensures m < |records| - 1 && Linked(records[m], records[|records| - 1])
    ensures SameGroup(Groups(AcrossChapters, records), m, |records| - 1)
  {
    hide Dedupe, Groups, FirstMatch, Windowed, WindowsOverlap, SharesReference, Linked;
    var n := |records| - 1;
    var before, r := records[..n], records[n];
    RegularPrefix(records, n);
    assert before[i] == records[i] && r in records && forall x | x in before :: x in records;
    m := LinkedIsMatched(before, r, i);
    MatchedGroupGrows(records);
    var f := FirstMatch(AcrossChapters, Dedupe(AcrossChapters, before), r);
    var g := Groups(AcrossChapters, before)[f];
    assert m in g + [n] && n in g + [n];
  }

  /** Behind a prefix that no link leaves a group of, the last record is no bridge exactly when that stays so. */
  lemma {:induction false} LastKeepsLinks(records: seq<Record>)
    requires records != [] && Regular(records) && LinksStay(records[..|records| - 1])
    ensures LinksStay(records) <==> NoBridgeAt(records, |records| - 1)
  {
    hide Groups, Regular, Linked, SameGroup, Connected, IsPartition;
    var n := |records| - 1;
    var before, groups := records[..n], Groups(AcrossChapters, records);
    RegularPrefix(records, n);
    GroupsPartition(AcrossChapters, records);
    ComponentsExactlyWhenLinksStay(before);
    if LinksStay(records) {
      forall i: nat, j: nat | i < n && j < n && Linked(records[i], records[n]) && Linked(records[j], records[n])
        ensures Connected(before, i, j)
      {
        LinkIsSymmetric(records[j], records[n]);
        SameGroupThrough(groups, n + 1, i, n, j);
        GroupsOfPrefix(records, i, j);
      }
    }
    if NoBridgeAt(records, n) {
      forall i: nat | i < n && Linked(records[i], records[n]) ensures SameGroup(groups, i, n) {
        var m := LastJoins(records, i);
        GroupsOfPrefix(records, i, m);
        SameGroupThrough(groups, n + 1, i, m, n);
      }
      forall i: nat, j: nat | i < |records| && j < |records| && Linked(records[i], records[j])
        ensures SameGroup(groups, i, j)
      {
        if i < n && j < n {
          assert before[i] == records[i] && before[j] == records[j];
          GroupsOfPrefix(records, i, j);
        } else if i == n && j == n {
          HeldIsReflexive(groups, n + 1, n);
        } else if i == n {
          LinkIsSymmetric(records[i], records[j]);
          SameGroupBack(groups, j, n);
        }
      }
    }
  }

  lemma SameGroupBack(groups: seq<seq<nat>>, i: nat, j: nat)
    requires SameGroup(groups, i, j)
    ensures SameGroup(groups, j, i)
  {
  }

  lemma LinksStayInPrefix(records: seq<Record>)
    requires records != [] && LinksStay(records)
    ensures LinksStay(records[..|records| - 1])
  {
    hide Groups, Linked, SameGroup;
    var n := |records| - 1;
    forall i: nat, j: nat | i < n && j < n && Linked(records[..n][i], records[..n][j])
      ensures SameGroup(Groups(AcrossChapters, records[..n]), i, j)
    {
      assert Linked(records[i], records[j]);
      GroupsOfPrefix(records, i, j);
    }
  }

  lemma {:induction false} LinksStayExactlyWhenBridgeless(records: seq<Record>)
    requires Regular(records)
    ensures LinksStay(records) <==> Bridgeless(records)
  {
    hide Regular, LinksStay, Bridgeless, NoBridgeAt;
    if records == [] {
      NothingLinks();
    } else {
      var n := |records| - 1;
      RegularPrefix(records, n);
      LinksStayExactlyWhenBridgeless(records[..n]);
      BridgelessStep(records);
      if LinksStay(records) {
        LinksStayInPrefix(records);
      }
      if LinksStay(records[..n]) {
        LastKeepsLinks(records);
      }
    }
  }

  lemma NothingLinks()
    ensures LinksStay([]) && Bridgeless([])
  {
  }

  // ----- a second run of the fold

  lemma DedupeNothing()
    ensures Dedupe(AcrossChapters, []) == []
  {
  }

  lemma DedupeOneMore(records: seq<Record>, r: Record)
    ensures Dedupe(AcrossChapters, records + [r]) == Keep(AcrossChapters, Dedupe(AcrossChapters, records), r)
  {
    assert (records + [r])[..|records|] == records;
  }

  lemma ApartStep(front: seq<Record>, r: Record)
    ensures Apart(front + [r]) <==> Apart(front) && FirstMatch(AcrossChapters, front, r) == |front|
  {
    hide Matches, FirstMatch;
    var all, n, f := front + [r], |front|, FirstMatch(AcrossChapters, front, r);
    if Apart(all) {
      forall k, l | 0 <= k < n && 0 <= l < n && k != l ensures !Matches(AcrossChapters, front[k], front[l]) {
        assert !Matches(AcrossChapters, all[k], all[l]);
      }
      assert forall k | 0 <= k < n :: !Matches(AcrossChapters, all[k], all[n]) && front[k] == all[k];
    }
    if Apart(front) && f == n {
      forall k, l | 0 <= k <= n && 0 <= l <= n && k != l ensures !Matches(AcrossChapters, all[k], all[l]) {
        if k == n {
          MatchIsSymmetric(front[l], r);
        }
      }
    }
  }

  lemma {:induction false} DedupeIsNotLonger(kept: seq<Record>)
    ensures |Dedupe(AcrossChapters, kept)| <= |kept|
    ensures |Dedupe(AcrossChapters, kept)| == |kept| ==> Apart(kept)
    ensures Apart(kept) ==> Dedupe(AcrossChapters, kept) == kept
  {
    hide Dedupe, Matches, Absorb, Apart;
    if kept == [] {
      DedupeNothing();
      NothingMatches();
    } else {
      var front, r := kept[..|kept| - 1], kept[|kept| - 1];
      assert kept == front + [r];
      DedupeIsNotLonger(front);
      DedupeOneMore(front, r);
      ApartStep(front, r);
    }
  }

  lemma NothingMatches()
    ensures Apart([])
  {
  }

  /** The exact condition for any input: a run of the fold changes nothing exactly when no record matches another. */
  lemma {:induction false} RerunExactlyWhenApart(kept: seq<Record>)
    ensures Dedupe(AcrossChapters, kept) == kept <==> Apart(kept)
  {
    DedupeIsNotLonger(kept);
  }

  /** The exact condition on the input of the first run: its output is left alone by a second run, and its groups are
      the connected components of overlap, exactly when no record bridges two components of the records before it. */
  lemma {:induction false} SecondRunExactlyWhenBridgeless(records: seq<Record>)
    requires Regular(records)
    ensures Dedupe(AcrossChapters, Dedupe(AcrossChapters, records)) == Dedupe(AcrossChapters, records) <==>
        Bridgeless(records)
    ensures GroupsAreComponents(records) <==> Bridgeless(records)
    ensures Apart(Dedupe(AcrossChapters, records)) <==> Bridgeless(records)
  {
    hide Dedupe, Apart, Regular, Bridgeless, LinksStay, GroupsAreComponents;
    RerunExactlyWhenApart(Dedupe(AcrossChapters, records));
    ApartExactlyWhenLinksStay(records);
    ComponentsExactlyWhenLinksStay(records);
    LinksStayExactlyWhenBridgeless(records);
  }

  // ----- chronological input

  /** Two windows that a later-starting one overlaps both contain its start. */
  lemma {:induction false} ChronologicalIsBridgeless(records: seq<Record>)
    requires Chronological(records)
    ensures Bridgeless(records)
  {
    forall n: nat, i: nat, j: nat | i < n && j < n < |records| && Linked(records[i], records[n])
        && Linked(records[j], records[n])
      ensures Connected(records[..n], i, j)
    {
      assert Linked(records[..n][i], records[..n][j]);
      ConnectedStep(records[..n], i, j);
    }
  }

  /** On chronological input the groups are the connected components and a second run changes nothing. */
  lemma {:induction false} SecondDedupeChangesNothing(records: seq<Record>)
    requires Chronological(records)
    ensures Dedupe(AcrossChapters, Dedupe(AcrossChapters, records)) == Dedupe(AcrossChapters, records)
    ensures GroupsAreComponents(records)
  {
    hide Dedupe, GroupsAreComponents, Bridgeless;
    ChronologicalIsBridgeless(records);
    SecondRunExactlyWhenBridgeless(records);
  }

  /** Retained records of equal text have disjoint windows and share no reference, exactly when the input is
      bridgeless. */
  lemma {:induction false} RetainedAreDisjoint(records: seq<Record>)
    requires Regular(records)
    ensures var out := Dedupe(AcrossChapters, records);
            (forall k, l | 0 <= k < |out| && 0 <= l < |out| && k != l && out[k].key == out[l].key ::
               !WindowsOverlap(out[k], out[l]) && !SharesReference(out[k], out[l])) <==> Bridgeless(records)
  {
    hide Dedupe, Bridgeless, Regular, WindowsOverlap, SharesReference;
    SecondRunExactlyWhenBridgeless(records);
    var out := Dedupe(AcrossChapters, records);
    assert Apart(out) <==> forall k, l | 0 <= k < |out| && 0 <= l < |out| && k != l ::
        !Matches(AcrossChapters, out[k], out[l]);
  }

  lemma KeepSingle(e: Record, r: Record)
    ensures Keep(AcrossChapters, [], r) == [r]
    ensures Keep(AcrossChapters, [e], r) == if Matches(AcrossChapters, e, r) then [Absorb(AcrossChapters, e, r)]
        else [e, r]
  {
    hide Absorb, Matches;
  }

  /** A record that matches both of two records that do not match joins the first of them only, and a second run joins
      the other one as well. */
  lemma BridgeNeedsAnotherRun(a: Record, b: Record, c: Record)
    requires !Matches(AcrossChapters, a, b) && Matches(AcrossChapters, a, c)
    requires Matches(AcrossChapters, Absorb(AcrossChapters, a, c), b)
    ensures Dedupe(AcrossChapters, [a, b, c]) == [Absorb(AcrossChapters, a, c), b]
    ensures Dedupe(AcrossChapters, [Absorb(AcrossChapters, a, c), b]) ==
        [Absorb(AcrossChapters, Absorb(AcrossChapters, a, c), b)]
  {
    hide Dedupe, Absorb, Keep, FirstMatch, Matches;
    DedupeNothing();
    DedupeOneMore([], a);
    KeepSingle(a, a);
    DedupeOneMore([] + [a], b);
    KeepSingle(a, b);
    DedupeOneMore([] + [a] + [b], c);
    BridgeIsKept(a, b, c);
    assert [] + [a] + [b] == [a, b] && [] + [a] + [b] + [c] == [a, b, c];
    var ac := Absorb(AcrossChapters, a, c);
    DedupeOneMore([], ac);
    KeepSingle(ac, ac);
    DedupeOneMore([] + [ac], b);
    KeepSingle(ac, b);
    assert [] + [ac] + [b] == [ac, b];
  }

  lemma BridgeIsKept(a: Record, b: Record, c: Record)
    requires Matches(AcrossChapters, a, c)
    ensures Keep(AcrossChapters, [a, b], c) == [Absorb(AcrossChapters, a, c), b]
  {
    hide Absorb, Matches;
  }
}
