/** The canonical value behind the command request hash: object members without `undefined`, in the order the
    rebuilt object enumerates them, at every depth. */
module CanonicalJson {
  import opened KeyOrder

  /** A number is its JSON text, which JavaScript produces injectively from the value. */
  datatype Json =
    | Null
    | Bool(b: bool)
    | Num(token: Text)
    | Str(text: Text)
    | Arr(items: seq<Json>)
    | Obj(members: seq<Member>)
    | Undefined
  datatype Member = Member(key: Text, value: Json)

  ghost predicate DistinctKeys(members: seq<Member>) {
    forall i, j | 0 <= i < j < |members| :: members[i].key != members[j].key
  }

  // ----- rebuilding an object

  datatype Order = ByText | ByEnumeration

  predicate Before(order: Order, a: Text, b: Text) { if order.ByText? then TextLess(a, b) else EnumLess(a, b) }

  function InsertMember(order: Order, m: Member, s: seq<Member>): (r: seq<Member>)
    ensures forall x :: x in r <==> x == m || x in s
    ensures |r| == |s| + 1
  {
    if s == [] || !Before(order, s[0].key, m.key) then [m] + s
    else
      var rest := InsertMember(order, m, s[1..]);
      assert forall x :: x in s <==> x == s[0] || x in s[1..];
      [s[0]] + rest
  }

  function SortMembers(order: Order, s: seq<Member>): (r: seq<Member>)
    ensures forall x :: x in r <==> x in s
    ensures |r| == |s|
  {
    if s == [] then []
    else
      assert forall x :: x in s <==> x == s[0] || x in s[1..];
      InsertMember(order, s[0], SortMembers(order, s[1..]))
  }

  function Select(s: seq<Member>, indices: bool): (r: seq<Member>)
    ensures forall x :: x in r <==> x in s && IsArrayIndex(x.key) == indices
  {
    if s == [] then []
    else
      var rest := Select(s[1..], indices);
      assert forall x :: x in s <==> x == s[0] || x in s[1..];
      if IsArrayIndex(s[0].key) == indices then [s[0]] + rest else rest
  }

  /** `Object.fromEntries`: the new object enumerates array indices in numeric order, then the other keys as given. */
  function FromEntries(entries: seq<Member>): (r: seq<Member>)
    ensures forall x :: x in r <==> x in entries
  {
    SortMembers(ByEnumeration, Select(entries, true)) + Select(entries, false)
  }

  /** The recursion of `stableValue`. Mapping the values commutes with the sort, which reads keys only. */
  function Stable(v: Json): (r: Json)
    ensures v.Obj? <==> r.Obj?
    decreases v, 1
  {
    match v
    case Arr(items) => Arr(StableItems(items))
    case Obj(members) => Obj(FromEntries(SortMembers(ByText, StableMembers(members))))
    case _ => v
  }

  function StableItems(items: seq<Json>): (r: seq<Json>)
    ensures |r| == |items|
    decreases items, 0
  {
    if items == [] then [] else [Stable(items[0])] + StableItems(items[1..])
  }

  /** The defined members with stable values. */
  function StableMembers(members: seq<Member>): seq<Member>
    decreases members, 0
  {
    if members == [] then []
    else
      var rest := StableMembers(members[1..]);
      if members[0].value == Undefined then rest else [Member(members[0].key, Stable(members[0].value))] + rest
  }

  // ----- the canonical order is unique

  ghost predicate Sorted(order: Order, s: seq<Member>) {
    forall i, j | 0 <= i < j < |s| :: Before(order, s[i].key, s[j].key)
  }

  lemma BeforeTotal(order: Order, a: Text, b: Text)
    ensures Before(order, a, b) || a == b || Before(order, b, a)
    ensures !(Before(order, a, b) && Before(order, b, a)) && !Before(order, a, a)
  {
    TextLessTotal(a, b);
    EnumLessTotal(a, b);
  }

  lemma BeforeTransitive(order: Order, a: Text, b: Text, c: Text)
    requires Before(order, a, b) && Before(order, b, c)
    ensures Before(order, a, c)
  {
    hide TextLess, EnumLess;
    if order.ByText? { TextLessTransitive(a, b, c); } else { EnumLessTransitive(a, b, c); }
  }

  lemma {:induction false} InsertKeepsSorted(order: Order, m: Member, s: seq<Member>)
    requires Sorted(order, s) && forall x | x in s :: x.key != m.key
    ensures Sorted(order, InsertMember(order, m, s))
  {
    hide Before;
    if s == [] {
    } else {
      assert s[0] in s;
      BeforeTotal(order, s[0].key, m.key);
      var r := InsertMember(order, m, s);
      if Before(order, s[0].key, m.key) {
        InsertKeepsSorted(order, m, s[1..]);
        forall j | 1 <= j < |r| ensures Before(order, s[0].key, r[j].key) {
          assert r[j] in InsertMember(order, m, s[1..]);
          if r[j] != m {
            var k :| 0 <= k < |s| - 1 && s[1..][k] == r[j];
            assert Before(order, s[0].key, s[k + 1].key);
          }
        }
      } else {
        forall j | 1 <= j < |r| ensures Before(order, m.key, r[j].key) {
          if j > 1 {
            assert Before(order, s[0].key, s[j - 1].key);
            BeforeTransitive(order, m.key, s[0].key, s[j - 1].key);
          }
        }
      }
    }
  }

  lemma {:induction false} SortIsSorted(order: Order, s: seq<Member>)
    requires DistinctKeys(s)
    ensures Sorted(order, SortMembers(order, s))
  {
    if s != [] {
      SortIsSorted(order, s[1..]);
      InsertKeepsSorted(order, s[0], SortMembers(order, s[1..]));
    }
  }

  lemma {:induction false} SelectKeepsSorted(order: Order, s: seq<Member>, indices: bool)
    requires Sorted(order, s)
    ensures Sorted(order, Select(s, indices))
  {
    hide Before, IsArrayIndex;
    if s != [] {
      SelectKeepsSorted(order, s[1..], indices);
      var rest := Select(s[1..], indices);
      forall j | 0 <= j < |rest| ensures Before(order, s[0].key, rest[j].key) {
        assert rest[j] in rest;
        var k :| 0 <= k < |s| - 1 && s[1..][k] == rest[j];
        assert Before(order, s[0].key, s[k + 1].key);
      }
    }
  }

  lemma {:induction false} SelectKeepsDistinct(s: seq<Member>, indices: bool)
    requires DistinctKeys(s)
    ensures DistinctKeys(Select(s, indices))
  {
    hide IsArrayIndex;
    if s != [] {
      SelectKeepsDistinct(s[1..], indices);
      var rest := Select(s[1..], indices);
      forall j | 0 <= j < |rest| ensures rest[j].key != s[0].key {
        assert rest[j] in rest;
        var k :| 0 <= k < |s| - 1 && s[1..][k] == rest[j];
        assert s[k + 1].key != s[0].key;
      }
    }
  }

  lemma SortedMeansDistinct(order: Order, s: seq<Member>)
    requires Sorted(order, s)
    ensures DistinctKeys(s)
  {
    forall i, j | 0 <= i < j < |s| ensures s[i].key != s[j].key {
      BeforeTotal(order, s[i].key, s[j].key);
      assert Before(order, s[i].key, s[j].key);
    }
  }

  /** Rebuilding from entries in text order puts them in enumeration order. */
  lemma {:induction false} RebuiltIsSorted(s: seq<Member>)
    requires DistinctKeys(s)
    ensures Sorted(ByEnumeration, FromEntries(SortMembers(ByText, s)))
    ensures forall x :: x in FromEntries(SortMembers(ByText, s)) <==> x in s
  {
    hide SortMembers, Select, TextLess, IsArrayIndex;
    var t := SortMembers(ByText, s);
    SortIsSorted(ByText, s);
    SortedMeansDistinct(ByText, t);
    SelectKeepsDistinct(t, true);
    SelectKeepsSorted(ByText, t, false);
    SortIsSorted(ByEnumeration, Select(t, true));
    var a, b := SortMembers(ByEnumeration, Select(t, true)), Select(t, false);
    var r: seq<Member> := a + b;
    forall i, j | 0 <= i < j < |r| ensures Before(ByEnumeration, r[i].key, r[j].key) {
      if j < |a| {
        assert Before(ByEnumeration, a[i].key, a[j].key);
      } else if i >= |a| {
        assert b[i - |a|] in b && b[j - |a|] in b;
        assert Before(ByText, b[i - |a|].key, b[j - |a|].key);
      } else {
        assert a[i] in a && b[j - |a|] in b;
      }
    }
  }

  lemma FirstIsLeast(order: Order, s: seq<Member>, x: Member)
    requires Sorted(order, s) && x in s && x != s[0]
    ensures Before(order, s[0].key, x.key)
  {
    var k :| 0 <= k < |s| && s[k] == x;
    assert k > 0;
  }

  lemma SomeMember(s: seq<Member>)
    ensures s == [] || exists x :: x in s
  {
    if s != [] {
      assert s[0] in s;
    }
  }

  lemma {:induction false} SortedIsUnique(order: Order, s: seq<Member>, t: seq<Member>)
    requires Sorted(order, s) && Sorted(order, t) && forall x :: x in s <==> x in t
    ensures s == t
  {
    hide Before;
    SomeMember(t);
    if s != [] {
      assert s[0] in s && s[0] in t && t[0] in t;
      if s[0] != t[0] {
        FirstIsLeast(order, s, t[0]);
        FirstIsLeast(order, t, s[0]);
        BeforeTotal(order, s[0].key, t[0].key);
      }
      SortedMeansDistinct(order, s);
      SortedMeansDistinct(order, t);
      forall x ensures x in s[1..] <==> x in t[1..] {
        RestOf(s, x);
        RestOf(t, x);
      }
      SortedIsUnique(order, s[1..], t[1..]);
      assert s == [s[0]] + s[1..] && t == [t[0]] + t[1..];
    }
  }

  lemma RestOf(s: seq<Member>, x: Member)
    requires s != [] && DistinctKeys(s)
    ensures x in s[1..] <==> x in s && x != s[0]
  {
    if x in s[1..] {
      var k :| 0 <= k < |s| - 1 && s[1..][k] == x;
      assert s[k + 1].key != s[0].key;
    }
  }

  // ----- equality up to key order and undefined members

  ghost predicate HasKey(members: seq<Member>, key: Text) {
    exists m :: m in members && m.key == key && m.value != Undefined
  }

  ghost predicate SameKeys(a: seq<Member>, b: seq<Member>) { forall key :: HasKey(a, key) <==> HasKey(b, key) }

  /** Objects have the same defined keys with equivalent values; arrays agree item by item; all else is equal. */
  ghost predicate Equivalent(v: Json, w: Json)
    decreases v
  {
    match (v, w)
    case (Arr(items), Arr(items')) =>
        |items| == |items'| && forall i | 0 <= i < |items| :: Equivalent(items[i], items'[i])
    case (Obj(ms), Obj(ms')) =>
      && SameKeys(ms, ms')
      && forall i, j | 0 <= i < |ms| && 0 <= j < |ms'| && ms[i].key == ms'[j].key && ms[i].value != Undefined
           && ms'[j].value != Undefined ::
           Equivalent(ms[i].value, ms'[j].value)
    case (_, _) => v == w
  }

  /** No object, at any depth, has the same key twice. */
  ghost predicate WellKeyed(v: Json)
    decreases v
  {
    match v
    case Arr(items) => forall i | 0 <= i < |items| :: WellKeyed(items[i])
    case Obj(ms) => DistinctKeys(ms) && forall i | 0 <= i < |ms| :: WellKeyed(ms[i].value)
    case _ => true
  }

  lemma {:induction false} StableItemsAt(items: seq<Json>, i: nat)
    requires i < |items|
    ensures StableItems(items)[i] == Stable(items[i])
  {
    if i > 0 {
      StableItemsAt(items[1..], i - 1);
    }
  }

  lemma {:induction false} StableMembersAre(members: seq<Member>, x: Member)
    ensures x in StableMembers(members) <==>
              exists i ::
                  0 <= i < |members| && members[i].value != Undefined
                      && x == Member(members[i].key, Stable(members[i].value))
  {
    if members != [] {
      StableMembersAre(members[1..], x);
      if x in StableMembers(members[1..]) {
        var i :| 0 <= i < |members| - 1 && members[1..][i].value != Undefined
            && x == Member(members[1..][i].key, Stable(members[1..][i].value));
        assert members[i + 1] == members[1..][i];
      }
      if i :|
        0 <= i < |members| && members[i].value != Undefined && x == Member(members[i].key, Stable(members[i].value))
      {
        if i > 0 {
          assert members[1..][i - 1] == members[i];
        }
      }
    }
  }

  lemma {:induction false} StableMembersDistinct(members: seq<Member>)
    requires DistinctKeys(members)
    ensures DistinctKeys(StableMembers(members))
  {
    if members != [] {
      StableMembersDistinct(members[1..]);
      var rest := StableMembers(members[1..]);
      forall j | 0 <= j < |rest| ensures rest[j].key != members[0].key {
        StableMembersAre(members[1..], rest[j]);
        var i :| 0 <= i < |members| - 1 && members[1..][i].value != Undefined
            && rest[j] == Member(members[1..][i].key, Stable(members[1..][i].value));
        assert members[i + 1].key != members[0].key;
      }
    }
  }

  /** The entries of a stable object are the defined members with stable values, in enumeration order. */
  lemma StableObject(members: seq<Member>)
    requires DistinctKeys(members)
    ensures Sorted(ByEnumeration, Stable(Obj(members)).members)
    ensures forall x :: x in Stable(Obj(members)).members <==>
              exists i ::
                  0 <= i < |members| && members[i].value != Undefined
                      && x == Member(members[i].key, Stable(members[i].value))
  {
    StableMembersDistinct(members);
    RebuiltIsSorted(StableMembers(members));
    forall x ensures x in Stable(Obj(members)).members <==>
      exists i ::
          0 <= i < |members| && members[i].value != Undefined && x == Member(members[i].key, Stable(members[i].value))
    {
      StableMembersAre(members, x);
    }
  }

  lemma StableEntry(members: seq<Member>, i: nat)
    requires DistinctKeys(members) && i < |members| && members[i].value != Undefined
    ensures Member(members[i].key, Stable(members[i].value)) in Stable(Obj(members)).members
  {
    StableObject(members);
  }

  lemma EntryOf(members: seq<Member>, x: Member) returns (i: nat)
    requires DistinctKeys(members) && x in Stable(Obj(members)).members
    ensures i < |members| && members[i].value != Undefined && x == Member(members[i].key, Stable(members[i].value))
  {
    StableObject(members);
    i :| 0 <= i < |members| && members[i].value != Undefined && x == Member(members[i].key, Stable(members[i].value));
  }

  lemma SameEntry(s: seq<Member>, x: Member, y: Member)
    requires DistinctKeys(s) && x in s && y in s && x.key == y.key
    ensures x == y
  {
  }

  /** Values are equivalent exactly when they have the same stable value. */
  lemma {:induction false} StableDecidesEquivalence(v: Json, w: Json)
    requires WellKeyed(v) && WellKeyed(w)
    ensures Stable(v) == Stable(w) <==> Equivalent(v, w)
    decreases v
  {
    match (v, w)
    case (Arr(items), Arr(items')) =>
      forall i | 0 <= i < |items| && i < |items'|
        ensures StableItems(items)[i] == StableItems(items')[i] <==> Equivalent(items[i], items'[i])
      {
        StableItemsAt(items, i);
        StableItemsAt(items', i);
        StableDecidesEquivalence(items[i], items'[i]);
      }
    case (Obj(ms), Obj(ms')) =>
      forall i, j | 0 <= i < |ms| && 0 <= j < |ms'|
        ensures Stable(ms[i].value) == Stable(ms'[j].value) <==> Equivalent(ms[i].value, ms'[j].value)
      {
        StableDecidesEquivalence(ms[i].value, ms'[j].value);
      }
      if Stable(v) == Stable(w) {
        EqualObjectsAreEquivalent(ms, ms');
      }
      if Equivalent(v, w) {
        EquivalentObjectsAreEqual(ms, ms');
      }
    case (_, _) =>
  }

  lemma {:induction false} EqualObjectsAreEquivalent(ms: seq<Member>, ms': seq<Member>)
    requires DistinctKeys(ms) && DistinctKeys(ms') && Stable(Obj(ms)) == Stable(Obj(ms'))
    requires forall i, j | 0 <= i < |ms| && 0 <= j < |ms'| ::
               Stable(ms[i].value) == Stable(ms'[j].value) ==> Equivalent(ms[i].value, ms'[j].value)
    ensures Equivalent(Obj(ms), Obj(ms'))
  {
    hide Stable;
    StableObject(ms);
    var s := Stable(Obj(ms)).members;
    SortedMeansDistinct(ByEnumeration, s);
    forall key ensures HasKey(ms, key) <==> HasKey(ms', key) {
      KeyOfStable(ms, key);
      KeyOfStable(ms', key);
    }
    forall i, j | 0 <= i < |ms| && 0 <= j < |ms'| && ms[i].key == ms'[j].key && ms[i].value != Undefined
        && ms'[j].value != Undefined
      ensures Equivalent(ms[i].value, ms'[j].value)
    {
      StableEntry(ms, i);
      StableEntry(ms', j);
      SameEntry(s, Member(ms[i].key, Stable(ms[i].value)), Member(ms'[j].key, Stable(ms'[j].value)));
    }
  }

  lemma KeyOfStable(ms: seq<Member>, key: Text)
    requires DistinctKeys(ms)
    ensures HasKey(ms, key) <==> exists x :: x in Stable(Obj(ms)).members && x.key == key
  {
    hide Stable;
    if HasKey(ms, key) {
      var m :| m in ms && m.key == key && m.value != Undefined;
      var i: nat :| i < |ms| && ms[i] == m;
      StableEntry(ms, i);
    }
    if x :| x in Stable(Obj(ms)).members && x.key == key {
      var i := EntryOf(ms, x);
      assert ms[i] in ms;
    }
  }

  /** Members with the same key and defined values have the same stable value. */
  ghost predicate SameStableValues(ms: seq<Member>, ms': seq<Member>) {
    forall i, j | 0 <= i < |ms| && 0 <= j < |ms'| && ms[i].key == ms'[j].key && ms[i].value != Undefined
        && ms'[j].value != Undefined ::
      Stable(ms[i].value) == Stable(ms'[j].value)
  }

  lemma EquivalentEntries(ms: seq<Member>, ms': seq<Member>, x: Member)
    requires DistinctKeys(ms) && DistinctKeys(ms') && SameKeys(ms, ms') && SameStableValues(ms, ms')
    requires x in Stable(Obj(ms)).members
    ensures x in Stable(Obj(ms')).members
  {
    hide Stable;
    var i := EntryOf(ms, x);
    assert ms[i] in ms && HasKey(ms, x.key) && HasKey(ms', x.key);
    var m :| m in ms' && m.key == x.key && m.value != Undefined;
    var j: nat :| j < |ms'| && ms'[j] == m;
    StableEntry(ms', j);
  }

  lemma SameEntriesMeansEqual(ms: seq<Member>, ms': seq<Member>)
    requires DistinctKeys(ms) && DistinctKeys(ms') && SameKeys(ms, ms')
    requires SameStableValues(ms, ms') && SameStableValues(ms', ms)
    ensures Stable(Obj(ms)) == Stable(Obj(ms'))
  {
    hide Stable, Sorted, SameKeys, SameStableValues, DistinctKeys;
    var s, t := Stable(Obj(ms)).members, Stable(Obj(ms')).members;
    StableObject(ms);
    StableObject(ms');
    forall x ensures x in s <==> x in t {
      if x in s { EquivalentEntries(ms, ms', x); }
      if x in t { SameKeysBack(ms, ms'); EquivalentEntries(ms', ms, x); }
    }
    SortedIsUnique(ByEnumeration, s, t);
  }

  lemma SameKeysBack(ms: seq<Member>, ms': seq<Member>)
    requires SameKeys(ms, ms')
    ensures SameKeys(ms', ms)
  {
  }

  lemma EquivalentObjectsAreEqual(ms: seq<Member>, ms': seq<Member>)
    requires DistinctKeys(ms) && DistinctKeys(ms') && Equivalent(Obj(ms), Obj(ms'))
    requires forall i, j | 0 <= i < |ms| && 0 <= j < |ms'| ::
               Equivalent(ms[i].value, ms'[j].value) ==> Stable(ms[i].value) == Stable(ms'[j].value)
    ensures Stable(Obj(ms)) == Stable(Obj(ms'))
  {
    hide Stable;
    SameEntriesMeansEqual(ms, ms');
  }

  // ----- idempotence

  lemma {:induction false} StableIsUndefined(v: Json)
    ensures Stable(v) == Undefined <==> v == Undefined
  {
  }

  lemma {:induction false} StableIsWellKeyed(v: Json)
    requires WellKeyed(v)
    ensures WellKeyed(Stable(v)) && Equivalent(Stable(v), v)
  {
    match v
    case Arr(items) =>
      forall i | 0 <= i < |items|
        ensures WellKeyed(StableItems(items)[i]) && Equivalent(StableItems(items)[i], items[i])
      {
        StableItemsAt(items, i);
        StableIsWellKeyed(items[i]);
      }
    case Obj(ms) =>
      forall i | 0 <= i < |ms| ensures WellKeyed(Stable(ms[i].value)) && Equivalent(Stable(ms[i].value), ms[i].value) {
        StableIsWellKeyed(ms[i].value);
      }
      StableObjectIsEquivalent(ms);
    case _ =>
  }

  lemma {:induction false} StableObjectIsEquivalent(ms: seq<Member>)
    requires DistinctKeys(ms)
    requires forall i | 0 <= i < |ms| :: WellKeyed(Stable(ms[i].value)) && Equivalent(Stable(ms[i].value), ms[i].value)
    ensures Stable(Obj(ms)).Obj? && WellKeyed(Stable(Obj(ms))) && Equivalent(Stable(Obj(ms)), Obj(ms))
  {
    StableObject(ms);
    var s := Stable(Obj(ms)).members;
    SortedMeansDistinct(ByEnumeration, s);
    hide Stable, Sorted;
    forall k | 0 <= k < |s| ensures WellKeyed(s[k].value) && s[k].value != Undefined {
      var i := EntryOf(ms, s[k]);
      StableIsUndefined(ms[i].value);
    }
    forall key ensures HasKey(s, key) <==> HasKey(ms, key) {
      KeyOfStable(ms, key);
      if x :| x in s && x.key == key {
        var k :| 0 <= k < |s| && s[k] == x;
      }
    }
    forall k, i | 0 <= k < |s| && 0 <= i < |ms| && s[k].key == ms[i].key && s[k].value != Undefined
        && ms[i].value != Undefined
      ensures Equivalent(s[k].value, ms[i].value)
    {
      StableEntry(ms, i);
      SameEntry(s, s[k], Member(ms[i].key, Stable(ms[i].value)));
    }
  }

  /** `stableValue` applied twice is `stableValue` applied once. */
  lemma StableIsIdempotent(v: Json)
    requires WellKeyed(v)
    ensures Stable(Stable(v)) == Stable(v)
  {
    StableIsWellKeyed(v);
    StableDecidesEquivalence(Stable(v), v);
  }
}
