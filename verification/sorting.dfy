/** The stable sort by a numeric key that Python's `sorted` and JavaScript's `Array.prototype.sort`
    both provide: keys end up in nondecreasing order and equal keys keep their arrival order. */
module Sorting {
  import opened Options

  /** Inserts `x` in front of the first element whose key is not smaller. */
  function Insert<T>(key: T -> real, x: T, s: seq<T>): (r: seq<T>) {
    if s == [] || key(x) <= key(s[0]) then [x] + s else [s[0]] + Insert(key, x, s[1..])
  }

  function StableSort<T>(key: T -> real, s: seq<T>): (r: seq<T>) {
    if s == [] then [] else Insert(key, s[0], StableSort(key, s[1..]))
  }

  ghost predicate SortedBy<T>(key: T -> real, s: seq<T>) {
    forall i, j | 0 <= i < j < |s| :: key(s[i]) <= key(s[j])
  }

  lemma {:induction false} InsertPermutes<T>(key: T -> real, x: T, s: seq<T>)
    ensures multiset(Insert(key, x, s)) == multiset{x} + multiset(s)
  {
    if s != [] {
      assert s == [s[0]] + s[1..];
      InsertPermutes(key, x, s[1..]);
    }
  }

  lemma {:induction false} InsertKeepsOrder<T>(key: T -> real, x: T, s: seq<T>)
    requires SortedBy(key, s)
    ensures SortedBy(key, Insert(key, x, s))
  {
    if s == [] || key(x) <= key(s[0]) {
    } else {
      var rest := Insert(key, x, s[1..]);
      InsertKeepsOrder(key, x, s[1..]);
      forall j | 0 <= j < |rest| ensures key(s[0]) <= key(rest[j]) {
        InsertMembers(key, x, s[1..], rest[j]);
      }
    }
  }

  lemma InsertMembers<T>(key: T -> real, x: T, s: seq<T>, y: T)
    requires y in Insert(key, x, s)
    ensures y == x || y in s
  {
    InsertPermutes(key, x, s);
    assert y in multiset(Insert(key, x, s));
  }

  lemma {:induction false} StableSortSorts<T>(key: T -> real, s: seq<T>)
    ensures SortedBy(key, StableSort(key, s))
    ensures multiset(StableSort(key, s)) == multiset(s)
    ensures |StableSort(key, s)| == |s|
    ensures forall x :: x in StableSort(key, s) <==> x in s
  {
    if s != [] {
      StableSortSorts(key, s[1..]);
      InsertKeepsOrder(key, s[0], StableSort(key, s[1..]));
      InsertPermutes(key, s[0], StableSort(key, s[1..]));
      assert s == [s[0]] + s[1..];
    }
    assert |multiset(StableSort(key, s))| == |multiset(s)|;
    forall x ensures x in StableSort(key, s) <==> x in s {
      assert x in StableSort(key, s) <==> x in multiset(StableSort(key, s));
      assert x in s <==> x in multiset(s);
    }
  }

  lemma {:induction false} SortOfSorted<T>(key: T -> real, s: seq<T>)
    requires SortedBy(key, s)
    ensures StableSort(key, s) == s
  {
    if s != [] {
      SortOfSorted(key, s[1..]);
      assert s == [s[0]] + s[1..];
    }
  }

  lemma {:induction false} InsertBelow<T>(key: T -> real, x: T, low: seq<T>, high: seq<T>)
    requires high != [] ==> key(x) <= key(high[0])
    ensures Insert(key, x, low + high) == Insert(key, x, low) + high
  {
    if low == [] {
      assert low + high == high;
    } else {
      assert (low + high)[1..] == low[1..] + high;
      InsertBelow(key, x, low[1..], high);
    }
  }

  /** Sorting commutes with appending elements whose keys are not below any earlier key. */
  lemma {:induction false} SortOfAppend<T>(key: T -> real, low: seq<T>, high: seq<T>)
    requires forall x, y | x in low && y in high :: key(x) <= key(y)
    ensures StableSort(key, low + high) == StableSort(key, low) + StableSort(key, high)
  {
    if low == [] {
      assert low + high == high;
    } else {
      assert (low + high)[1..] == low[1..] + high;
      SortOfAppend(key, low[1..], high);
      StableSortSorts(key, high);
      var sorted := StableSort(key, high);
      if sorted != [] {
        assert sorted[0] in multiset(sorted);
        assert sorted[0] in high;
        assert low[0] in low;
      }
      InsertBelow(key, low[0], StableSort(key, low[1..]), sorted);
    }
  }

  /** The first element satisfying `p`: JavaScript's `Array.prototype.find`. */
  function Find<T>(p: T -> bool, s: seq<T>): (r: Option<T>)
    ensures r.Some? ==> p(r.value) && r.value in s
    ensures r.None? ==> forall x | x in s :: !p(x)
  {
    if s == [] then None else if p(s[0]) then Some(s[0]) else Find(p, s[1..])
  }

  /** `s[i]` satisfies `p` and is least by (key, position) among the elements that do. */
  ghost predicate LeastAt<T(!new)>(key: T -> real, p: T -> bool, s: seq<T>, i: nat) {
    && i < |s| && p(s[i])
    && (forall j | 0 <= j < |s| && p(s[j]) :: key(s[i]) < key(s[j]) || (key(s[i]) == key(s[j]) && i <= j))
  }

  /** Which of a new candidate `x` and the previous winner is met first once `x` is inserted. */
  function Earlier<T>(key: T -> real, p: T -> bool, x: T, winner: Option<T>): Option<T> {
    if p(x) && (winner.None? || key(x) <= key(winner.value)) then Some(x) else winner
  }

  lemma {:induction false} FindAfterInsert<T>(key: T -> real, p: T -> bool, x: T, s: seq<T>)
    requires SortedBy(key, s)
    ensures Find(p, Insert(key, x, s)) == Earlier(key, p, x, Find(p, s))
  {
    if s == [] {
      assert ([x] + s)[1..] == s;
    } else if key(x) <= key(s[0]) {
      assert ([x] + s)[1..] == s;
      var y := Find(p, s);
      if y.Some? {
        var k :| 0 <= k < |s| && s[k] == y.value;
        assert key(s[0]) <= key(s[k]);
      }
    } else {
      var rest := Insert(key, x, s[1..]);
      assert ([s[0]] + rest)[1..] == rest;
      FindAfterInsert(key, p, x, s[1..]);
    }
  }

  /** Sorting stably and taking the first match selects the match least by (key, original position). */
  lemma {:induction false} FindOfSorted<T(!new)>(key: T -> real, p: T -> bool, s: seq<T>) returns (i: nat)
    ensures var r := Find(p, StableSort(key, s));
            && (r.None? <==> forall x | x in s :: !p(x))
            && (r.Some? ==> LeastAt(key, p, s, i) && r.value == s[i])
  {
    i := 0;
    if s != [] {
      var rest := s[1..];
      assert s == [s[0]] + rest;
      var k := FindOfSorted(key, p, rest);
      StableSortSorts(key, rest);
      FindAfterInsert(key, p, s[0], StableSort(key, rest));
      var winner := Find(p, StableSort(key, rest));
      if winner.Some? {
        if p(s[0]) && key(s[0]) <= key(winner.value) {
          i := 0;
        } else {
          i := k + 1;
        }
        LeastOfCons(key, p, s, k, i);
      }
    }
  }

  lemma LeastOfCons<T(!new)>(key: T -> real, p: T -> bool, s: seq<T>, k: nat, i: nat)
    requires s != [] && LeastAt(key, p, s[1..], k)
    requires i == if p(s[0]) && key(s[0]) <= key(s[1..][k]) then 0 else k + 1
    ensures LeastAt(key, p, s, i)
  {
    forall j | 0 <= j < |s| && p(s[j])
      ensures key(s[i]) < key(s[j]) || (key(s[i]) == key(s[j]) && i <= j)
    {
      if j > 0 {
        assert s[j] == s[1..][j - 1];
      }
    }
  }
}
