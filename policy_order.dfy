/**
 * The order of the provider's instance list. Every change to the list ends
 * with `List.sort(null)`, a stable sort by `compareTo` (that is, by policy
 * order). A stable sort has exactly one possible result, so it is modelled
 * here as an insertion sort, `StableSort`, together with the facts the
 * provider's invariants need: the result is sorted, a permutation and
 * stable on any input, an already sorted list is left alone, and ids, id sets and template reference
 * counts survive sorting, insertion and removal.
 */
module PolicyOrder {
  import opened PolicyTypes

  /** Non-decreasing under `compareTo`. */
  ghost predicate Sorted(s: seq<RegisteredPolicy>)
  {
    forall i, j :: 0 <= i < j < |s| ==> CompareTo(s[i], s[j]) <= 0
  }

  /** No two entries are registered under the same policy id. */
  ghost predicate UniqueIds(s: seq<RegisteredPolicy>)
  {
    forall i, j :: 0 <= i < j < |s| ==> s[i].policyId != s[j].policyId
  }

  /** The ids registered in the list. */
  ghost function IdSet(s: seq<RegisteredPolicy>): set<string>
  {
    set e | e in s :: e.policyId
  }

  /** The number of entries whose instance was built on template `h`. */
  function RefCount(s: seq<RegisteredPolicy>, h: TemplateHandle): nat
  {
    if s == [] then 0 else (if s[0].template == h then 1 else 0) + RefCount(s[1..], h)
  }

  /** `List.remove` of the element at index `i`: the others keep their relative order. */
  function RemoveAt<T>(s: seq<T>, i: nat): (r: seq<T>)
    requires i < |s|
    ensures |r| == |s| - 1
    ensures forall j :: 0 <= j < |r| ==> r[j] == if j < i then s[j] else s[j + 1]
  {
    s[..i] + s[i + 1..]
  }

  /** Where a stable sort puts `x` after a sorted `t`: behind every entry whose order is not greater. */
  function InsertionPoint(t: seq<RegisteredPolicy>, x: RegisteredPolicy): (k: nat)
    ensures k <= |t|
    ensures forall j :: 0 <= j < k ==> CompareTo(t[j], x) <= 0
    ensures k < |t| ==> CompareTo(x, t[k]) < 0
  {
    if t == [] || CompareTo(x, t[0]) < 0 then 0 else 1 + InsertionPoint(t[1..], x)
  }

  /** One step of the stable insertion sort: `x` goes in at its insertion point. */
  function Insert(t: seq<RegisteredPolicy>, x: RegisteredPolicy): seq<RegisteredPolicy>
  {
    var k := InsertionPoint(t, x);
    t[..k] + [x] + t[k..]
  }

  /** `List.sort(null)` on the registered instances: a stable sort by order. */
  function StableSort(s: seq<RegisteredPolicy>): (r: seq<RegisteredPolicy>)
    ensures |r| == |s|
  {
    if s == [] then [] else Insert(StableSort(s[..|s| - 1]), s[|s| - 1])
  }

  /** The stable sort's result is sorted. */
  lemma {:induction false} StableSortSorted(s: seq<RegisteredPolicy>)
    ensures Sorted(StableSort(s))
  {
    if s != [] {
      StableSortSorted(s[..|s| - 1]);
      InsertSorted(StableSort(s[..|s| - 1]), s[|s| - 1]);
    }
  }

  /** The stable sort's result is a permutation of its input. */
  lemma {:induction false} StableSortPermutation(s: seq<RegisteredPolicy>)
    ensures multiset(StableSort(s)) == multiset(s)
  {
    if s != [] {
      var init, last := s[..|s| - 1], s[|s| - 1];
      assert s == init + [last];
      StableSortPermutation(init);
      InsertSorted(StableSort(init), last);
    }
  }

  lemma {:induction false} InsertAt(t: seq<RegisteredPolicy>, x: RegisteredPolicy, i: nat)
    requires i <= |t|
    ensures |Insert(t, x)| == |t| + 1
    ensures Insert(t, x)[i] ==
      if i < InsertionPoint(t, x) then t[i] else if i == InsertionPoint(t, x) then x else t[i - 1]
  {
  }

  /** Inserting into a sorted list keeps it sorted, with exactly one more element. */
  lemma {:induction false} InsertSorted(t: seq<RegisteredPolicy>, x: RegisteredPolicy)
    ensures multiset(Insert(t, x)) == multiset(t) + multiset{x}
    ensures Sorted(t) ==> Sorted(Insert(t, x))
  {
    var k := InsertionPoint(t, x);
    assert t == t[..k] + t[k..];
    assert multiset(t) == multiset(t[..k]) + multiset(t[k..]);
    assert multiset(Insert(t, x)) == multiset(t[..k]) + multiset{x} + multiset(t[k..]);
    if Sorted(t) {
      InsertKeepsSorted(t, x);
    }
  }

  lemma {:induction false} InsertKeepsSorted(t: seq<RegisteredPolicy>, x: RegisteredPolicy)
    requires Sorted(t)
    ensures Sorted(Insert(t, x))
  {
    var k := InsertionPoint(t, x);
    var r := Insert(t, x);
    forall i, j | 0 <= i < j < |r| ensures r[i].order <= r[j].order {
      InsertAt(t, x, i);
      InsertAt(t, x, j);
      if j < k {
        assert CompareTo(t[i], t[j]) <= 0;
      } else if j == k {
        assert CompareTo(t[i], x) <= 0;
      } else if i < k {
        assert CompareTo(t[i], t[j - 1]) <= 0;
      } else if i == k {
        assert CompareTo(x, t[k]) < 0;
        if k < j - 1 {
          assert CompareTo(t[k], t[j - 1]) <= 0;
        }
      } else {
        assert CompareTo(t[i - 1], t[j - 1]) <= 0;
      }
    }
  }

  /**
   * The new entry lands behind exactly those entries whose order is not
   * greater than its own: entries of equal order keep arrival order.
   */
  lemma {:induction false} InsertedBehindNotGreater(t: seq<RegisteredPolicy>, x: RegisteredPolicy)
    requires Sorted(t)
    ensures forall j :: 0 <= j < |t| ==> (j < InsertionPoint(t, x) <==> CompareTo(t[j], x) <= 0)
  {
    var k := InsertionPoint(t, x);
    forall j | 0 <= j < |t| ensures j < k <==> CompareTo(t[j], x) <= 0 {
      if k <= j {
        assert CompareTo(t[k], t[j]) <= 0;
      }
    }
  }

  /** Sorting a list that is already sorted changes nothing. */
  lemma {:induction false} SortedIsUnchanged(s: seq<RegisteredPolicy>)
    requires Sorted(s)
    ensures StableSort(s) == s
  {
    if s != [] {
      var init, last := s[..|s| - 1], s[|s| - 1];
      assert s == init + [last];
      SortedInit(init, last);
      SortedIsUnchanged(init);
      InsertBehindAll(init, last);
    }
  }

  lemma {:induction false} SortedInit(t: seq<RegisteredPolicy>, x: RegisteredPolicy)
    requires Sorted(t + [x])
    ensures Sorted(t)
  {
    var s := t + [x];
    forall i, j | 0 <= i < j < |t| ensures CompareTo(t[i], t[j]) <= 0 {
      assert t[i] == s[i] && t[j] == s[j];
    }
  }

  /** An entry not smaller than any of a sorted list goes in at the end. */
  lemma {:induction false} InsertBehindAll(t: seq<RegisteredPolicy>, x: RegisteredPolicy)
    requires Sorted(t + [x])
    ensures Insert(t, x) == t + [x]
  {
    var s := t + [x];
    SortedInit(t, x);
    InsertedBehindNotGreater(t, x);
    if |t| > 0 {
      assert t[|t| - 1] == s[|t| - 1] && x == s[|t|];
      assert CompareTo(t[|t| - 1], x) <= 0;
    }
    var k := InsertionPoint(t, x);
    assert k == |t|;
    assert t[..k] == t && t[k..] == [];
  }

  /** Appending to a sorted list and sorting is inserting at the insertion point. */
  lemma {:induction false} SortAppended(t: seq<RegisteredPolicy>, x: RegisteredPolicy)
    requires Sorted(t)
    ensures StableSort(t + [x]) == Insert(t, x)
  {
    var s := t + [x];
    assert s[..|s| - 1] == t;
    SortedIsUnchanged(t);
  }

  /** Insertion adds exactly `x`'s id to the registered ids. */
  lemma {:induction false} InsertIdSet(t: seq<RegisteredPolicy>, x: RegisteredPolicy)
    ensures IdSet(Insert(t, x)) == IdSet(t) + {x.policyId}
  {
    var k := InsertionPoint(t, x);
    var r := Insert(t, x);
    assert t == t[..k] + t[k..];
    assert forall e :: e in r <==> e in t || e == x;
    forall id ensures id in IdSet(r) <==> id in IdSet(t) || id == x.policyId {
      if id in IdSet(r) {
        var e :| e in r && e.policyId == id;
      }
    }
  }

  /** Inserting an entry with a new id keeps the ids unique. */
  lemma {:induction false} InsertUnique(t: seq<RegisteredPolicy>, x: RegisteredPolicy)
    requires UniqueIds(t) && x.policyId !in IdSet(t)
    ensures UniqueIds(Insert(t, x))
  {
    var k := InsertionPoint(t, x);
    var r := Insert(t, x);
    forall i, j | 0 <= i < j < |r| ensures r[i].policyId != r[j].policyId {
      InsertAt(t, x, i);
      InsertAt(t, x, j);
      if i < k && j == k {
        assert t[i] in t;
      } else if i == k {
        assert t[j - 1] in t;
      }
    }
  }

  /** Insertion adds one reference to `x`'s template and leaves every other count alone. */
  lemma {:induction false} InsertRefCount(t: seq<RegisteredPolicy>, x: RegisteredPolicy, h: TemplateHandle)
    ensures RefCount(Insert(t, x), h) == RefCount(t, h) + (if x.template == h then 1 else 0)
  {
    var k := InsertionPoint(t, x);
    assert t == t[..k] + t[k..];
    RefCountConcat(t[..k], t[k..], h);
    RefCountConcat(t[..k] + [x], t[k..], h);
    RefCountConcat(t[..k], [x], h);
  }

  /** Sorting keeps the set of registered ids. */
  lemma {:induction false} StableSortIdSet(s: seq<RegisteredPolicy>)
    ensures IdSet(StableSort(s)) == IdSet(s)
  {
    var r := StableSort(s);
    StableSortPermutation(s);
    assert forall e :: e in r <==> e in multiset(r);
    assert forall e :: e in s <==> e in multiset(s);
  }

  /** Every entry of the sorted list comes from the input. */
  lemma {:induction false} StableSortMembers(s: seq<RegisteredPolicy>)
    ensures forall x :: 0 <= x < |StableSort(s)| ==> StableSort(s)[x] in s
  {
    var r := StableSort(s);
    StableSortPermutation(s);
    forall x | 0 <= x < |r| ensures r[x] in s {
      assert r[x] in multiset(r);
    }
  }

  /** Insertion moves the entries of `t` without swapping any two of them. */
  lemma {:induction false} InsertKeepsRelativeOrder(t: seq<RegisteredPolicy>, x: RegisteredPolicy, a0: nat, b0: nat)
    returns (a: nat, b: nat)
    requires a0 < b0 < |t|
    ensures a < b < |Insert(t, x)| && Insert(t, x)[a] == t[a0] && Insert(t, x)[b] == t[b0]
  {
    var k := InsertionPoint(t, x);
    a := if a0 < k then a0 else a0 + 1;
    b := if b0 < k then b0 else b0 + 1;
    InsertAt(t, x, a);
    InsertAt(t, x, b);
  }

  /** Inserted into a sorted list, `x` lands behind every entry of the same order. */
  lemma {:induction false} InsertBehindTie(t: seq<RegisteredPolicy>, x: RegisteredPolicy, a0: nat)
    requires Sorted(t) && a0 < |t| && t[a0].order == x.order
    ensures a0 < InsertionPoint(t, x) < |Insert(t, x)|
    ensures Insert(t, x)[a0] == t[a0] && Insert(t, x)[InsertionPoint(t, x)] == x
  {
    InsertedBehindNotGreater(t, x);
    InsertAt(t, x, a0);
    InsertAt(t, x, InsertionPoint(t, x));
  }

  /** Every entry of the input has a place in the sorted list. */
  lemma {:induction false} StableSortHas(s: seq<RegisteredPolicy>, i: nat) returns (a: nat)
    requires i < |s|
    ensures a < |StableSort(s)| && StableSort(s)[a] == s[i]
  {
    assert s[i] in multiset(s);
    StableSortPermutation(s);
    assert s[i] in multiset(StableSort(s));
    a :| 0 <= a < |StableSort(s)| && StableSort(s)[a] == s[i];
  }

  /**
   * The sort is stable on any input: of two entries with the same order, the
   * one earlier in the input is earlier in the result.
   */
  lemma {:induction false} StableSortStable(s: seq<RegisteredPolicy>, i: nat, j: nat) returns (a: nat, b: nat)
    requires i < j < |s| && s[i].order == s[j].order
    ensures a < b < |StableSort(s)| && StableSort(s)[a] == s[i] && StableSort(s)[b] == s[j]
  {
    var init, last := s[..|s| - 1], s[|s| - 1];
    var t := StableSort(init);
    assert StableSort(s) == Insert(t, last);
    assert init[i] == s[i];
    if j < |s| - 1 {
      assert init[j] == s[j];
      var a0, b0 := StableSortStable(init, i, j);
      a, b := InsertKeepsRelativeOrder(t, last, a0, b0);
    } else {
      var a0 := StableSortHas(init, i);
      StableSortSorted(init);
      InsertBehindTie(t, last, a0);
      a, b := a0, InsertionPoint(t, last);
    }
  }

  /** With unique ids, each entry has one place in the result, so ties keep their input order. */
  lemma {:induction false} StableSortKeepsTies(s: seq<RegisteredPolicy>, i: nat, j: nat)
    requires UniqueIds(s) && i < j < |s| && s[i].order == s[j].order
    ensures forall a, b ::
      (0 <= a < |StableSort(s)| && 0 <= b < |StableSort(s)| && StableSort(s)[a] == s[i] && StableSort(s)[b] == s[j])
      ==> a < b
  {
    var r := StableSort(s);
    var a0, b0 := StableSortStable(s, i, j);
    StableSortUnique(s);
    forall a, b | 0 <= a < |r| && 0 <= b < |r| && r[a] == s[i] && r[b] == s[j] ensures a < b {
      assert r[a].policyId == r[a0].policyId && r[b].policyId == r[b0].policyId;
    }
  }

  /** Sorting keeps the ids unique. */
  lemma {:induction false} StableSortUnique(s: seq<RegisteredPolicy>)
    requires UniqueIds(s)
    ensures UniqueIds(StableSort(s))
  {
    if s != [] {
      var init, last := s[..|s| - 1], s[|s| - 1];
      assert s == init + [last];
      assert UniqueIds(init);
      StableSortUnique(init);
      StableSortIdSet(init);
      assert last.policyId !in IdSet(init);
      InsertUnique(StableSort(init), last);
    }
  }

  /** Sorting keeps every template's reference count. */
  lemma {:induction false} StableSortRefCount(s: seq<RegisteredPolicy>, h: TemplateHandle)
    ensures RefCount(StableSort(s), h) == RefCount(s, h)
  {
    if s != [] {
      var init, last := s[..|s| - 1], s[|s| - 1];
      assert s == init + [last];
      StableSortRefCount(init, h);
      InsertRefCount(StableSort(init), last, h);
      RefCountConcat(init, [last], h);
    }
  }

  lemma {:induction false} RefCountConcat(a: seq<RegisteredPolicy>, b: seq<RegisteredPolicy>, h: TemplateHandle)
    ensures RefCount(a + b, h) == RefCount(a, h) + RefCount(b, h)
  {
    if a == [] {
      assert a + b == b;
    } else {
      assert (a + b)[1..] == a[1..] + b;
      RefCountConcat(a[1..], b, h);
    }
  }

  /** A template is referenced by no entry exactly when its reference count is zero. */
  lemma {:induction false} RefCountZero(s: seq<RegisteredPolicy>, h: TemplateHandle)
    ensures RefCount(s, h) == 0 <==> forall i :: 0 <= i < |s| ==> s[i].template != h
  {
    if s != [] {
      RefCountZero(s[1..], h);
      assert forall i :: 1 <= i < |s| ==> s[i] == s[1..][i - 1];
    }
  }

  /** Removing one entry keeps the list sorted. */
  lemma {:induction false} RemoveAtSorted(s: seq<RegisteredPolicy>, i: nat)
    requires i < |s| && Sorted(s)
    ensures Sorted(RemoveAt(s, i))
  {
  }

  /** Removing one entry of a list with unique ids drops exactly its id. */
  lemma {:induction false} RemoveAtIds(s: seq<RegisteredPolicy>, i: nat)
    requires i < |s| && UniqueIds(s)
    ensures UniqueIds(RemoveAt(s, i))
    ensures IdSet(RemoveAt(s, i)) == IdSet(s) - {s[i].policyId}
  {
    RemoveAtUnique(s, i);
    var r := RemoveAt(s, i);
    forall id | id in IdSet(r) ensures id in IdSet(s) && id != s[i].policyId {
      var j := RemoveAtMember(s, i, id);
      assert s[j] in s;
    }
    forall id | id in IdSet(s) && id != s[i].policyId ensures id in IdSet(r) {
      var e :| e in s && e.policyId == id;
      var j :| 0 <= j < |s| && s[j] == e;
      var j' := if j < i then j else j - 1;
      assert r[j'] == e;
      assert r[j'] in r;
    }
  }

  lemma {:induction false} RemoveAtUnique(s: seq<RegisteredPolicy>, i: nat)
    requires i < |s| && UniqueIds(s)
    ensures UniqueIds(RemoveAt(s, i))
  {
    var r := RemoveAt(s, i);
    forall a, b | 0 <= a < b < |r| ensures r[a].policyId != r[b].policyId {
      var a', b' := if a < i then a else a + 1, if b < i then b else b + 1;
      assert r[a] == s[a'] && r[b] == s[b'] && a' < b';
    }
  }

  /** Where an id of the shortened list sits in the original one: not at the removed index. */
  lemma {:induction false} RemoveAtMember(s: seq<RegisteredPolicy>, i: nat, id: string) returns (j: nat)
    requires i < |s| && id in IdSet(RemoveAt(s, i))
    ensures j < |s| && j != i && s[j].policyId == id
  {
    var e :| e in s[..i] + s[i + 1..] && e.policyId == id;
    if e in s[..i] {
      j :| 0 <= j < i && s[..i][j] == e;
    } else {
      var k :| 0 <= k < |s| - i - 1 && s[i + 1..][k] == e;
      j := k + i + 1;
    }
  }

  /** Every entry's template is among `hs` after inserting an entry whose template is among `hs`. */
  lemma {:induction false} InsertTemplatesIn(t: seq<RegisteredPolicy>, x: RegisteredPolicy, hs: set<TemplateHandle>)
    requires (forall j :: 0 <= j < |t| ==> t[j].template in hs) && x.template in hs
    ensures forall j :: 0 <= j < |Insert(t, x)| ==> Insert(t, x)[j].template in hs
  {
    forall j | 0 <= j < |Insert(t, x)| ensures Insert(t, x)[j].template in hs {
      InsertAt(t, x, j);
    }
  }

  /** Every entry's template stays among `hs` when one entry is removed. */
  lemma {:induction false} RemoveAtTemplatesIn(s: seq<RegisteredPolicy>, i: nat, hs: set<TemplateHandle>)
    requires i < |s| && forall j :: 0 <= j < |s| ==> s[j].template in hs
    ensures forall j :: 0 <= j < |RemoveAt(s, i)| ==> RemoveAt(s, i)[j].template in hs
  {
    var r := RemoveAt(s, i);
    forall j | 0 <= j < |r| ensures r[j].template in hs {
      assert r[j] == s[if j < i then j else j + 1];
    }
  }

  /** Removing one entry takes exactly that entry out of the list's contents. */
  lemma {:induction false} RemoveAtMultiset<T>(s: seq<T>, i: nat)
    requires i < |s|
    ensures multiset(RemoveAt(s, i)) == multiset(s) - multiset{s[i]}
  {
    assert s == s[..i] + [s[i]] + s[i + 1..];
    assert multiset(s) == multiset(s[..i]) + multiset{s[i]} + multiset(s[i + 1..]);
  }

  /** Removing one entry drops one reference to its template and leaves every other count alone. */
  lemma {:induction false} RemoveAtRefCount(s: seq<RegisteredPolicy>, i: nat, h: TemplateHandle)
    requires i < |s|
    ensures RefCount(RemoveAt(s, i), h) == RefCount(s, h) - (if s[i].template == h then 1 else 0)
  {
    assert s == s[..i] + [s[i]] + s[i + 1..];
    RefCountConcat(s[..i], s[i + 1..], h);
    RefCountConcat(s[..i], [s[i]], h);
    RefCountConcat(s[..i] + [s[i]], s[i + 1..], h);
  }
}
