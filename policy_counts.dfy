/**
 * The reference-count invariant across the provider's operations: every
 * registered template's count equals the number of registered instances
 * built on it, and every instance's template is registered. Each lemma
 * below is the step one operation of the provider takes.
 */
module PolicyCounts {
  import opened PolicyTypes
  import opened PolicyOrder
  import opened PolicyLookup

  /** Every template object in use is older than the next one the template factory creates. */
  ghost predicate HandlesBelow(s: seq<RegisteredPolicy>, ts: seq<RegisteredTemplate>, next: TemplateHandle)
  {
    && (forall h :: h in Handles(ts) ==> h < next)
    && (forall i :: 0 <= i < |s| ==> s[i].template < next)
  }

  /**
   * The provider's structural invariant on its two lists: ids unique and in
   * order, template coordinates and objects unique, and every template
   * object in use created before `next`.
   */
  ghost predicate WellformedState(s: seq<RegisteredPolicy>, ts: seq<RegisteredTemplate>, next: TemplateHandle)
  {
    UniqueIds(s) && Sorted(s) && UniqueKeys(ts) && UniqueHandles(ts) && HandlesBelow(s, ts, next)
  }

  /** The template object handed out by `xxxNoSeQueHacexxx`, and the next one after it. */
  function NextAfterRegister(ts: seq<RegisteredTemplate>, key: TemplateKey, next: TemplateHandle): TemplateHandle
  {
    if FindRegistered(ts, key).Some? then next else next + 1
  }

  /** The handle of a new template is not yet referenced, so it starts at the right count, zero. */
  lemma {:induction false} RegisterKeepsCounts(s: seq<RegisteredPolicy>, ts: seq<RegisteredTemplate>, key: TemplateKey, next: TemplateHandle)
    requires CountsMatch(s, ts) && UniqueHandles(ts) && HandlesBelow(s, ts, next)
    ensures CountsMatch(s, Registered(ts, key, next))
    ensures UniqueHandles(Registered(ts, key, next))
    ensures HandlesBelow(s, Registered(ts, key, next), if FindRegistered(ts, key).Some? then next else next + 1)
  {
    RegisteredTemplateFacts(ts, key, next);
    if FindRegistered(ts, key).None? {
      var r := Registered(ts, key, next);
      RefCountZero(s, next);
      assert forall k :: 0 <= k < |ts| ==> r[k] == ts[k];
      assert forall t :: t in ts ==> t in r;
    }
  }

  /** Counting a registered template keeps the template objects, plus the new one if there was none. */
  lemma {:induction false} RetainedHandles(ts: seq<RegisteredTemplate>, key: TemplateKey, next: TemplateHandle)
    requires UniqueHandles(ts) && forall h :: h in Handles(ts) ==> h < next
    ensures UniqueHandles(Retained(ts, key, next))
    ensures Handles(Retained(ts, key, next)) == Handles(ts) + {RegisteredHandle(ts, key, next)}
  {
    var ts1 := Retained(ts, key, next);
    match FindRegistered(ts, key)
    case Some(k) =>
      SameTemplates(ts, ts1);
      assert ts[k] in ts;
    case None =>
      AppendedTemplate(ts, RegisteredTemplate(key, next, 1));
  }

  /**
   * After `addPolicy`'s `count++` every template is counted once per
   * instance, plus one for the template the new instance is built on.
   */
  lemma {:induction false} RetainedCounts(s: seq<RegisteredPolicy>, ts: seq<RegisteredTemplate>, key: TemplateKey, next: TemplateHandle)
    requires CountsMatch(s, ts) && UniqueHandles(ts) && HandlesBelow(s, ts, next)
    ensures var ts1, h := Retained(ts, key, next), RegisteredHandle(ts, key, next);
      && UniqueHandles(ts1)
      && Handles(ts1) == Handles(ts) + {h}
      && (forall j :: 0 <= j < |ts1| ==> ts1[j].count == RefCount(s, ts1[j].handle) + (if ts1[j].handle == h then 1 else 0))
  {
    RetainedHandles(ts, key, next);
    var ts1 := Retained(ts, key, next);
    match FindRegistered(ts, key)
    case Some(k) =>
    case None =>
      RefCountZero(s, next);
      assert forall j :: 0 <= j < |ts| ==> ts1[j] == ts[j];
  }

  /** `addPolicy` keeps the counts right. */
  lemma {:induction false} AddKeepsCounts(s: seq<RegisteredPolicy>, ts: seq<RegisteredTemplate>, key: TemplateKey, next: TemplateHandle, e: RegisteredPolicy)
    requires CountsMatch(s, ts) && UniqueHandles(ts) && HandlesBelow(s, ts, next)
    requires e.template == RegisteredHandle(ts, key, next)
    ensures CountsMatch(Insert(s, e), Retained(ts, key, next))
  {
    var f, ts1 := Insert(s, e), Retained(ts, key, next);
    RetainedCounts(s, ts, key, next);
    forall j | 0 <= j < |ts1| ensures ts1[j].count == RefCount(f, ts1[j].handle) {
      InsertRefCount(s, e, ts1[j].handle);
    }
    InsertTemplatesIn(s, e, Handles(ts1));
  }

  /** Adding an entry with a new id and re-sorting keeps the ids unique and sorted, and adds exactly its id. */
  lemma {:induction false} AddKeepsInstanceOrder(s: seq<RegisteredPolicy>, e: RegisteredPolicy, next: TemplateHandle)
    requires UniqueIds(s) && Sorted(s) && e.policyId !in IdSet(s)
    requires (forall i :: 0 <= i < |s| ==> s[i].template < next) && e.template < next
    ensures StableSort(s + [e]) == Insert(s, e)
    ensures UniqueIds(Insert(s, e)) && Sorted(Insert(s, e))
    ensures IdSet(Insert(s, e)) == IdSet(s) + {e.policyId}
    ensures forall i :: 0 <= i < |Insert(s, e)| ==> Insert(s, e)[i].template < next
  {
    SortAppended(s, e);
    InsertSorted(s, e);
    InsertUnique(s, e);
    InsertIdSet(s, e);
    forall x | 0 <= x < |Insert(s, e)| ensures Insert(s, e)[x].template < next {
      InsertAt(s, e, x);
    }
  }

  /** Registering and counting a template keeps the coordinates and the template objects unique. */
  lemma {:induction false} RetainedUnique(ts: seq<RegisteredTemplate>, key: TemplateKey, next: TemplateHandle)
    requires UniqueKeys(ts) && UniqueHandles(ts) && forall h :: h in Handles(ts) ==> h < next
    ensures UniqueKeys(Retained(ts, key, next)) && UniqueHandles(Retained(ts, key, next))
    ensures forall h :: h in Handles(Retained(ts, key, next)) ==> h < if FindRegistered(ts, key).Some? then next else next + 1
  {
    var ts1 := Retained(ts, key, next);
    match FindRegistered(ts, key)
    case Some(k) =>
      SameTemplates(ts, ts1);
    case None =>
      AppendedTemplate(ts, RegisteredTemplate(key, next, 1));
  }

  /**
   * The whole of a successful `addPolicy` on the two lists: appending and
   * sorting is inserting, the `count++` on the registered entry is
   * `Retained`, and both invariants carry over.
   */
  lemma {:induction false} AddStep(s: seq<RegisteredPolicy>, ts: seq<RegisteredTemplate>, key: TemplateKey,
                                   next: TemplateHandle, e: RegisteredPolicy)
    requires WellformedState(s, ts, next)
    requires e.template == RegisteredHandle(ts, key, next) && e.policyId !in IdSet(s)
    ensures StableSort(s + [e]) == Insert(s, e)
    ensures IdSet(Insert(s, e)) == IdSet(s) + {e.policyId}
    ensures var reg, k := Registered(ts, key, next), RegisteredIndex(ts, key);
      k < |reg| && Counted(reg, k) == Retained(ts, key, next)
    ensures WellformedState(Insert(s, e), Retained(ts, key, next), NextAfterRegister(ts, key, next))
    ensures CountsMatch(s, ts) ==> CountsMatch(Insert(s, e), Retained(ts, key, next))
  {
    var next1 := NextAfterRegister(ts, key, next);
    if FindRegistered(ts, key).Some? {
      var k := FindRegistered(ts, key).value;
      assert ts[k] in ts;
      assert ts[k].handle in Handles(ts);
    }
    AddKeepsInstanceOrder(s, e, next1);
    RetainedIsIncrement(ts, key, next);
    RetainedUnique(ts, key, next);
    RegisteredTemplateFacts(ts, key, next);
    RetainedTemplateFacts(ts, key, next);
    if CountsMatch(s, ts) {
      AddKeepsCounts(s, ts, key, next, e);
    }
  }

  /** `xxxNoSeQueHacexxx` keeps both invariants. */
  lemma {:induction false} RegisterStep(s: seq<RegisteredPolicy>, ts: seq<RegisteredTemplate>, key: TemplateKey, next: TemplateHandle)
    requires WellformedState(s, ts, next)
    ensures WellformedState(s, Registered(ts, key, next), NextAfterRegister(ts, key, next))
    ensures CountsMatch(s, ts) ==> CountsMatch(s, Registered(ts, key, next))
  {
    RegisteredTemplateFacts(ts, key, next);
    if CountsMatch(s, ts) {
      RegisterKeepsCounts(s, ts, key, next);
    }
  }

  /** Removing entry `i` keeps the list well formed against any template list it was well formed against. */
  lemma {:induction false} RemoveKeepsOrder(s: seq<RegisteredPolicy>, i: nat, next: TemplateHandle)
    requires UniqueIds(s) && Sorted(s) && i < |s| && forall x :: 0 <= x < |s| ==> s[x].template < next
    ensures UniqueIds(RemoveAt(s, i)) && Sorted(RemoveAt(s, i))
    ensures IdSet(RemoveAt(s, i)) == IdSet(s) - {s[i].policyId}
    ensures forall x :: 0 <= x < |RemoveAt(s, i)| ==> RemoveAt(s, i)[x].template < next
  {
    RemoveAtIds(s, i);
    RemoveAtSorted(s, i);
  }

  /**
   * `removePolicy` on the two lists, with or without an application set:
   * both invariants carry over, and in a valid state the template is found.
   */
  lemma {:induction false} RemoveStep(s: seq<RegisteredPolicy>, ts: seq<RegisteredTemplate>, next: TemplateHandle, i: nat,
                                      configured: bool)
    requires WellformedState(s, ts, next) && i < |s|
    ensures IdSet(RemoveAt(s, i)) == IdSet(s) - {s[i].policyId}
    ensures WellformedState(RemoveAt(s, i), ts, next)
    ensures WellformedState(RemoveAt(s, i), ReleasedBy(ts, s[i].template, configured), next)
    ensures CountsMatch(s, ts) ==>
      s[i].template in Handles(ts) && CountsMatch(RemoveAt(s, i), ReleasedBy(ts, s[i].template, configured))
  {
    RemoveKeepsOrder(s, i, next);
    ReleasedByStep(RemoveAt(s, i), ts, s[i].template, next, configured);
    if CountsMatch(s, ts) {
      RemoveCountedOnceMore(s, ts, i);
    }
  }

  /**
   * Replacing entry `i` by an entry with the same id, then sorting, is
   * removing and inserting; the ids, their uniqueness and the order survive.
   */
  lemma {:induction false} ReplaceKeepsOrder(s: seq<RegisteredPolicy>, i: nat, e: RegisteredPolicy, next: TemplateHandle)
    requires UniqueIds(s) && Sorted(s) && i < |s| && e.policyId == s[i].policyId
    requires (forall x :: 0 <= x < |s| ==> s[x].template < next) && e.template < next
    ensures StableSort(RemoveAt(s, i) + [e]) == Insert(RemoveAt(s, i), e)
    ensures UniqueIds(Insert(RemoveAt(s, i), e)) && Sorted(Insert(RemoveAt(s, i), e))
    ensures IdSet(Insert(RemoveAt(s, i), e)) == IdSet(s)
    ensures forall x :: 0 <= x < |Insert(RemoveAt(s, i), e)| ==> Insert(RemoveAt(s, i), e)[x].template < next
  {
    var rest := RemoveAt(s, i);
    RemoveKeepsOrder(s, i, next);
    assert s[i] in s;
    AddKeepsInstanceOrder(rest, e, next);
  }

  /**
   * The instance list `updatePolicy` leaves: as long as before, with the
   * replaced instance swapped for the new one and nothing else changed.
   */
  lemma {:induction false} ReplaceContents(s: seq<RegisteredPolicy>, i: nat, e: RegisteredPolicy)
    requires i < |s|
    ensures |Insert(RemoveAt(s, i), e)| == |s|
    ensures multiset(Insert(RemoveAt(s, i), e)) == multiset(s) - multiset{s[i]} + multiset{e}
  {
    RemoveAtMultiset(s, i);
    InsertSorted(RemoveAt(s, i), e);
  }

  /**
   * `updatePolicy` on the two lists, as written (the template list is only
   * `Registered`) and corrected (the new template is counted and the old one
   * released): both keep the structural invariant, and the corrected one
   * keeps the counts.
   */
  lemma {:induction false} ReplaceStep(s: seq<RegisteredPolicy>, ts: seq<RegisteredTemplate>, key: TemplateKey,
                                       next: TemplateHandle, i: nat, e: RegisteredPolicy, configured: bool)
    requires WellformedState(s, ts, next) && i < |s| && e.policyId == s[i].policyId
    requires e.template == RegisteredHandle(ts, key, next)
    ensures StableSort(RemoveAt(s, i) + [e]) == Insert(RemoveAt(s, i), e)
    ensures IdSet(Insert(RemoveAt(s, i), e)) == IdSet(s)
    ensures WellformedState(Insert(RemoveAt(s, i), e), Registered(ts, key, next), NextAfterRegister(ts, key, next))
    ensures WellformedState(Insert(RemoveAt(s, i), e), ReleasedBy(Retained(ts, key, next), s[i].template, configured),
                            NextAfterRegister(ts, key, next))
    ensures CountsMatch(s, ts) ==>
      && s[i].template in Handles(Retained(ts, key, next))
      && CountsMatch(Insert(RemoveAt(s, i), e), ReleasedBy(Retained(ts, key, next), s[i].template, configured))
  {
    var next1 := NextAfterRegister(ts, key, next);
    if FindRegistered(ts, key).Some? {
      var k := FindRegistered(ts, key).value;
      assert ts[k] in ts;
      assert ts[k].handle in Handles(ts);
    }
    ReplaceKeepsOrder(s, i, e, next1);
    RegisterStep(s, ts, key, next);
    RetainedUnique(ts, key, next);
    ReleasedByStep(Insert(RemoveAt(s, i), e), Retained(ts, key, next), s[i].template, next1, configured);
    if CountsMatch(s, ts) {
      ReplaceCountedOnceMore(s, ts, key, next, i, e);
    }
  }

  /**
   * `updatePolicy` as written swaps the instance but touches no count: when
   * the new instance is built on another template than the one it replaces,
   * the replaced template is left counting an instance that is gone.
   */
  lemma {:induction false} UpdateAsWrittenBreaksCounts(s: seq<RegisteredPolicy>, ts: seq<RegisteredTemplate>, key: TemplateKey,
                                                       next: TemplateHandle, i: nat, e: RegisteredPolicy)
    requires CountsMatch(s, ts) && i < |s|
    requires e.template == RegisteredHandle(ts, key, next) && e.template != s[i].template
    ensures !CountsMatch(Insert(RemoveAt(s, i), e), Registered(ts, key, next))
  {
    var h := s[i].template;
    var k := FindTemplate(ts, h).value;
    var f := Insert(RemoveAt(s, i), e);
    RemoveAtRefCount(s, i, h);
    InsertRefCount(RemoveAt(s, i), e, h);
    RegisteredTemplateFacts(ts, key, next);
    var reg := Registered(ts, key, next);
    assert reg[k] == ts[k];
    assert reg[k].count != RefCount(f, reg[k].handle);
  }

  /**
   * `removePolicy` right after a successful `addPolicy` of a new id finds
   * the new instance where it was inserted, and removing it restores the
   * instance list.
   */
  lemma {:induction false} AddThenRemoveInstances(s: seq<RegisteredPolicy>, e: RegisteredPolicy)
    requires UniqueIds(s) && e.policyId !in IdSet(s)
    ensures FindPolicy(Insert(s, e), e.policyId) == Some(InsertionPoint(s, e))
    ensures RemoveAt(Insert(s, e), InsertionPoint(s, e)) == s
  {
    var k := InsertionPoint(s, e);
    InsertUnique(s, e);
    InsertAt(s, e, k);
    FindPolicyUnique(Insert(s, e), e.policyId, k);
    RemoveInserted(s, e);
  }

  lemma {:induction false} RemoveInserted(s: seq<RegisteredPolicy>, e: RegisteredPolicy)
    ensures RemoveAt(Insert(s, e), InsertionPoint(s, e)) == s
  {
    var k := InsertionPoint(s, e);
    var x := Insert(s, e);
    assert x[..k] == s[..k];
    assert x[k + 1..] == s[k..];
    assert s == s[..k] + s[k..];
  }

  /**
   * With an application set, releasing the template a successful `addPolicy`
   * counted restores the template list, unless the template was registered
   * with count 0: it is then unregistered. A count of 0 is left behind by an
   * `addPolicy` whose instance failed to initialise, by `updatePolicy` for an
   * id that is not registered (it registers the template first), by the
   * `updatePolicy` as written (it never counts its new template), and by a
   * `removePolicy` that brought the count to 0 with no application set.
   */
  lemma {:induction false} AddThenRemoveTemplates(ts: seq<RegisteredTemplate>, key: TemplateKey, next: TemplateHandle)
    requires UniqueHandles(ts) && forall h :: h in Handles(ts) ==> h < next
    ensures FindRegistered(ts, key).None? ==> ReleasedAfter(Retained(ts, key, next), RegisteredHandle(ts, key, next)) == ts
    ensures FindRegistered(ts, key).Some? ==>
      var k := FindRegistered(ts, key).value;
      ReleasedAfter(Retained(ts, key, next), RegisteredHandle(ts, key, next)) == if ts[k].count == 0 then RemoveAt(ts, k) else ts
  {
    match FindRegistered(ts, key)
    case Some(k) =>
      ReleaseRetainedRegistered(ts, Retained(ts, key, next), k);
    case None =>
      ReleaseRetainedNew(ts, Retained(ts, key, next), key, next);
  }

  lemma {:induction false} ReleaseRetainedRegistered(ts: seq<RegisteredTemplate>, ts1: seq<RegisteredTemplate>, k: nat)
    requires UniqueHandles(ts) && k < |ts| && ts1 == Counted(ts, k)
    ensures ReleasedAfter(ts1, ts[k].handle) == if ts[k].count == 0 then RemoveAt(ts, k) else ts
  {
    SameTemplates(ts, ts1);
    assert ts1[k].handle == ts[k].handle;
    assert FindTemplate(ts1, ts[k].handle) == Some(k);
    if ts[k].count == 0 {
      assert RemoveAt(ts1, k) == RemoveAt(ts, k) by {
        forall j | 0 <= j < |ts| - 1 ensures RemoveAt(ts1, k)[j] == RemoveAt(ts, k)[j] {
          assert ts1[if j < k then j else j + 1] == ts[if j < k then j else j + 1];
        }
      }
    } else {
      assert ts1[k := ts1[k].(count := ts1[k].count - 1)] == ts;
    }
  }

  lemma {:induction false} ReleaseRetainedNew(ts: seq<RegisteredTemplate>, ts1: seq<RegisteredTemplate>, key: TemplateKey, next: TemplateHandle)
    requires UniqueHandles(ts) && (forall h :: h in Handles(ts) ==> h < next)
    requires ts1 == ts + [RegisteredTemplate(key, next, 1)]
    ensures ReleasedAfter(ts1, next) == ts
  {
    AppendedTemplate(ts, RegisteredTemplate(key, next, 1));
    assert ts1[|ts|].handle == next;
    assert FindTemplate(ts1, next) == Some(|ts|);
    assert RemoveAt(ts1, |ts|) == ts;
  }

  /**
   * With unique ids, `updatePolicyOrder` gives the policy the new order and
   * leaves nothing to update: the same call again does nothing.
   */
  lemma {:induction false} ReorderIdempotent(s: seq<RegisteredPolicy>, p: Parametrization)
    requires UniqueIds(s) && FindOrderUpdate(s, p).Some?
    ensures var i := FindOrderUpdate(s, p).value; var f := StableSort(s[i := s[i].(order := p.order)]);
      && multiset(f) == multiset(s[i := s[i].(order := p.order)])
      && FindOrderUpdate(f, p).None?
  {
    var i := FindOrderUpdate(s, p).value;
    var r := s[i := s[i].(order := p.order)];
    var f := StableSort(r);
    StableSortPermutation(r);
    forall x | 0 <= x < |f| ensures !CompareParametrizations(f[x], p) {
      assert f[x] in multiset(r);
      var j :| 0 <= j < |r| && r[j] == f[x];
      if j != i {
        assert s[j].policyId != s[i].policyId;
      }
    }
  }

  /** `updatePolicyOrder` on the two lists: both invariants and the ids carry over. */
  lemma {:induction false} ReorderStep(s: seq<RegisteredPolicy>, ts: seq<RegisteredTemplate>, next: TemplateHandle, i: nat, order: int)
    requires WellformedState(s, ts, next) && i < |s|
    ensures IdSet(StableSort(s[i := s[i].(order := order)])) == IdSet(s)
    ensures WellformedState(StableSort(s[i := s[i].(order := order)]), ts, next)
    ensures CountsMatch(s, ts) ==> CountsMatch(StableSort(s[i := s[i].(order := order)]), ts)
  {
    var r := s[i := s[i].(order := order)];
    var f := StableSort(r);
    ReorderKeepsIds(s, i, order);
    StableSortIdSet(r);
    StableSortUnique(r);
    StableSortSorted(r);
    StableSortMembers(r);
    forall x | 0 <= x < |f| ensures f[x].template < next {
      var j :| 0 <= j < |r| && r[j] == f[x];
      assert r[j].template == s[j].template;
    }
    if CountsMatch(s, ts) {
      ReorderKeepsCounts(s, ts, i, order);
    }
  }

  /**
   * When one reference to template entry `k` has just gone from `f`,
   * releasing `k` (decrement, and unregister at zero) restores the counts.
   */
  lemma {:induction false} ReleaseMatches(f: seq<RegisteredPolicy>, ts: seq<RegisteredTemplate>, k: nat)
    requires UniqueHandles(ts) && k < |ts|
    requires forall j :: 0 <= j < |ts| ==> ts[j].count == RefCount(f, ts[j].handle) + (if j == k then 1 else 0)
    requires forall x :: 0 <= x < |f| ==> f[x].template in Handles(ts)
    ensures CountsMatch(f, Released(ts, k))
  {
    var r := Released(ts, k);
    ReleasedHandles(ts, k);
    if ts[k].count - 1 == 0 {
      RefCountZero(f, ts[k].handle);
      forall j | 0 <= j < |r| ensures r[j].count == RefCount(f, r[j].handle) {
        assert r[j] == ts[if j < k then j else j + 1];
      }
    }
  }

  /**
   * `ts` counts template object `h` once more than `f` uses it and every
   * other template exactly as often as `f` uses it: the state just after
   * an instance on `h` is gone and before `h` is released.
   */
  ghost predicate CountedOnceMore(f: seq<RegisteredPolicy>, ts: seq<RegisteredTemplate>, h: TemplateHandle)
  {
    && h in Handles(ts)
    && (forall j :: 0 <= j < |ts| ==> ts[j].count == RefCount(f, ts[j].handle) + (if ts[j].handle == h then 1 else 0))
    && (forall x :: 0 <= x < |f| ==> f[x].template in Handles(ts))
  }

  /**
   * Releasing `h`, with or without an application set, keeps the structural
   * invariant, and restores the counts when `h` was counted once too often.
   */
  lemma {:induction false} ReleasedByStep(f: seq<RegisteredPolicy>, ts: seq<RegisteredTemplate>, h: TemplateHandle,
                                          next: TemplateHandle, configured: bool)
    requires WellformedState(f, ts, next)
    ensures WellformedState(f, ReleasedBy(ts, h, configured), next)
    ensures CountedOnceMore(f, ts, h) ==> CountsMatch(f, ReleasedBy(ts, h, configured))
  {
    match FindTemplate(ts, h)
    case None =>
    case Some(k) =>
      assert forall j :: 0 <= j < |ts| ==> (ts[j].handle == h <==> j == k);
      if ts[k].count - 1 == 0 && !configured {
        var r := ts[k := ts[k].(count := ts[k].count - 1)];
        SameTemplates(ts, r);
        if CountedOnceMore(f, ts, h) {
          forall j | 0 <= j < |r| ensures r[j].count == RefCount(f, r[j].handle) {
          }
        }
      } else {
        ReleasedAfterUnique(ts, h);
        if CountedOnceMore(f, ts, h) {
          ReleaseMatches(f, ts, k);
        }
      }
  }

  /** Removing entry `i` leaves its template counted once too often. */
  lemma {:induction false} RemoveCountedOnceMore(s: seq<RegisteredPolicy>, ts: seq<RegisteredTemplate>, i: nat)
    requires CountsMatch(s, ts) && i < |s|
    ensures CountedOnceMore(RemoveAt(s, i), ts, s[i].template)
  {
    var f := RemoveAt(s, i);
    forall j | 0 <= j < |ts|
      ensures ts[j].count == RefCount(f, ts[j].handle) + (if ts[j].handle == s[i].template then 1 else 0)
    {
      RemoveAtRefCount(s, i, ts[j].handle);
    }
    RemoveAtTemplatesIn(s, i, Handles(ts));
  }

  /**
   * The corrected `updatePolicy`, once the new template is counted and the
   * swap done, leaves the replaced instance's template counted once too often.
   */
  lemma {:induction false} ReplaceCountedOnceMore(s: seq<RegisteredPolicy>, ts: seq<RegisteredTemplate>, key: TemplateKey,
                                                  next: TemplateHandle, i: nat, e: RegisteredPolicy)
    requires CountsMatch(s, ts) && UniqueHandles(ts) && HandlesBelow(s, ts, next)
    requires i < |s| && e.template == RegisteredHandle(ts, key, next)
    ensures CountedOnceMore(Insert(RemoveAt(s, i), e), Retained(ts, key, next), s[i].template)
  {
    var ts1 := Retained(ts, key, next);
    var rest := RemoveAt(s, i);
    RetainedCounts(s, ts, key, next);
    assert s[i].template in Handles(ts1);
    forall j | 0 <= j < |ts1|
      ensures ts1[j].count == RefCount(Insert(rest, e), ts1[j].handle) + (if ts1[j].handle == s[i].template then 1 else 0)
    {
      RemoveAtRefCount(s, i, ts1[j].handle);
      InsertRefCount(rest, e, ts1[j].handle);
    }
    RemoveAtTemplatesIn(s, i, Handles(ts1));
    InsertTemplatesIn(rest, e, Handles(ts1));
  }

  /** Changing one entry's order keeps its id, and so the registered ids, their uniqueness and the counts. */
  lemma {:induction false} ReorderKeepsIds(s: seq<RegisteredPolicy>, i: nat, order: int)
    requires i < |s|
    ensures var r := s[i := s[i].(order := order)];
      && IdSet(r) == IdSet(s)
      && (UniqueIds(s) ==> UniqueIds(r))
      && forall h :: RefCount(r, h) == RefCount(s, h)
  {
    var r := s[i := s[i].(order := order)];
    assert s[i] in s && r[i] in r;
    forall id ensures id in IdSet(r) <==> id in IdSet(s) {
      if id in IdSet(r) {
        var e :| e in r && e.policyId == id;
        var j :| 0 <= j < |r| && r[j] == e;
        assert s[j] in s;
      }
      if id in IdSet(s) {
        var e :| e in s && e.policyId == id;
        var j :| 0 <= j < |s| && s[j] == e;
        assert r[j] in r;
      }
    }
    forall h ensures RefCount(r, h) == RefCount(s, h) {
      assert s == s[..i] + [s[i]] + s[i + 1..];
      assert r == s[..i] + [r[i]] + s[i + 1..];
      RefCountConcat(s[..i] + [s[i]], s[i + 1..], h);
      RefCountConcat(s[..i], [s[i]], h);
      RefCountConcat(s[..i] + [r[i]], s[i + 1..], h);
      RefCountConcat(s[..i], [r[i]], h);
    }
  }

  /** `updatePolicyOrder` keeps the counts right. */
  lemma {:induction false} ReorderKeepsCounts(s: seq<RegisteredPolicy>, ts: seq<RegisteredTemplate>, i: nat, order: int)
    requires CountsMatch(s, ts) && i < |s|
    ensures CountsMatch(StableSort(s[i := s[i].(order := order)]), ts)
  {
    var r := s[i := s[i].(order := order)];
    var f := StableSort(r);
    ReorderKeepsIds(s, i, order);
    StableSortPermutation(r);
    forall k | 0 <= k < |ts| ensures ts[k].count == RefCount(f, ts[k].handle) {
      StableSortRefCount(r, ts[k].handle);
    }
    forall x | 0 <= x < |f| ensures f[x].template in Handles(ts) {
      assert f[x] in multiset(f);
      var j :| 0 <= j < |r| && r[j] == f[x];
    }
  }
}
