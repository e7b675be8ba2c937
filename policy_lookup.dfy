/**
 * The stream lookups of the policy provider (`findRegistered`, the
 * `isPolicy` and `compareParametrizations` filters, the template lookup of
 * `removePolicy`), the bookkeeping of template reference counts, and the
 * specifications of the policy queries.
 */
module PolicyLookup {
  import opened PolicyTypes
  import opened PolicyOrder

  // ---------------------------------------------------------------------
  // Lookups in the instance list
  // ---------------------------------------------------------------------

  /** `filter(isPolicy(parametrization)).findFirst()`: the first entry registered under `id`. */
  function FindPolicy(s: seq<RegisteredPolicy>, id: string): (r: Option<nat>)
    ensures r.Some? ==> r.value < |s| && s[r.value].policyId == id
    ensures r.Some? ==> forall j :: 0 <= j < r.value ==> s[j].policyId != id
    ensures r.None? <==> forall j :: 0 <= j < |s| ==> s[j].policyId != id
  {
    if s == [] then None
    else if s[0].policyId == id then Some(0)
    else match FindPolicy(s[1..], id)
      case None => None
      case Some(k) => Some(k + 1)
  }

  /** An id is found exactly when it is among the registered ids. */
  lemma FindPolicyIdSet(s: seq<RegisteredPolicy>, id: string)
    ensures FindPolicy(s, id).Some? <==> id in IdSet(s)
  {
    if id in IdSet(s) {
      var e :| e in s && e.policyId == id;
      var j :| 0 <= j < |s| && s[j] == e;
    }
  }

  /** With unique ids the entry found is the only one registered under `id`. */
  lemma FindPolicyUnique(s: seq<RegisteredPolicy>, id: string, j: nat)
    requires UniqueIds(s) && j < |s| && s[j].policyId == id
    ensures FindPolicy(s, id) == Some(j)
  {
  }

  /**
   * `filter(ip -> compareParametrizations(...)).findFirst()` of
   * `updatePolicyOrder`: the first entry with the same id and parameters
   * but another order.
   */
  function FindOrderUpdate(s: seq<RegisteredPolicy>, p: Parametrization): (r: Option<nat>)
    ensures r.Some? ==> r.value < |s| && CompareParametrizations(s[r.value], p)
    ensures r.Some? ==> forall j :: 0 <= j < r.value ==> !CompareParametrizations(s[j], p)
    ensures r.None? <==> forall j :: 0 <= j < |s| ==> !CompareParametrizations(s[j], p)
  {
    if s == [] then None
    else if CompareParametrizations(s[0], p) then Some(0)
    else match FindOrderUpdate(s[1..], p)
      case None => None
      case Some(k) => Some(k + 1)
  }

  /**
   * With unique ids, an order update applies exactly when the policy
   * registered under the id has the same parameters and another order, and
   * it applies to that policy.
   */
  lemma {:induction false} OrderUpdateTargetsPolicy(s: seq<RegisteredPolicy>, p: Parametrization)
    requires UniqueIds(s)
    ensures FindOrderUpdate(s, p).Some? <==>
      (FindPolicy(s, p.id).Some? && s[FindPolicy(s, p.id).value].parameters == p.parameters
       && s[FindPolicy(s, p.id).value].order != p.order)
    ensures FindOrderUpdate(s, p).Some? ==> FindOrderUpdate(s, p) == FindPolicy(s, p.id)
  {
    match FindOrderUpdate(s, p)
    case Some(i) =>
      FindPolicyUnique(s, p.id, i);
    case None =>
      if FindPolicy(s, p.id).Some? {
        var i := FindPolicy(s, p.id).value;
        assert !CompareParametrizations(s[i], p);
      }
  }

  // ---------------------------------------------------------------------
  // The template list and its reference counts
  // ---------------------------------------------------------------------

  /** No two registered templates have the same coordinates. */
  ghost predicate UniqueKeys(ts: seq<RegisteredTemplate>)
  {
    forall i, j :: 0 <= i < j < |ts| ==> ts[i].key != ts[j].key
  }

  /** No template object is registered twice. */
  ghost predicate UniqueHandles(ts: seq<RegisteredTemplate>)
  {
    forall i, j :: 0 <= i < j < |ts| ==> ts[i].handle != ts[j].handle
  }

  ghost function Handles(ts: seq<RegisteredTemplate>): set<TemplateHandle>
  {
    set t | t in ts :: t.handle
  }

  /**
   * `findRegistered`: a registered template with the descriptor's group id,
   * artifact id and version (`findAny`; the first one here, which is the
   * only one when the coordinates are unique).
   */
  function FindRegistered(ts: seq<RegisteredTemplate>, key: TemplateKey): (r: Option<nat>)
    ensures r.Some? ==> r.value < |ts| && ts[r.value].key == key
    ensures r.None? <==> forall j :: 0 <= j < |ts| ==> ts[j].key != key
    ensures UniqueKeys(ts) && r.Some? ==> forall j :: 0 <= j < |ts| && ts[j].key == key ==> j == r.value
  {
    if ts == [] then None
    else if ts[0].key == key then Some(0)
    else match FindRegistered(ts[1..], key)
      case None => None
      case Some(k) => Some(k + 1)
  }

  /** The template lookup of `removePolicy`: the registered entry holding template object `h`. */
  function FindTemplate(ts: seq<RegisteredTemplate>, h: TemplateHandle): (r: Option<nat>)
    ensures r.Some? ==> r.value < |ts| && ts[r.value].handle == h
    ensures r.None? <==> h !in Handles(ts)
    ensures UniqueHandles(ts) && r.Some? ==> forall j :: 0 <= j < |ts| && ts[j].handle == h ==> j == r.value
  {
    if ts == [] then None
    else if ts[0].handle == h then Some(0)
    else
      assert forall t :: t in ts <==> t == ts[0] || t in ts[1..];
      match FindTemplate(ts[1..], h)
      case None => None
      case Some(k) => Some(k + 1)
  }

  /**
   * The template list once `xxxNoSeQueHacexxx` has run: unchanged when a
   * template with the coordinates is registered, otherwise with a new
   * template object `next`, not yet counted, at the end.
   */
  function Registered(ts: seq<RegisteredTemplate>, key: TemplateKey, next: TemplateHandle): seq<RegisteredTemplate>
  {
    if FindRegistered(ts, key).Some? then ts else ts + [RegisteredTemplate(key, next, 0)]
  }

  /** The index of the template `xxxNoSeQueHacexxx` returns. */
  function RegisteredIndex(ts: seq<RegisteredTemplate>, key: TemplateKey): nat
  {
    match FindRegistered(ts, key)
    case Some(k) => k
    case None => |ts|
  }

  /** `count++` on template entry `k`. */
  function Counted(ts: seq<RegisteredTemplate>, k: nat): (r: seq<RegisteredTemplate>)
    requires k < |ts|
    ensures |r| == |ts| && r[k] == ts[k].(count := ts[k].count + 1)
    ensures forall j :: 0 <= j < |ts| && j != k ==> r[j] == ts[j]
  {
    ts[k := ts[k].(count := ts[k].count + 1)]
  }

  /** The template list after a successful `addPolicy`: the template is registered and counted once more. */
  function Retained(ts: seq<RegisteredTemplate>, key: TemplateKey, next: TemplateHandle): seq<RegisteredTemplate>
  {
    match FindRegistered(ts, key)
    case Some(k) => Counted(ts, k)
    case None => ts + [RegisteredTemplate(key, next, 1)]
  }

  /** The template object `xxxNoSeQueHacexxx` hands to the instance factory. */
  function RegisteredHandle(ts: seq<RegisteredTemplate>, key: TemplateKey, next: TemplateHandle): TemplateHandle
  {
    match FindRegistered(ts, key)
    case Some(k) => ts[k].handle
    case None => next
  }

  /**
   * The template list after one instance of template entry `k` is gone:
   * its count drops by one, and at zero the template is disposed and
   * unregistered.
   */
  function Released(ts: seq<RegisteredTemplate>, k: nat): seq<RegisteredTemplate>
    requires k < |ts|
  {
    if ts[k].count - 1 == 0 then RemoveAt(ts, k) else ts[k := ts[k].(count := ts[k].count - 1)]
  }

  /** The template list once the template object `h` has lost one instance (unchanged if `h` is not registered). */
  function ReleasedAfter(ts: seq<RegisteredTemplate>, h: TemplateHandle): seq<RegisteredTemplate>
  {
    match FindTemplate(ts, h)
    case Some(k) => Released(ts, k)
    case None => ts
  }

  /** The template objects disposed when `h` loses one instance: `h` itself when its count reaches zero. */
  function DisposedOnRelease(ts: seq<RegisteredTemplate>, h: TemplateHandle): seq<TemplateHandle>
  {
    match FindTemplate(ts, h)
    case Some(k) => if ts[k].count - 1 == 0 then [h] else []
    case None => []
  }

  /**
   * The template list after `removePolicy` releases template object `h`,
   * with or without an application set. With one, this is `ReleasedAfter`.
   * Without one, `count--` still happens, but a count that reaches zero
   * stays registered: `application.getRegionClassLoader()` fails before the
   * template is disposed and unregistered.
   */
  function ReleasedBy(ts: seq<RegisteredTemplate>, h: TemplateHandle, configured: bool): seq<RegisteredTemplate>
  {
    match FindTemplate(ts, h)
    case Some(k) =>
      if ts[k].count - 1 == 0 && !configured then ts[k := ts[k].(count := ts[k].count - 1)] else Released(ts, k)
    case None => ts
  }

  /** The template objects the release disposes: none when there is no application, since it fails first. */
  function DisposedBy(ts: seq<RegisteredTemplate>, h: TemplateHandle, configured: bool): seq<TemplateHandle>
  {
    if configured then DisposedOnRelease(ts, h) else []
  }

  /**
   * How the release ends: the IllegalStateException when `h` is not
   * registered, the NullPointerException when its count reaches zero with
   * no application set, and normally otherwise.
   */
  function ReleaseOutcome(ts: seq<RegisteredTemplate>, h: TemplateHandle, configured: bool): (r: Result<(), RemoveError>)
    ensures r == Err(TemplateNotRegistered(TemplateNotRegisteredMessage())) <==> h !in Handles(ts)
    ensures r == Err(ApplicationMissing) <==>
      h in Handles(ts) && !configured && ts[FindTemplate(ts, h).value].count == 1
    ensures r.Ok? || r == Err(TemplateNotRegistered(TemplateNotRegisteredMessage())) || r == Err(ApplicationMissing)
  {
    match FindTemplate(ts, h)
    case Some(k) => if ts[k].count - 1 == 0 && !configured then Err(ApplicationMissing) else Ok(())
    case None => Err(TemplateNotRegistered(TemplateNotRegisteredMessage()))
  }

  /** Two template lists that agree entry by entry on coordinates and objects agree on everything unique about them. */
  lemma {:induction false} SameTemplates(a: seq<RegisteredTemplate>, b: seq<RegisteredTemplate>)
    requires |a| == |b| && forall j :: 0 <= j < |a| ==> a[j].key == b[j].key && a[j].handle == b[j].handle
    ensures Handles(a) == Handles(b)
    ensures UniqueKeys(a) ==> UniqueKeys(b)
    ensures UniqueHandles(a) ==> UniqueHandles(b)
  {
    forall h | h in Handles(a) ensures h in Handles(b) {
      var t :| t in a && t.handle == h;
      var j :| 0 <= j < |a| && a[j] == t;
      assert b[j] in b;
    }
    forall h | h in Handles(b) ensures h in Handles(a) {
      var t :| t in b && t.handle == h;
      var j :| 0 <= j < |b| && b[j] == t;
      assert a[j] in a;
    }
  }

  /** Appending one template adds its object to the registered ones. */
  lemma {:induction false} AppendedTemplate(ts: seq<RegisteredTemplate>, t: RegisteredTemplate)
    ensures Handles(ts + [t]) == Handles(ts) + {t.handle}
    ensures UniqueKeys(ts) && (forall j :: 0 <= j < |ts| ==> ts[j].key != t.key) ==> UniqueKeys(ts + [t])
    ensures UniqueHandles(ts) && t.handle !in Handles(ts) ==> UniqueHandles(ts + [t])
  {
    var r := ts + [t];
    assert forall u :: u in r <==> u in ts || u == t;
    if UniqueHandles(ts) && t.handle !in Handles(ts) {
      forall i, j | 0 <= i < j < |r| ensures r[i].handle != r[j].handle {
        if j == |ts| {
          assert ts[i] in ts;
        }
      }
    }
  }

  /**
   * Registering reuses the template with the coordinates and adds nothing,
   * or else appends exactly one new template; either way the coordinates
   * stay unique and the returned index holds the template.
   */
  lemma RegisteredTemplateFacts(ts: seq<RegisteredTemplate>, key: TemplateKey, next: TemplateHandle)
    ensures FindRegistered(ts, key).Some? ==> Registered(ts, key, next) == ts
    ensures FindRegistered(ts, key).None? ==>
      |Registered(ts, key, next)| == |ts| + 1 && Registered(ts, key, next)[..|ts|] == ts
    ensures RegisteredIndex(ts, key) < |Registered(ts, key, next)|
    ensures Registered(ts, key, next)[RegisteredIndex(ts, key)].key == key
    ensures UniqueKeys(ts) ==> UniqueKeys(Registered(ts, key, next))
    ensures Handles(Registered(ts, key, next)) <= Handles(ts) + {next}
    ensures UniqueHandles(ts) && next !in Handles(ts) ==> UniqueHandles(Registered(ts, key, next))
  {
    var r := Registered(ts, key, next);
    assert forall t :: t in r ==> t in ts || t == RegisteredTemplate(key, next, 0);
    if FindRegistered(ts, key).None? && next !in Handles(ts) {
      assert forall j :: 0 <= j < |ts| ==> ts[j] in ts;
    }
  }

  /**
   * A successful registration counts the matching template exactly once
   * more and leaves every other template as it was.
   */
  lemma RetainedTemplateFacts(ts: seq<RegisteredTemplate>, key: TemplateKey, next: TemplateHandle)
    ensures var r, k := Retained(ts, key, next), RegisteredIndex(ts, key);
      && |r| == |Registered(ts, key, next)|
      && r[k] == Registered(ts, key, next)[k].(count := Registered(ts, key, next)[k].count + 1)
      && forall j :: 0 <= j < |r| && j != k ==> r[j] == Registered(ts, key, next)[j]
  {
  }

  /** `count++` on the entry `xxxNoSeQueHacexxx` returned turns `Registered` into `Retained`. */
  lemma {:induction false} RetainedIsIncrement(ts: seq<RegisteredTemplate>, key: TemplateKey, next: TemplateHandle)
    ensures var reg, k := Registered(ts, key, next), RegisteredIndex(ts, key);
      k < |reg| && Counted(reg, k) == Retained(ts, key, next)
  {
    var reg, k := Registered(ts, key, next), RegisteredIndex(ts, key);
    if FindRegistered(ts, key).None? {
      assert Counted(reg, k) == ts + [RegisteredTemplate(key, next, 1)];
    }
  }

  /** The registered handles after a release: those before, less the released one when it reached zero. */
  lemma {:induction false} ReleasedHandles(ts: seq<RegisteredTemplate>, k: nat)
    requires k < |ts| && UniqueHandles(ts)
    ensures UniqueHandles(Released(ts, k))
    ensures Handles(Released(ts, k)) == if ts[k].count - 1 == 0 then Handles(ts) - {ts[k].handle} else Handles(ts)
    ensures forall j :: 0 <= j < |Released(ts, k)| ==> Released(ts, k)[j] in ts || j == k
  {
    if ts[k].count - 1 == 0 {
      RemovedHandles(ts, k);
    } else {
      DecrementedHandles(ts, k, Released(ts, k));
    }
  }

  lemma {:induction false} RemovedHandles(ts: seq<RegisteredTemplate>, k: nat)
    requires k < |ts| && UniqueHandles(ts)
    ensures UniqueHandles(RemoveAt(ts, k))
    ensures Handles(RemoveAt(ts, k)) == Handles(ts) - {ts[k].handle}
    ensures forall j :: 0 <= j < |RemoveAt(ts, k)| ==> RemoveAt(ts, k)[j] in ts
  {
    RemovedUnique(ts, k);
    var r := RemoveAt(ts, k);
    forall h | h in Handles(r) ensures h in Handles(ts) && h != ts[k].handle {
      var t :| t in r && t.handle == h;
      var j := RemovedElement(ts, k, t);
      assert ts[j] in ts;
    }
    forall h | h in Handles(ts) && h != ts[k].handle ensures h in Handles(r) {
      var t :| t in ts && t.handle == h;
      var j :| 0 <= j < |ts| && ts[j] == t;
      var j' := if j < k then j else j - 1;
      assert r[j'] == t;
      assert r[j'] in r;
    }
  }

  lemma {:induction false} RemovedUnique(ts: seq<RegisteredTemplate>, k: nat)
    requires k < |ts| && UniqueHandles(ts)
    ensures UniqueHandles(RemoveAt(ts, k))
    ensures forall j :: 0 <= j < |RemoveAt(ts, k)| ==> RemoveAt(ts, k)[j] in ts
  {
    var r := RemoveAt(ts, k);
    forall a, b | 0 <= a < b < |r| ensures r[a].handle != r[b].handle {
      var a', b' := if a < k then a else a + 1, if b < k then b else b + 1;
      assert r[a] == ts[a'] && r[b] == ts[b'] && a' < b';
    }
    forall j | 0 <= j < |r| ensures r[j] in ts {
      assert r[j] == ts[if j < k then j else j + 1];
    }
  }

  lemma {:induction false} DecrementedHandles(ts: seq<RegisteredTemplate>, k: nat, r: seq<RegisteredTemplate>)
    requires k < |ts| && UniqueHandles(ts) && r == ts[k := ts[k].(count := ts[k].count - 1)]
    ensures UniqueHandles(r) && Handles(r) == Handles(ts)
    ensures forall j :: 0 <= j < |r| && j != k ==> r[j] in ts
  {
    assert forall j :: 0 <= j < |ts| ==> r[j].handle == ts[j].handle;
    forall h | h in Handles(r) ensures h in Handles(ts) {
      var t :| t in r && t.handle == h;
      var j :| 0 <= j < |r| && r[j] == t;
      assert ts[j] in ts;
    }
    forall h | h in Handles(ts) ensures h in Handles(r) {
      var t :| t in ts && t.handle == h;
      var j :| 0 <= j < |ts| && ts[j] == t;
      assert r[j] in r;
    }
  }

  /** Where an element of the shortened list sits in the original one: not at the removed index. */
  lemma {:induction false} RemovedElement<T>(s: seq<T>, i: nat, e: T) returns (j: nat)
    requires i < |s| && e in RemoveAt(s, i)
    ensures j < |s| && j != i && s[j] == e
  {
    if e in s[..i] {
      j :| 0 <= j < i && s[..i][j] == e;
    } else {
      assert e in s[i + 1..];
      var k :| 0 <= k < |s| - i - 1 && s[i + 1..][k] == e;
      j := k + i + 1;
    }
  }

  /** Releasing a template keeps the coordinates unique. */
  lemma {:induction false} ReleasedKeys(ts: seq<RegisteredTemplate>, k: nat)
    requires k < |ts| && UniqueKeys(ts)
    ensures UniqueKeys(Released(ts, k))
  {
    if ts[k].count - 1 != 0 {
      SameTemplates(ts, Released(ts, k));
    }
  }

  /**
   * Releasing template object `h` keeps the coordinates and objects unique
   * and registers no new object.
   */
  lemma {:induction false} ReleasedAfterUnique(ts: seq<RegisteredTemplate>, h: TemplateHandle)
    requires UniqueKeys(ts) && UniqueHandles(ts)
    ensures UniqueKeys(ReleasedAfter(ts, h)) && UniqueHandles(ReleasedAfter(ts, h))
    ensures Handles(ReleasedAfter(ts, h)) <= Handles(ts)
  {
    match FindTemplate(ts, h)
    case Some(k) =>
      ReleasedKeys(ts, k);
      ReleasedHandles(ts, k);
    case None =>
  }

  /**
   * The reference-count invariant: every registered template is counted
   * once per registered instance built on it, and every instance's template
   * is registered.
   */
  ghost predicate CountsMatch(s: seq<RegisteredPolicy>, ts: seq<RegisteredTemplate>)
  {
    && (forall k :: 0 <= k < |ts| ==> ts[k].count == RefCount(s, ts[k].handle))
    && (forall i :: 0 <= i < |s| ==> s[i].template in Handles(ts))
  }

  // ---------------------------------------------------------------------
  // Queries
  // ---------------------------------------------------------------------

  /** The instance takes part in a lookup: its pointcut matches and it has a policy for the stage. */
  predicate Selects(e: RegisteredPolicy, q: PointcutParameters, stage: Stage)
  {
    Matches(e.pointcut, q) && StagePolicy(e, stage).Some?
  }

  /**
   * What `findSourceParameterizedPolicies` (stage `Source`) and
   * `findOperationParameterizedPolicies` (stage `Operation`) return: the
   * stage policy of every selected instance, in list order.
   */
  function PoliciesFor(s: seq<RegisteredPolicy>, q: PointcutParameters, stage: Stage): seq<Policy>
  {
    if s == [] then []
    else
      var e := s[|s| - 1];
      PoliciesFor(s[..|s| - 1], q, stage) + (if Selects(e, q, stage) then [StagePolicy(e, stage).value] else [])
  }

  /** The positions of the selected instances, in increasing order. */
  function SelectedIndices(s: seq<RegisteredPolicy>, q: PointcutParameters, stage: Stage): (ix: seq<nat>)
    ensures forall k :: 0 <= k < |ix| ==> ix[k] < |s| && Selects(s[ix[k]], q, stage)
    ensures forall k, l :: 0 <= k < l < |ix| ==> ix[k] < ix[l]
    ensures forall i :: 0 <= i < |s| && Selects(s[i], q, stage) ==> i in ix
  {
    if s == [] then []
    else
      var n := |s| - 1;
      var init := SelectedIndices(s[..n], q, stage);
      assert forall i :: 0 <= i < n ==> s[..n][i] == s[i];
      init + (if Selects(s[n], q, stage) then [n] else [])
  }

  /**
   * The lookup result lists, in list order, the stage policy of the
   * selected instances and nothing else.
   */
  lemma {:induction false} PoliciesForInOrder(s: seq<RegisteredPolicy>, q: PointcutParameters, stage: Stage)
    ensures var ps, ix := PoliciesFor(s, q, stage), SelectedIndices(s, q, stage);
      |ps| == |ix| && forall k :: 0 <= k < |ix| ==> ps[k] == StagePolicy(s[ix[k]], stage).value
  {
    if s != [] {
      var n := |s| - 1;
      PoliciesForInOrder(s[..n], q, stage);
      var ps0, ix0 := PoliciesFor(s[..n], q, stage), SelectedIndices(s[..n], q, stage);
      var ps, ix := PoliciesFor(s, q, stage), SelectedIndices(s, q, stage);
      if Selects(s[n], q, stage) {
        assert ps == ps0 + [StagePolicy(s[n], stage).value] && ix == ix0 + [n];
      } else {
        assert ps == ps0 && ix == ix0;
      }
      forall k | 0 <= k < |ix| ensures ps[k] == StagePolicy(s[ix[k]], stage).value {
        if k < |ix0| {
          assert ps[k] == ps0[k] && ix[k] == ix0[k];
          assert s[..n][ix0[k]] == s[ix0[k]];
        }
      }
    }
  }

  /** A policy is returned exactly when some selected instance provides it. */
  lemma PoliciesForMembers(s: seq<RegisteredPolicy>, q: PointcutParameters, stage: Stage, p: Policy)
    ensures p in PoliciesFor(s, q, stage) <==>
      exists i :: 0 <= i < |s| && Selects(s[i], q, stage) && StagePolicy(s[i], stage).value == p
  {
    var ps, ix := PoliciesFor(s, q, stage), SelectedIndices(s, q, stage);
    PoliciesForInOrder(s, q, stage);
    if p in ps {
      var k :| 0 <= k < |ps| && ps[k] == p;
      assert Selects(s[ix[k]], q, stage);
    }
    if exists i :: 0 <= i < |s| && Selects(s[i], q, stage) && StagePolicy(s[i], stage).value == p {
      var i :| 0 <= i < |s| && Selects(s[i], q, stage) && StagePolicy(s[i], stage).value == p;
      var k :| 0 <= k < |ix| && ix[k] == i;
      assert ps[k] == p;
    }
  }

  /** `anyMatch(pip -> ...getSourcePolicy() / getOperationPolicy().isPresent())`. */
  function HasStagePolicy(s: seq<RegisteredPolicy>, stage: Stage): (r: bool)
    ensures r <==> exists i :: 0 <= i < |s| && StagePolicy(s[i], stage).Some?
  {
    if s == [] then false
    else
      assert forall i :: 1 <= i < |s| ==> s[i] == s[1..][i - 1];
      StagePolicy(s[0], stage).Some? || HasStagePolicy(s[1..], stage)
  }

  /** Without any instance having a policy for the stage, every lookup of that stage returns nothing. */
  lemma {:induction false} NoStagePolicyFindsNothing(s: seq<RegisteredPolicy>, q: PointcutParameters, stage: Stage)
    requires !HasStagePolicy(s, stage)
    ensures PoliciesFor(s, q, stage) == []
  {
    if s != [] {
      var n := |s| - 1;
      assert forall i :: 0 <= i < n ==> s[..n][i] == s[i];
      NoStagePolicyFindsNothing(s[..n], q, stage);
    }
  }

  // ---------------------------------------------------------------------
  // What dispose hands to the foreign dispose calls
  // ---------------------------------------------------------------------

  /** The ids of the entries, in list order. */
  function PolicyIds(s: seq<RegisteredPolicy>): (r: seq<string>)
    ensures |r| == |s| && forall k :: 0 <= k < |s| ==> r[k] == s[k].policyId
  {
    if s == [] then [] else PolicyIds(s[..|s| - 1]) + [s[|s| - 1].policyId]
  }

  /** The template objects of the entries, in list order. */
  function TemplateHandles(ts: seq<RegisteredTemplate>): (r: seq<TemplateHandle>)
    ensures |r| == |ts| && forall k :: 0 <= k < |ts| ==> r[k] == ts[k].handle
  {
    if ts == [] then [] else TemplateHandles(ts[..|ts| - 1]) + [ts[|ts| - 1].handle]
  }
}
