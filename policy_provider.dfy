/**
 * `MuleApplicationPolicyProvider`: the registry of the policies applied to
 * one Mule application. It holds the registered policy instances, sorted by
 * order, and the policy templates they are built on, each with the number
 * of instances that use it.
 *
 * Calls into collaborators are recorded rather than made: `dispose()` on an
 * instance appends its policy id to `disposedPolicies`; disposing a template
 * appends its handle to `disposedTemplates`;
 * each run of the policies-changed callback increments
 * `changeNotifications`. What the instance factory and `initialise()`
 * produce is an `InstanceCreation` argument.
 */
module PolicyProvider {
  import opened PolicyTypes
  import opened PolicyOrder
  import opened PolicyLookup
  import opened PolicyCounts

  class MuleApplicationPolicyProvider {
    /** `registeredPolicyInstanceProviders` */
    var instances: seq<RegisteredPolicy>
    /** `registeredPolicyTemplates`, each with its `count` */
    var templates: seq<RegisteredTemplate>
    /** whether `setApplication` has been given an application */
    var applicationConfigured: bool
    /** the identity of the next template object the template factory creates */
    var nextTemplate: TemplateHandle
    /** ids of instances handed to `dispose()`, in call order */
    var disposedPolicies: seq<string>
    /**
     * templates disposed, in call order: by `removePolicy`, after their class
     * loader was removed from the application's region; by `dispose`, with
     * `dispose()` alone
     */
    var disposedTemplates: seq<TemplateHandle>
    /** runs of the policies-changed callback */
    var changeNotifications: nat

    /** What every operation keeps: unique ids, sorted instances, unique templates. */
    ghost predicate Wellformed()
      reads this
    {
      WellformedState(instances, templates, nextTemplate)
    }

    /** Together with the reference counts, which every operation but `updatePolicy` as written keeps. */
    ghost predicate Valid()
      reads this
    {
      Wellformed() && CountsMatch(instances, templates)
    }

    constructor ()
      ensures Valid()
      ensures instances == [] && templates == [] && !applicationConfigured && nextTemplate == 0
      ensures disposedPolicies == [] && disposedTemplates == [] && changeNotifications == 0
    {
      instances, templates := [], [];
      applicationConfigured := false;
      nextTemplate := 0;
      disposedPolicies, disposedTemplates := [], [];
      changeNotifications := 0;
    }

    /** `setApplication`: `configured` says whether the application given is non-null. */
    method SetApplication(configured: bool)
      modifies this`applicationConfigured
      ensures applicationConfigured == configured
    {
      applicationConfigured := configured;
    }

    /**
     * `xxxNoSeQueHacexxx`: reuse the registered template with the
     * descriptor's coordinates, or create one and register it uncounted.
     */
    method RegisterTemplate(key: TemplateKey) returns (j: nat)
      requires Wellformed()
      modifies this`templates, this`nextTemplate
      ensures Wellformed() && (old(Valid()) ==> Valid())
      ensures templates == Registered(old(templates), key, old(nextTemplate))
      ensures j == RegisteredIndex(old(templates), key) && j < |templates|
      ensures templates[j].handle == RegisteredHandle(old(templates), key, old(nextTemplate))
      ensures nextTemplate == NextAfterRegister(old(templates), key, old(nextTemplate))
    {
      if old(Valid()) {
        RegisterKeepsCounts(instances, templates, key, nextTemplate);
      }
      RegisteredTemplateFacts(templates, key, nextTemplate);
      var found := FindRegistered(templates, key);
      if found.Some? {
        j := found.value;
      } else {
        templates := templates + [RegisteredTemplate(key, nextTemplate, 0)];
        nextTemplate := nextTemplate + 1;
        j := |templates| - 1;
      }
    }

    /**
     * The last steps of `addPolicy`, once `xxxNoSeQueHacexxx` has turned
     * the template list `ts` into `Registered(ts, key, next)` and the
     * instance `entry` has been created on the template it returned: add
     * the instance, re-sort, count it on its template and run the callback.
     */
    method Admit(ghost ts: seq<RegisteredTemplate>, ghost next: TemplateHandle, key: TemplateKey, j: nat, entry: RegisteredPolicy)
      requires WellformedState(instances, ts, next) && entry.policyId !in IdSet(instances)
      requires templates == Registered(ts, key, next) && nextTemplate == NextAfterRegister(ts, key, next)
      requires j == RegisteredIndex(ts, key) && entry.template == RegisteredHandle(ts, key, next)
      modifies this`instances, this`templates, this`changeNotifications
      ensures Wellformed() && (CountsMatch(old(instances), ts) ==> Valid())
      ensures instances == Insert(old(instances), entry) && templates == Retained(ts, key, next)
      ensures changeNotifications == old(changeNotifications) + 1
    {
      AddStep(instances, ts, key, next, entry);
      var sorted := StableSort(instances + [entry]);
      var counted := Counted(templates, j);
      assert sorted == Insert(instances, entry) && counted == Retained(ts, key, next);
      assert WellformedState(sorted, counted, nextTemplate);
      assert CountsMatch(instances, ts) ==> CountsMatch(sorted, counted);
      instances, templates, changeNotifications := sorted, counted, changeNotifications + 1;
    }

    /**
     * The body of `addPolicy`'s `try` after its two checks: register the
     * template, create and initialise the instance, and admit it. `ok` is
     * false when initialisation fails, which leaves the template registered.
     */
    method Register(key: TemplateKey, p: Parametrization, creation: InstanceCreation) returns (ok: bool)
      requires Wellformed() && p.id !in IdSet(instances)
      modifies this`instances, this`templates, this`nextTemplate, this`changeNotifications
      ensures Wellformed() && (old(Valid()) ==> Valid())
      ensures ok == creation.Initialised?
      ensures nextTemplate == NextAfterRegister(old(templates), key, old(nextTemplate))
      ensures !ok ==>
        && instances == old(instances) && changeNotifications == old(changeNotifications)
        && templates == Registered(old(templates), key, old(nextTemplate))
      ensures ok ==>
        && instances == Insert(old(instances), NewInstance(p, RegisteredHandle(old(templates), key, old(nextTemplate)), creation))
        && templates == Retained(old(templates), key, old(nextTemplate))
        && changeNotifications == old(changeNotifications) + 1
    {
      ghost var ts, next := templates, nextTemplate;
      var j := RegisterTemplate(key);
      if creation.InitialisationFails? {
        return false;
      }
      Admit(ts, next, key, j, NewInstance(p, templates[j].handle, creation));
      ok := true;
    }

    /**
     * `addPolicy`: refuse when no application is configured or the id is
     * taken; otherwise register the template, create the instance, add it,
     * re-sort, and count it on its template. Every failure is reported as a
     * registration error for the policy id, with the cause.
     */
    method AddPolicy(key: TemplateKey, p: Parametrization, creation: InstanceCreation)
      returns (r: Result<(), RegistrationError>)
      requires Wellformed()
      modifies this
      ensures Wellformed() && (old(Valid()) ==> Valid())
      ensures applicationConfigured == old(applicationConfigured)
      ensures disposedPolicies == old(disposedPolicies) && disposedTemplates == old(disposedTemplates)
      ensures r.Ok? <==> old(applicationConfigured) && p.id !in old(IdSet(instances)) && creation.Initialised?
      ensures r.Err? ==> r.error.message == PolicyRegistrationMessage(p.id)
      ensures !old(applicationConfigured) ==>
        r.Err? && r.error.cause == ApplicationNotConfigured(ApplicationNotConfiguredMessage())
      ensures old(applicationConfigured) && p.id in old(IdSet(instances)) ==>
        r.Err? && r.error.cause == AlreadyRegistered(PolicyAlreadyRegisteredMessage(p.id))
      ensures r.Err? && !r.error.cause.InitialisationFailed? ==>
        instances == old(instances) && templates == old(templates) && nextTemplate == old(nextTemplate)
        && changeNotifications == old(changeNotifications)
      ensures old(applicationConfigured) && p.id !in old(IdSet(instances)) ==>
        nextTemplate == NextAfterRegister(old(templates), key, old(nextTemplate))
      ensures old(applicationConfigured) && p.id !in old(IdSet(instances)) && creation.InitialisationFails? ==>
        && r.Err? && r.error.cause == InitialisationFailed
        && instances == old(instances) && changeNotifications == old(changeNotifications)
        && templates == Registered(old(templates), key, old(nextTemplate))
      ensures r.Ok? ==>
        && instances == Insert(old(instances), NewInstance(p, RegisteredHandle(old(templates), key, old(nextTemplate)), creation))
        && IdSet(instances) == old(IdSet(instances)) + {p.id}
        && templates == Retained(old(templates), key, old(nextTemplate))
        && changeNotifications == old(changeNotifications) + 1
    {
      var cause: RegistrationCause;
      if !applicationConfigured {
        cause := ApplicationNotConfigured(ApplicationNotConfiguredMessage());
      } else {
        FindPolicyIdSet(instances, p.id);
        if FindPolicy(instances, p.id).Some? {
          cause := AlreadyRegistered(PolicyAlreadyRegisteredMessage(p.id));
        } else {
          var ok := Register(key, p, creation);
          if ok {
            InsertIdSet(old(instances), NewInstance(p, RegisteredHandle(old(templates), key, old(nextTemplate)), creation));
            return Ok(());
          }
          cause := InitialisationFailed;
        }
      }
      r := Err(RegistrationError(PolicyRegistrationMessage(p.id), cause));
    }

    /**
     * The template half of `removePolicy`: find the registered entry holding
     * template object `h`, count one instance less, and at zero remove the
     * template's class loader from the application's region, dispose the
     * template and unregister it. Fails with `TemplateNotRegistered` when no
     * entry holds `h`, and with `ApplicationMissing` when the count reaches
     * zero and no application is set: the count is then already 0 and the
     * template stays registered, undisposed.
     */
    method ReleaseTemplate(h: TemplateHandle) returns (r: Result<(), RemoveError>)
      modifies this`templates, this`disposedTemplates
      ensures r == ReleaseOutcome(old(templates), h, applicationConfigured)
      ensures templates == ReleasedBy(old(templates), h, applicationConfigured)
      ensures disposedTemplates == old(disposedTemplates) + DisposedBy(old(templates), h, applicationConfigured)
    {
      var k := FindTemplate(templates, h);
      if k.None? {
        return Err(TemplateNotRegistered(TemplateNotRegisteredMessage()));
      }
      var t := templates[k.value];
      if t.count - 1 == 0 {
        if !applicationConfigured {
          templates := templates[k.value := t.(count := t.count - 1)];
          return Err(ApplicationMissing);
        }
        disposedTemplates := disposedTemplates + [t.handle];
        templates := RemoveAt(templates, k.value);
      } else {
        templates := templates[k.value := t.(count := t.count - 1)];
      }
      r := Ok(());
    }

    /**
     * `removePolicy`: when an instance is registered under `id`, remove it,
     * run the callback, dispose it and release its template; `Ok(false)`
     * when none is. The release fails, after the instance is gone and
     * disposed, when the instance's template is not registered, which a
     * valid state rules out, or when the template's count reaches zero with
     * no application set.
     */
    method RemovePolicy(id: string) returns (r: Result<bool, RemoveError>)
      requires Wellformed()
      modifies this`instances, this`templates, this`disposedPolicies, this`disposedTemplates, this`changeNotifications
      ensures Wellformed() && (old(Valid()) ==> Valid())
      ensures old(Valid()) ==> r.Ok? || r == Err(ApplicationMissing)
      ensures old(Valid()) && applicationConfigured ==> r.Ok?
      ensures r.Ok? ==> (r.value <==> id in old(IdSet(instances)))
      ensures IdSet(instances) == old(IdSet(instances)) - {id}
      ensures id !in old(IdSet(instances)) ==>
        && r == Ok(false) && instances == old(instances) && templates == old(templates)
        && disposedPolicies == old(disposedPolicies) && disposedTemplates == old(disposedTemplates)
        && changeNotifications == old(changeNotifications)
      ensures id in old(IdSet(instances)) ==>
        var i := FindPolicy(old(instances), id).value;
        var h := old(instances)[i].template;
        var outcome := ReleaseOutcome(old(templates), h, applicationConfigured);
        && instances == RemoveAt(old(instances), i)
        && changeNotifications == old(changeNotifications) + 1
        && disposedPolicies == old(disposedPolicies) + [id]
        && templates == ReleasedBy(old(templates), h, applicationConfigured)
        && disposedTemplates == old(disposedTemplates) + DisposedBy(old(templates), h, applicationConfigured)
        && r == if outcome.Ok? then Ok(true) else Err(outcome.error)
    {
      FindPolicyIdSet(instances, id);
      var found := FindPolicy(instances, id);
      if found.None? {
        return Ok(false);
      }
      var released := RemoveProvider(found.value);
      r := if released.Ok? then Ok(true) else Err(released.error);
    }

    /**
     * The action `removePolicy` runs on the instance it found at index `i`:
     * remove it, run the callback, dispose it and release its template,
     * with the outcome of the release.
     */
    method RemoveProvider(i: nat) returns (r: Result<(), RemoveError>)
      requires Wellformed() && i < |instances|
      modifies this`instances, this`templates, this`disposedPolicies, this`disposedTemplates, this`changeNotifications
      ensures Wellformed() && (old(Valid()) ==> Valid())
      ensures old(Valid()) ==> r.Ok? || r == Err(ApplicationMissing)
      ensures old(Valid()) && applicationConfigured ==> r.Ok?
      ensures IdSet(instances) == old(IdSet(instances)) - {old(instances)[i].policyId}
      ensures instances == RemoveAt(old(instances), i)
      ensures changeNotifications == old(changeNotifications) + 1
      ensures disposedPolicies == old(disposedPolicies) + [old(instances)[i].policyId]
      ensures templates == ReleasedBy(old(templates), old(instances)[i].template, applicationConfigured)
      ensures disposedTemplates ==
        old(disposedTemplates) + DisposedBy(old(templates), old(instances)[i].template, applicationConfigured)
      ensures r == ReleaseOutcome(old(templates), old(instances)[i].template, applicationConfigured)
    {
      var provider := instances[i];
      RemoveStep(instances, templates, nextTemplate, i, applicationConfigured);
      instances, changeNotifications, disposedPolicies :=
        RemoveAt(instances, i), changeNotifications + 1, disposedPolicies + [provider.policyId];
      r := ReleaseTemplate(provider.template);
    }

    /**
     * `updatePolicyOrder`: when an instance has the parametrization's id
     * and parameters but another order, give it the new order, re-sort and
     * run the callback; otherwise do nothing. The template descriptor is not
     * used.
     */
    method UpdatePolicyOrder(p: Parametrization)
      requires Wellformed()
      modifies this`instances, this`changeNotifications
      ensures Wellformed() && (old(Valid()) ==> Valid())
      ensures IdSet(instances) == old(IdSet(instances))
      ensures FindOrderUpdate(old(instances), p).None? ==>
        instances == old(instances) && changeNotifications == old(changeNotifications)
      ensures FindOrderUpdate(old(instances), p).Some? ==>
        var i := FindOrderUpdate(old(instances), p).value;
        && instances == StableSort(old(instances)[i := old(instances)[i].(order := p.order)])
        && changeNotifications == old(changeNotifications) + 1
    {
      var found := FindOrderUpdate(instances, p);
      if found.Some? {
        var i := found.value;
        ReorderStep(instances, templates, nextTemplate, i, p.order);
        instances, changeNotifications :=
          StableSort(instances[i := instances[i].(order := p.order)]), changeNotifications + 1;
      }
    }

    /**
     * `updatePolicy` as written: register the template, create and
     * initialise the new instance, swap it for the instance registered
     * under the id, re-sort, run the callback and dispose the old instance.
     * No reference count is touched, so the counts survive only when the
     * template stays the same (see `UpdateAsWrittenBreaksCounts`).
     */
    method UpdatePolicyAsWritten(key: TemplateKey, p: Parametrization, creation: InstanceCreation)
      returns (r: Result<(), UpdateError>)
      requires Wellformed()
      modifies this`instances, this`templates, this`nextTemplate, this`disposedPolicies, this`changeNotifications
      ensures Wellformed()
      ensures IdSet(instances) == old(IdSet(instances))
      ensures templates == Registered(old(templates), key, old(nextTemplate))
      ensures nextTemplate == NextAfterRegister(old(templates), key, old(nextTemplate))
      ensures r.Ok? <==> creation.Initialised? && p.id in old(IdSet(instances))
      ensures creation.InitialisationFails? ==> r == Err(InstanceInitialisationFailed)
      ensures creation.Initialised? && p.id !in old(IdSet(instances)) ==> r == Err(PolicyNotRegistered)
      ensures r.Err? ==>
        instances == old(instances) && disposedPolicies == old(disposedPolicies) && changeNotifications == old(changeNotifications)
      ensures r.Ok? ==>
        var i := FindPolicy(old(instances), p.id).value;
        && instances == Insert(RemoveAt(old(instances), i),
                               NewInstance(p, RegisteredHandle(old(templates), key, old(nextTemplate)), creation))
        && disposedPolicies == old(disposedPolicies) + [p.id]
        && changeNotifications == old(changeNotifications) + 1
    {
      ghost var ts, next := templates, nextTemplate;
      var j := RegisterTemplate(key);
      if creation.InitialisationFails? {
        return Err(InstanceInitialisationFailed);
      }
      var newPolicy := NewInstance(p, templates[j].handle, creation);
      FindPolicyIdSet(instances, p.id);
      var found := FindPolicy(instances, p.id);
      if found.None? {
        return Err(PolicyNotRegistered);
      }
      var i := found.value;
      ReplaceStep(instances, ts, key, next, i, newPolicy, applicationConfigured);
      instances, changeNotifications, disposedPolicies :=
        StableSort(RemoveAt(instances, i) + [newPolicy]), changeNotifications + 1, disposedPolicies + [instances[i].policyId];
      r := Ok(());
    }

    /**
     * `updatePolicy` as intended: as written, but the new instance is
     * counted on its template and the replaced one's template is released
     * as `removePolicy` releases it, so the counts stay right. A failed
     * release is reported as `TemplateReleaseFailed`, after the swap.
     */
    method UpdatePolicy(key: TemplateKey, p: Parametrization, creation: InstanceCreation)
      returns (r: Result<(), UpdateError>)
      requires Wellformed()
      modifies this
      ensures Wellformed() && (old(Valid()) ==> Valid())
      ensures applicationConfigured == old(applicationConfigured)
      ensures IdSet(instances) == old(IdSet(instances))
      ensures nextTemplate == NextAfterRegister(old(templates), key, old(nextTemplate))
      ensures creation.InitialisationFails? ==> r == Err(InstanceInitialisationFailed)
      ensures creation.Initialised? && p.id !in old(IdSet(instances)) ==> r == Err(PolicyNotRegistered)
      ensures old(Valid()) && applicationConfigured ==> (r.Ok? <==> creation.Initialised? && p.id in old(IdSet(instances)))
      ensures !(creation.Initialised? && p.id in old(IdSet(instances))) ==>
        && instances == old(instances) && templates == Registered(old(templates), key, old(nextTemplate))
        && disposedPolicies == old(disposedPolicies) && disposedTemplates == old(disposedTemplates)
        && changeNotifications == old(changeNotifications)
      ensures creation.Initialised? && p.id in old(IdSet(instances)) ==>
        var i := FindPolicy(old(instances), p.id).value;
        var h := old(instances)[i].template;
        var ts1 := Retained(old(templates), key, old(nextTemplate));
        var outcome := ReleaseOutcome(ts1, h, applicationConfigured);
        && instances == Insert(RemoveAt(old(instances), i),
                               NewInstance(p, RegisteredHandle(old(templates), key, old(nextTemplate)), creation))
        && templates == ReleasedBy(ts1, h, applicationConfigured)
        && disposedPolicies == old(disposedPolicies) + [p.id]
        && disposedTemplates == old(disposedTemplates) + DisposedBy(ts1, h, applicationConfigured)
        && changeNotifications == old(changeNotifications) + 1
        && r == if outcome.Ok? then Ok(()) else Err(TemplateReleaseFailed(outcome.error))
    {
      ghost var ts, next := templates, nextTemplate;
      var j := RegisterTemplate(key);
      if creation.InitialisationFails? {
        return Err(InstanceInitialisationFailed);
      }
      var newPolicy := NewInstance(p, templates[j].handle, creation);
      FindPolicyIdSet(instances, p.id);
      var found := FindPolicy(instances, p.id);
      if found.None? {
        return Err(PolicyNotRegistered);
      }
      var released := Replace(ts, next, key, j, found.value, newPolicy);
      r := if released.Ok? then Ok(()) else Err(TemplateReleaseFailed(released.error));
    }

    /**
     * The swap of the corrected `updatePolicy`, once the template is registered
     * and the new instance created, with the outcome of releasing the replaced
     * instance's template. A valid state always finds that template, so the
     * release can fail only for want of an application.
     */
    method Replace(ghost ts: seq<RegisteredTemplate>, ghost next: TemplateHandle, key: TemplateKey, j: nat, i: nat,
                   newPolicy: RegisteredPolicy) returns (r: Result<(), RemoveError>)
      requires WellformedState(instances, ts, next) && i < |instances| && newPolicy.policyId == instances[i].policyId
      requires templates == Registered(ts, key, next) && nextTemplate == NextAfterRegister(ts, key, next)
      requires j == RegisteredIndex(ts, key) && newPolicy.template == RegisteredHandle(ts, key, next)
      modifies this`instances, this`templates, this`disposedPolicies, this`disposedTemplates, this`changeNotifications
      ensures Wellformed() && (CountsMatch(old(instances), ts) ==> Valid())
      ensures IdSet(instances) == old(IdSet(instances))
      ensures instances == Insert(RemoveAt(old(instances), i), newPolicy)
      ensures templates == ReleasedBy(Retained(ts, key, next), old(instances)[i].template, applicationConfigured)
      ensures disposedPolicies == old(disposedPolicies) + [newPolicy.policyId]
      ensures disposedTemplates ==
        old(disposedTemplates) + DisposedBy(Retained(ts, key, next), old(instances)[i].template, applicationConfigured)
      ensures changeNotifications == old(changeNotifications) + 1
      ensures r == ReleaseOutcome(Retained(ts, key, next), old(instances)[i].template, applicationConfigured)
      ensures CountsMatch(old(instances), ts) ==> r.Ok? || r == Err(ApplicationMissing)
    {
      ghost var s0 := instances;
      var outdated := instances[i];
      var sorted := StableSort(RemoveAt(instances, i) + [newPolicy]);
      var counted := Counted(templates, j);
      instances, templates, changeNotifications, disposedPolicies :=
        sorted, counted, changeNotifications + 1, disposedPolicies + [outdated.policyId];
      r := ReleaseTemplate(outdated.template);
      ReplaceStep(s0, ts, key, next, i, newPolicy, applicationConfigured);
      RetainedIsIncrement(ts, key, next);
    }

    /** The first loop of `dispose`: dispose every instance, in list order, then clear the list. */
    method DisposeInstances()
      modifies this`instances, this`disposedPolicies
      ensures instances == []
      ensures disposedPolicies == old(disposedPolicies) + PolicyIds(old(instances))
    {
      for k := 0 to |instances|
        invariant instances == old(instances)
        invariant disposedPolicies == old(disposedPolicies) + PolicyIds(instances[..k])
      {
        assert instances[..k + 1][..k] == instances[..k];
        disposedPolicies := disposedPolicies + [instances[k].policyId];
      }
      assert instances[..|instances|] == instances;
      instances := [];
    }

    /**
     * `dispose` as intended: dispose every instance, then every template
     * (a failing template `dispose()` is ignored and the loop goes on),
     * and clear both lists.
     */
    method Dispose()
      modifies this`instances, this`templates, this`disposedPolicies, this`disposedTemplates
      ensures Valid() && instances == [] && templates == []
      ensures disposedPolicies == old(disposedPolicies) + PolicyIds(old(instances))
      ensures disposedTemplates == old(disposedTemplates) + TemplateHandles(old(templates))
    {
      DisposeInstances();
      for k := 0 to |templates|
        invariant instances == [] && templates == old(templates)
        invariant disposedPolicies == old(disposedPolicies) + PolicyIds(old(instances))
        invariant disposedTemplates == old(disposedTemplates) + TemplateHandles(templates[..k])
      {
        assert templates[..k + 1][..k] == templates[..k];
        disposedTemplates := disposedTemplates + [templates[k].handle];
      }
      assert templates[..|templates|] == templates;
      templates := [];
    }

    /**
     * `dispose` as written: the template loop clears the list it iterates
     * inside its body, and the linked list's iterator then reports no next
     * element, so only the first template is disposed.
     */
    method DisposeAsWritten()
      modifies this`instances, this`templates, this`disposedPolicies, this`disposedTemplates
      ensures Valid() && instances == [] && templates == []
      ensures disposedPolicies == old(disposedPolicies) + PolicyIds(old(instances))
      ensures old(templates) == [] ==> disposedTemplates == old(disposedTemplates)
      ensures old(templates) != [] ==> disposedTemplates == old(disposedTemplates) + [old(templates)[0].handle]
    {
      DisposeInstances();
      var nextIndex := 0;
      while nextIndex < |templates|
        invariant instances == [] && disposedPolicies == old(disposedPolicies) + PolicyIds(old(instances))
        invariant nextIndex == 0 ==> templates == old(templates) && disposedTemplates == old(disposedTemplates)
        invariant nextIndex != 0 ==>
          nextIndex == 1 && templates == [] && old(templates) != []
          && disposedTemplates == old(disposedTemplates) + [old(templates)[0].handle]
        decreases |templates| - nextIndex
      {
        disposedTemplates := disposedTemplates + [templates[nextIndex].handle];
        nextIndex := nextIndex + 1;
        templates := [];
      }
      templates := [];
    }

    /**
     * The loop shared by `findSourceParameterizedPolicies` and
     * `findOperationParameterizedPolicies`: the stage policy of every
     * instance whose pointcut matches, in list order.
     */
    method FindParameterizedPolicies(q: PointcutParameters, stage: Stage) returns (policies: seq<Policy>)
      ensures policies == PoliciesFor(instances, q, stage)
      ensures forall x :: x in policies <==>
        exists i :: 0 <= i < |instances| && Selects(instances[i], q, stage) && StagePolicy(instances[i], stage).value == x
    {
      policies := [];
      if |instances| > 0 {
        for k := 0 to |instances|
          invariant policies == PoliciesFor(instances[..k], q, stage)
        {
          assert instances[..k + 1][..k] == instances[..k];
          var provider := instances[k];
          if Matches(provider.pointcut, q) {
            if StagePolicy(provider, stage).Some? {
              policies := policies + [StagePolicy(provider, stage).value];
            }
          }
        }
        assert instances[..|instances|] == instances;
      }
      forall x ensures x in policies <==>
        exists i :: 0 <= i < |instances| && Selects(instances[i], q, stage) && StagePolicy(instances[i], stage).value == x
      {
        PoliciesForMembers(instances, q, stage, x);
      }
    }

    /** `findSourceParameterizedPolicies`. */
    method FindSourceParameterizedPolicies(q: PointcutParameters) returns (policies: seq<Policy>)
      ensures policies == PoliciesFor(instances, q, Source)
      ensures forall x :: x in policies <==>
        exists i :: 0 <= i < |instances| && Matches(instances[i].pointcut, q) && instances[i].sourcePolicy == Some(x)
    {
      policies := FindParameterizedPolicies(q, Source);
    }

    /** `findOperationParameterizedPolicies`. */
    method FindOperationParameterizedPolicies(q: PointcutParameters) returns (policies: seq<Policy>)
      ensures policies == PoliciesFor(instances, q, Operation)
      ensures forall x :: x in policies <==>
        exists i :: 0 <= i < |instances| && Matches(instances[i].pointcut, q) && instances[i].operationPolicy == Some(x)
    {
      policies := FindParameterizedPolicies(q, Operation);
    }

    /** `isPoliciesAvailable`: some policy is registered. */
    function IsPoliciesAvailable(): (r: bool)
      reads this
      ensures r <==> IdSet(instances) != {}
    {
      assert |instances| > 0 ==> instances[0] in instances && instances[0].policyId in IdSet(instances);
      |instances| > 0
    }

    /** `isSourcePoliciesAvailable`: some registered instance has a source policy. */
    function IsSourcePoliciesAvailable(): (r: bool)
      reads this
      ensures r <==> exists i :: 0 <= i < |instances| && instances[i].sourcePolicy.Some?
    {
      HasStagePolicy(instances, Source)
    }

    /** `isOperationPoliciesAvailable`: some registered instance has an operation policy. */
    function IsOperationPoliciesAvailable(): (r: bool)
      reads this
      ensures r <==> exists i :: 0 <= i < |instances| && instances[i].operationPolicy.Some?
    {
      HasStagePolicy(instances, Operation)
    }
  }

  // ---------------------------------------------------------------------
  // The findings, on two templates and two policies
  // ---------------------------------------------------------------------

  const TemplateV10 := TemplateKey("g", "policy", "1.0")
  const TemplateV11 := TemplateKey("g", "policy", "1.1")
  const PolicyA := Parametrization("a", 1, map[], Pointcut({}))
  const PolicyB := Parametrization("b", 2, map[], Pointcut({}))
  const Created := Initialised(None, None)

  /** `a` on the first template object, `a` on the second, `b` on the second. */
  const A0 := NewInstance(PolicyA, 0, Created)
  const A1 := NewInstance(PolicyA, 1, Created)
  const B1 := NewInstance(PolicyB, 1, Created)

  /** Adding `a` on 1.0 to the empty provider. */
  lemma AddAFacts()
    ensures IdSet([]) == {} && RegisteredHandle([], TemplateV10, 0) == 0
    ensures Insert([], A0) == [A0] && IdSet([A0]) == {"a"}
    ensures Retained([], TemplateV10, 0) == [RegisteredTemplate(TemplateV10, 0, 1)]
    ensures NextAfterRegister([], TemplateV10, 0) == 1
  {
    assert A0 in [A0];
  }

  /** Updating `a` onto 1.1 as written: 1.1 gets registered with count zero. */
  lemma UpdateAFacts()
    ensures FindPolicy([A0], "a") == Some(0) && RemoveAt([A0], 0) == []
    ensures RegisteredHandle([RegisteredTemplate(TemplateV10, 0, 1)], TemplateV11, 1) == 1
    ensures Registered([RegisteredTemplate(TemplateV10, 0, 1)], TemplateV11, 1)
      == [RegisteredTemplate(TemplateV10, 0, 1), RegisteredTemplate(TemplateV11, 1, 0)]
    ensures NextAfterRegister([RegisteredTemplate(TemplateV10, 0, 1)], TemplateV11, 1) == 2
    ensures Insert([], A1) == [A1] && IdSet([A1]) == {"a"}
  {
    assert A1 in [A1];
  }

  /** Adding `b` on 1.1: it counts 1.1 once. */
  lemma AddBFacts()
    ensures IdSet([A1]) == {"a"} && "b" !in IdSet([A1])
    ensures RegisteredHandle([RegisteredTemplate(TemplateV10, 0, 1), RegisteredTemplate(TemplateV11, 1, 0)], TemplateV11, 2) == 1
    ensures Retained([RegisteredTemplate(TemplateV10, 0, 1), RegisteredTemplate(TemplateV11, 1, 0)], TemplateV11, 2)
      == [RegisteredTemplate(TemplateV10, 0, 1), RegisteredTemplate(TemplateV11, 1, 1)]
    ensures Insert([A1], B1) == [A1, B1] && IdSet([A1, B1]) == {"a", "b"}
  {
    var ts := [RegisteredTemplate(TemplateV10, 0, 1), RegisteredTemplate(TemplateV11, 1, 0)];
    assert TemplateV10.version[2] != TemplateV11.version[2];
    assert FindRegistered(ts, TemplateV11) == Some(1);
    assert A1.order == 1 && B1.order == 2 && [A1][1..] == [];
    assert InsertionPoint([A1], B1) == 1 + InsertionPoint([], B1);
    assert A1 in [A1, B1] && B1 in [A1, B1];
  }

  /** Removing `b`: 1.1 drops to zero and is unregistered. */
  lemma RemoveBFacts()
    ensures FindPolicy([A1, B1], "b") == Some(1) && RemoveAt([A1, B1], 1) == [A1]
    ensures ReleasedBy([RegisteredTemplate(TemplateV10, 0, 1), RegisteredTemplate(TemplateV11, 1, 1)], 1, true)
      == [RegisteredTemplate(TemplateV10, 0, 1)]
    ensures FindPolicy([A1], "a") == Some(0)
    ensures 1 !in Handles([RegisteredTemplate(TemplateV10, 0, 1)])
  {
    var ts := [RegisteredTemplate(TemplateV10, 0, 1), RegisteredTemplate(TemplateV11, 1, 1)];
    assert FindTemplate(ts, 1) == Some(1);
    assert RemoveAt(ts, 1) == [RegisteredTemplate(TemplateV10, 0, 1)];
  }

  /** The provider holds exactly these instances and templates, with the application configured. */
  ghost predicate HoldsExactly(provider: MuleApplicationPolicyProvider,
                         s: seq<RegisteredPolicy>, ts: seq<RegisteredTemplate>, next: nat)
    reads provider
  {
    provider.Wellformed() && provider.applicationConfigured
    && provider.instances == s && provider.templates == ts && provider.nextTemplate == next
  }

  method TraceAddA(provider: MuleApplicationPolicyProvider)
    requires HoldsExactly(provider, [], [], 0)
    modifies provider
    ensures HoldsExactly(provider, [A0], [RegisteredTemplate(TemplateV10, 0, 1)], 1)
    ensures provider.disposedTemplates == old(provider.disposedTemplates)
  {
    AddAFacts();
    var added := provider.AddPolicy(TemplateV10, PolicyA, Created);
  }

  method TraceUpdateA(provider: MuleApplicationPolicyProvider)
    requires HoldsExactly(provider, [A0], [RegisteredTemplate(TemplateV10, 0, 1)], 1)
    modifies provider
    ensures HoldsExactly(provider, [A1], [RegisteredTemplate(TemplateV10, 0, 1), RegisteredTemplate(TemplateV11, 1, 0)], 2)
  {
    UpdateAFacts();
    var updated := provider.UpdatePolicyAsWritten(TemplateV11, PolicyA, Created);
  }

  method TraceAddB(provider: MuleApplicationPolicyProvider)
    requires HoldsExactly(provider, [A1], [RegisteredTemplate(TemplateV10, 0, 1), RegisteredTemplate(TemplateV11, 1, 0)], 2)
    modifies provider
    ensures HoldsExactly(provider, [A1, B1], [RegisteredTemplate(TemplateV10, 0, 1), RegisteredTemplate(TemplateV11, 1, 1)], 2)
  {
    AddBFacts();
    var added := provider.AddPolicy(TemplateV11, PolicyB, Created);
  }

  method TraceRemoveB(provider: MuleApplicationPolicyProvider)
    requires HoldsExactly(provider, [A1, B1], [RegisteredTemplate(TemplateV10, 0, 1), RegisteredTemplate(TemplateV11, 1, 1)], 2)
    modifies provider
    ensures HoldsExactly(provider, [A1], [RegisteredTemplate(TemplateV10, 0, 1)], 2)
  {
    RemoveBFacts();
    var removed := provider.RemovePolicy("b");
  }

  /**
   * The `updatePolicy` finding on the provider as written: policy `a` moves
   * from template 1.0 to 1.1, `b` is added on 1.1 and removed again, which
   * takes 1.1's count to zero and unregisters it although `a` still runs on
   * it; removing `a` then fails.
   */
  method ReplacedTemplateTrace() returns (r: Result<bool, RemoveError>)
    ensures r == Err(TemplateNotRegistered(TemplateNotRegisteredMessage()))
  {
    var provider := new MuleApplicationPolicyProvider();
    provider.SetApplication(true);
    TraceAddA(provider);
    TraceUpdateA(provider);
    TraceAddB(provider);
    TraceRemoveB(provider);
    RemoveBFacts();
    r := provider.RemovePolicy("a");
  }

  /** Removing `a` from 1.0 with no application set: the count drops to zero and nothing is disposed. */
  lemma NoApplicationRemoveFacts()
    ensures FindPolicy([A0], "a") == Some(0) && RemoveAt([A0], 0) == []
    ensures ReleaseOutcome([RegisteredTemplate(TemplateV10, 0, 1)], 0, false) == Err(ApplicationMissing)
    ensures ReleasedBy([RegisteredTemplate(TemplateV10, 0, 1)], 0, false) == [RegisteredTemplate(TemplateV10, 0, 0)]
    ensures DisposedBy([RegisteredTemplate(TemplateV10, 0, 1)], 0, false) == []
  {
    assert FindTemplate([RegisteredTemplate(TemplateV10, 0, 1)], 0) == Some(0);
  }

  /**
   * `removePolicy` after `setApplication(null)`: policy `a` is removed and
   * disposed, but releasing its template fails for want of an application,
   * which leaves template 1.0 registered with count 0 and not disposed.
   */
  method NoApplicationRemoveTrace() returns (r: Result<bool, RemoveError>, remaining: seq<RegisteredTemplate>,
                                             disposed: seq<TemplateHandle>)
    ensures r == Err(ApplicationMissing)
    ensures remaining == [RegisteredTemplate(TemplateV10, 0, 0)] && disposed == []
  {
    var provider := new MuleApplicationPolicyProvider();
    provider.SetApplication(true);
    TraceAddA(provider);
    provider.SetApplication(false);
    NoApplicationRemoveFacts();
    r := provider.RemovePolicy("a");
    remaining, disposed := provider.templates, provider.disposedTemplates;
  }

  /** Adding `b` on 1.1 beside `a` on 1.0: 1.1 becomes the second template object. */
  lemma AddBBesideFacts()
    ensures IdSet([A0]) == {"a"} && "b" !in IdSet([A0])
    ensures RegisteredHandle([RegisteredTemplate(TemplateV10, 0, 1)], TemplateV11, 1) == 1
    ensures Retained([RegisteredTemplate(TemplateV10, 0, 1)], TemplateV11, 1)
      == [RegisteredTemplate(TemplateV10, 0, 1), RegisteredTemplate(TemplateV11, 1, 1)]
    ensures NextAfterRegister([RegisteredTemplate(TemplateV10, 0, 1)], TemplateV11, 1) == 2
    ensures Insert([A0], B1) == [A0, B1]
  {
    assert TemplateV10.version[2] != TemplateV11.version[2];
    assert FindRegistered([RegisteredTemplate(TemplateV10, 0, 1)], TemplateV11) == None;
    assert A0.order == 1 && B1.order == 2 && [A0][1..] == [];
    assert InsertionPoint([A0], B1) == 1 + InsertionPoint([], B1);
    assert A0 in [A0];
  }

  method TraceAddBBeside(provider: MuleApplicationPolicyProvider)
    requires HoldsExactly(provider, [A0], [RegisteredTemplate(TemplateV10, 0, 1)], 1)
    modifies provider
    ensures HoldsExactly(provider, [A0, B1], [RegisteredTemplate(TemplateV10, 0, 1), RegisteredTemplate(TemplateV11, 1, 1)], 2)
    ensures provider.disposedTemplates == old(provider.disposedTemplates)
  {
    AddBBesideFacts();
    var added := provider.AddPolicy(TemplateV11, PolicyB, Created);
  }

  /**
   * The `dispose` finding on the provider as written: with policies on two
   * template objects, only the first template object is disposed.
   */
  method DisposeAsWrittenTrace() returns (disposed: seq<TemplateHandle>)
    ensures disposed == [0]
  {
    var provider := new MuleApplicationPolicyProvider();
    provider.SetApplication(true);
    TraceAddA(provider);
    TraceAddBBeside(provider);
    provider.DisposeAsWritten();
    disposed := provider.disposedTemplates;
  }

  /** The same deployment disposed as intended: both template objects are disposed. */
  method DisposeTrace() returns (disposed: seq<TemplateHandle>)
    ensures disposed == [0, 1]
  {
    var provider := new MuleApplicationPolicyProvider();
    provider.SetApplication(true);
    TraceAddA(provider);
    TraceAddBBeside(provider);
    provider.Dispose();
    disposed := provider.disposedTemplates;
  }
}
