# Mule application policy provider, in Dafny

This project models `MuleApplicationPolicyProvider`, the registry of the
policies applied to one Mule application. The registry keeps two lists:

- the registered policy instances, each under a unique policy id, kept
  sorted by policy order with `List.sort(null)` (a stable sort by
  `compareTo`);
- the policy templates they are built on, each with a reference count.

Templates are looked up by bundle coordinates (group id, artifact id,
version) when a policy is added. They are looked up by object identity when
one is removed.

The model is the class `PolicyProvider.MuleApplicationPolicyProvider`. Its
fields are `instances: seq<RegisteredPolicy>` and
`templates: seq<RegisteredTemplate>`, and its methods are the provider's
operations, each proved against functions over those sequences:

- `PolicyTypes`: the values the provider stores and compares, and the
  exceptions it raises.
- `PolicyOrder`: the stable sort, as an insertion sort (a stable sort has
  exactly one result), proved sorted, a permutation and stable on any input,
  and what it keeps: contents, ids, reference counts.
- `PolicyLookup`: the lookups by id, by parametrization, by coordinates and
  by template object. It also holds the template list after `count++` and
  `count--`, and the policy lookups of the two `find…` queries.
- `PolicyCounts`: the invariants and one step lemma per operation.
  - `WellformedState`: ids unique, instances sorted, coordinates and
    template objects unique.
  - `CountsMatch`: every template's count equals the number of instances
    built on it, and every instance's template is registered.

Template objects made by the template factory are modelled as handles
(`TemplateHandle = nat`) taken from `nextTemplate`. This gives them the
identity that `removePolicy` compares with `equals`. The foreign calls are
recorded rather than made:

- instance `dispose()` appends the policy id to `disposedPolicies`;
- disposing a template appends its handle to `disposedTemplates`. An entry
  made by `removePolicy` stands for removing the template's class loader
  from the application's region and then calling `dispose()`. An entry made
  by `dispose` stands for `dispose()` alone;
- each run of the policies-changed callback increments
  `changeNotifications`.

What the instance factory and `initialise()` produce is the input
`InstanceCreation`: an instance with its optional source and operation
policies, or an initialisation failure. Whether `setApplication` was given
an application is the field `applicationConfigured`. When a template's count
reaches zero without one, `application.getRegionClassLoader()` throws a
`NullPointerException`; the model returns the error `ApplicationMissing`
and leaves the state the exception leaves. A pointcut is the finite set of
lookups it matches.

Every operation keeps `Wellformed()`. Every operation except
`updatePolicy` as written also keeps `Valid()`, which adds the
reference counts (see Findings).

## Model

| member | source | states |
|---|---|---|
| PolicyTypes.CompareTo | modules/deployment-model-impl/src/main/java/org/mule/runtime/module/deployment/impl/internal/application/MuleApplicationPolicyProvider.java:351-354 | `Integer.compare` of the two orders: -1, 0 or 1, negative exactly when the first order is smaller, zero exactly when they are equal |
| PolicyTypes.CompareParametrizations | modules/deployment-model-impl/src/main/java/org/mule/runtime/module/deployment/impl/internal/application/MuleApplicationPolicyProvider.java:173-178 | same policy id and parameters but another order; it has no contract of its own, and PolicyLookup.OrderUpdateTargetsPolicy and PolicyCounts.ReorderIdempotent are proved about it |
| PolicyTypes.NewInstance | modules/deployment-model-impl/src/main/java/org/mule/runtime/module/deployment/impl/internal/application/MuleApplicationPolicyProvider.java:111-120 | the instance that `create` and `initialise()` give for a parametrization on a template: its id, order, parameters and pointcut, the template object it was built on, and the policies it provides. It has no contract of its own, and "## Left out" says what it assumes about the instance |
| PolicyOrder.InsertionPoint | modules/deployment-model-impl/src/main/java/org/mule/runtime/module/deployment/impl/internal/application/MuleApplicationPolicyProvider.java:86 | where the stable sort puts a new entry: behind every entry whose order is not greater, before the first that is greater |
| PolicyOrder.Insert | modules/deployment-model-impl/src/main/java/org/mule/runtime/module/deployment/impl/internal/application/MuleApplicationPolicyProvider.java:84-86 | adding an entry to a sorted list and sorting. It has no contract of its own: SortAppended proves it equals the sort, InsertSorted that it adds exactly the entry and stays sorted, InsertedBehindNotGreater where the entry lands |
| PolicyOrder.StableSort | modules/deployment-model-impl/src/main/java/org/mule/runtime/module/deployment/impl/internal/application/MuleApplicationPolicyProvider.java:86 | `List.sort(null)`, also at lines 132 and 160: the result has the input's length, and the lemmas below prove it sorted, a permutation and stable on any input |
| PolicyOrder.StableSortSorted | modules/deployment-model-impl/src/main/java/org/mule/runtime/module/deployment/impl/internal/application/MuleApplicationPolicyProvider.java:86 | the result of `sort(null)` is non-decreasing under `compareTo` |
| PolicyOrder.StableSortPermutation | modules/deployment-model-impl/src/main/java/org/mule/runtime/module/deployment/impl/internal/application/MuleApplicationPolicyProvider.java:86 | sorting is a permutation: the multiset of entries is unchanged |
| PolicyOrder.StableSortMembers | modules/deployment-model-impl/src/main/java/org/mule/runtime/module/deployment/impl/internal/application/MuleApplicationPolicyProvider.java:86 | every entry of the sorted list comes from the input |
| PolicyOrder.StableSortHas | modules/deployment-model-impl/src/main/java/org/mule/runtime/module/deployment/impl/internal/application/MuleApplicationPolicyProvider.java:86 | every entry of the input has a place in the sorted list |
| PolicyOrder.StableSortStable | modules/deployment-model-impl/src/main/java/org/mule/runtime/module/deployment/impl/internal/application/MuleApplicationPolicyProvider.java:86 | the sort is stable on any input, sorted or not: of two entries with equal order, the one earlier in the input has a place earlier in the result |
| PolicyOrder.StableSortKeepsTies | modules/deployment-model-impl/src/main/java/org/mule/runtime/module/deployment/impl/internal/application/MuleApplicationPolicyProvider.java:130-132 | with unique ids, every place of the earlier of two equal-order entries comes before every place of the later one, so re-sorting after an order change keeps ties in list order |
| PolicyOrder.SortedIsUnchanged | modules/deployment-model-impl/src/main/java/org/mule/runtime/module/deployment/impl/internal/application/MuleApplicationPolicyProvider.java:86 | a list that is already sorted is left exactly as it is |
| PolicyOrder.SortAppended | modules/deployment-model-impl/src/main/java/org/mule/runtime/module/deployment/impl/internal/application/MuleApplicationPolicyProvider.java:84-86 | appending to a sorted list and sorting is inserting the new entry at its insertion point |
| PolicyOrder.InsertedBehindNotGreater | modules/deployment-model-impl/src/main/java/org/mule/runtime/module/deployment/impl/internal/application/MuleApplicationPolicyProvider.java:86 | the sort is stable: the new entry lands behind exactly those entries whose order is not greater |
| PolicyOrder.InsertSorted | modules/deployment-model-impl/src/main/java/org/mule/runtime/module/deployment/impl/internal/application/MuleApplicationPolicyProvider.java:84-86 | insertion adds exactly the new entry to the contents and keeps a sorted list sorted |
| PolicyOrder.InsertKeepsSorted | modules/deployment-model-impl/src/main/java/org/mule/runtime/module/deployment/impl/internal/application/MuleApplicationPolicyProvider.java:84-86 | insertion keeps a sorted list sorted |
| PolicyOrder.InsertIdSet | modules/deployment-model-impl/src/main/java/org/mule/runtime/module/deployment/impl/internal/application/MuleApplicationPolicyProvider.java:84-85 | after adding, the registered ids are those before plus the new id |
| PolicyOrder.InsertUnique | modules/deployment-model-impl/src/main/java/org/mule/runtime/module/deployment/impl/internal/application/MuleApplicationPolicyProvider.java:72-85 | adding an entry whose id is not registered keeps the ids unique |
| PolicyOrder.InsertRefCount | modules/deployment-model-impl/src/main/java/org/mule/runtime/module/deployment/impl/internal/application/MuleApplicationPolicyProvider.java:81-87 | adding an entry adds one reference to its template and changes no other template's |
| PolicyOrder.StableSortIdSet | modules/deployment-model-impl/src/main/java/org/mule/runtime/module/deployment/impl/internal/application/MuleApplicationPolicyProvider.java:86 | sorting keeps the set of registered ids |
| PolicyOrder.StableSortUnique | modules/deployment-model-impl/src/main/java/org/mule/runtime/module/deployment/impl/internal/application/MuleApplicationPolicyProvider.java:86 | sorting keeps the ids unique |
| PolicyOrder.StableSortRefCount | modules/deployment-model-impl/src/main/java/org/mule/runtime/module/deployment/impl/internal/application/MuleApplicationPolicyProvider.java:86 | sorting keeps every template's number of references |
| PolicyOrder.RefCountZero | modules/deployment-model-impl/src/main/java/org/mule/runtime/module/deployment/impl/internal/application/MuleApplicationPolicyProvider.java:214-215 | a template has zero references exactly when no entry is built on it |
| PolicyOrder.RemoveAt | modules/deployment-model-impl/src/main/java/org/mule/runtime/module/deployment/impl/internal/application/MuleApplicationPolicyProvider.java:199 | `List.remove`: one entry fewer, the others in their previous relative order |
| PolicyOrder.RemoveAtSorted | modules/deployment-model-impl/src/main/java/org/mule/runtime/module/deployment/impl/internal/application/MuleApplicationPolicyProvider.java:199 | removing an entry keeps the list sorted |
| PolicyOrder.RemoveAtIds | modules/deployment-model-impl/src/main/java/org/mule/runtime/module/deployment/impl/internal/application/MuleApplicationPolicyProvider.java:199 | removing an entry keeps the ids unique and drops exactly its id |
| PolicyOrder.RemoveAtMultiset | modules/deployment-model-impl/src/main/java/org/mule/runtime/module/deployment/impl/internal/application/MuleApplicationPolicyProvider.java:158 | removing an entry takes exactly that entry out of the contents |
| PolicyOrder.RemoveAtRefCount | modules/deployment-model-impl/src/main/java/org/mule/runtime/module/deployment/impl/internal/application/MuleApplicationPolicyProvider.java:199 | removing an entry drops one reference to its template and changes no other template's |
| PolicyLookup.FindPolicy | modules/deployment-model-impl/src/main/java/org/mule/runtime/module/deployment/impl/internal/application/MuleApplicationPolicyProvider.java:194-195 | `filter(isPolicy).findFirst()`: the first index whose id is the given one, and none exactly when no entry has that id |
| PolicyLookup.FindPolicyIdSet | modules/deployment-model-impl/src/main/java/org/mule/runtime/module/deployment/impl/internal/application/MuleApplicationPolicyProvider.java:72 | `anyMatch(isPolicy(...))`: an id is found exactly when it is registered |
| PolicyLookup.FindPolicyUnique | modules/deployment-model-impl/src/main/java/org/mule/runtime/module/deployment/impl/internal/application/MuleApplicationPolicyProvider.java:96-98 | with unique ids, the lookup finds the one entry registered under the id |
| PolicyLookup.FindOrderUpdate | modules/deployment-model-impl/src/main/java/org/mule/runtime/module/deployment/impl/internal/application/MuleApplicationPolicyProvider.java:126-128 | the first entry whose parametrization has the same id and parameters but another order, and none exactly when there is no such entry |
| PolicyLookup.OrderUpdateTargetsPolicy | modules/deployment-model-impl/src/main/java/org/mule/runtime/module/deployment/impl/internal/application/MuleApplicationPolicyProvider.java:174-178 | with unique ids, `updatePolicyOrder` finds an entry exactly when the entry registered under the id has the same parameters and another order, and that entry is the one found |
| PolicyLookup.FindRegistered | modules/deployment-model-impl/src/main/java/org/mule/runtime/module/deployment/impl/internal/application/MuleApplicationPolicyProvider.java:180-189 | a registered template with the same group id, artifact id and version, none exactly when there is no such template, and the only one when coordinates are unique |
| PolicyLookup.FindTemplate | modules/deployment-model-impl/src/main/java/org/mule/runtime/module/deployment/impl/internal/application/MuleApplicationPolicyProvider.java:206-208 | the registered entry holding the template object, none exactly when the object is not registered |
| PolicyLookup.Registered | modules/deployment-model-impl/src/main/java/org/mule/runtime/module/deployment/impl/internal/application/MuleApplicationPolicyProvider.java:100-109 | the template list after `xxxNoSeQueHacexxx`; it has no contract of its own, and RegisteredTemplateFacts is proved about it |
| PolicyLookup.RegisteredHandle | modules/deployment-model-impl/src/main/java/org/mule/runtime/module/deployment/impl/internal/application/MuleApplicationPolicyProvider.java:100-115 | the template object `xxxNoSeQueHacexxx` returns and the instance factory receives; it has no contract of its own, and PolicyProvider.MuleApplicationPolicyProvider.RegisterTemplate states that it is the handle of the returned entry |
| PolicyLookup.Counted | modules/deployment-model-impl/src/main/java/org/mule/runtime/module/deployment/impl/internal/application/MuleApplicationPolicyProvider.java:87 | `count++` on one entry: same length, that entry's count one higher, every other entry unchanged |
| PolicyLookup.Retained | modules/deployment-model-impl/src/main/java/org/mule/runtime/module/deployment/impl/internal/application/MuleApplicationPolicyProvider.java:76-87 | the template list after a successful `addPolicy`; it has no contract of its own, and RetainedTemplateFacts and RetainedIsIncrement are proved about it |
| PolicyLookup.RegisteredTemplateFacts | modules/deployment-model-impl/src/main/java/org/mule/runtime/module/deployment/impl/internal/application/MuleApplicationPolicyProvider.java:100-109 | registration reuses a template with the same coordinates and leaves the list alone, or keeps the list as a prefix and appends exactly one template; the template at the returned index has the coordinates, coordinates and objects stay unique, and the only new object is the fresh one |
| PolicyLookup.RetainedTemplateFacts | modules/deployment-model-impl/src/main/java/org/mule/runtime/module/deployment/impl/internal/application/MuleApplicationPolicyProvider.java:87 | `count++` adds one to the registered template's count and leaves every other entry alone |
| PolicyLookup.RetainedIsIncrement | modules/deployment-model-impl/src/main/java/org/mule/runtime/module/deployment/impl/internal/application/MuleApplicationPolicyProvider.java:76-87 | `count++` on the entry registration returned gives the template list of a successful `addPolicy` |
| PolicyLookup.Released | modules/deployment-model-impl/src/main/java/org/mule/runtime/module/deployment/impl/internal/application/MuleApplicationPolicyProvider.java:213-219 | `count--` on one entry, and unregistering at zero; it has no contract of its own, and ReleasedHandles and ReleasedKeys are proved about it |
| PolicyLookup.ReleasedAfter | modules/deployment-model-impl/src/main/java/org/mule/runtime/module/deployment/impl/internal/application/MuleApplicationPolicyProvider.java:206-219 | the release of the template object an instance was built on, with an application set; it has no contract of its own, and ReleasedAfterUnique and PolicyCounts.AddThenRemoveTemplates are proved about it |
| PolicyLookup.DisposedOnRelease | modules/deployment-model-impl/src/main/java/org/mule/runtime/module/deployment/impl/internal/application/MuleApplicationPolicyProvider.java:214-218 | the template object disposed, with its class loader removed, when its count reaches zero; it has no contract of its own, and PolicyProvider.MuleApplicationPolicyProvider.ReleaseTemplate states its effect |
| PolicyLookup.ReleasedKeys | modules/deployment-model-impl/src/main/java/org/mule/runtime/module/deployment/impl/internal/application/MuleApplicationPolicyProvider.java:213-219 | a release keeps the coordinates unique |
| PolicyLookup.ReleasedHandles | modules/deployment-model-impl/src/main/java/org/mule/runtime/module/deployment/impl/internal/application/MuleApplicationPolicyProvider.java:214-219 | `count--`, and unregistering at zero, removes the template object exactly when its count reaches zero |
| PolicyLookup.ReleasedAfterUnique | modules/deployment-model-impl/src/main/java/org/mule/runtime/module/deployment/impl/internal/application/MuleApplicationPolicyProvider.java:206-219 | releasing a template keeps coordinates and template objects unique and registers no new object |
| PolicyLookup.ReleasedBy | modules/deployment-model-impl/src/main/java/org/mule/runtime/module/deployment/impl/internal/application/MuleApplicationPolicyProvider.java:206-219 | the template list after the release, with or without an application set: when the count reaches zero without one, the count is left at 0 and the template stays registered; it has no contract of its own, and PolicyCounts.ReleasedByStep is proved about it |
| PolicyLookup.DisposedBy | modules/deployment-model-impl/src/main/java/org/mule/runtime/module/deployment/impl/internal/application/MuleApplicationPolicyProvider.java:214-218 | the templates disposed by the release: none without an application, since the exception comes before `dispose()`; it has no contract of its own, and PolicyProvider.MuleApplicationPolicyProvider.ReleaseTemplate states its effect |
| PolicyLookup.ReleaseOutcome | modules/deployment-model-impl/src/main/java/org/mule/runtime/module/deployment/impl/internal/application/MuleApplicationPolicyProvider.java:210-216 | the release fails with "Cannot find registered policy template" exactly when no entry holds the template object, with the missing-application error exactly when the object is registered with count 1 and no application is set, and succeeds otherwise |
| PolicyLookup.PoliciesFor | modules/deployment-model-impl/src/main/java/org/mule/runtime/module/deployment/impl/internal/application/MuleApplicationPolicyProvider.java:264-272 | what the two `find…` loops return; it has no contract of its own, and PoliciesForInOrder and PoliciesForMembers are proved about it |
| PolicyLookup.PoliciesForInOrder | modules/deployment-model-impl/src/main/java/org/mule/runtime/module/deployment/impl/internal/application/MuleApplicationPolicyProvider.java:264-272 | the lookup result lists the stage policies of the selected instances in list order, one per selected instance |
| PolicyLookup.PoliciesForMembers | modules/deployment-model-impl/src/main/java/org/mule/runtime/module/deployment/impl/internal/application/MuleApplicationPolicyProvider.java:264-272 | a policy is returned exactly when some instance whose pointcut matches provides it for the stage |
| PolicyLookup.HasStagePolicy | modules/deployment-model-impl/src/main/java/org/mule/runtime/module/deployment/impl/internal/application/MuleApplicationPolicyProvider.java:232-235 | true exactly when some registered instance has a policy for the stage |
| PolicyLookup.NoStagePolicyFindsNothing | modules/deployment-model-impl/src/main/java/org/mule/runtime/module/deployment/impl/internal/application/MuleApplicationPolicyProvider.java:231-243 | when no instance has a source (or operation) policy, the matching lookup finds nothing |
| PolicyCounts.RegisterStep | modules/deployment-model-impl/src/main/java/org/mule/runtime/module/deployment/impl/internal/application/MuleApplicationPolicyProvider.java:100-109 | registering a template keeps both invariants |
| PolicyCounts.AddStep | modules/deployment-model-impl/src/main/java/org/mule/runtime/module/deployment/impl/internal/application/MuleApplicationPolicyProvider.java:84-87 | a successful add: appending and sorting is inserting, ids gain exactly the new id, the counted template list is the registered one with one more count, and both invariants carry over |
| PolicyCounts.RemoveStep | modules/deployment-model-impl/src/main/java/org/mule/runtime/module/deployment/impl/internal/application/MuleApplicationPolicyProvider.java:197-220 | removal keeps the structural invariant with or without an application set, and in a valid state the instance's template is registered and the counts stay right, also when the release fails for want of an application |
| PolicyCounts.ReleasedByStep | modules/deployment-model-impl/src/main/java/org/mule/runtime/module/deployment/impl/internal/application/MuleApplicationPolicyProvider.java:210-219 | releasing a template keeps the structural invariant, and restores the counts when the template was counted once more than its instances, with or without an application set |
| PolicyCounts.RemoveCountedOnceMore | modules/deployment-model-impl/src/main/java/org/mule/runtime/module/deployment/impl/internal/application/MuleApplicationPolicyProvider.java:199 | once the instance is removed, its template is counted once more than its instances and every other template exactly |
| PolicyCounts.ReplaceCountedOnceMore | modules/deployment-model-impl/src/main/java/org/mule/runtime/module/deployment/impl/internal/application/MuleApplicationPolicyProvider.java:154-161 | after the corrected swap, the replaced instance's template is counted once more than its instances and every other template exactly |
| PolicyCounts.ReplaceStep | modules/deployment-model-impl/src/main/java/org/mule/runtime/module/deployment/impl/internal/application/MuleApplicationPolicyProvider.java:154-161 | replacing keeps the ids and the structural invariant, as written and corrected; the corrected update keeps the counts, with or without an application set, and the replaced instance's template is registered |
| PolicyCounts.ReplaceContents | modules/deployment-model-impl/src/main/java/org/mule/runtime/module/deployment/impl/internal/application/MuleApplicationPolicyProvider.java:156-160 | the list after `updatePolicy` has the same length, with the replaced instance swapped for the new one and every other entry kept |
| PolicyCounts.UpdateAsWrittenBreaksCounts | modules/deployment-model-impl/src/main/java/org/mule/runtime/module/deployment/impl/internal/application/MuleApplicationPolicyProvider.java:146-165 | as written, an update that moves an instance to another template leaves the counts wrong |
| PolicyCounts.AddThenRemoveInstances | modules/deployment-model-impl/src/main/java/org/mule/runtime/module/deployment/impl/internal/application/MuleApplicationPolicyProvider.java:197-199 | removing the id just added finds it at its insertion point and restores the instance list |
| PolicyCounts.AddThenRemoveTemplates | modules/deployment-model-impl/src/main/java/org/mule/runtime/module/deployment/impl/internal/application/MuleApplicationPolicyProvider.java:214-219 | with an application set, releasing the template just counted restores the template list; the one exception is a template already registered with count zero, which is unregistered instead. A count of zero is left by an `addPolicy` whose initialisation failed, by `updatePolicy` for an unknown id (it registers the template before `.get()` fails), by `updatePolicy` as written (it never counts), and by a `removePolicy` that reached zero with no application set |
| PolicyCounts.ReorderIdempotent | modules/deployment-model-impl/src/main/java/org/mule/runtime/module/deployment/impl/internal/application/MuleApplicationPolicyProvider.java:126-133 | with unique ids, after an order update the list holds the same entries with the new order, and the same update finds nothing left to do |
| PolicyCounts.ReorderStep | modules/deployment-model-impl/src/main/java/org/mule/runtime/module/deployment/impl/internal/application/MuleApplicationPolicyProvider.java:130-133 | changing one order and re-sorting keeps the ids and both invariants |
| PolicyProvider.MuleApplicationPolicyProvider.constructor | modules/deployment-model-impl/src/main/java/org/mule/runtime/module/deployment/impl/internal/application/MuleApplicationPolicyProvider.java:45-64 | both lists are empty, no application is configured, and the state is valid |
| PolicyProvider.MuleApplicationPolicyProvider.SetApplication | modules/deployment-model-impl/src/main/java/org/mule/runtime/module/deployment/impl/internal/application/MuleApplicationPolicyProvider.java:319-321 | records whether an application is configured |
| PolicyProvider.MuleApplicationPolicyProvider.RegisterTemplate | modules/deployment-model-impl/src/main/java/org/mule/runtime/module/deployment/impl/internal/application/MuleApplicationPolicyProvider.java:100-109 | `xxxNoSeQueHacexxx`: the template list becomes `Registered`, a new template object is made only when no template has the coordinates, and both invariants are kept |
| PolicyProvider.MuleApplicationPolicyProvider.Admit | modules/deployment-model-impl/src/main/java/org/mule/runtime/module/deployment/impl/internal/application/MuleApplicationPolicyProvider.java:84-89 | adds the instance, re-sorts, counts it on its template and runs the callback, keeping both invariants |
| PolicyProvider.MuleApplicationPolicyProvider.Register | modules/deployment-model-impl/src/main/java/org/mule/runtime/module/deployment/impl/internal/application/MuleApplicationPolicyProvider.java:76-89 | registers the template, then either admits the new instance or, when initialisation fails, leaves the template registered and the instances unchanged |
| PolicyProvider.MuleApplicationPolicyProvider.AddPolicy | modules/deployment-model-impl/src/main/java/org/mule/runtime/module/deployment/impl/internal/application/MuleApplicationPolicyProvider.java:66-94 | the failure cases: no application, id already registered, initialisation failure; each is a registration error with the cause, and the first two change nothing. On success: the instance with its template inserted in order, ids gain exactly the new id, the template counted once more, the callback run, both invariants kept |
| PolicyProvider.MuleApplicationPolicyProvider.ReleaseTemplate | modules/deployment-model-impl/src/main/java/org/mule/runtime/module/deployment/impl/internal/application/MuleApplicationPolicyProvider.java:206-220 | finds the template object, counts one instance less, and at zero removes its class loader, disposes and unregisters it. Fails with the "Cannot find registered policy template" error when the object is not registered, and with the missing-application error when the count reaches zero with no application set, leaving the template registered with count 0 and undisposed |
| PolicyProvider.MuleApplicationPolicyProvider.RemoveProvider | modules/deployment-model-impl/src/main/java/org/mule/runtime/module/deployment/impl/internal/application/MuleApplicationPolicyProvider.java:197-221 | removes the instance, runs the callback, disposes the instance and releases its template, with the release's outcome; in a valid state both invariants are kept, the template is found, and the release can fail only when no application is set |
| PolicyProvider.MuleApplicationPolicyProvider.RemovePolicy | modules/deployment-model-impl/src/main/java/org/mule/runtime/module/deployment/impl/internal/application/MuleApplicationPolicyProvider.java:192-224 | returns true exactly when the id was registered and the release succeeds, and changes nothing for an unknown id. Otherwise it removes exactly that instance, keeps the others in order, releases its template and keeps both invariants; the release error is raised after the instance is removed and disposed, and in a valid state it is only the missing-application error, never with an application set |
| PolicyProvider.MuleApplicationPolicyProvider.UpdatePolicyOrder | modules/deployment-model-impl/src/main/java/org/mule/runtime/module/deployment/impl/internal/application/MuleApplicationPolicyProvider.java:122-135 | when an instance has the same id and parameters but another order, gives it the new order, re-sorts and runs the callback; otherwise changes nothing; both invariants kept |
| PolicyProvider.MuleApplicationPolicyProvider.UpdatePolicyAsWritten | modules/deployment-model-impl/src/main/java/org/mule/runtime/module/deployment/impl/internal/application/MuleApplicationPolicyProvider.java:137-171 | as written: the new template is registered but never counted, and the replaced instance's template is never released; initialisation failure, then a missing id, are the errors and leave the instances alone; otherwise the instance under the id is swapped for the new one, in order, and disposed; only the structural invariant is kept |
| PolicyProvider.MuleApplicationPolicyProvider.UpdatePolicy | modules/deployment-model-impl/src/main/java/org/mule/runtime/module/deployment/impl/internal/application/MuleApplicationPolicyProvider.java:137-171 | as intended: as written, but the new instance is counted on its template and the replaced one's template is released, so both invariants are kept. A failed release is reported after the swap as `TemplateReleaseFailed` with its cause; with an application set and a valid state it succeeds exactly when the instance initialises and the id is registered |
| PolicyProvider.MuleApplicationPolicyProvider.Replace | modules/deployment-model-impl/src/main/java/org/mule/runtime/module/deployment/impl/internal/application/MuleApplicationPolicyProvider.java:151-165 | the corrected swap: new instance in order, template counted, old template released, callback run, old instance disposed. It returns the release's outcome and proves that a valid state always finds the old template, so the release can fail only for want of an application |
| PolicyProvider.MuleApplicationPolicyProvider.DisposeInstances | modules/deployment-model-impl/src/main/java/org/mule/runtime/module/deployment/impl/internal/application/MuleApplicationPolicyProvider.java:302-305 | every instance is disposed, in list order, and the list is cleared |
| PolicyProvider.MuleApplicationPolicyProvider.Dispose | modules/deployment-model-impl/src/main/java/org/mule/runtime/module/deployment/impl/internal/application/MuleApplicationPolicyProvider.java:299-317 | as intended: every instance, then every template, is disposed in list order, and both lists end empty |
| PolicyProvider.MuleApplicationPolicyProvider.DisposeAsWritten | modules/deployment-model-impl/src/main/java/org/mule/runtime/module/deployment/impl/internal/application/MuleApplicationPolicyProvider.java:307-316 | as written: both lists end empty, but of the templates only the first is disposed |
| PolicyProvider.MuleApplicationPolicyProvider.FindParameterizedPolicies | modules/deployment-model-impl/src/main/java/org/mule/runtime/module/deployment/impl/internal/application/MuleApplicationPolicyProvider.java:264-272 | the loop returns the stage policy of every instance whose pointcut matches and that has one, in list order, and nothing else |
| PolicyProvider.MuleApplicationPolicyProvider.FindSourceParameterizedPolicies | modules/deployment-model-impl/src/main/java/org/mule/runtime/module/deployment/impl/internal/application/MuleApplicationPolicyProvider.java:260-275 | the source policies of the matching instances, in list order, and nothing else |
| PolicyProvider.MuleApplicationPolicyProvider.FindOperationParameterizedPolicies | modules/deployment-model-impl/src/main/java/org/mule/runtime/module/deployment/impl/internal/application/MuleApplicationPolicyProvider.java:282-297 | the operation policies of the matching instances, in list order, and nothing else |
| PolicyProvider.MuleApplicationPolicyProvider.IsPoliciesAvailable | modules/deployment-model-impl/src/main/java/org/mule/runtime/module/deployment/impl/internal/application/MuleApplicationPolicyProvider.java:226-229 | true exactly when some policy id is registered |
| PolicyProvider.MuleApplicationPolicyProvider.IsSourcePoliciesAvailable | modules/deployment-model-impl/src/main/java/org/mule/runtime/module/deployment/impl/internal/application/MuleApplicationPolicyProvider.java:231-236 | true exactly when some registered instance has a source policy |
| PolicyProvider.MuleApplicationPolicyProvider.IsOperationPoliciesAvailable | modules/deployment-model-impl/src/main/java/org/mule/runtime/module/deployment/impl/internal/application/MuleApplicationPolicyProvider.java:238-243 | true exactly when some registered instance has an operation policy |
| PolicyProvider.ReplacedTemplateTrace | modules/deployment-model-impl/src/main/java/org/mule/runtime/module/deployment/impl/internal/application/MuleApplicationPolicyProvider.java:146-165 | the sequence add, update to another template, add on that template, remove, remove makes the last `removePolicy` fail with "Cannot find registered policy template" |
| PolicyProvider.NoApplicationRemoveTrace | modules/deployment-model-impl/src/main/java/org/mule/runtime/module/deployment/impl/internal/application/MuleApplicationPolicyProvider.java:206-218 | add `a` with an application set, then `setApplication(null)` and remove `a`: the removal fails with the missing-application error, and template 1.0 stays registered with count 0 and is not disposed |
| PolicyProvider.DisposeAsWrittenTrace | modules/deployment-model-impl/src/main/java/org/mule/runtime/module/deployment/impl/internal/application/MuleApplicationPolicyProvider.java:307-316 | with policies on two template objects, `dispose` as written disposes only the first |
| PolicyProvider.DisposeTrace | modules/deployment-model-impl/src/main/java/org/mule/runtime/module/deployment/impl/internal/application/MuleApplicationPolicyProvider.java:307-316 | the same deployment disposed as intended disposes both template objects |

## Left out

- Locking: `synchronized` and the `volatile` count are not modelled. The operations are modelled one at a time.
- The policies-changed callback is only counted, in `changeNotifications`. Because of that, `onPoliciesChanged`, `updatePolicyAwareAttributes` and `sourcePolicyAwareAttributes` are not modelled: they merge attribute types that are not part of this model.
- A failure of the template factory (`createArtifact`) is not modelled. Only initialisation of the instance can fail. In `addPolicy` a failing instance factory has the same effect as a failing `initialise()`.
- Foreign calls are recorded in logs, not executed: instance and template `dispose()`, and class-loader removal. In `dispose`, a `RuntimeException` from a template's `dispose()` is ignored, so it changes nothing there.
- A pointcut is modelled as the finite set of lookups it matches, not as a predicate over pointcut parameters.
- Orders are unbounded integers. `Integer.compare` on 32-bit values orders them the same way, so nothing depends on the width.
- The constructor's two factories are not fields: their results are inputs (`InstanceCreation`) and fresh handles.
- PolicyTypes.NewInstance: the foreign `ApplicationPolicyInstance` is modelled as a record built from its parametrization. This assumes three things that are not in the modelled source. (1) `getOrder()`, which `compareTo` reads, is the order of `getParametrization()`, which `compareParametrizations` reads. (2) `updateOrder` changes that single order. (3) `getPolicyTemplate()` returns the template object the factory was given.
- PolicyCounts.ReorderIdempotent: "the same update finds nothing left to do" depends on assumptions (1) and (2) above. If `updateOrder` left the parametrization alone, a repeated `updatePolicyOrder` would re-sort and run the callback again.
- PolicyProvider.ReplacedTemplateTrace: the first finding depends on assumption (3) above. `removePolicy` finds a template by the object the instance reports.
- `PolicyProvider.MuleApplicationPolicyProvider.UpdatePolicyOrder` takes no template descriptor, because `updatePolicyOrder` never reads its own.
- PolicyProvider.MuleApplicationPolicyProvider.UpdatePolicyAsWritten: when the id is not registered, the new instance has already been created and initialised before `.get()` fails. That instance is never disposed and is not recorded anywhere.
- PolicyLookup.FindRegistered: `findAny` is modelled as the first match. The two agree because coordinates are unique.
- The other repository files are not part of this model: the processing strategy and its scheduler, the extension model parser, the class-loader creator, and the tests.

## Findings

| source | as written | input that shows it | evidently intended | confidence | as-written member | corrected member |
|---|---|---|---|---|---|---|
| modules/deployment-model-impl/src/main/java/org/mule/runtime/module/deployment/impl/internal/application/MuleApplicationPolicyProvider.java:146-165 | `updatePolicy` swaps the instance but never touches a reference count: the new template is not counted, the old one not released | add `a` on template 1.0; update `a` to 1.1; add `b` on 1.1; remove `b` (1.1 drops to zero and is disposed while `a` runs on it); remove `a`: IllegalStateException "Cannot find registered policy template". Template 1.0 is never released | count the new instance on its template and release the replaced instance's template as `removePolicy` does | not executed | PolicyProvider.MuleApplicationPolicyProvider.UpdatePolicyAsWritten, PolicyCounts.UpdateAsWrittenBreaksCounts, PolicyProvider.ReplacedTemplateTrace | PolicyProvider.MuleApplicationPolicyProvider.UpdatePolicy |
| modules/deployment-model-impl/src/main/java/org/mule/runtime/module/deployment/impl/internal/application/MuleApplicationPolicyProvider.java:307-316 | `registeredPolicyTemplates.clear()` is inside the template loop; the `LinkedList` iterator then reports no next element, so only the first template is disposed | policies on two template objects, then `dispose()`: the second template's `dispose()` is never called, although the loop's catch block is written to go on to the next template | clear the template list after the loop, as the instance list is cleared after its loop | not executed | PolicyProvider.MuleApplicationPolicyProvider.DisposeAsWritten, PolicyProvider.DisposeAsWrittenTrace | PolicyProvider.MuleApplicationPolicyProvider.Dispose, PolicyProvider.DisposeTrace |
