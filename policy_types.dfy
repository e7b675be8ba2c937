/**
 * The values the Mule application policy provider stores and compares:
 * template coordinates, policy parametrizations, registered templates with
 * their reference counts, registered policy instances, and the errors its
 * operations raise.
 */
module PolicyTypes {

  datatype Option<+T> = None | Some(value: T)

  datatype Result<+T, +E> = Ok(value: T) | Err(error: E)

  /** The bundle coordinates of a policy template descriptor. */
  datatype TemplateKey = TemplateKey(groupId: string, artifactId: string, version: string)

  /** What a policy lookup is made for (the component and its parameters). */
  type PointcutParameters = string

  /** A pointcut, given extensionally by the lookups it matches. */
  datatype Pointcut = Pointcut(matching: set<PointcutParameters>)

  predicate Matches(pc: Pointcut, q: PointcutParameters)
  {
    q in pc.matching
  }

  /** A source or operation policy produced by a policy instance. */
  datatype Policy = Policy(name: string)

  /** Which of an instance's two policies a lookup asks for. */
  datatype Stage = Source | Operation

  /** The id, order, parameters and pointcut a policy is deployed with. */
  datatype Parametrization =
    Parametrization(id: string, order: int, parameters: map<string, string>, pointcut: Pointcut)

  /**
   * What the instance factory and `initialise()` produce for a
   * parametrization: an instance with its optional source and operation
   * policies, or an initialisation failure.
   */
  datatype InstanceCreation =
    | Initialised(sourcePolicy: Option<Policy>, operationPolicy: Option<Policy>)
    | InitialisationFails

  /** The identity of a policy template object created by the template factory. */
  type TemplateHandle = nat

  /** A policy template together with the number of instances using it. */
  datatype RegisteredTemplate = RegisteredTemplate(key: TemplateKey, handle: TemplateHandle, count: int)

  /** A registered policy instance provider: the instance and the policy id it is registered under. */
  datatype RegisteredPolicy = RegisteredPolicy(
    policyId: string,
    order: int,
    parameters: map<string, string>,
    pointcut: Pointcut,
    template: TemplateHandle,
    sourcePolicy: Option<Policy>,
    operationPolicy: Option<Policy>)

  /** The instance built from a parametrization on a template. */
  function NewInstance(p: Parametrization, t: TemplateHandle, creation: InstanceCreation): RegisteredPolicy
    requires creation.Initialised?
  {
    RegisteredPolicy(p.id, p.order, p.parameters, p.pointcut, t, creation.sourcePolicy, creation.operationPolicy)
  }

  /** The policy an instance contributes to lookups of the given stage, if any. */
  function StagePolicy(e: RegisteredPolicy, stage: Stage): Option<Policy>
  {
    match stage
    case Source => e.sourcePolicy
    case Operation => e.operationPolicy
  }

  /**
   * `compareParametrizations`: same id and parameters, but a different
   * order, so that only the order needs to be updated.
   */
  predicate CompareParametrizations(e: RegisteredPolicy, p: Parametrization)
  {
    e.policyId == p.id && e.parameters == p.parameters && e.order != p.order
  }

  /** `RegisteredPolicyInstanceProvider.compareTo`: `Integer.compare` of the two orders. */
  function CompareTo(a: RegisteredPolicy, b: RegisteredPolicy): (r: int)
    ensures -1 <= r <= 1
    ensures r < 0 <==> a.order < b.order
    ensures r == 0 <==> a.order == b.order
    ensures r > 0 <==> a.order > b.order
  {
    if a.order < b.order then -1 else if a.order == b.order then 0 else 1
  }

  /** Why `addPolicy` refused a policy (the cause of the registration exception). */
  datatype RegistrationCause =
    | ApplicationNotConfigured(message: string)
    | AlreadyRegistered(message: string)
    | InitialisationFailed

  /** The `PolicyRegistrationException` raised by `addPolicy`. */
  datatype RegistrationError = RegistrationError(message: string, cause: RegistrationCause)

  /**
   * The exceptions `removePolicy` lets escape once the instance is gone:
   * its template is not registered, or the template's count reached zero
   * with no application set, so `application.getRegionClassLoader()` fails.
   */
  datatype RemoveError =
    | TemplateNotRegistered(message: string)   // IllegalStateException
    | ApplicationMissing                       // NullPointerException

  /** The exceptions `updatePolicy` lets escape. */
  datatype UpdateError =
    | InstanceInitialisationFailed             // InitialisationException wrapped in a RuntimeException
    | PolicyNotRegistered                      // no registered instance has the id: Optional.get() fails
    | TemplateReleaseFailed(cause: RemoveError) // the corrected update's release of the replaced template

  function ApplicationNotConfiguredMessage(): string
  {
    "application was not configured on the policy provider"
  }

  function PolicyAlreadyRegisteredMessage(policyId: string): string
  {
    "Policy already registered: '" + policyId + "'"
  }

  function PolicyRegistrationMessage(policyId: string): string
  {
    "Error occured registering policy '" + policyId + "'"
  }

  function TemplateNotRegisteredMessage(): string
  {
    "Cannot find registered policy template"
  }
}
