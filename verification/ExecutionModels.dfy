/** The execution-plane records that aggregation and the control plane exchange
    (ovk/core/execution_models.py). Timing fields are not represented. */
module ExecutionModels {
  import opened Text
  import opened Decision

  datatype Termination =
    Completed | Timeout | ResourceExhausted | ToolUnavailable | ToolError | InvalidOutput | Cancelled

  datatype FallbackOutcome = ToUnknown | ToError | ToFail | ToFallback

  datatype FallbackPolicy = FallbackPolicy(
    allowFallback: bool, fallbackBackends: seq<string>, acceptableFallbackGuarantees: seq<string>,
    onTimeout: FallbackOutcome, onToolUnavailable: FallbackOutcome,
    onInvalidOutput: FallbackOutcome, onResourceExhausted: FallbackOutcome)
  {
    function OutcomeForTermination(t: Termination): FallbackOutcome {
      match t
      case Timeout => onTimeout
      case ToolUnavailable => onToolUnavailable
      case InvalidOutput => onInvalidOutput
      case ResourceExhausted => onResourceExhausted
      case _ => ToUnknown
    }
  }

  /** `FallbackPolicy()` */
  const DEFAULT_FALLBACK_POLICY := FallbackPolicy(false, [], [], ToUnknown, ToUnknown, ToUnknown, ToUnknown)

  datatype Selection = Selection(backend: string, expectedGuarantee: string, required: bool)

  /** Stable fields of a raw execution. `details` stands for tool identity, exit code and
      output digests, which nothing here inspects. */
  datatype RawExecution = RawExecution(
    backend: string, backendObligationId: string, termination: Termination, details: string, envelopeProduced: bool)

  /** `compute_attempt_id` digests exactly these fields; the digest is taken as injective,
      so the identity is the content itself. */
  datatype AttemptId = AttemptId(
    backendObligationId: string, backend: string, required: bool, termination: Termination, details: string)

  datatype Attempt = Attempt(
    attemptId: AttemptId, backendObligationId: string, backend: string, required: bool,
    termination: Termination, details: string)

  datatype BackendResult = BackendResult(attemptId: AttemptId, backend: string, status: Status, guaranteeType: string)

  datatype Subject = Subject(repo: string, headSha: string, baseSha: Option<string>)

  datatype Obligation = Obligation(
    obligationId: string, subject: Subject, intentId: string, acceptableGuarantees: seq<string>,
    policyDigest: string, sourceProfile: Option<string>)

  datatype Budget = Budget(wallTimeSeconds: real, maxMemoryMb: int, allowNetwork: bool, allowRepositoryWrite: bool)

  datatype Candidate = Candidate(backend: string, guaranteeType: string)

  datatype Routing = Routing(
    routingId: string, obligationId: string, requested: seq<string>, eligible: seq<Candidate>,
    selected: seq<Selection>, rejected: seq<string>, aggregationPolicy: string,
    fallbackPolicy: FallbackPolicy, budget: Budget, policyDigest: string)

  /** `payload` stands for the compiled input and its command plan. */
  datatype BackendObligation = BackendObligation(
    backendObligationId: string, backend: string, adapterVersion: string, compilerVersion: string,
    payload: string, payloadDigest: string, expectedGuarantee: string)

  datatype Fingerprint = Fingerprint(
    environmentDigest: string, toolDigest: Option<string>, workerImageDigest: Option<string>)

  /** A normalized result before the control plane stamps its attempt id. */
  datatype Normalized = Normalized(backend: string, status: Status, guaranteeType: string)

  datatype Assessment = Assessment(backend: string, score: real, reasons: seq<string>)

  datatype Manifest = Manifest(
    toolAdapter: string, toolAdapterVersion: string, guaranteeType: string,
    supportedDomains: seq<string>, supportedPropertyKinds: seq<string>, schemaValid: bool)

  /** A backend adapter: its identity, and its operations, each of which may raise. */
  datatype Adapter = Adapter(
    backendId: string, adapterId: string, adapterVersion: string,
    manifest: Result<Manifest>, hasRequiredMethods: bool,
    canHandle: Obligation -> Result<Assessment>,
    compile: (Obligation, Routing) -> Result<BackendObligation>,
    fingerprint: BackendObligation -> Result<Fingerprint>,
    run: (BackendObligation, Budget) -> Result<RawExecution>,
    normalize: (RawExecution, BackendObligation) -> Result<Normalized>)
}
