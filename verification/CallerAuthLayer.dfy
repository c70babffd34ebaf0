/** The layer: which requests reach the inner service, and what identity they carry there. */
module CallerAuthLayer {
  import opened Wrappers
  import opened Text
  import opened CallerAuth

  datatype Style = Http | Grpc

  datatype CallerIdentity = CallerIdentity(san: CallerSan, waivesBearer: bool)

  /** The parts of a request the layer reads; `identity` is the extension it may insert. */
  datatype View = View(
    path: string,
    leaf: Option<Leaf>,
    authorization: seq<string>,
    identity: Option<CallerIdentity>)

  datatype Verdict = Forward(identity: Option<CallerIdentity>) | Reject(error: CallerAuthError)

  function IsGrpcInfraPath(path: string): bool {
    StartsWith(path, "/grpc.health.v1.Health/") || StartsWith(path, "/grpc.reflection.")
  }

  function IsHttpInfraPath(path: string): bool {
    || path == "/health" || path == "/ready"
    || StartsWith(path, "/swagger-ui") || StartsWith(path, "/api-docs")
  }

  predicate IsExempt(policy: Policy, style: Style, path: string) {
    || (if style.Http? then IsHttpInfraPath(path) else IsGrpcInfraPath(path))
    || exists i :: 0 <= i < |policy.publicPaths| && StartsWith(path, policy.publicPaths[i])
  }

  // Bearer credentials, section 2.1 of RFC 6750.

  predicate EqualsIgnoreCase(a: string, b: string) {
    |a| == |b| && forall i :: 0 <= i < |a| ==> LowerAscii(a[i]) == LowerAscii(b[i])
  }

  /** A header value the library hands out as text. */
  predicate VisibleAscii(value: string) {
    forall i :: 0 <= i < |value| ==> ' ' <= value[i] <= '~' || value[i] == '\t'
  }

  predicate IsBearer(value: string) {
    && VisibleAscii(value)
    && var k := IndexOf(value, ' ');
       k < |value| && EqualsIgnoreCase(value[..k], "bearer") && value[k + 1..] != ""
  }

  /** Only the first Authorization header is consulted. */
  predicate HasBearerCredential(authorization: seq<string>) {
    authorization != [] && IsBearer(authorization[0])
  }

  /** Visible text whose first six letters spell "bearer" in either case, then a space, then something. */
  ghost predicate BearerHeader(value: string) {
    && |value| > 7 && value[6] == ' '
    && (forall i :: 0 <= i < 6 ==> value[i] == "bearer"[i] || value[i] == "BEARER"[i])
    && forall i :: 0 <= i < |value| ==> 0x20 <= value[i] as int < 0x7F || value[i] as int == 0x09
  }

  lemma IsBearerExactly(value: string)
    ensures IsBearer(value) <==> BearerHeader(value)
  {
    hide IndexOf;
    var k := IndexOf(value, ' ');
    if IsBearer(value) {
      forall i | 0 <= i < 6 ensures value[i] == "bearer"[i] || value[i] == "BEARER"[i] {
        LettersOfEitherCase(value[..6][i], "bearer"[i]);
      }
    }
    if BearerHeader(value) {
      forall i | 0 <= i < 6 ensures value[i] != ' ' && LowerAscii(value[..6][i]) == LowerAscii("bearer"[i]) {
        assert value[i] == "bearer"[i] || value[i] == "BEARER"[i];
        assert "bearer"[i] != ' ' && "BEARER"[i] != ' ' && LowerAscii("BEARER"[i]) == "bearer"[i];
      }
      IndexOfIs(value, ' ', 6);
    }
  }

  lemma LettersOfEitherCase(c: char, lower: char)
    requires 'a' <= lower <= 'z' && LowerAscii(c) == LowerAscii(lower)
    ensures c == lower || c as int == lower as int - 32
  {
  }

  // The decision as a function, and the layer that acts on it.

  function Judge(policy: Policy, style: Style, request: View): Verdict {
    if policy.mode.Bearer? || IsExempt(policy, style, request.path) then Forward(request.identity)
    else
      match Authorize(policy, request.leaf, HasBearerCredential(request.authorization))
      case Success(Certificate(san)) => Forward(Some(CallerIdentity(san, policy.mode.MtlsOrBearer?)))
      case Success(BearerDeferred) => Forward(request.identity)
      case Failure(e) => Reject(e)
  }

  function BearerWaived(identity: Option<CallerIdentity>): bool {
    identity.Some? && identity.value.waivesBearer
  }

  class Request {
    const path: string
    const leaf: Option<Leaf>
    const authorization: seq<string>
    var identity: Option<CallerIdentity>

    constructor (path: string, leaf: Option<Leaf>, authorization: seq<string>, identity: Option<CallerIdentity>)
      ensures this.AsView() == View(path, leaf, authorization, identity)
    {
      this.path, this.leaf, this.authorization, this.identity := path, leaf, authorization, identity;
    }

    ghost function AsView(): View
      reads this
    {
      View(path, leaf, authorization, identity)
    }
  }

  class CallerAuthService {
    const policy: Policy
    const style: Style

    constructor (policy: Policy, style: Style)
      ensures this.policy == policy && this.style == style
    {
      this.policy, this.style := policy, style;
    }

    /** `None` forwards the request, with its extensions as they now stand; otherwise the refusal. */
    method Call(req: Request) returns (refusal: Option<CallerAuthError>)
      modifies req`identity
      ensures match Judge(policy, style, old(req.AsView()))
              case Forward(identity) => refusal.None? && req.identity == identity
              case Reject(e) => refusal == Some(e) && req.identity == old(req.identity)
    {
      if policy.mode.Bearer? || IsExempt(policy, style, req.path) {
        return None;
      }
      var bearerPresent := HasBearerCredential(req.authorization);
      match Authorize(policy, req.leaf, bearerPresent) {
        case Success(Certificate(san)) =>
          req.identity := Some(CallerIdentity(san, policy.mode.MtlsOrBearer?));
          refusal := None;
        case Success(BearerDeferred) =>
          refusal := None;
        case Failure(e) =>
          refusal := Some(e);
      }
    }
  }
}
