/** The authentication gate (JwtFilter.java): one pass of the filter, which
    either lets the request through anonymous, attaches the token's user to
    the security context, or answers with a JSON error and stops the chain. */
module JwtFilter {
  import opened Outcomes
  import opened Users
  import JwtUtils
  import JavaLong

  /** Character.isWhitespace: the Unicode space, line and paragraph
      separators other than the no-break spaces, and the ASCII controls
      TAB, LF, VT, FF, CR and FS..US. */
  predicate IsJavaWhitespace(c: char)
  {
    || c == ' ' || ('\t' <= c <= '\r') || ('\U{1C}' <= c <= '\U{1F}')
    || c == '\U{1680}' || ('\U{2000}' <= c <= '\U{2006}') || ('\U{2008}' <= c <= '\U{200A}')
    || c == '\U{2028}' || c == '\U{2029}' || c == '\U{205F}' || c == '\U{3000}'
  }

  /** String.isBlank: empty or whitespace only. */
  predicate IsBlank(s: string)
  {
    forall i :: 0 <= i < |s| ==> IsJavaWhitespace(s[i])
  }

  /** What the filter reads of a request: whether it is an HTTP request and
      its Authorization header, if any. */
  datatype Request = Request(isHttp: bool, authorization: Option<string>)

  /** UsernamePasswordAuthenticationToken(user, null, user.getAuthorities()). */
  datatype Authentication = Authentication(principal: LearnUser, authorities: seq<string>)

  /** How the try block before chain.doFilter ends. */
  datatype GateDecision =
    | PassThrough              // no identity attached, chain called
    | Attach(user: LearnUser)  // identity attached, chain called
    | Reject(failure: Failure) // thrown before the chain

  /** The gate's decision. The whole header is the token: no "Bearer "
      prefix is stripped. */
  function Gate(request: Request, users: map<int, LearnUser>, algo: JwtUtils.Algorithm, now: int): GateDecision
  {
    if !request.isHttp || request.authorization.None? || IsBlank(request.authorization.value) then
      PassThrough
    else
      match JwtUtils.Decode(algo, request.authorization.value, now)
      case Err(f) => Reject(f)
      case Ok(id) =>
        if id in users then Attach(users[id])
        else Reject(ResponseStatus(UNAUTHORIZED, "User not found"))
  }

  /** What chain.doFilter does downstream: return, or throw. */
  datatype ChainOutcome = Completed | Threw(failure: Failure)

  /** The exception that reaches the catch block, if any. */
  function Escaped(decision: GateDecision, chain: ChainOutcome): Option<Failure>
  {
    if decision.Reject? then Some(decision.failure)
    else if chain.Threw? then Some(chain.failure)
    else None
  }

  /** The status written: a ResponseStatusException's own, 500 otherwise. */
  function StatusOf(f: Failure): int
  {
    match f
    case ResponseStatus(status, _) => status
    case Fault(_) => INTERNAL_SERVER_ERROR
  }

  /** The message written: the reason, or the exception's message. */
  function MessageOf(f: Failure): string
  {
    match f
    case ResponseStatus(_, reason) => reason
    case Fault(message) => message
  }

  const JSON := "application/json"

  /** The body appended to the response, with the message spliced in unescaped. */
  function ErrorBody(message: string): (body: string)
    ensures body == "{ \"message\": \"" + message + "\"}"
    ensures |body| == |message| + 16
  {
    "{ \"message\": \"" + message + "\"}"
  }

  /** The thread's SecurityContext. */
  class SecurityContext {
    var authentication: Option<Authentication>

    constructor ()
      ensures authentication == None
    {
      authentication := None;
    }
  }

  /** The servlet response as this filter writes it. */
  class Response {
    const isHttp: bool
    var status: int
    var contentType: string
    var body: string

    constructor (isHttp: bool)
      ensures this.isHttp == isHttp && status == 200 && contentType == "" && body == ""
    {
      this.isHttp := isHttp;
      status := 200;
      contentType := "";
      body := "";
    }
  }

  /** doFilter(request, response, chain). `chain` says what the rest of the
      chain does if it is called; `chainCalled` says whether it was. */
  method DoFilter(request: Request, response: Response, context: SecurityContext,
                  users: map<int, LearnUser>, algo: JwtUtils.Algorithm, now: int, chain: ChainOutcome)
    returns (chainCalled: bool, printedStackTrace: bool)
    modifies response, context
    ensures var decision := Gate(request, users, algo, now);
      && (chainCalled <==> !decision.Reject?)
      && context.authentication ==
           (if decision.Attach? then Some(Authentication(decision.user, Authorities(decision.user)))
            else old(context.authentication))
    ensures var escaped := Escaped(Gate(request, users, algo, now), chain);
      && (printedStackTrace <==> escaped.Some? && StatusOf(escaped.value) == 500)
      && if escaped.Some? && response.isHttp then
           && response.status == StatusOf(escaped.value)
           && response.contentType == JSON
           && response.body == old(response.body) + ErrorBody(MessageOf(escaped.value))
         else
           && response.status == old(response.status)
           && response.contentType == old(response.contentType)
           && response.body == old(response.body)
  {
    var thrown: Option<Failure> := None;
    if request.isHttp {
      var authorization := request.authorization;
      if authorization.Some? && !IsBlank(authorization.value) {
        var id := JwtUtils.Decode(algo, authorization.value, now);
        if id.Err? {
          thrown := Some(id.failure);
        } else if id.value !in users {
          thrown := Some(ResponseStatus(UNAUTHORIZED, "User not found"));
        } else {
          var user := users[id.value];
          context.authentication := Some(Authentication(user, Authorities(user)));
        }
      }
    }
    chainCalled := thrown.None?;
    if chainCalled && chain.Threw? {
      thrown := Some(chain.failure);
    }
    printedStackTrace := false;
    if thrown.Some? {
      var status := INTERNAL_SERVER_ERROR;
      var message := MessageOf(thrown.value);
      if thrown.value.ResponseStatus? {
        status := thrown.value.status;
      }
      if status == INTERNAL_SERVER_ERROR {
        printedStackTrace := true;
      }
      if response.isHttp {
        response.status := status;
        response.contentType := JSON;
        response.body := response.body + ErrorBody(message);
      }
    }
  }

  /** Not HTTP, no header, or a blank header: through, anonymous. */
  lemma AnonymousPassesThrough(request: Request, users: map<int, LearnUser>, algo: JwtUtils.Algorithm, now: int)
    requires !request.isHttp || request.authorization.None? || IsBlank(request.authorization.value)
    ensures Gate(request, users, algo, now) == PassThrough
  {
  }

  /** A live token for a stored user attaches that user. */
  lemma ValidTokenAttachesUser(users: map<int, LearnUser>, algo: JwtUtils.Algorithm, id: int, issued: int, now: int)
    requires JwtUtils.Sound(algo) && JavaLong.InRange(id) && id in users
    requires now <= issued + JwtUtils.LIFETIME_MS
    ensures Gate(Request(true, Some(JwtUtils.Encode(algo, id, issued))), users, algo, now) == Attach(users[id])
  {
    var token := JwtUtils.Encode(algo, id, issued);
    assert token[0] == 'e' && !IsJavaWhitespace(token[0]);
    JwtUtils.DecodeEncode(algo, id, issued, now);
  }

  /** A present header is rejected exactly when decode fails or names no
      stored user; every rejection is a 401 whose reason says which. */
  lemma RejectionReasons(request: Request, users: map<int, LearnUser>, algo: JwtUtils.Algorithm, now: int)
    requires request.isHttp && request.authorization.Some? && !IsBlank(request.authorization.value)
    ensures var decoded := JwtUtils.Decode(algo, request.authorization.value, now);
      && (decoded.Err? ==> Gate(request, users, algo, now) == Reject(ResponseStatus(401, "Token is invalid")))
      && (decoded.Ok? && decoded.value !in users ==>
            Gate(request, users, algo, now) == Reject(ResponseStatus(401, "User not found")))
      && (decoded.Ok? && decoded.value in users ==> Gate(request, users, algo, now) == Attach(users[decoded.value]))
  {
  }
}
