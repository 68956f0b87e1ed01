/**
  The request handling of the deploy webhook: the gates of `main` (method,
  source address, payload, signature, JSON, branch), the deployment and
  its HTTP answer, and the top-level dispatch between the log viewer, the
  webhook and the information page.

  HMAC-SHA256 and the JSON parser are not modelled; they are parameters of
  the `Server`.  The log file's content is a parameter as well, and
  writing to it is left out.
 */
module Webhook {
  import opened Common
  import opened Ipv4
  import opened AllowList
  import opened Deploy

  const SecretToken: string := "CHANGE_THIS_SECRET_TOKEN"
  const LogsKey: string := "xylocope_logs_2024"
  const MainRef: string := "refs/heads/main"
  const SignaturePrefix: string := "sha256="
  const LogLinesShown: nat := 100
  const LogHeader: string := "=== LOGS DE D\U{00C9}PLOIEMENT XYLOCOPE ===\n\n"

  /** The parts of the request the script reads; `None` is an absent
      header or query parameter. */
  datatype Request = Request(
    verb: string,
    forwardedFor: Option<string>,     // HTTP_X_FORWARDED_FOR
    remoteAddr: Option<string>,       // REMOTE_ADDR
    body: string,                     // php://input
    signature: Option<string>,        // HTTP_X_HUB_SIGNATURE_256
    logsParam: Option<string>,        // $_GET['logs']
    keyParam: Option<string>)         // $_GET['key']

  /** `json_decode($payload, true)` followed by `json_last_error()`: a
      syntax error, or a value together with its `ref` entry when that is
      a string (`None` when the entry is absent, null or not a string, or
      the value is not an object; all of these take the same branch), and
      whether `count($data['commits'] ?? [])` can count the `commits`
      entry: it can when the entry is absent, null, an array or an object
      (decoded as an array), and it cannot when it is a string, a number or
      a boolean. */
  datatype Decoded = JsonError | JsonValue(ref: Option<string>, commitsCountable: bool)

  datatype Server = Server(
    hmacSha256: (string, string) -> string,   // hex HMAC of (data, key)
    decodeJson: string -> Decoded,
    host: Host,
    logFile: Option<string>)                  // `deploy.log`, when it exists

  /** The `die(...)` messages of the gates. */
  datatype Refusal =
    | MethodNotAllowed      // 'Méthode non autorisée'
    | AccessDenied          // 'Accès refusé'
    | PayloadRequired       // 'Payload requis'
    | InvalidSignature      // 'Signature invalide'
    | InvalidJson           // 'JSON invalide'
    | PushIgnored           // 'Push ignoré (pas sur main)'

  datatype Body =
    | Refused(why: Refusal)
    | DeployReport(success: bool)     // the JSON `status` / `message` object
    | LogPage(text: string)
    | NoLogPage                       // 'Aucun log disponible'
    | InfoPage
    | FatalError                      // uncaught `TypeError` from `count`

  datatype Response = Response(status: nat, body: Body)

  datatype Handled = Handled(response: Response, deployment: Option<Outcome>)

  /** `$_SERVER['HTTP_X_FORWARDED_FOR'] ?? $_SERVER['REMOTE_ADDR'] ?? 'unknown'`. */
  function ClientIp(req: Request): string
  {
    match req.forwardedFor
    case Some(f) => f
    case None =>
      match req.remoteAddr
      case Some(a) => a
      case None => "unknown"
  }

  /** PHP `empty` on a string. */
  predicate PhpEmpty(s: string)
  {
    s == "" || s == "0"
  }

  function ExpectedSignature(payload: string, hmac: (string, string) -> string): string
  {
    SignaturePrefix + hmac(payload, SecretToken)
  }

  /** `verifyGitHubSignature` with the header defaulted to `''`:
      `hash_equals` is string equality, so the check passes exactly when
      the header is present and is `sha256=` followed by the hex HMAC-SHA256
      of the body under the secret; an absent header never passes. */
  function SignatureValid(payload: string, header: Option<string>, hmac: (string, string) -> string): (ok: bool)
    ensures ok <==> header == Some(SignaturePrefix + hmac(payload, SecretToken))
    ensures ok ==> header.Some? && |header.value| >= |SignaturePrefix| &&
                   header.value[..|SignaturePrefix|] == SignaturePrefix
  {
    var given := match header case Some(s) => s case None => "";
    given == ExpectedSignature(payload, hmac)
  }

  function Refuse(status: nat, why: Refusal): Handled
  {
    Handled(Response(status, Refused(why)), None)
  }

  /** Every gate of `main` passes. */
  predicate Accepted(req: Request, srv: Server)
  {
    && req.verb == "POST"
    && IsValidGitHubIp(ClientIp(req))
    && !PhpEmpty(req.body)
    && SignatureValid(req.body, req.signature, srv.hmacSha256)
    && srv.decodeJson(req.body) == JsonValue(Some(MainRef), true)
  }

  /** `main`. */
  function HandleWebhook(req: Request, srv: Server): (h: Handled)
    ensures h.deployment.Some? <==> Accepted(req, srv)
    ensures h.deployment.Some? ==>
              && h.deployment.value == DeployWebsite(srv.host)
              && h.response.body == DeployReport(h.deployment.value.success)
              && (h.response.status == 200 <==> h.deployment.value.success)
              && (h.response.status == 500 <==> !h.deployment.value.success)
    ensures h.deployment.None? ==> h.response.body.Refused? || h.response == Response(500, FatalError)
    ensures req.verb != "POST" ==> h.response == Response(405, Refused(MethodNotAllowed))
    ensures req.verb == "POST" && !IsValidGitHubIp(ClientIp(req)) ==>
              h.response == Response(403, Refused(AccessDenied))
    ensures req.verb == "POST" && IsValidGitHubIp(ClientIp(req)) && PhpEmpty(req.body) ==>
              h.response == Response(400, Refused(PayloadRequired))
    ensures req.verb == "POST" && IsValidGitHubIp(ClientIp(req)) && !PhpEmpty(req.body)
            && !SignatureValid(req.body, req.signature, srv.hmacSha256) ==>
              h.response == Response(403, Refused(InvalidSignature))
    ensures req.verb == "POST" && IsValidGitHubIp(ClientIp(req)) && !PhpEmpty(req.body)
            && SignatureValid(req.body, req.signature, srv.hmacSha256) && srv.decodeJson(req.body).JsonError? ==>
              h.response == Response(400, Refused(InvalidJson))
    ensures req.verb == "POST" && IsValidGitHubIp(ClientIp(req)) && !PhpEmpty(req.body)
            && SignatureValid(req.body, req.signature, srv.hmacSha256)
            && srv.decodeJson(req.body).JsonValue? && srv.decodeJson(req.body).ref != Some(MainRef) ==>
              h.response == Response(200, Refused(PushIgnored))
    ensures h.response.body == FatalError <==>
              && req.verb == "POST" && IsValidGitHubIp(ClientIp(req)) && !PhpEmpty(req.body)
              && SignatureValid(req.body, req.signature, srv.hmacSha256)
              && srv.decodeJson(req.body) == JsonValue(Some(MainRef), false)
  {
    if req.verb != "POST" then Refuse(405, MethodNotAllowed)
    else if !IsValidGitHubIp(ClientIp(req)) then Refuse(403, AccessDenied)
    else if PhpEmpty(req.body) then Refuse(400, PayloadRequired)
    else if !SignatureValid(req.body, req.signature, srv.hmacSha256) then Refuse(403, InvalidSignature)
    else match srv.decodeJson(req.body)
      case JsonError => Refuse(400, InvalidJson)
      case JsonValue(ref, commitsCountable) =>
        if ref != Some(MainRef) then Refuse(200, PushIgnored)
        else if !commitsCountable then Handled(Response(500, FatalError), None)
        else
          var o := DeployWebsite(srv.host);
          Handled(Response(if o.success then 200 else 500, DeployReport(o.success)), Some(o))
  }

  /** The last 100 lines of the log (`array_slice($lines, -100)`), joined
      back with newlines. */
  function LogTail(log: string): (tail: string)
  {
    var lines := Split(log, '\n');
    var k := if |lines| > LogLinesShown then |lines| - LogLinesShown else 0;
    Join(lines[k..], '\n')
  }

  /** The log viewer behind `?logs`. */
  function ShowLogs(key: Option<string>, logFile: Option<string>): (r: Response)
    ensures key != Some(LogsKey) ==> r == Response(403, Refused(AccessDenied))
    ensures key == Some(LogsKey) ==> r.status == 200
  {
    if key != Some(LogsKey) then Response(403, Refused(AccessDenied))
    else match logFile
      case None => Response(200, NoLogPage)
      case Some(log) => Response(200, LogPage(LogHeader + LogTail(log)))
  }

  /** The top level of the script. */
  function Dispatch(req: Request, srv: Server): (h: Handled)
    ensures h.deployment.Some? ==> Accepted(req, srv)
    ensures h.response.status != 405
  {
    if req.verb == "GET" && req.logsParam.Some? then Handled(ShowLogs(req.keyParam, srv.logFile), None)
    else if req.verb == "POST" then HandleWebhook(req, srv)
    else Handled(Response(200, InfoPage), None)
  }

  /** A deployment needs the header to carry exactly the HMAC of the body
      under the secret, whatever the source address. */
  lemma DeployNeedsSignature(req: Request, srv: Server)
    requires Dispatch(req, srv).deployment.Some?
    ensures req.signature == Some(ExpectedSignature(req.body, srv.hmacSha256))
  {
  }

  /** A request without the signature header is never deployed. */
  lemma MissingSignatureRefused(req: Request, srv: Server)
    requires req.signature.None?
    ensures Dispatch(req, srv).deployment.None?
  {
    assert |ExpectedSignature(req.body, srv.hmacSha256)| >= |SignaturePrefix|;
  }

  /** A wrong signature from an allowed address with a non-empty body is
      answered 403 'Signature invalide'. */
  lemma ForgedSignatureForbidden(req: Request, srv: Server)
    requires req.verb == "POST" && IsValidGitHubIp(ClientIp(req)) && !PhpEmpty(req.body)
    requires req.signature != Some(ExpectedSignature(req.body, srv.hmacSha256))
    ensures Dispatch(req, srv) == Handled(Response(403, Refused(InvalidSignature)), None)
  {
  }

  /** A push to another branch (or without a `ref`) is acknowledged with
      status 200 and nothing is deployed. */
  lemma OtherBranchIgnored(req: Request, srv: Server, ref: Option<string>, commitsCountable: bool)
    requires req.verb == "POST" && IsValidGitHubIp(ClientIp(req)) && !PhpEmpty(req.body)
    requires SignatureValid(req.body, req.signature, srv.hmacSha256)
    requires srv.decodeJson(req.body) == JsonValue(ref, commitsCountable) && ref != Some(MainRef)
    ensures Dispatch(req, srv) == Handled(Response(200, Refused(PushIgnored)), None)
  {
  }

  /** A push to `main` whose `commits` entry is a string, a number or a
      boolean passes every gate and then stops with status 500 before
      deploying, because `count` throws on it. */
  lemma UncountableCommitsNotDeployed(req: Request, srv: Server)
    requires req.verb == "POST" && IsValidGitHubIp(ClientIp(req)) && !PhpEmpty(req.body)
    requires SignatureValid(req.body, req.signature, srv.hmacSha256)
    requires srv.decodeJson(req.body) == JsonValue(Some(MainRef), false)
    ensures Dispatch(req, srv) == Handled(Response(500, FatalError), None)
  {
  }

  /** The address gate accepts any `X-Forwarded-For` value that is not a
      dotted quad, such as a comma-separated proxy list, so the gate does not
      protect against a sender who sets that header. */
  lemma ForwardedForNonAddressPasses(req: Request)
    requires req.forwardedFor.Some? && Ip2Long(req.forwardedFor.value).None?
    ensures IsValidGitHubIp(ClientIp(req))
  {
    UnparsableClientAllowed(req.forwardedFor.value);
  }

  /** Without either address header the client is `'unknown'`, which passes. */
  lemma NoAddressHeaderPasses(req: Request)
    requires req.forwardedFor.None? && req.remoteAddr.None?
    ensures IsValidGitHubIp(ClientIp(req))
  {
    UnknownClientAllowed();
  }

  /** The log tail is the end of the log, cut just after a newline: exactly
      its last 100 lines, and all of it when it has at most 100 lines. */
  lemma LogTailIsSuffix(log: string)
    ensures |LogTail(log)| <= |log| && LogTail(log) == log[|log| - |LogTail(log)|..]
    ensures |Split(LogTail(log), '\n')| == if |Split(log, '\n')| > LogLinesShown then LogLinesShown else |Split(log, '\n')|
    ensures |Split(log, '\n')| <= LogLinesShown ==> LogTail(log) == log
    ensures |LogTail(log)| < |log| ==> log[|log| - |LogTail(log)| - 1] == '\n'
    ensures var lines := Split(log, '\n');
            Split(LogTail(log), '\n') == lines[if |lines| > LogLinesShown then |lines| - LogLinesShown else 0..]
  {
    var lines := Split(log, '\n');
    var k := if |lines| > LogLinesShown then |lines| - LogLinesShown else 0;
    JoinSplit(log, '\n');
    SplitJoin(lines[k..], '\n');
    if k > 0 {
      JoinAt(lines, '\n', k);
      var head := Join(lines[..k], '\n');
      assert log == head + ['\n'] + LogTail(log);
      assert log[|head|] == '\n';
    } else {
      assert lines[k..] == lines;
    }
  }

  /** Only the right key opens the log viewer; any other request with
      `?logs` is refused 403 and sees nothing of the log. */
  lemma LogsNeedKey(req: Request, srv: Server)
    requires req.verb == "GET" && req.logsParam.Some?
    ensures Dispatch(req, srv).response.body.LogPage? ==> req.keyParam == Some(LogsKey)
    ensures req.keyParam != Some(LogsKey) ==>
              Dispatch(req, srv) == Handled(Response(403, Refused(AccessDenied)), None)
  {
  }
}
