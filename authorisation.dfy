/** The authentication decision made on every request (src/main.py,
    `authorise`) and the masked password it logs.  The PAM call is an input
    with three outcomes, and the two environment variables are inputs. */
module Authorisation {
  import opened Http

  /** The HTTP Basic credentials of the request. */
  datatype Credentials = Credentials(username: string, password: string)

  /** What the PAM `authenticate` call did: it returned a verdict, or it
      raised `TypeError`, which the server reads as "PAM is unavailable". */
  datatype PamResult = PamReturned(verdict: bool) | PamTypeError

  /** `HTTP_FILE_SERVER_USERNAME` and `HTTP_FILE_SERVER_PASSWORD`; `None`
      when the variable is unset. */
  datatype Environment = Environment(username: Option<string>, password: Option<string>)

  datatype Decision = Allow | Reject(error: HttpError)

  /** 401 with the Basic challenge of section 2 of RFC 7617, realm `PAM`. */
  const Unauthorised := HttpError(401, None, [Header("WWW-Authenticate", "Basic realm=PAM")])

  /** 501 when PAM is unavailable and no static pair is configured
      (the detail keeps the server's own spelling). */
  const Unavailable := HttpError(501, Some("Password Authentication Unvailable."), [])

  /** Python truthiness of an environment lookup: set and non-empty. */
  predicate Truthy(v: Option<string>)
  {
    v.Some? && v.value != ""
  }

  predicate StaticPairConfigured(env: Environment)
  {
    Truthy(env.username) && Truthy(env.password)
  }

  /** When a request is let through, stated per strategy: PAM decides when it
      answers; otherwise the configured static pair must match exactly. */
  predicate Accepted(cred: Credentials, pam: PamResult, env: Environment)
  {
    (pam.PamReturned? && pam.verdict)
    || (pam.PamTypeError? && StaticPairConfigured(env)
        && env.username.value == cred.username && env.password.value == cred.password)
  }

  function Authorise(cred: Credentials, pam: PamResult, env: Environment): (d: Decision)
    ensures d == Allow <==> Accepted(cred, pam, env)
    ensures d == Reject(Unavailable) <==> pam.PamTypeError? && !StaticPairConfigured(env)
    ensures d != Allow && d != Reject(Unavailable) ==> d == Reject(Unauthorised)
  {
    var okay :=
      match pam
      case PamReturned(verdict) => Some(verdict)
      case PamTypeError =>
        if Truthy(env.username) && Truthy(env.password) then
          Some(env.username.value == cred.username && env.password.value == cred.password)
        else
          None;
    match okay
    case None => Reject(Unavailable)
    case Some(ok) => if ok then Allow else Reject(Unauthorised)
  }

  /** When PAM answers, the environment variables are never consulted. */
  lemma PamAnswerIgnoresEnvironment(cred: Credentials, verdict: bool, env1: Environment, env2: Environment)
    ensures Authorise(cred, PamReturned(verdict), env1) == Authorise(cred, PamReturned(verdict), env2)
    ensures Authorise(cred, PamReturned(verdict), env1) == if verdict then Allow else Reject(Unauthorised)
  {
  }

  /** A rejection is always one of the two errors, each with its status. */
  lemma RejectionStatus(cred: Credentials, pam: PamResult, env: Environment)
    ensures Authorise(cred, pam, env).Reject? ==>
      (Authorise(cred, pam, env).error.status == 401 && Authorise(cred, pam, env).error.headers == [Header("WWW-Authenticate", "Basic realm=PAM")])
      || (Authorise(cred, pam, env).error.status == 501 && pam.PamTypeError?)
  {
  }

  /** `"*" * n`: `n` stars, and none when `n` is zero or negative. */
  function Stars(n: int): (r: string)
    ensures |r| == if n > 0 then n else 0
    ensures forall i :: 0 <= i < |r| ==> r[i] == '*'
    decreases n
  {
    if n <= 0 then "" else "*" + Stars(n - 1)
  }

  /** `password[:2] + "*" * (len(password) - 2)`, the password as logged. */
  function Mask(password: string): (m: string)
    ensures |m| == |password|
    ensures forall i :: 0 <= i < |m| ==> m[i] == if i < 2 then password[i] else '*'
  {
    (if |password| <= 2 then password else password[..2]) + Stars(|password| - 2)
  }

  /** The log reveals nothing of a password beyond its length and its first
      two characters. */
  lemma MaskRevealsOnlyLengthAndPrefix(p: string, q: string)
    requires |p| == |q|
    requires forall i :: 0 <= i < |p| && i < 2 ==> p[i] == q[i]
    ensures Mask(p) == Mask(q)
  {

  }
}
