/** The raw-view endpoint `/_special/view_plain` (src/main.py, `read_plain`).
    The requested path arrives resolved; three guards run in order: does it
    exist, is it a directory, is it inside the working directory. */
module PlainView {
  import opened Http
  import opened Paths
  import Authorisation

  /** `FileResponse(path, media_type="text/plain")`. */
  datatype PlainResponse = PlainFile(path: Path, mediaType: string)

  const NotFound := HttpError(404, Some("file not found"), [])
  const IsDirectory := HttpError(400, Some("cannot read directory"), [])
  const OutsideScope := HttpError(403, Some("directory is outside runtime scope"), [])

  /** Serves `resolved` as plain text.  Each outcome is stated as exactly the
      paths it applies to; since the four are distinct, exactly one applies.
      A directory is refused with 400 wherever it lies, because the
      directory guard runs before the containment guard. */
  function ReadPlain(fs: FileSystem, cwd: Path, resolved: Path): (r: Outcome<PlainResponse>)
    ensures r == Raise(NotFound) <==> resolved !in fs
    ensures r == Raise(IsDirectory) <==> IsDir(fs, resolved)
    ensures r == Raise(OutsideScope) <==> resolved in fs && !IsDir(fs, resolved) && !IsRelativeTo(resolved, cwd)
    ensures r.Respond? <==> resolved in fs && !IsDir(fs, resolved) && IsRelativeTo(resolved, cwd)
    ensures r.Respond? ==> r.response == PlainFile(resolved, "text/plain")
    ensures !r.Crash?
  {
    if resolved !in fs then Raise(NotFound)
    else if fs[resolved].Dir? then Raise(IsDirectory)
    else if !IsRelativeTo(resolved, cwd) then Raise(OutsideScope)
    else Respond(PlainFile(resolved, "text/plain"))
  }

  /** The endpoint as the application runs it: `authorise` is a dependency of
      every route, so it decides before `read_plain` is entered. */
  function ViewPlain(cred: Authorisation.Credentials, pam: Authorisation.PamResult,
                     env: Authorisation.Environment, fs: FileSystem, cwd: Path, resolved: Path)
    : (r: Outcome<PlainResponse>)
    ensures Authorisation.Authorise(cred, pam, env).Reject? ==> r == Raise(Authorisation.Authorise(cred, pam, env).error)
    ensures Authorisation.Authorise(cred, pam, env) == Authorisation.Allow ==> r == ReadPlain(fs, cwd, resolved)
  {
    match Authorisation.Authorise(cred, pam, env)
    case Reject(e) => Raise(e)
    case Allow => ReadPlain(fs, cwd, resolved)
  }

  /** Whatever is served is an existing file inside the working directory. */
  lemma ServedFilesAreContained(cred: Authorisation.Credentials, pam: Authorisation.PamResult,
                                env: Authorisation.Environment, fs: FileSystem, cwd: Path, resolved: Path)
    requires ViewPlain(cred, pam, env, fs, cwd, resolved).Respond?
    ensures Authorisation.Accepted(cred, pam, env)
    ensures resolved in fs && fs[resolved].File? && IsRelativeTo(resolved, cwd)
  {
  }

  /** With PAM unavailable and no static pair configured, the raw view answers
      501 to every request, whatever the path. */
  lemma UnconfiguredServerRefusesRawView(cred: Authorisation.Credentials, env: Authorisation.Environment,
                                         fs: FileSystem, cwd: Path, resolved: Path)
    requires !Authorisation.StaticPairConfigured(env)
    ensures ViewPlain(cred, Authorisation.PamTypeError, env, fs, cwd, resolved) == Raise(Authorisation.Unavailable)
  {
  }
}
