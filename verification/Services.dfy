/** The service as its API documents it: the versions of one application, what they store, and
    what the API shows of them. */
module Services {
  import opened Options
  import opened Kinds
  import opened Wrappers
  import opened Versions
  import opened ReadVersions
  import opened NormalForms

  // ---------- what is stored ----------

  datatype Variable = Variable(key: string, value: Option<string>, secret: bool)

  /** A version. `settings` holds everything but the variables and the registry password, which
      the API does not show in full. */
  datatype Stored = Stored(settings: Detail, env: seq<Variable>, password: Option<string>)

  /** What the service decides itself about a new version. */
  datatype Minted = Minted(version: int32, activeNodeCount: int64, created: int64)

  /** The value a version has for a key; of equal keys the last one's. */
  function ValueOf(env: seq<Variable>, key: string): Option<string> {
    if env == [] then None
    else
      var last := env[|env| - 1];
      if last.key == key then last.value else ValueOf(env[..|env| - 1], key)
  }

  /** A variable as it is sent; a secret without a value has the value of the version before. */
  function StoreVariable(prev: seq<Variable>, e: CreateEnvironmentVariable): Variable {
    var unsent := if e.secret then ValueOf(prev, e.key) else None;
    Variable(e.key, if e.value.isSet then Some(e.value.value) else unsent, e.secret)
  }

  function StoreVariables(prev: seq<Variable>, env: seq<CreateEnvironmentVariable>): seq<Variable> {
    seq(|env|, i requires 0 <= i < |env| => StoreVariable(prev, env[i]))
  }

  /** `registryPasswordAction`: keep the password of the version before, take the new one, or
      have none. */
  function StorePassword(prev: Option<string>, req: CreateApplicationVersion): Option<string> {
    if req.registryPasswordAction == "keep" then prev
    else if req.registryPasswordAction == "new" && !req.registryPassword.isNull then Some(req.registryPassword.value)
    else None
  }

  const NO_VERSION := Stored(ZERO_READ_APPLICATION_VERSION_DETAIL, [], None)

  function OrNone(prev: Option<Stored>): Stored { if prev.Some? then prev.value else NO_VERSION }

  /** The version that a request makes after `prev`. */
  function Store(prev: Option<Stored>, req: CreateApplicationVersion, m: Minted): Stored {
    Stored(
      ReadApplicationVersionDetail(
        m.version, req.cpu, req.memory, req.scalingMode, req.fixedScale, req.minScale, req.maxScale,
        req.scaleInThreshold, req.scaleOutThreshold, req.image, req.cmd, req.registryUsername, NilOf("", true),
        m.activeNodeCount, m.created, req.exposedPorts, NilSlice),
      StoreVariables(OrNone(prev).env, Items(req.env)),
      StorePassword(OrNone(prev).password, req))
  }

  // ---------- what is shown ----------

  /** The value of a secret is never shown. */
  function ShowVariable(v: Variable): ReadEnvironmentVariable {
    var shown := v.value.Some? && !v.secret;
    ReadEnvironmentVariable(v.key, if shown then NilOf(v.value.value, false) else NilOf("", true), v.secret)
  }

  function ShowVariables(env: seq<Variable>): seq<ReadEnvironmentVariable> {
    seq(|env|, i requires 0 <= i < |env| => ShowVariable(env[i]))
  }

  /** What the API shows of a version: no password, and no values of secrets. */
  function Show(s: Stored): Detail {
    s.settings.(registryPassword := NilOf("", true), env := SliceOf(ShowVariables(s.env)))
  }

  function ShowLatest(latest: Option<Stored>): Option<Detail> {
    if latest.Some? then Some(Show(latest.value)) else None
  }

  // ---------- the service ----------

  class Service {
    var versions: seq<Stored>

    constructor ()
      ensures versions == []
    {
      versions := [];
    }

    function Latest(): Option<Stored>
      reads this
    {
      if versions == [] then None else Some(versions[|versions| - 1])
    }

    /** `GetApplicationVersion` of the latest version. */
    method GetLatestVersion() returns (latest: Option<Detail>)
      ensures latest == ShowLatest(Latest())
    {
      latest := None;
      if |versions| > 0 {
        latest := Some(Show(versions[|versions| - 1]));
      }
    }

    method CreateApplicationVersion(req: CreateApplicationVersion, m: Minted)
      modifies this
      ensures versions == old(versions) + [Store(old(Latest()), req, m)]
    {
      versions := versions + [Store(Latest(), req, m)];
    }
  }
}
