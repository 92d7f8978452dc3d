/** The provisioner for one application: building the request for a new version, and applying
    it. */
module Provisioning {
  import opened Options
  import opened Kinds
  import opened Wrappers
  import opened HealthChecks
  import opened Versions
  import opened ReadVersions
  import opened States
  import opened Configs
  import opened NormalForms
  import opened Services

  // ---------- the request ----------

  /** `api.Port(n)`: truncation to 16 bits. */
  function ToPort(n: int32): uint16 { n % 0x1_0000 }

  function SentPort(p: PortConfig): ExposedPort {
    ExposedPort(
      ToPort(p.targetPort),
      if p.loadBalancerPort.Some? then NilOf(ToPort(p.loadBalancerPort.value), false) else NilOf(0, true),
      p.useLetsEncrypt, p.host,
      if p.healthCheck.Some? then NilOf(p.healthCheck.value, false) else NilOf(ZERO_HEALTH_CHECK, true))
  }

  function SentPorts(ports: seq<PortConfig>): seq<ExposedPort> {
    seq(|ports|, i requires 0 <= i < |ports| => SentPort(ports[i]))
  }

  function SentEnv(e: EnvConfig): CreateEnvironmentVariable {
    CreateEnvironmentVariable(e.key, if e.value.Some? then OptOf(e.value.value, true) else OptOf("", false), e.secret)
  }

  function SentEnvs(env: seq<EnvConfig>): seq<CreateEnvironmentVariable> {
    seq(|env|, i requires 0 <= i < |env| => SentEnv(env[i]))
  }

  function KeptEnv(e: ReadEnvironmentVariable): CreateEnvironmentVariable {
    var known := !e.secret && !e.value.isNull;
    CreateEnvironmentVariable(e.key, if known then OptOf(e.value.value, true) else OptOf("", false), e.secret)
  }

  function KeptEnvs(env: seq<ReadEnvironmentVariable>): seq<CreateEnvironmentVariable> {
    seq(|env|, i requires 0 <= i < |env| => KeptEnv(env[i]))
  }

  /** `append` to a nil slice leaves it nil when there is nothing to append. */
  function Appended<T>(elems: seq<T>): Slice<T> { if elems == [] then NilSlice else SliceOf(elems) }

  function Scale(wanted: Option<int32>, base: OptOf<int32>): OptOf<int32> {
    if wanted.Some? then OptOf(wanted.value, true) else if base.isSet then base else OptOf(0, false)
  }

  /** The settings of a version that did not exist: nothing to inherit. */
  const NO_DETAIL: Detail := ZERO_READ_APPLICATION_VERSION_DETAIL.(registryUsername := NilOf("", true))

  function Base(base: Option<Detail>): Detail { if base.Some? then base.value else NO_DETAIL }

  /** What the new version's settings are to be: what the config specifies, and the base
      version's settings where it does not. */
  function Wanted(c: Spec, base: Option<Detail>): CreateApplicationVersion {
    var b := Base(base);
    CreateApplicationVersion(
      if c.cpu != 0 then c.cpu else b.cpu,
      if c.memory != 0 then c.memory else b.memory,
      if c.scalingMode != "" then c.scalingMode else b.scalingMode,
      Scale(c.fixedScale, b.fixedScale), Scale(c.minScale, b.minScale), Scale(c.maxScale, b.maxScale),
      Scale(c.scaleInThreshold, b.scaleInThreshold), Scale(c.scaleOutThreshold, b.scaleOutThreshold),
      if (!c.inheritImage && c.image != "") || base.None? then c.image else b.image,
      if c.cmd != [] then SliceOf(c.cmd) else b.cmd,
      if c.registryUsername.Some? then NilOf(c.registryUsername.value, false)
      else if b.registryUsername.value != "" then NilOf(b.registryUsername.value, false) else NilOf("", true),
      if c.registryPassword.Some? then NilOf(c.registryPassword.value, false)
      else if !b.registryUsername.isNull then NilOf("", false) else NilOf("", true),
      if c.registryPassword.Some? then "new" else if !b.registryUsername.isNull then "keep"
      else if c.registryUsername.Some? then "new" else if b.registryUsername.value != "" then "keep" else "remove",
      Appended(if c.exposedPorts != [] then SentPorts(c.exposedPorts) else Items(b.exposedPorts)),
      Appended(if c.env != [] then SentEnvs(c.env) else KeptEnvs(Items(b.env))))
  }

  /** `buildCreateVersionRequestWithBase`.  The password is new when the config gives one, or gives
      a user name where there was none; it is kept when there was a user name, and removed when
      there is neither.  A user name that is kept while its password is not null sends an empty
      password along. */
  method BuildRequest(c: Spec, base: Option<Detail>) returns (req: CreateApplicationVersion)
    ensures req == Wanted(c, base)
    ensures req.registryPasswordAction == "new" <==>
            c.registryPassword.Some? ||
            (c.registryUsername.Some? && (base.None? || base.value.registryUsername.isNull))
    ensures req.registryPasswordAction == "keep" <==>
            c.registryPassword.None? && base.Some? &&
            (!base.value.registryUsername.isNull ||
             (c.registryUsername.None? && base.value.registryUsername.value != ""))
    ensures req.registryPasswordAction == "remove" <==>
            c.registryPassword.None? && c.registryUsername.None? &&
            (base.None? || base.value.registryUsername == NilOf("", true))
    ensures req.registryUsername.isNull <==>
            c.registryUsername.None? && (base.None? || base.value.registryUsername.value == "")
    ensures req.registryPassword.isNull <==>
            c.registryPassword.None? && (base.None? || base.value.registryUsername.isNull)
    ensures req.registryUsername.value == if c.registryUsername.Some? then c.registryUsername.value
            else if base.Some? then base.value.registryUsername.value else ""
    ensures req.registryPassword.value == if c.registryPassword.Some? then c.registryPassword.value else ""
  {
    req := Settings(c, base);
    req := Credentials(c, base, req);
    var fixedScale := InheritScale(c.fixedScale, base, Base(base).fixedScale);
    var minScale := InheritScale(c.minScale, base, Base(base).minScale);
    var maxScale := InheritScale(c.maxScale, base, Base(base).maxScale);
    var scaleIn := InheritScale(c.scaleInThreshold, base, Base(base).scaleInThreshold);
    var scaleOut := InheritScale(c.scaleOutThreshold, base, Base(base).scaleOutThreshold);
    var ports := BuildPorts(c, base);
    var env := BuildEnv(c, base);
    req := req.(fixedScale := fixedScale, minScale := minScale, maxScale := maxScale,
      scaleInThreshold := scaleIn, scaleOutThreshold := scaleOut, exposedPorts := ports, env := env);
  }

  /** The settings that are zero when nothing specifies them. */
  method Settings(c: Spec, base: Option<Detail>) returns (req: CreateApplicationVersion)
    ensures var w := Wanted(c, base);
            req == ZERO_CREATE_APPLICATION_VERSION.(image := w.image, cpu := w.cpu, memory := w.memory,
                     scalingMode := w.scalingMode, cmd := w.cmd)
  {
    req := ZERO_CREATE_APPLICATION_VERSION;
    if !c.inheritImage && c.image != "" {
      req := req.(image := c.image);
    } else if base.Some? {
      req := req.(image := base.value.image);
    } else {
      req := req.(image := c.image);
    }
    if c.cpu != 0 {
      req := req.(cpu := c.cpu);
    } else if base.Some? {
      req := req.(cpu := base.value.cpu);
    }
    if c.memory != 0 {
      req := req.(memory := c.memory);
    } else if base.Some? {
      req := req.(memory := base.value.memory);
    }
    if c.scalingMode != "" {
      req := req.(scalingMode := c.scalingMode);
    } else if base.Some? {
      req := req.(scalingMode := base.value.scalingMode);
    }
    if c.cmd != [] {
      req := req.(cmd := SliceOf(c.cmd));
    } else if base.Some? {
      req := req.(cmd := base.value.cmd);
    }
  }

  method Credentials(c: Spec, base: Option<Detail>, before: CreateApplicationVersion)
    returns (req: CreateApplicationVersion)
    requires before.registryUsername == before.registryPassword == NilOf("", false)
    ensures var w := Wanted(c, base);
            req == before.(registryUsername := w.registryUsername, registryPassword := w.registryPassword,
                           registryPasswordAction := w.registryPasswordAction)
    ensures req.registryPasswordAction == "new" <==>
            c.registryPassword.Some? ||
            (c.registryUsername.Some? && (base.None? || base.value.registryUsername.isNull))
    ensures req.registryPasswordAction == "keep" <==>
            c.registryPassword.None? && base.Some? &&
            (!base.value.registryUsername.isNull ||
             (c.registryUsername.None? && base.value.registryUsername.value != ""))
    ensures req.registryPasswordAction == "remove" <==>
            c.registryPassword.None? && c.registryUsername.None? &&
            (base.None? || base.value.registryUsername == NilOf("", true))
    ensures req.registryUsername.isNull <==>
            c.registryUsername.None? && (base.None? || base.value.registryUsername.value == "")
    ensures req.registryPassword.isNull <==>
            c.registryPassword.None? && (base.None? || base.value.registryUsername.isNull)
    ensures req.registryUsername.value == if c.registryUsername.Some? then c.registryUsername.value
            else if base.Some? then base.value.registryUsername.value else ""
    ensures req.registryPassword.value == if c.registryPassword.Some? then c.registryPassword.value else ""
  {
    req := before;
    if c.registryUsername.Some? {
      req := req.(registryUsername := NilOf(c.registryUsername.value, false), registryPasswordAction := "new");
    } else if base.Some? && base.value.registryUsername.value != "" {
      req := req.(registryUsername := NilOf(base.value.registryUsername.value, false),
          registryPasswordAction := "keep");
    } else {
      req := req.(registryUsername := NilOf("", true), registryPasswordAction := "remove");
    }
    if c.registryPassword.Some? {
      req := req.(registryPassword := NilOf(c.registryPassword.value, false), registryPasswordAction := "new");
    } else if base.Some? && !base.value.registryUsername.isNull {
      req := req.(registryPasswordAction := "keep");
    } else {
      req := req.(registryPassword := NilOf("", true));
    }
  }

  /** The other settings of a request, one by one: the config's where it specifies one, and else
      those of the base version, if there is one. */
  lemma SettingsExactly(c: Spec, base: Option<Detail>)
    ensures var w, b := Wanted(c, base), base;
            w.cpu == (if c.cpu != 0 then c.cpu else if b.Some? then b.value.cpu else 0) &&
            w.memory == (if c.memory != 0 then c.memory else if b.Some? then b.value.memory else 0) &&
            w.scalingMode ==
              (if c.scalingMode != "" then c.scalingMode else if b.Some? then b.value.scalingMode else "") &&
            w.image == (if b.Some? && (c.inheritImage || c.image == "") then b.value.image else c.image) &&
            w.cmd == (if c.cmd != [] then SliceOf(c.cmd) else if b.Some? then b.value.cmd else NilSlice)
    ensures var w, unset := Wanted(c, base), OptOf(0, false);
            var b := if base.Some? then base.value else ZERO_READ_APPLICATION_VERSION_DETAIL;
            (c.fixedScale.Some? ==> w.fixedScale == OptOf(c.fixedScale.value, true)) &&
            (c.fixedScale.None? ==> w.fixedScale == if b.fixedScale.isSet then b.fixedScale else unset) &&
            (c.minScale.Some? ==> w.minScale == OptOf(c.minScale.value, true)) &&
            (c.minScale.None? ==> w.minScale == if b.minScale.isSet then b.minScale else unset) &&
            (c.maxScale.Some? ==> w.maxScale == OptOf(c.maxScale.value, true)) &&
            (c.maxScale.None? ==> w.maxScale == if b.maxScale.isSet then b.maxScale else unset) &&
            (c.scaleInThreshold.Some? ==> w.scaleInThreshold == OptOf(c.scaleInThreshold.value, true)) &&
            (c.scaleInThreshold.None? ==>
              w.scaleInThreshold == if b.scaleInThreshold.isSet then b.scaleInThreshold else unset) &&
            (c.scaleOutThreshold.Some? ==> w.scaleOutThreshold == OptOf(c.scaleOutThreshold.value, true)) &&
            (c.scaleOutThreshold.None? ==>
              w.scaleOutThreshold == if b.scaleOutThreshold.isSet then b.scaleOutThreshold else unset)
  {
  }

  /** The ports of a request: those of the config, their numbers cut to 16 bits, or those of the
      base version as they are; nil when there are none. */
  lemma PortsExactly(c: Spec, base: Option<Detail>)
    ensures var ports := Wanted(c, base).exposedPorts;
            (c.exposedPorts == [] ==>
              Items(ports) == if base.Some? then Items(base.value.exposedPorts) else []) &&
            (c.exposedPorts != [] ==>
              |Items(ports)| == |c.exposedPorts| &&
              forall i :: 0 <= i < |c.exposedPorts| ==> Asks(Items(ports)[i], c.exposedPorts[i])) &&
            (ports.NilSlice? <==> Items(ports) == [])
  {
    if c.exposedPorts != [] {
      assert |SentPorts(c.exposedPorts)| == |c.exposedPorts|;
      forall i | 0 <= i < |c.exposedPorts| ensures Asks(SentPorts(c.exposedPorts)[i], c.exposedPorts[i]) {
      }
    }
  }

  predicate Asks(sent: ExposedPort, p: PortConfig) {
    sent.targetPort == p.targetPort % 0x1_0000 &&
    sent.loadBalancerPort.isNull == p.loadBalancerPort.None? &&
    sent.loadBalancerPort.value == (if p.loadBalancerPort.Some? then p.loadBalancerPort.value % 0x1_0000 else 0) &&
    sent.useLetsEncrypt == p.useLetsEncrypt && sent.host == p.host &&
    sent.healthCheck.isNull == p.healthCheck.None? &&
    (p.healthCheck.Some? ==> sent.healthCheck.value == p.healthCheck.value)
  }

  /** The variables of a request: those of the config, or those of the base version without the
      values of secrets. */
  lemma EnvExactly(c: Spec, base: Option<Detail>)
    ensures var env := Wanted(c, base).env;
            (c.env != [] ==>
              |Items(env)| == |c.env| &&
              forall i :: 0 <= i < |c.env| ==>
                var sent, e := Items(env)[i], c.env[i];
                sent.key == e.key && sent.secret == e.secret && sent.value.isSet == e.value.Some? &&
                (e.value.Some? ==> sent.value.value == e.value.value)) &&
            (c.env == [] && base.None? ==> env == NilSlice) &&
            (c.env == [] && base.Some? ==>
              |Items(env)| == |Items(base.value.env)| &&
              forall i :: 0 <= i < |Items(env)| ==>
                var sent, e := Items(env)[i], Items(base.value.env)[i];
                sent.key == e.key && sent.secret == e.secret &&
                (sent.value.isSet <==> !e.secret && !e.value.isNull) &&
                (sent.value.isSet ==> sent.value.value == e.value.value))
  {
  }

  method InheritScale(wanted: Option<int32>, base: Option<Detail>, inherited: OptOf<int32>) returns (o: OptOf<int32>)
    requires base.None? ==> inherited == OptOf(0, false)
    ensures o == Scale(wanted, inherited)
  {
    o := OptOf(0, false);
    if wanted.Some? {
      o := OptOf(wanted.value, true);
    } else if base.Some? && inherited.isSet {
      o := inherited;
    }
  }

  method BuildPorts(c: Spec, base: Option<Detail>) returns (ports: Slice<ExposedPort>)
    ensures ports == Wanted(c, base).exposedPorts
  {
    var sent: seq<ExposedPort> := [];
    if |c.exposedPorts| > 0 {
      for i := 0 to |c.exposedPorts|
        invariant sent == SentPorts(c.exposedPorts[..i])
      {
        var port := c.exposedPorts[i];
        var ep := ExposedPort(ToPort(port.targetPort), NilOf(0, true), port.useLetsEncrypt, port.host,
            NilOf(ZERO_HEALTH_CHECK, true));
        if port.loadBalancerPort.Some? {
          ep := ep.(loadBalancerPort := NilOf(ToPort(port.loadBalancerPort.value), false));
        }
        if port.healthCheck.Some? {
          ep := ep.(healthCheck := NilOf(port.healthCheck.value, false));
        }
        sent := sent + [ep];
      }
      assert c.exposedPorts[..|c.exposedPorts|] == c.exposedPorts;
    } else if base.Some? {
      var kept := Items(base.value.exposedPorts);
      for i := 0 to |kept|
        invariant sent == kept[..i]
      {
        sent := sent + [kept[i]];
      }
    }
    ports := Appended(sent);
  }

  method BuildEnv(c: Spec, base: Option<Detail>) returns (env: Slice<CreateEnvironmentVariable>)
    ensures env == Wanted(c, base).env
  {
    var sent: seq<CreateEnvironmentVariable> := [];
    if |c.env| > 0 {
      for i := 0 to |c.env|
        invariant sent == SentEnvs(c.env[..i])
      {
        var e := CreateEnvironmentVariable(c.env[i].key, OptOf("", false), c.env[i].secret);
        if c.env[i].value.Some? {
          e := e.(value := OptOf(c.env[i].value.value, true));
        }
        sent := sent + [e];
      }
      assert c.env[..|c.env|] == c.env;
    } else if base.Some? {
      var kept := Items(base.value.env);
      for i := 0 to |kept|
        invariant sent == KeptEnvs(kept[..i])
      {
        // The value of a secret is not known here.
        var e := CreateEnvironmentVariable(kept[i].key, OptOf("", false), kept[i].secret);
        if !kept[i].secret && !kept[i].value.isNull {
          e := e.(value := OptOf(kept[i].value.value, true));
        }
        sent := sent + [e];
      }
      assert kept[..|kept|] == kept;
    }
    env := Appended(sent);
  }

  // ---------- what is shown of a new version ----------

  /** What the API shows of the version a request makes. It never shows a password; `masks` says
      that it does not show the values of secrets either, as documented. (The test server of the
      repository shows them.) */
  function Kept(req: CreateApplicationVersion, m: Minted, masks: bool): Detail {
    ReadApplicationVersionDetail(
      m.version, req.cpu, req.memory, req.scalingMode, req.fixedScale, req.minScale, req.maxScale,
      req.scaleInThreshold, req.scaleOutThreshold, req.image, req.cmd, req.registryUsername, NilOf("", true),
      m.activeNodeCount, m.created, req.exposedPorts,
      SliceOf(seq(|Items(req.env)|, i requires 0 <= i < |Items(req.env)| => KeptVariable(Items(req.env)[i], masks))))
  }

  function KeptVariable(e: CreateEnvironmentVariable, masks: bool): ReadEnvironmentVariable {
    var shown := e.value.isSet && !(masks && e.secret);
    ReadEnvironmentVariable(e.key, if shown then NilOf(e.value.value, false) else NilOf("", true), e.secret)
  }

  /** Whatever the version before was, the service shows of a new version what was sent, but for
      passwords and secrets. */
  lemma ShownIsKept(prev: Option<Stored>, req: CreateApplicationVersion, m: Minted)
    ensures Show(Store(prev, req, m)) == Kept(req, m, true)
    ensures var d := Show(Store(prev, req, m));
            d.version == m.version && d.cpu == req.cpu && d.memory == req.memory && d.scalingMode == req.scalingMode &&
            d.fixedScale == req.fixedScale && d.minScale == req.minScale && d.maxScale == req.maxScale &&
            d.scaleInThreshold == req.scaleInThreshold && d.scaleOutThreshold == req.scaleOutThreshold &&
            d.image == req.image && d.cmd == req.cmd && d.registryUsername == req.registryUsername &&
            d.registryPassword.isNull && d.activeNodeCount == m.activeNodeCount && d.created == m.created &&
            d.exposedPorts == req.exposedPorts && |Items(d.env)| == |Items(req.env)| &&
            forall i :: 0 <= i < |Items(d.env)| ==>
              var shown, sent := Items(d.env)[i], Items(req.env)[i];
              shown.key == sent.key && shown.secret == sent.secret &&
              (shown.value.isNull <==> sent.secret || !sent.value.isSet) &&
              (!shown.value.isNull ==> shown.value.value == sent.value.value)
  {
    var shown, kept := Items(Show(Store(prev, req, m)).env), Items(Kept(req, m, true).env);
    forall i | 0 <= i < |shown| ensures shown[i] == kept[i] {
    }
    assert shown == kept;
  }

  // ---------- applying ----------

  /** The secret versions after those of the config are stored, in order. */
  function Recorded(secrets: map<string, int>, env: seq<EnvConfig>): map<string, int> {
    if env == [] then secrets
    else
      var e := env[|env| - 1];
      var before := Recorded(secrets, env[..|env| - 1]);
      if e.secret && e.secretVersion.Some? then before[e.key := e.secretVersion.value] else before
  }

  /** A variable brings a version that is not the recorded one when its turn comes. */
  predicate NewSecret(secrets: map<string, int>, env: seq<EnvConfig>, i: nat)
    requires i < |env|
  {
    var e, recorded := env[i], Recorded(secrets, env[..i]);
    e.secret && e.secretVersion.Some? && (e.key !in recorded || recorded[e.key] != e.secretVersion.value)
  }

  /** `updateSecretEnvVersions`: tells whether it changed anything. */
  method UpdateSecretEnvVersions(state: State, app: string, env: seq<EnvConfig>) returns (modified: bool)
    modifies state
    ensures state.Of(app) == old(state.Of(app)).(secretVersions := Recorded(old(state.Of(app)).secretVersions, env))
    ensures forall a :: a != app ==> state.Of(a) == old(state.Of(a))
    ensures modified <==> exists i :: 0 <= i < |env| && NewSecret(old(state.Of(app)).secretVersions, env, i)
    ensures !modified ==> state.applications == old(state.applications)
  {
    modified := false;
    for i := 0 to |env|
      invariant state.Of(app) ==
                old(state.Of(app)).(secretVersions := Recorded(old(state.Of(app)).secretVersions, env[..i]))
      invariant forall a :: a != app ==> state.Of(a) == old(state.Of(a))
      invariant modified <==> exists n :: 0 <= n < i && NewSecret(old(state.Of(app)).secretVersions, env, n)
      invariant !modified ==> state.applications == old(state.applications)
    {
      var e := env[i];
      var stored := state.Of(app).secretVersions;
      assert env[..i + 1][..i] == env[..i];
      assert NewSecret(old(state.Of(app)).secretVersions, env, i) <==>
        e.secret && e.secretVersion.Some? && (e.key !in stored || stored[e.key] != e.secretVersion.value);
      if e.secret && e.secretVersion.Some? {
        if e.key !in stored || stored[e.key] != e.secretVersion.value {
          state.SetSecretEnvVersion(app, e.key, e.secretVersion);
          modified := true;
        } else {
          assert stored[e.key := e.secretVersion.value] == stored;
        }
      }
    }
    assert env[..|env|] == env;
  }

  /** The record after an update: exactly the config's password version, and its secrets. */
  function Updated(r: AppState, c: Spec): AppState {
    AppState(c.registryPasswordVersion, Recorded(r.secretVersions, c.env))
  }

  /** The record after a creation: a leftover password version stays. */
  function Created(r: AppState, c: Spec): AppState {
    AppState(if c.registryPasswordVersion.Some? then c.registryPasswordVersion else r.passwordVersion,
             Recorded(r.secretVersions, c.env))
  }

  /** What is shown of the latest version after an update or creation. */
  function NewVersion(c: Spec, base: Option<Detail>, m: Minted, masks: bool): Detail {
    Kept(Wanted(c, base), m, masks)
  }

  /** What is stored by an update or creation after the version `prev`. */
  function NewStored(c: Spec, prev: Option<Stored>, m: Minted): Stored {
    Store(prev, Wanted(c, ShowLatest(prev)), m)
  }

  /** `Apply` of an update: a new version from the latest one, and the state file; it is
      written back exactly when something in it may have changed. */
  method ApplyUpdate(state: State, service: Service, app: string, c: Spec, m: Minted) returns (stateModified: bool)
    modifies state, service
    ensures service.versions == old(service.versions) + [NewStored(c, old(service.Latest()), m)]
    ensures state.Of(app) == Updated(old(state.Of(app)), c)
    ensures forall a :: a != app ==> state.Of(a) == old(state.Of(a))
    ensures stateModified <==>
            old(state.Of(app)).passwordVersion != c.registryPasswordVersion ||
            exists i :: 0 <= i < |c.env| && NewSecret(old(state.Of(app)).secretVersions, c.env, i)
    ensures !stateModified ==> state.applications == old(state.applications)
  {
    var latestVersion := service.GetLatestVersion();
    var req := BuildRequest(c, latestVersion);
    service.CreateApplicationVersion(req, m);
    stateModified := false;
    var stored := state.Of(app).passwordVersion;
    if c.registryPasswordVersion.Some? {
      if stored.None? || stored.value != c.registryPasswordVersion.value {
        state.SetPasswordVersion(app, c.registryPasswordVersion);
        stateModified := true;
      }
    } else if stored.Some? {
      state.SetPasswordVersion(app, None);
      stateModified := true;
    }
    var secrets := UpdateSecretEnvVersions(state, app, c.env);
    stateModified := stateModified || secrets;
  }

  /** `Apply` of a creation: the first version of a new application. */
  method ApplyCreate(state: State, app: string, c: Spec, m: Minted) returns (service: Service, stateModified: bool)
    modifies state
    ensures fresh(service) && service.versions == [NewStored(c, None, m)]
    ensures state.Of(app) == Created(old(state.Of(app)), c)
    ensures forall a :: a != app ==> state.Of(a) == old(state.Of(a))
    ensures stateModified <==>
            c.registryPasswordVersion.Some? ||
            exists i :: 0 <= i < |c.env| && NewSecret(old(state.Of(app)).secretVersions, c.env, i)
    ensures !stateModified ==> state.applications == old(state.applications)
  {
    service := new Service();
    var req := BuildRequest(c, None);
    service.CreateApplicationVersion(req, m);
    stateModified := false;
    if c.registryPasswordVersion.Some? {
      state.SetPasswordVersion(app, c.registryPasswordVersion);
      stateModified := true;
    }
    var secrets := UpdateSecretEnvVersions(state, app, c.env);
    stateModified := stateModified || secrets;
  }
}
