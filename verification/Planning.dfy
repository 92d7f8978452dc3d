/** The plan for one application: what differs between the latest version and the config? */
module Planning {
  import opened Options
  import opened Kinds
  import opened Wrappers
  import opened HealthChecks
  import opened Versions
  import opened ReadVersions
  import opened States
  import opened Configs
  import opened NormalForms

  // ---------- comparing ----------

  /** A map built from a list: the last entry of a key counts. */
  function CurrentEnv(current: seq<ReadEnvironmentVariable>, key: string): Option<ReadEnvironmentVariable> {
    if current == [] then None
    else
      var last := current[|current| - 1];
      if last.key == key then Some(last) else CurrentEnv(current[..|current| - 1], key)
  }

  predicate Configured(env: seq<EnvConfig>, key: string) { exists i :: 0 <= i < |env| && env[i].key == key }

  function Shown(e: ReadEnvironmentVariable): string { if e.value.isNull then "" else e.value.value }

  function Text(e: EnvConfig): string { if e.value.Some? then e.value.value else "" }

  function EnvChange(current: seq<ReadEnvironmentVariable>, secrets: map<string, int>, e: EnvConfig): seq<Change> {
    match CurrentEnv(current, e.key)
    case None => [EnvAdd(e.key, e.secret)]
    case Some(cur) =>
      if e.secret then
        var recorded := e.key in secrets && Some(secrets[e.key]) == e.secretVersion;
        if e.secretVersion.Some? && !recorded then [EnvUpdate(e.key)] else []
      else if Shown(cur) != Text(e) then [EnvUpdate(e.key)]
      else []
  }

  function EnvChanges(current: seq<ReadEnvironmentVariable>, secrets: map<string, int>,
      env: seq<EnvConfig>): seq<Change> {
    if env == [] then []
    else EnvChanges(current, secrets, env[..|env| - 1]) + EnvChange(current, secrets, env[|env| - 1])
  }

  function EnvRemovals(current: seq<ReadEnvironmentVariable>, env: seq<EnvConfig>): seq<Change> {
    if current == [] then []
    else
      var last := current[|current| - 1];
      EnvRemovals(current[..|current| - 1], env) +
      if Configured(env, last.key) then [] else [EnvRemove(last.key, last.secret)]
  }

  /** `compareEnv`. */
  method CompareEnv(state: State, app: string, current: seq<ReadEnvironmentVariable>, desired: seq<EnvConfig>)
    returns (changes: seq<Change>)
    ensures changes == EnvChanges(current, state.Of(app).secretVersions, desired) + EnvRemovals(current, desired)
  {
    var currentByKey := CurrentByKey(current);
    var desiredByKey := DesiredByKey(desired);
    changes := Updates(state, app, current, currentByKey, desired);
    var removals := Removals(current, desired, desiredByKey);
    changes := changes + removals;
  }

  ghost predicate Indexes(byKey: map<string, ReadEnvironmentVariable>, current: seq<ReadEnvironmentVariable>) {
    forall key :: CurrentEnv(current, key) == if key in byKey then Some(byKey[key]) else None
  }

  method CurrentByKey(current: seq<ReadEnvironmentVariable>) returns (byKey: map<string, ReadEnvironmentVariable>)
    ensures Indexes(byKey, current)
  {
    byKey := map[];
    for i := 0 to |current|
      invariant Indexes(byKey, current[..i])
    {
      assert current[..i + 1][..i] == current[..i];
      byKey := byKey[current[i].key := current[i]];
    }
    assert current[..|current|] == current;
  }

  method DesiredByKey(desired: seq<EnvConfig>) returns (byKey: map<string, EnvConfig>)
    ensures forall key :: key in byKey <==> Configured(desired, key)
  {
    byKey := map[];
    for i := 0 to |desired|
      invariant forall key :: key in byKey <==> exists j :: 0 <= j < i && desired[j].key == key
    {
      byKey := byKey[desired[i].key := desired[i]];
    }
  }

  /** The loop over the desired variables. */
  method Updates(state: State, app: string, ghost current: seq<ReadEnvironmentVariable>,
                 currentByKey: map<string, ReadEnvironmentVariable>, desired: seq<EnvConfig>)
    returns (changes: seq<Change>)
    requires Indexes(currentByKey, current)
    ensures changes == EnvChanges(current, state.Of(app).secretVersions, desired)
  {
    changes := [];
    for i := 0 to |desired|
      invariant changes == EnvChanges(current, state.Of(app).secretVersions, desired[..i])
    {
      var env := desired[i];
      assert desired[..i + 1][..i] == desired[..i];
      assert CurrentEnv(current, env.key) == if env.key in currentByKey then Some(currentByKey[env.key]) else None;
      if env.key !in currentByKey {
        changes := changes + [EnvAdd(env.key, env.secret)];
        continue;
      }
      if env.secret {
        var stored := state.Of(app).secretVersions;
        if env.secretVersion.Some? {
          if env.key !in stored || stored[env.key] != env.secretVersion.value {
            changes := changes + [EnvUpdate(env.key)];
          }
        }
      } else {
        var currentValue := if currentByKey[env.key].value.isNull then "" else currentByKey[env.key].value.value;
        var desiredValue := if env.value.Some? then env.value.value else "";
        if currentValue != desiredValue {
          changes := changes + [EnvUpdate(env.key)];
        }
      }
    }
    assert desired[..|desired|] == desired;
  }

  /** The loop over the current variables. */
  method Removals(current: seq<ReadEnvironmentVariable>, ghost desired: seq<EnvConfig>,
                  desiredByKey: map<string, EnvConfig>)
    returns (changes: seq<Change>)
    requires forall key :: key in desiredByKey <==> Configured(desired, key)
    ensures changes == EnvRemovals(current, desired)
  {
    changes := [];
    for i := 0 to |current|
      invariant changes == EnvRemovals(current[..i], desired)
    {
      assert current[..i + 1][..i] == current[..i];
      if current[i].key !in desiredByKey {
        changes := changes + [EnvRemove(current[i].key, current[i].secret)];
      }
    }
    assert current[..|current|] == current;
  }

  function PasswordChange(stored: Option<int>, wanted: Option<int>): seq<Change> {
    if stored != wanted then [PasswordVersion(stored, wanted)] else []
  }

  predicate SkipsImage(c: Spec) { c.inheritImage || c.image == "" }

  /** What `CompareSpecs` reports. */
  function SpecChanges(v: Detail, c: Spec): seq<Change> { Without(Diff(OfAPI(v), OfConfig(c)), SkipsImage(c)) }

  /** All that `compareVersion` reports. */
  function Changes(v: Detail, c: Spec, r: AppState): seq<Change> {
    SpecChanges(v, c) + (EnvChanges(Items(v.env), r.secretVersions, c.env) + EnvRemovals(Items(v.env), c.env))
    + PasswordChange(r.passwordVersion, c.registryPasswordVersion)
  }

  // ---------- what a plan contains ----------

  /** The current variable a desired one is compared with: the last one with its key. */
  ghost predicate ComparedWith(env: seq<ReadEnvironmentVariable>, i: int, key: string) {
    0 <= i < |env| && env[i].key == key && forall j :: i < j < |env| ==> env[j].key != key
  }

  lemma {:induction false} CurrentExactly(current: seq<ReadEnvironmentVariable>, key: string)
    ensures CurrentEnv(current, key).None? <==> forall e :: e in current ==> e.key != key
    ensures forall i :: ComparedWith(current, i, key) ==> CurrentEnv(current, key) == Some(current[i])
    ensures CurrentEnv(current, key).Some? ==> exists i :: ComparedWith(current, i, key)
  {
    if current != [] {
      var init, last := current[..|current| - 1], current[|current| - 1];
      CurrentExactly(init, key);
      assert current == init + [last];
      if last.key == key {
        assert ComparedWith(current, |init|, key);
      } else {
        forall i | ComparedWith(current, i, key) ensures ComparedWith(init, i, key) {
        }
        if i :| ComparedWith(init, i, key) {
          assert ComparedWith(current, i, key);
        }
      }
    }
  }

  /** A desired variable looks different from the current one it is compared with. */
  predicate Differs(cur: ReadEnvironmentVariable, d: EnvConfig, secrets: map<string, int>) {
    if d.secret then d.secretVersion.Some? && (d.key !in secrets || secrets[d.key] != d.secretVersion.value)
    else (if cur.value.isNull then "" else cur.value.value) != (if d.value.Some? then d.value.value else "")
  }

  lemma {:induction false} EnvChangesExactly(current: seq<ReadEnvironmentVariable>, secrets: map<string, int>,
      env: seq<EnvConfig>, x: Change)
    ensures x in EnvChanges(current, secrets, env) <==>
            exists i :: 0 <= i < |env| && x in EnvChange(current, secrets, env[i])
  {
    if env != [] {
      var init := env[..|env| - 1];
      EnvChangesExactly(current, secrets, init, x);
      assert env == init + [env[|env| - 1]];
    }
  }

  lemma {:induction false} EnvRemovalsExactly(current: seq<ReadEnvironmentVariable>, env: seq<EnvConfig>, x: Change)
    ensures x in EnvRemovals(current, env) <==>
            x.EnvRemove? && !Configured(env, x.key) &&
            exists e :: e in current && e.key == x.key && e.secret == x.secret
  {
    if current != [] {
      var init, last := current[..|current| - 1], current[|current| - 1];
      EnvRemovalsExactly(init, env, x);
      assert current == init + [last];
    }
  }

  predicate ScaleChanged(current: OptOf<int32>, desired: Option<int32>) {
    current.isSet != desired.Some? || (current.isSet && current.value != desired.value)
  }

  // The settings a plan names, by the names of the normal form's fields.

  predicate SizeChanged(v: Detail, c: Spec, name: string) {
    (name == "CPU" && v.cpu != c.cpu) || (name == "Memory" && v.memory != c.memory) ||
    (name == "ScalingMode" && v.scalingMode != c.scalingMode)
  }

  predicate ScalingChanged(v: Detail, c: Spec, name: string) {
    (name == "FixedScale" && ScaleChanged(v.fixedScale, c.fixedScale)) ||
    (name == "MinScale" && ScaleChanged(v.minScale, c.minScale)) ||
    (name == "MaxScale" && ScaleChanged(v.maxScale, c.maxScale)) ||
    (name == "ScaleInThreshold" && ScaleChanged(v.scaleInThreshold, c.scaleInThreshold)) ||
    (name == "ScaleOutThreshold" && ScaleChanged(v.scaleOutThreshold, c.scaleOutThreshold))
  }

  predicate TextChanged(v: Detail, c: Spec, name: string) {
    (name == "Image" && !c.inheritImage && c.image != "" && v.image != c.image) ||
    (name == "Cmd" && Join(Items(v.cmd), " ") != Join(c.cmd, " ")) ||
    (name == "RegistryUsername" &&
     (if v.registryUsername.isNull then "" else v.registryUsername.value) !=
     (if c.registryUsername.Some? then c.registryUsername.value else ""))
  }

  predicate SettingChanged(v: Detail, c: Spec, name: string) {
    SizeChanged(v, c, name) || ScalingChanged(v, c, name) || TextChanged(v, c, name)
  }

  lemma SettingsPlanned(v: Detail, c: Spec, name: string)
    ensures Setting(name) in SpecChanges(v, c) <==> SettingChanged(v, c, name)
  {
    var from, to := OfAPI(v), OfConfig(c);
    SettingReported(from, to, SkipsImage(c), name);
    assert SizeDiffers(from, to, name) <==> SizeChanged(v, c, name);
    ScalingCompared(v, c, name);
    TextCompared(v, c, name);
  }

  lemma SettingReported(from: NormalSpec, to: NormalSpec, skipImage: bool, name: string)
    ensures Setting(name) in Without(Diff(from, to), skipImage) <==>
            (SizeDiffers(from, to, name) || ScaleDiffers(from, to, name) || TextDiffers(from, to, name)) &&
            !(skipImage && name == "Image")
  {
    WithoutExactly(Diff(from, to), skipImage);
    DiffExactly(from, to, Setting(name));
  }

  lemma ScalingCompared(v: Detail, c: Spec, name: string)
    ensures ScaleDiffers(OfAPI(v), OfConfig(c), name) <==> ScalingChanged(v, c, name)
    ensures ScalingChanged(v, c, name) ==> name != "Image"
  {
  }

  lemma TextCompared(v: Detail, c: Spec, name: string)
    ensures TextDiffers(OfAPI(v), OfConfig(c), name) && !(SkipsImage(c) && name == "Image") <==> TextChanged(v, c, name)
  {
  }

  /** The port that counts for a target port: the last one with it. */
  function CurrentPort(ports: seq<ExposedPort>, target: int): Option<ExposedPort> {
    if ports == [] then None
    else if ports[|ports| - 1].targetPort == target then Some(ports[|ports| - 1])
    else CurrentPort(ports[..|ports| - 1], target)
  }

  function DesiredPort(ports: seq<PortConfig>, target: int): Option<PortConfig> {
    if ports == [] then None
    else if ports[|ports| - 1].targetPort == target then Some(ports[|ports| - 1])
    else DesiredPort(ports[..|ports| - 1], target)
  }

  /** Two ports are the same in everything compared; where there is none, its fields are zero,
      as they are where a port has no health check. */
  predicate LooksSame(p: Option<ExposedPort>, q: Option<PortConfig>) {
    (if p.Some? then p.value.targetPort else 0) == (if q.Some? then q.value.targetPort else 0) &&
    (p.Some? && !p.value.loadBalancerPort.isNull <==> q.Some? && q.value.loadBalancerPort.Some?) &&
    (p.Some? && !p.value.loadBalancerPort.isNull && q.Some? && q.value.loadBalancerPort.Some? ==>
      p.value.loadBalancerPort.value == q.value.loadBalancerPort.value) &&
    (p.Some? && p.value.useLetsEncrypt <==> q.Some? && q.value.useLetsEncrypt) &&
    (if p.Some? then Hosts(p.value.host) else "") == (if q.Some? then Hosts(q.value.host) else "") &&
    SameCheck(if p.Some? then p.value.healthCheck else NilOf(ZERO_HEALTH_CHECK, true),
              if q.Some? then q.value.healthCheck else None)
  }

  predicate SameCheck(h: NilOf<HealthCheck>, k: Option<HealthCheck>) {
    (if h.isNull then "" else h.value.path) == (if k.Some? then k.value.path else "") &&
    (if h.isNull then 0 else h.value.intervalSeconds) == (if k.Some? then k.value.intervalSeconds else 0) &&
    (if h.isNull then 0 else h.value.timeoutSeconds) == (if k.Some? then k.value.timeoutSeconds else 0)
  }

  lemma {:induction false} CurrentPortFound(ports: seq<ExposedPort>, target: int)
    ensures PortAt(PortsOfAPI(ports), target) ==
            match CurrentPort(ports, target) case None => None case Some(p) => Some(PortOfAPI(p))
  {
    if ports != [] {
      CurrentPortFound(ports[..|ports| - 1], target);
      assert PortsOfAPI(ports)[..|ports| - 1] == PortsOfAPI(ports[..|ports| - 1]);
    }
  }

  lemma {:induction false} DesiredPortFound(ports: seq<PortConfig>, target: int)
    ensures PortAt(PortsOfConfig(ports), target) ==
            match DesiredPort(ports, target) case None => None case Some(p) => Some(PortOfConfig(p))
  {
    if ports != [] {
      DesiredPortFound(ports[..|ports| - 1], target);
      assert PortsOfConfig(ports)[..|ports| - 1] == PortsOfConfig(ports[..|ports| - 1]);
    }
  }

  lemma LooksSameExactly(p: Option<ExposedPort>, q: Option<PortConfig>)
    ensures var np, nq := if p.Some? then PortOfAPI(p.value) else ZERO_PORT,
                          if q.Some? then PortOfConfig(q.value) else ZERO_PORT;
            np == nq <==> LooksSame(p, q)
  {
    assert Hosts(NilSlice) == "";
  }

  lemma PortsPlanned(v: Detail, c: Spec, target: int)
    ensures PortChange(target) in SpecChanges(v, c) <==>
            !LooksSame(CurrentPort(Items(v.exposedPorts), target), DesiredPort(c.exposedPorts, target))
  {
    var from, to := PortsOfAPI(Items(v.exposedPorts)), PortsOfConfig(c.exposedPorts);
    var p, q := CurrentPort(Items(v.exposedPorts), target), DesiredPort(c.exposedPorts, target);
    PortReported(v, c, target);
    PortAtSorted(from, target);
    PortAtSorted(to, target);
    CurrentPortFound(Items(v.exposedPorts), target);
    DesiredPortFound(c.exposedPorts, target);
    LooksSameExactly(p, q);
  }

  lemma PortReported(v: Detail, c: Spec, target: int)
    ensures PortChange(target) in SpecChanges(v, c) <==>
            OrZero(PortAt(SortPorts(PortsOfAPI(Items(v.exposedPorts))), target)) !=
            OrZero(PortAt(SortPorts(PortsOfConfig(c.exposedPorts)), target))
  {
    WithoutExactly(Diff(OfAPI(v), OfConfig(c)), SkipsImage(c));
    DiffExactly(OfAPI(v), OfConfig(c), PortChange(target));
  }

  lemma SpecKinds(v: Detail, c: Spec, x: Change)
    requires x in SpecChanges(v, c)
    ensures x.Setting? || x.PortChange?
  {
    WithoutExactly(Diff(OfAPI(v), OfConfig(c)), SkipsImage(c));
    DiffExactly(OfAPI(v), OfConfig(c), x);
  }

  lemma EnvKinds(current: seq<ReadEnvironmentVariable>, secrets: map<string, int>, env: seq<EnvConfig>, x: Change)
    ensures x in EnvChanges(current, secrets, env) ==> x.EnvAdd? || x.EnvUpdate?
    ensures x in EnvRemovals(current, env) ==> x.EnvRemove?
  {
    EnvChangesExactly(current, secrets, env, x);
    EnvRemovalsExactly(current, env, x);
  }

  lemma KindsPlanned(v: Detail, c: Spec, r: AppState, x: Change)
    ensures x in Changes(v, c, r) <==>
            (x in SpecChanges(v, c) && (x.Setting? || x.PortChange?)) ||
            (x in EnvChanges(Items(v.env), r.secretVersions, c.env) && (x.EnvAdd? || x.EnvUpdate?)) ||
            (x in EnvRemovals(Items(v.env), c.env) && x.EnvRemove?) ||
            (x == PasswordVersion(r.passwordVersion, c.registryPasswordVersion) &&
             r.passwordVersion != c.registryPasswordVersion)
  {
    EnvKinds(Items(v.env), r.secretVersions, c.env, x);
    if x in SpecChanges(v, c) {
      SpecKinds(v, c, x);
    }
  }

  ghost predicate ToAdd(current: seq<ReadEnvironmentVariable>, env: seq<EnvConfig>, key: string, secret: bool) {
    (exists d :: d in env && d.key == key && d.secret == secret) && forall e :: e in current ==> e.key != key
  }

  ghost predicate ToRemove(current: seq<ReadEnvironmentVariable>, env: seq<EnvConfig>, key: string, secret: bool) {
    (exists e :: e in current && e.key == key && e.secret == secret) && forall d :: d in env ==> d.key != key
  }

  ghost predicate ToUpdate(current: seq<ReadEnvironmentVariable>, env: seq<EnvConfig>, secrets: map<string, int>,
                           key: string) {
    exists d, i :: d in env && d.key == key && ComparedWith(current, i, key) && Differs(current[i], d, secrets)
  }

  lemma AddPlanned(current: seq<ReadEnvironmentVariable>, secrets: map<string, int>, env: seq<EnvConfig>,
                   key: string, secret: bool)
    ensures EnvAdd(key, secret) in EnvChanges(current, secrets, env) <==> ToAdd(current, env, key, secret)
  {
    CurrentExactly(current, key);
    EnvChangesExactly(current, secrets, env, EnvAdd(key, secret));
  }

  lemma UpdatePlanned(current: seq<ReadEnvironmentVariable>, secrets: map<string, int>, env: seq<EnvConfig>,
                      key: string)
    ensures EnvUpdate(key) in EnvChanges(current, secrets, env) <==> ToUpdate(current, env, secrets, key)
  {
    CurrentExactly(current, key);
    EnvChangesExactly(current, secrets, env, EnvUpdate(key));
    forall d: EnvConfig | d.key == key
      ensures EnvUpdate(key) in EnvChange(current, secrets, d) <==>
              exists i :: ComparedWith(current, i, key) && Differs(current[i], d, secrets)
    {
    }
  }

  lemma RemovePlanned(current: seq<ReadEnvironmentVariable>, env: seq<EnvConfig>, key: string, secret: bool)
    ensures EnvRemove(key, secret) in EnvRemovals(current, env) <==> ToRemove(current, env, key, secret)
  {
    EnvRemovalsExactly(current, env, EnvRemove(key, secret));
  }

  /** Every kind of change, on the version, the config and the record themselves. */
  lemma PlanExactly(v: Detail, c: Spec, r: AppState)
    ensures forall name :: Setting(name) in Changes(v, c, r) <==> SettingChanged(v, c, name)
    ensures forall target :: PortChange(target) in Changes(v, c, r) <==>
              !LooksSame(CurrentPort(Items(v.exposedPorts), target), DesiredPort(c.exposedPorts, target))
    ensures forall key, secret :: EnvAdd(key, secret) in Changes(v, c, r) <==> ToAdd(Items(v.env), c.env, key, secret)
    ensures forall key :: EnvUpdate(key) in Changes(v, c, r) <==> ToUpdate(Items(v.env), c.env, r.secretVersions, key)
    ensures forall key, secret :: EnvRemove(key, secret) in Changes(v, c, r) <==>
              ToRemove(Items(v.env), c.env, key, secret)
    ensures forall stored, wanted :: PasswordVersion(stored, wanted) in Changes(v, c, r) <==>
              stored == r.passwordVersion && wanted == c.registryPasswordVersion && stored != wanted
  {
    forall name ensures Setting(name) in Changes(v, c, r) <==> SettingChanged(v, c, name) {
      KindsPlanned(v, c, r, Setting(name));
      SettingsPlanned(v, c, name);
    }
    forall target
      ensures PortChange(target) in Changes(v, c, r) <==>
              !LooksSame(CurrentPort(Items(v.exposedPorts), target), DesiredPort(c.exposedPorts, target))
    {
      KindsPlanned(v, c, r, PortChange(target));
      PortsPlanned(v, c, target);
    }
    EnvsPlanned(v, c, r);
    forall stored, wanted
      ensures PasswordVersion(stored, wanted) in Changes(v, c, r) <==>
              stored == r.passwordVersion && wanted == c.registryPasswordVersion && stored != wanted
    {
      KindsPlanned(v, c, r, PasswordVersion(stored, wanted));
    }
  }

  lemma EnvsPlanned(v: Detail, c: Spec, r: AppState)
    ensures forall key, secret :: EnvAdd(key, secret) in Changes(v, c, r) <==> ToAdd(Items(v.env), c.env, key, secret)
    ensures forall key :: EnvUpdate(key) in Changes(v, c, r) <==> ToUpdate(Items(v.env), c.env, r.secretVersions, key)
    ensures forall key, secret :: EnvRemove(key, secret) in Changes(v, c, r) <==>
              ToRemove(Items(v.env), c.env, key, secret)
  {
    forall key, secret
      ensures EnvAdd(key, secret) in Changes(v, c, r) <==> ToAdd(Items(v.env), c.env, key, secret)
      ensures EnvRemove(key, secret) in Changes(v, c, r) <==> ToRemove(Items(v.env), c.env, key, secret)
    {
      KindsPlanned(v, c, r, EnvAdd(key, secret));
      KindsPlanned(v, c, r, EnvRemove(key, secret));
      AddPlanned(Items(v.env), r.secretVersions, c.env, key, secret);
      RemovePlanned(Items(v.env), c.env, key, secret);
    }
    forall key ensures EnvUpdate(key) in Changes(v, c, r) <==> ToUpdate(Items(v.env), c.env, r.secretVersions, key) {
      KindsPlanned(v, c, r, EnvUpdate(key));
      UpdatePlanned(Items(v.env), r.secretVersions, c.env, key);
    }
  }

  /** The plan of an application that exists, change by change.  No changes means that it is left
      alone. */
  method Plan(state: State, app: string, latest: Detail, c: Spec) returns (changes: seq<Change>)
    ensures changes == Changes(latest, c, state.Of(app))
    ensures forall name :: Setting(name) in changes <==> SettingChanged(latest, c, name)
    ensures forall target :: PortChange(target) in changes <==>
              !LooksSame(CurrentPort(Items(latest.exposedPorts), target), DesiredPort(c.exposedPorts, target))
    ensures forall key, secret :: EnvAdd(key, secret) in changes <==> ToAdd(Items(latest.env), c.env, key, secret)
    ensures forall key :: EnvUpdate(key) in changes <==>
              ToUpdate(Items(latest.env), c.env, state.Of(app).secretVersions, key)
    ensures forall key, secret :: EnvRemove(key, secret) in changes <==>
              ToRemove(Items(latest.env), c.env, key, secret)
    ensures forall stored, wanted :: PasswordVersion(stored, wanted) in changes <==>
              stored == state.Of(app).passwordVersion && wanted == c.registryPasswordVersion && stored != wanted
  {
    PlanExactly(latest, c, state.Of(app));
    changes := CompareVersion(state, app, latest, c);
  }

  /** `compareVersion`. */
  method CompareVersion(state: State, app: string, latest: Detail, c: Spec) returns (changes: seq<Change>)
    ensures changes == Changes(latest, c, state.Of(app))
  {
    var currentNorm := NormalizeFromAPI(latest);
    var desiredNorm := NormalizeFromConfig(c);
    changes := CompareSpecs(currentNorm, desiredNorm, c.inheritImage || c.image == "");
    var envChanges := CompareEnv(state, app, Items(latest.env), c.env);
    changes := changes + envChanges;
    var stored := state.Of(app).passwordVersion;
    if c.registryPasswordVersion.Some? {
      if stored.None? || stored.value != c.registryPasswordVersion.value {
        changes := changes + [PasswordVersion(stored, c.registryPasswordVersion)];
      }
    } else if stored.Some? {
      changes := changes + [PasswordVersion(stored, None)];
    }
  }
}
