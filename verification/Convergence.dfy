/** Does planning again right after an apply find nothing to do? */
module Convergence {
  import opened Options
  import opened Wrappers
  import opened Versions
  import opened ReadVersions
  import opened States
  import opened Configs
  import opened NormalForms
  import opened Services
  import opened Planning
  import opened Provisioning

  // ---------- the condition ----------

  predicate InRange(n: int) { 0 <= n < 0x1_0000 }

  /** No later port has the same target. */
  predicate LastOfItsTarget(ports: seq<PortConfig>, i: nat)
    requires i < |ports|
  {
    forall j :: i < j < |ports| ==> ports[j].targetPort != ports[i].targetPort
  }

  predicate PortFits(ports: seq<PortConfig>, i: nat)
    requires i < |ports|
  {
    InRange(ports[i].targetPort) &&
    (LastOfItsTarget(ports, i) && ports[i].loadBalancerPort.Some? ==> InRange(ports[i].loadBalancerPort.value))
  }

  /** Every target port is a port, and so is the load balancer port of every port that no later
      one with the same target replaces. */
  predicate PortsFit(ports: seq<PortConfig>) {
    forall i :: 0 <= i < |ports| ==> PortFits(ports, i)
  }

  /** All that is found at any target port is the zero port, which a comparison takes for none. */
  predicate Blank(ports: seq<ExposedPort>) {
    forall i :: 0 <= i < |ports| && (forall j :: i < j < |ports| ==> ports[j].targetPort != ports[i].targetPort) ==>
      PortOfAPI(ports[i]) == ZERO_PORT
  }

  predicate Versioned(e: EnvConfig) { e.secret && e.secretVersion.Some? }

  /** The last variable of the config with this key. */
  function LastEnv(env: seq<EnvConfig>, key: string): Option<EnvConfig> {
    if env == [] then None
    else
      var last := env[|env| - 1];
      if last.key == key then Some(last) else LastEnv(env[..|env| - 1], key)
  }

  /** What the service shows of a variable it was sent. */
  function ShownBack(e: EnvConfig, masks: bool): string { if masks && e.secret then "" else Text(e) }

  predicate VersionsAgree(env: seq<EnvConfig>) {
    forall i, j ::
      0 <= i < |env| && 0 <= j < |env| && env[i].key == env[j].key && Versioned(env[i]) && Versioned(env[j]) ==>
      env[i].secretVersion == env[j].secretVersion
  }

  /** Variables with the same key agree: on the version if they have one, on the value if they
      are not secret. */
  predicate EnvAgrees(env: seq<EnvConfig>, masks: bool) {
    VersionsAgree(env) &&
    forall i :: 0 <= i < |env| && !env[i].secret ==>
      LastEnv(env, env[i].key).Some? && Text(env[i]) == ShownBack(LastEnv(env, env[i].key).value, masks)
  }

  predicate SizesSettled(c: Spec, b: Detail) {
    (c.cpu != 0 || b.cpu == 0) && (c.memory != 0 || b.memory == 0) && (c.scalingMode != "" || b.scalingMode == "")
  }

  predicate ScalesSettled(c: Spec, b: Detail) {
    (c.fixedScale.Some? || !b.fixedScale.isSet) && (c.minScale.Some? || !b.minScale.isSet) &&
    (c.maxScale.Some? || !b.maxScale.isSet) && (c.scaleInThreshold.Some? || !b.scaleInThreshold.isSet) &&
    (c.scaleOutThreshold.Some? || !b.scaleOutThreshold.isSet)
  }

  predicate TextsSettled(c: Spec, b: Detail) {
    (c.cmd != [] || Join(Items(b.cmd), " ") == "") && (c.registryUsername.Some? || b.registryUsername.value == "")
  }

  predicate EnvSettled(c: Spec, b: Detail, masks: bool) {
    if c.env == [] then Items(b.env) == [] else EnvAgrees(c.env, masks)
  }

  /** The config leaves nothing open that the base version sets. */
  predicate Settled(c: Spec, base: Option<Detail>, masks: bool) {
    var b := Base(base);
    SizesSettled(c, b) && ScalesSettled(c, b) && TextsSettled(c, b) && EnvSettled(c, b, masks) &&
    if c.exposedPorts == [] then Blank(Items(b.exposedPorts)) else PortsFit(c.exposedPorts)
  }

  // ---------- ports ----------

  lemma SamePort(p: PortConfig)
    ensures PortOfAPI(SentPort(p)) == PortOfConfig(p) <==>
            InRange(p.targetPort) && (p.loadBalancerPort.Some? ==> InRange(p.loadBalancerPort.value))
  {
  }

  lemma {:induction false} PortAtLast(ports: seq<NormalPort>, i: nat)
    requires i < |ports| && forall j :: i < j < |ports| ==> ports[j].targetPort != ports[i].targetPort
    ensures PortAt(ports, ports[i].targetPort) == Some(ports[i])
  {
    if i < |ports| - 1 {
      PortAtLast(ports[..|ports| - 1], i);
    }
  }

  lemma LastWith(ports: seq<PortConfig>, i: nat) returns (last: nat)
    requires i < |ports|
    ensures i <= last < |ports| && ports[last].targetPort == ports[i].targetPort && LastOfItsTarget(ports, last)
  {
    last := i;
    for n := i + 1 to |ports|
      invariant i <= last < n && ports[last].targetPort == ports[i].targetPort
      invariant forall j :: last < j < n ==> ports[j].targetPort != ports[i].targetPort
    {
      if ports[n].targetPort == ports[i].targetPort {
        last := n;
      }
    }
  }

  lemma PortMatches(ports: seq<PortConfig>, i: nat)
    requires PortsFit(ports) && i < |ports|
    ensures PortAt(PortsOfAPI(SentPorts(ports)), ports[i].targetPort) ==
        PortAt(PortsOfConfig(ports), ports[i].targetPort)
  {
    var from, to := PortsOfAPI(SentPorts(ports)), PortsOfConfig(ports);
    var last := LastWith(ports, i);
    assert PortFits(ports, last);
    SamePort(ports[last]);
    forall j | last < j < |ports|
      ensures from[j].targetPort != from[last].targetPort && to[j].targetPort != to[last].targetPort
    {
      assert PortFits(ports, j);
    }
    PortAtLast(from, last);
    PortAtLast(to, last);
  }

  lemma PortDiffers(ports: seq<PortConfig>, i: nat)
    requires i < |ports| && !PortFits(ports, i)
    ensures OrZero(PortAt(PortsOfAPI(SentPorts(ports)), ports[i].targetPort)) !=
            OrZero(PortAt(PortsOfConfig(ports), ports[i].targetPort))
  {
    var from, to, target := PortsOfAPI(SentPorts(ports)), PortsOfConfig(ports), ports[i].targetPort;
    PortAtExact(from, target);
    PortAtExact(to, target);
    assert to[i].targetPort == target;
    if InRange(target) {
      PortAtLast(to, i);
      if PortAt(from, target).Some? {
        PortAtFrom(ports, target);
      }
    } else {
      forall j | 0 <= j < |from| ensures from[j].targetPort != target {
      }
    }
  }

  /** Every port the service keeps has its load balancer port in range. */
  lemma PortAtFrom(ports: seq<PortConfig>, target: int)
    requires PortAt(PortsOfAPI(SentPorts(ports)), target).Some?
    ensures var lb := PortAt(PortsOfAPI(SentPorts(ports)), target).value.loadBalancerPort;
            lb.Some? ==> InRange(lb.value)
  {
    PortAtExact(PortsOfAPI(SentPorts(ports)), target);
  }

  lemma PortsExact(ports: seq<PortConfig>)
    ensures Agree(PortsOfAPI(SentPorts(ports)), PortsOfConfig(ports)) <==> PortsFit(ports)
  {
    var from, to := PortsOfAPI(SentPorts(ports)), PortsOfConfig(ports);
    if PortsFit(ports) {
      forall target: int ensures PortAt(from, target) == PortAt(to, target) {
        PortsMatch(ports, target);
      }
    } else {
      var i: nat :| i < |ports| && !PortFits(ports, i);
      PortDiffers(ports, i);
    }
  }

  lemma {:induction false} PortAtFound(ports: seq<NormalPort>, target: int) returns (i: nat)
    requires PortAt(ports, target).Some?
    ensures i < |ports| && PortAt(ports, target) == Some(ports[i]) && ports[i].targetPort == target
    ensures forall j :: i < j < |ports| ==> ports[j].targetPort != target
  {
    i := |ports| - 1;
    if ports[i].targetPort != target {
      i := PortAtFound(ports[..|ports| - 1], target);
    }
  }

  lemma PortsMatch(ports: seq<PortConfig>, target: int)
    requires PortsFit(ports)
    ensures PortAt(PortsOfAPI(SentPorts(ports)), target) == PortAt(PortsOfConfig(ports), target)
  {
    var from, to := PortsOfAPI(SentPorts(ports)), PortsOfConfig(ports);
    if PortAt(to, target).Some? {
      var i := PortAtFound(to, target);
      PortMatches(ports, i);
    } else {
      PortAtExact(to, target);
      forall i | 0 <= i < |ports| ensures from[i].targetPort == to[i].targetPort {
        assert PortFits(ports, i);
      }
      PortAtExact(from, target);
    }
  }

  lemma PortsRemain(kept: seq<ExposedPort>)
    ensures Agree(PortsOfAPI(kept), []) <==> Blank(kept)
  {
    var from := PortsOfAPI(kept);
    forall i | 0 <= i < |kept| && forall j :: i < j < |kept| ==> kept[j].targetPort != kept[i].targetPort
      ensures PortAt(from, from[i].targetPort) == Some(PortOfAPI(kept[i]))
    {
      PortAtLast(from, i);
    }
    if Blank(kept) {
      forall target: int ensures OrZero(PortAt(from, target)) == ZERO_PORT {
        BlankAt(kept, target);
      }
    }
  }

  lemma BlankAt(kept: seq<ExposedPort>, target: int)
    requires Blank(kept)
    ensures OrZero(PortAt(PortsOfAPI(kept), target)) == ZERO_PORT
  {
    var from := PortsOfAPI(kept);
    if PortAt(from, target).Some? {
      var i := PortAtFound(from, target);
      forall j | i < j < |kept| ensures kept[j].targetPort != kept[i].targetPort {
        assert from[j].targetPort != target;
      }
    }
  }

  // ---------- environment ----------

  /** The variables as the service shows them. */
  function Back(env: seq<EnvConfig>, masks: bool): seq<ReadEnvironmentVariable> {
    seq(|env|, i requires 0 <= i < |env| => KeptVariable(SentEnv(env[i]), masks))
  }

  lemma {:induction false} CurrentIsLast(env: seq<EnvConfig>, key: string, masks: bool)
    ensures CurrentEnv(Back(env, masks), key) ==
            if LastEnv(env, key).Some? then Some(KeptVariable(SentEnv(LastEnv(env, key).value), masks)) else None
    ensures LastEnv(env, key).Some? <==> Configured(env, key)
  {
    if env != [] {
      var init := env[..|env| - 1];
      CurrentIsLast(init, key, masks);
      assert Back(env, masks)[..|env| - 1] == Back(init, masks);
      if Configured(init, key) {
        var i :| 0 <= i < |init| && init[i].key == key;
        assert env[i].key == key;
      }
    }
  }

  /** The version the config gives a secret last. */
  function LastVersion(env: seq<EnvConfig>, key: string): Option<int> {
    if env == [] then None
    else
      var last := env[|env| - 1];
      if last.key == key && Versioned(last) then last.secretVersion else LastVersion(env[..|env| - 1], key)
  }

  lemma {:induction false} RecordedAt(secrets: map<string, int>, env: seq<EnvConfig>, key: string)
    ensures key in Recorded(secrets, env) <==> LastVersion(env, key).Some? || key in secrets
    ensures key in Recorded(secrets, env) ==>
              Recorded(secrets, env)[key] == if LastVersion(env, key).Some? then LastVersion(env, key).value
                  else secrets[key]
  {
    if env != [] {
      RecordedAt(secrets, env[..|env| - 1], key);
    }
  }

  /** Recording the same config twice is recording it once. */
  lemma RecordedTwice(secrets: map<string, int>, env: seq<EnvConfig>)
    ensures Recorded(Recorded(secrets, env), env) == Recorded(secrets, env)
  {
    var once, twice := Recorded(secrets, env), Recorded(Recorded(secrets, env), env);
    forall key ensures key in twice <==> key in once {
      RecordedAt(secrets, env, key);
      RecordedAt(once, env, key);
    }
    forall key | key in once ensures twice[key] == once[key] {
      RecordedAt(secrets, env, key);
      RecordedAt(once, env, key);
    }
    assert once == twice;
  }

  /** `LastVersion` is the version of some variable with the key, and is there if any is. */
  lemma {:induction false} LastVersionExact(env: seq<EnvConfig>, key: string)
    ensures LastVersion(env, key).Some? <==> exists i :: 0 <= i < |env| && env[i].key == key && Versioned(env[i])
    ensures LastVersion(env, key).Some? ==>
              exists i :: 0 <= i < |env| && env[i].key == key && Versioned(env[i]) &&
                env[i].secretVersion == LastVersion(env, key)
  {
    if env != [] {
      var init := env[..|env| - 1];
      LastVersionExact(init, key);
      if LastVersion(init, key).Some? {
        var i :| 0 <= i < |init| && init[i].key == key && Versioned(init[i]) &&
          init[i].secretVersion == LastVersion(init, key);
        assert env[i] == init[i];
      }
      if exists i :: 0 <= i < |env| && env[i].key == key && Versioned(env[i]) {
        var i :| 0 <= i < |env| && env[i].key == key && Versioned(env[i]);
        if i < |init| {
          assert init[i] == env[i];
        }
      }
    }
  }

  lemma {:induction false} NoEnvChanges(current: seq<ReadEnvironmentVariable>, secrets: map<string, int>,
      env: seq<EnvConfig>)
    ensures EnvChanges(current, secrets, env) == [] <==>
            forall i :: 0 <= i < |env| ==> EnvChange(current, secrets, env[i]) == []
  {
    if env != [] {
      var init, last := env[..|env| - 1], env[|env| - 1];
      NoEnvChanges(current, secrets, init);
      assert EnvChanges(current, secrets, env) == [] <==>
             EnvChanges(current, secrets, init) == [] && EnvChange(current, secrets, last) == [];
      assert forall i :: 0 <= i < |env| ==> env[i] == if i < |init| then init[i] else last;
    }
  }

  lemma {:induction false} NoEnvRemovals(current: seq<ReadEnvironmentVariable>, env: seq<EnvConfig>)
    ensures EnvRemovals(current, env) == [] <==> forall i :: 0 <= i < |current| ==> Configured(env, current[i].key)
  {
    if current != [] {
      var init, last := current[..|current| - 1], current[|current| - 1];
      NoEnvRemovals(init, env);
      assert EnvRemovals(current, env) == [] <==> EnvRemovals(init, env) == [] && Configured(env, last.key);
      assert forall i :: 0 <= i < |current| ==> current[i] == if i < |init| then init[i] else last;
    }
  }

  /** What the second plan says about one variable. */
  lemma OneVariable(env: seq<EnvConfig>, secrets: map<string, int>, masks: bool, i: nat)
    requires i < |env|
    ensures LastEnv(env, env[i].key).Some?
    ensures EnvChange(Back(env, masks), Recorded(secrets, env), env[i]) == [] <==>
            if env[i].secret then (Versioned(env[i]) ==> LastVersion(env, env[i].key) == env[i].secretVersion)
            else Text(env[i]) == ShownBack(LastEnv(env, env[i].key).value, masks)
  {
    CurrentIsLast(env, env[i].key, masks);
    RecordedAt(secrets, env, env[i].key);
    LastVersionExact(env, env[i].key);
  }

  lemma VersionsAgreeExactly(env: seq<EnvConfig>)
    ensures VersionsAgree(env) <==>
            forall i :: 0 <= i < |env| && Versioned(env[i]) ==> LastVersion(env, env[i].key) == env[i].secretVersion
  {
    forall i | 0 <= i < |env| && Versioned(env[i])
      ensures exists j :: 0 <= j < |env| && env[j].key == env[i].key && Versioned(env[j]) &&
                          env[j].secretVersion == LastVersion(env, env[i].key)
    {
      LastVersionExact(env, env[i].key);
    }
  }

  lemma EnvExact(env: seq<EnvConfig>, secrets: map<string, int>, masks: bool)
    ensures EnvChanges(Back(env, masks), Recorded(secrets, env), env) == [] <==> EnvAgrees(env, masks)
    ensures EnvRemovals(Back(env, masks), env) == []
  {
    var current := Back(env, masks);
    NoEnvChanges(current, Recorded(secrets, env), env);
    NoEnvRemovals(current, env);
    forall i | 0 <= i < |current| ensures Configured(env, current[i].key) {
      assert env[i].key == current[i].key;
    }
    VersionsAgreeExactly(env);
    forall i | 0 <= i < |env|
      ensures LastEnv(env, env[i].key).Some?
      ensures EnvChange(current, Recorded(secrets, env), env[i]) == [] <==>
              if env[i].secret then (Versioned(env[i]) ==> LastVersion(env, env[i].key) == env[i].secretVersion)
              else Text(env[i]) == ShownBack(LastEnv(env, env[i].key).value, masks)
    {
      OneVariable(env, secrets, masks, i);
    }
  }

  // ---------- convergence ----------

  lemma KeptParts(c: Spec, base: Option<Detail>, m: Minted, masks: bool)
    ensures var v := NewVersion(c, base, m, masks);
            Items(v.exposedPorts) == (if c.exposedPorts != [] then SentPorts(c.exposedPorts)
                else Items(Base(base).exposedPorts)) &&
            (c.env != [] ==> Items(v.env) == Back(c.env, masks)) &&
            (c.env == [] ==> |Items(v.env)| == |Items(Base(base).env)|)
  {
  }

  /** Which settings of the new version agree with the config. */
  lemma SettingsSettle(c: Spec, base: Option<Detail>, m: Minted, masks: bool)
    ensures var from, to := OfAPI(NewVersion(c, base, m, masks)), OfConfig(c);
            (SkipsImage(c) || from.image == to.image) &&
            (from.(image := to.image, exposedPorts := to.exposedPorts) == to <==>
             SizesSettled(c, Base(base)) && ScalesSettled(c, Base(base)) && TextsSettled(c, Base(base)))
  {
    assert Join([], " ") == "";
  }

  lemma PortsSettle(c: Spec, base: Option<Detail>, m: Minted, masks: bool)
    ensures Agree(OfAPI(NewVersion(c, base, m, masks)).exposedPorts, OfConfig(c).exposedPorts) <==>
            if c.exposedPorts == [] then Blank(Items(Base(base).exposedPorts)) else PortsFit(c.exposedPorts)
  {
    KeptParts(c, base, m, masks);
    AgreeSorted(PortsOfAPI(Items(NewVersion(c, base, m, masks).exposedPorts)), PortsOfConfig(c.exposedPorts));
    if c.exposedPorts == [] {
      assert PortsOfConfig(c.exposedPorts) == [];
      PortsRemain(Items(Base(base).exposedPorts));
    } else {
      PortsExact(c.exposedPorts);
    }
  }

  /** The plan right after an update is empty exactly when the config leaves nothing open that
      the version before it had set. */
  lemma ConvergesExactly(c: Spec, base: Option<Detail>, m: Minted, masks: bool, r: AppState)
    ensures Changes(NewVersion(c, base, m, masks), c, Updated(r, c)) == [] <==> Settled(c, base, masks)
  {
    var v := NewVersion(c, base, m, masks);
    NothingReported(OfAPI(v), OfConfig(c), SkipsImage(c));
    SettingsSettle(c, base, m, masks);
    PortsSettle(c, base, m, masks);
    EnvSettles(c, base, m, masks, r);
    NoChanges(v, c, Updated(r, c));
  }

  lemma NoChanges(v: Detail, c: Spec, r: AppState)
    ensures Changes(v, c, r) == [] <==>
            SpecChanges(v, c) == [] &&
            EnvChanges(Items(v.env), r.secretVersions, c.env) == [] && EnvRemovals(Items(v.env), c.env) == [] &&
            r.passwordVersion == c.registryPasswordVersion
  {
  }

  lemma EnvSettles(c: Spec, base: Option<Detail>, m: Minted, masks: bool, r: AppState)
    ensures var current := Items(NewVersion(c, base, m, masks).env);
            (EnvChanges(current, Recorded(r.secretVersions, c.env), c.env) == [] && EnvRemovals(current, c.env) == [])
            <==> EnvSettled(c, Base(base), masks)
  {
    KeptParts(c, base, m, masks);
    if c.env == [] {
      NoEnvRemovals(Items(NewVersion(c, base, m, masks).env), c.env);
    } else {
      EnvExact(c.env, r.secretVersions, masks);
    }
  }

  /** Applying again makes the same version again, and records the same. */
  lemma AppliedTwice(c: Spec, base: Option<Detail>, m: Minted, m': Minted, masks: bool, r: AppState)
    ensures NewVersion(c, Some(NewVersion(c, base, m, masks)), m', masks) == NewVersion(c, base, m', masks)
    ensures Updated(Updated(r, c), c) == Updated(r, c)
  {
    RecordedTwice(r.secretVersions, c.env);
    var v := NewVersion(c, base, m, masks);
    if c.env == [] {
      assert KeptEnvs(Items(v.env)) == KeptEnvs(Items(Base(base).env));
    }
  }

  /** Any number of updates, then a plan: it is empty exactly when it would have been after
      the first of them.  What does not settle at once never does. */
  method ApplyRepeatedly(state: State, service: Service, app: string, c: Spec, ms: seq<Minted>)
    returns (changes: seq<Change>)
    requires ms != []
    modifies state, service
    ensures changes == [] <==> Settled(c, ShowLatest(old(service.Latest())), true)
    ensures |service.versions| == |old(service.versions)| + |ms|
    ensures state.Of(app) == Updated(old(state.Of(app)), c)
    ensures forall a :: a != app ==> state.Of(a) == old(state.Of(a))
  {
    ghost var r, base := state.Of(app), ShowLatest(service.Latest());
    ShownIsKept(service.Latest(), Wanted(c, base), ms[0]);
    var stateModified := ApplyUpdate(state, service, app, c, ms[0]);
    for n := 1 to |ms|
      invariant ShowLatest(service.Latest()) == Some(NewVersion(c, base, ms[n - 1], true))
      invariant |service.versions| == |old(service.versions)| + n
      invariant state.Of(app) == Updated(r, c)
      invariant forall a :: a != app ==> state.Of(a) == old(state.Of(a))
    {
      AppliedTwice(c, base, ms[n - 1], ms[n], true, r);
      ShownIsKept(service.Latest(), Wanted(c, ShowLatest(service.Latest())), ms[n]);
      stateModified := ApplyUpdate(state, service, app, c, ms[n]);
    }
    ConvergesExactly(c, base, ms[|ms| - 1], true, r);
    var latest := service.GetLatestVersion();
    changes := Plan(state, app, latest.value, c);
  }

  /** After a creation there is nothing to inherit; but a password version left over from an
      earlier application of that name makes the next plan remove it. */
  lemma CreationConvergesExactly(c: Spec, m: Minted, masks: bool, r: AppState)
    ensures Changes(NewVersion(c, None, m, masks), c, Created(r, c)) == [] <==>
            Settled(c, None, masks) && (c.registryPasswordVersion.Some? || r.passwordVersion.None?)
  {
    ConvergesExactly(c, None, m, masks, r);
  }

  // ---------- what the loader accepts ----------

  /** For a config the loader accepts, the plan right after an update is empty exactly when no
      optional setting is inherited, the ports fit 16 bits, and variables of one key agree. */
  lemma AcceptedSettles(c: Spec, base: Option<Detail>, m: Minted, masks: bool, r: AppState)
    requires Accepted(c)
    ensures Changes(NewVersion(c, base, m, masks), c, Updated(r, c)) == [] <==>
            ScalesSettled(c, Base(base)) && TextsSettled(c, Base(base)) && EnvSettled(c, Base(base), masks) &&
            PortsFit(c.exposedPorts)
  {
    ConvergesExactly(c, base, m, masks, r);
  }

  /** Variables with different keys agree. */
  lemma DistinctAgree(env: seq<EnvConfig>, masks: bool)
    requires forall i, j :: 0 <= i < j < |env| ==> env[i].key != env[j].key
    ensures EnvAgrees(env, masks)
  {
    forall i | 0 <= i < |env| ensures LastEnv(env, env[i].key) == Some(env[i]) {
      DistinctLast(env, i);
    }
  }

  lemma {:induction false} DistinctLast(env: seq<EnvConfig>, i: nat)
    requires i < |env| && forall i, j :: 0 <= i < j < |env| ==> env[i].key != env[j].key
    ensures LastEnv(env, env[i].key) == Some(env[i])
  {
    if i < |env| - 1 {
      var init := env[..|env| - 1];
      assert init[i] == env[i];
      DistinctLast(init, i);
    }
  }

  /** An example: the command of the version before is inherited, as promised, and every plan
      from then on wants to remove it. */
  lemma InheritedCommand(c: Spec, b: Detail, m: Minted, masks: bool, r: AppState)
    requires c.cmd == [] && b.cmd == SliceOf(["serve"])
    ensures NewVersion(c, Some(b), m, masks).cmd == b.cmd
    ensures Setting("Cmd") in Changes(NewVersion(c, Some(b), m, masks), c, Updated(r, c))
  {
    var v := NewVersion(c, Some(b), m, masks);
    assert Join(Items(v.cmd), " ") == "serve" != "" == Join(c.cmd, " ");
    DiffExactly(OfAPI(v), OfConfig(c), Setting("Cmd"));
    WithoutExactly(Diff(OfAPI(v), OfConfig(c)), SkipsImage(c));
    assert Setting("Cmd") in SpecChanges(v, c);
  }
}
