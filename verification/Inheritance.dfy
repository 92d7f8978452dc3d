/** What a new version stores of the config, and what of the version before it. */
module Inheritance {
  import opened Options
  import opened Wrappers
  import opened Configs
  import opened NormalForms
  import opened States
  import opened Services
  import opened Planning
  import opened Provisioning
  import opened Convergence

  // ---------- what is left out ----------

  /** Every setting that the config leaves open is stored in `v` as it is in `prev`. */
  predicate Inherits(c: Spec, prev: Stored, v: Stored) {
    var b, s := prev.settings, v.settings;
    (c.cpu == 0 ==> s.cpu == b.cpu) && (c.memory == 0 ==> s.memory == b.memory) &&
    (c.scalingMode == "" ==> s.scalingMode == b.scalingMode) && (SkipsImage(c) ==> s.image == b.image) &&
    (c.fixedScale.None? ==> Unset(s.fixedScale) == Unset(b.fixedScale)) &&
    (c.minScale.None? ==> Unset(s.minScale) == Unset(b.minScale)) &&
    (c.maxScale.None? ==> Unset(s.maxScale) == Unset(b.maxScale)) &&
    (c.scaleInThreshold.None? ==> Unset(s.scaleInThreshold) == Unset(b.scaleInThreshold)) &&
    (c.scaleOutThreshold.None? ==> Unset(s.scaleOutThreshold) == Unset(b.scaleOutThreshold)) &&
    (c.cmd == [] ==> Items(s.cmd) == Items(b.cmd)) &&
    (c.registryUsername.None? ==> Username(s.registryUsername) == Username(b.registryUsername)) &&
    (c.exposedPorts == [] ==> Items(s.exposedPorts) == Items(b.exposedPorts)) &&
    (c.env == [] ==> v.env == prev.env) && (c.registryPassword.None? ==> v.password == prev.password)
  }

  /** Secrets with the same key have the value of the last variable with it. */
  predicate SecretsAgree(env: seq<Variable>) {
    forall i :: 0 <= i < |env| && env[i].secret ==> env[i].value == ValueOf(env, env[i].key)
  }

  /** A request without a password asks to keep the one there is. */
  predicate AsksToKeep(c: Spec, b: Detail) {
    !b.registryUsername.isNull || (c.registryUsername.None? && b.registryUsername.value != "")
  }

  /** A null user name that has a value all the same. */
  predicate HidesName(o: NilOf<string>) { o.isNull && o.value != "" }

  /** Settings that are left out are inherited, values of secrets included, exactly when
      secrets of one key agree and the password there is, if any, goes with a user name. (And
      a null user name hides no value, which a decoder never lets it.) */
  lemma InheritsExactly(c: Spec, prev: Stored, m: Minted)
    ensures Inherits(c, prev, NewStored(c, Some(prev), m)) <==>
            (c.env == [] ==> SecretsAgree(prev.env)) &&
            (c.registryPassword.None? ==> AsksToKeep(c, prev.settings) || prev.password.None?) &&
            (c.registryUsername.None? ==> !HidesName(prev.settings.registryUsername))
  {
    var v := NewStored(c, Some(prev), m);
    if c.env == [] {
      assert v.env == Again(prev.env);
      VariablesInherited(prev.env);
    }
  }

  /** Variables as they are shown, sent again, and stored after themselves. */
  function Again(env: seq<Variable>): seq<Variable> { StoreVariables(env, KeptEnvs(ShowVariables(env))) }

  lemma VariablesInherited(env: seq<Variable>)
    ensures Again(env) == env <==> SecretsAgree(env)
  {
    var again := Again(env);
    forall i | 0 <= i < |env|
      ensures again[i].key == env[i].key && again[i].secret == env[i].secret
      ensures again[i].value == if env[i].secret then ValueOf(env, env[i].key) else env[i].value
    {
      assert again[i] == StoreVariable(env, KeptEnv(ShowVariable(env[i])));
    }
    if SecretsAgree(env) {
      assert forall i :: 0 <= i < |env| ==> again[i] == env[i];
    }
  }

  /** Variables with different keys are inherited whatever they are. */
  lemma DistinctInherited(env: seq<Variable>)
    requires forall i, j :: 0 <= i < j < |env| ==> env[i].key != env[j].key
    ensures SecretsAgree(env) && Again(env) == env
  {
    forall i | 0 <= i < |env| ensures ValueOf(env, env[i].key) == env[i].value {
      DistinctValue(env, i);
    }
    VariablesInherited(env);
  }

  lemma {:induction false} DistinctValue(env: seq<Variable>, i: nat)
    requires i < |env| && forall i, j :: 0 <= i < j < |env| ==> env[i].key != env[j].key
    ensures ValueOf(env, env[i].key) == env[i].value
  {
    if i < |env| - 1 {
      var init := env[..|env| - 1];
      assert init[i] == env[i];
      DistinctValue(init, i);
    }
  }

  /** An example: of two secrets with one key the first takes the value of the second. */
  lemma RepeatedSecretNotInherited(c: Spec, prev: Stored, m: Minted)
    requires c.env == [] && prev.env == [Variable("K", Some("a"), true), Variable("K", Some("b"), true)]
    ensures NewStored(c, Some(prev), m).env == [Variable("K", Some("b"), true), Variable("K", Some("b"), true)]
    ensures !Inherits(c, prev, NewStored(c, Some(prev), m))
  {
    assert ValueOf(prev.env, "K") == Some("b");
    assert NewStored(c, Some(prev), m).env == Again(prev.env);
    forall i | 0 <= i < 2 ensures Again(prev.env)[i] == Variable("K", Some("b"), true) {
      assert Again(prev.env)[i] == StoreVariable(prev.env, KeptEnv(ShowVariable(prev.env[i])));
    }
  }

  /** An example: a password was given without a user name, and the next config leaves both
      out. The password is gone. */
  lemma LonePasswordNotInherited(c1: Spec, c2: Spec, m1: Minted, m2: Minted)
    requires c1.registryUsername.None? && c1.registryPassword.Some?
    requires c2.registryUsername.None? && c2.registryPassword.None?
    ensures var v1 := NewStored(c1, None, m1);
            v1.password == c1.registryPassword && NewStored(c2, Some(v1), m2).password == None
  {
  }

  // ---------- what is specified ----------

  /** What the config specifies is what the new version stores: every setting, every variable in
      order, with the version before supplying the values of secrets that are left out, and the
      password. Ports are cut to 16 bits. */
  lemma SpecifiedExactly(c: Spec, prev: Option<Stored>, m: Minted)
    ensures var v := NewStored(c, prev, m);
            var s := v.settings;
            (c.cpu != 0 ==> s.cpu == c.cpu) && (c.memory != 0 ==> s.memory == c.memory) &&
            (c.scalingMode != "" ==> s.scalingMode == c.scalingMode) && (!SkipsImage(c) ==> s.image == c.image) &&
            (c.fixedScale.Some? ==> Unset(s.fixedScale) == Asked(c.fixedScale)) &&
            (c.minScale.Some? ==> Unset(s.minScale) == Asked(c.minScale)) &&
            (c.maxScale.Some? ==> Unset(s.maxScale) == Asked(c.maxScale)) &&
            (c.scaleInThreshold.Some? ==> Unset(s.scaleInThreshold) == Asked(c.scaleInThreshold)) &&
            (c.scaleOutThreshold.Some? ==> Unset(s.scaleOutThreshold) == Asked(c.scaleOutThreshold)) &&
            (c.cmd != [] ==> Items(s.cmd) == c.cmd) &&
            (c.registryUsername.Some? ==> s.registryUsername == NilOf(c.registryUsername.value, false)) &&
            (c.registryPassword.Some? ==> v.password == c.registryPassword) &&
            (c.exposedPorts != [] ==> Items(s.exposedPorts) == SentPorts(c.exposedPorts)) &&
            (c.env != [] ==> SpecifiedVariables(c.env, OrNone(prev).env, v.env))
    ensures c.exposedPorts != [] ==>
              (PortsOfAPI(Items(NewStored(c, prev, m).settings.exposedPorts)) == PortsOfConfig(c.exposedPorts) <==>
               forall i :: 0 <= i < |c.exposedPorts| ==> InSixteenBits(c.exposedPorts[i]))
  {
    SpecifiedPorts(c.exposedPorts);
    if c.env != [] {
      assert NewStored(c, prev, m).env == StoreVariables(OrNone(prev).env, SentEnvs(c.env));
    }
  }

  /** The config's variables, one for one; a secret without a value has the one before. */
  predicate SpecifiedVariables(env: seq<EnvConfig>, prev: seq<Variable>, v: seq<Variable>) {
    |v| == |env| &&
    forall i :: 0 <= i < |env| ==>
      v[i].key == env[i].key && v[i].secret == env[i].secret &&
      v[i].value == if Omitted(env[i]) then ValueOf(prev, env[i].key) else env[i].value
  }

  predicate Omitted(e: EnvConfig) { e.secret && e.value.None? }

  predicate InSixteenBits(p: PortConfig) {
    InRange(p.targetPort) && (p.loadBalancerPort.Some? ==> InRange(p.loadBalancerPort.value))
  }

  lemma SpecifiedPorts(ports: seq<PortConfig>)
    ensures PortsOfAPI(SentPorts(ports)) == PortsOfConfig(ports) <==>
            forall i :: 0 <= i < |ports| ==> InSixteenBits(ports[i])
  {
    var from, to := PortsOfAPI(SentPorts(ports)), PortsOfConfig(ports);
    forall i | 0 <= i < |ports| ensures from[i] == to[i] <==> InSixteenBits(ports[i]) {
      SamePort(ports[i]);
    }
  }

  // ---------- applying again ----------

  lemma {:induction false} ValueIsLast(prev: seq<Variable>, env: seq<EnvConfig>, key: string)
    ensures ValueOf(StoreVariables(prev, SentEnvs(env)), key) ==
            if LastEnv(env, key).None? then None
            else if Omitted(LastEnv(env, key).value) then ValueOf(prev, key) else LastEnv(env, key).value.value
  {
    if env != [] {
      var init, stored := env[..|env| - 1], StoreVariables(prev, SentEnvs(env));
      ValueIsLast(prev, init, key);
      assert stored[..|env| - 1] == StoreVariables(prev, SentEnvs(init));
    }
  }

  /** A secret without a value gets the same one when the config is applied again. */
  predicate ValuesStay(env: seq<EnvConfig>, prev: seq<Variable>) {
    forall i :: 0 <= i < |env| && Omitted(env[i]) && LastEnv(env, env[i].key).Some? ==>
      var last := LastEnv(env, env[i].key).value;
      Omitted(last) || last.value == ValueOf(prev, env[i].key)
  }

  lemma {:induction false} AgainValue(prev: seq<Variable>, env: seq<Variable>, key: string)
    ensures var value := ValueOf(StoreVariables(prev, KeptEnvs(ShowVariables(env))), key);
            value == ValueOf(env, key) || value == ValueOf(prev, key)
  {
    if env != [] {
      var init, stored := env[..|env| - 1], StoreVariables(prev, KeptEnvs(ShowVariables(env)));
      AgainValue(prev, init, key);
      assert stored[..|env| - 1] == StoreVariables(prev, KeptEnvs(ShowVariables(init)));
      assert stored[|env| - 1] == StoreVariable(prev, KeptEnv(ShowVariable(env[|env| - 1])));
    }
  }

  /** Inherited variables are inherited unchanged from then on. */
  lemma AgainTwice(env: seq<Variable>)
    ensures KeptEnvs(ShowVariables(Again(env))) == KeptEnvs(ShowVariables(env))
    ensures Again(Again(env)) == Again(env)
  {
    var sent, sent' := KeptEnvs(ShowVariables(env)), KeptEnvs(ShowVariables(Again(env)));
    forall i | 0 <= i < |env| ensures sent'[i] == sent[i] {
      assert sent[i] == KeptEnv(ShowVariable(env[i]));
      assert sent'[i] == KeptEnv(ShowVariable(StoreVariable(env, sent[i])));
    }
    assert sent' == sent;
    forall i | 0 <= i < |env| ensures Again(Again(env))[i] == Again(env)[i] {
      AgainValue(env, env, sent[i].key);
      assert Again(Again(env))[i] == StoreVariable(Again(env), sent[i]);
    }
  }

  lemma SpecifiedTwice(env: seq<EnvConfig>, prev: seq<Variable>)
    ensures var sent := SentEnvs(env);
            StoreVariables(StoreVariables(prev, sent), sent) == StoreVariables(prev, sent) <==> ValuesStay(env, prev)
  {
    var sent := SentEnvs(env);
    var once := StoreVariables(prev, sent);
    var twice := StoreVariables(once, sent);
    forall i | 0 <= i < |env|
      ensures LastEnv(env, env[i].key).Some?
      ensures twice[i] == once[i] <==>
              Omitted(env[i]) ==> var last := LastEnv(env, env[i].key).value;
                                  Omitted(last) || last.value == ValueOf(prev, env[i].key)
    {
      CurrentIsLast(env, env[i].key, true);
      ValueIsLast(prev, env, env[i].key);
      assert once[i] == StoreVariable(prev, SentEnv(env[i])) && twice[i] == StoreVariable(once, SentEnv(env[i]));
    }
    if ValuesStay(env, prev) {
      assert forall i :: 0 <= i < |env| ==> twice[i] == once[i];
    }
  }

  /** The second request: the same settings, and the password that the new version has. */
  lemma RequestTwice(c: Spec, prev: Stored, m: Minted, m': Minted)
    ensures var once := NewStored(c, Some(prev), m);
            NewStored(c, Some(once), m').settings == NewStored(c, Some(prev), m').settings &&
            NewStored(c, Some(prev), m').password == once.password &&
            (c.env != [] ==> NewStored(c, Some(once), m').env == StoreVariables(once.env, SentEnvs(c.env))) &&
            (c.env == [] ==> NewStored(c, Some(once), m').env == Again(once.env)) &&
            (NewStored(c, Some(once), m').password == once.password <==>
             !(c.registryPassword.None? && c.registryUsername.None? && prev.password.Some? &&
               prev.settings.registryUsername == NilOf("", false)))
  {
    var base, once := Show(prev), NewStored(c, Some(prev), m);
    ShownIsKept(Some(prev), Wanted(c, Some(base)), m);
    ShownIsKept(Some(once), Wanted(c, Some(Show(once))), m');
    AppliedTwice(c, Some(base), m, m', true, AppState(None, map[]));
    var first, second := Kept(Wanted(c, Some(base)), m', true), Kept(Wanted(c, Some(Show(once))), m', true);
    assert first == second;
    assert NewStored(c, Some(once), m').settings == second.(env := NilSlice);
    assert NewStored(c, Some(prev), m').settings == first.(env := NilSlice);
  }

  /** A second update stores the same version again exactly when secrets without a value keep it
      and no password is dropped for a user name that was empty. */
  lemma StoredTwiceExactly(c: Spec, prev: Stored, m: Minted, m': Minted)
    ensures NewStored(c, Some(NewStored(c, Some(prev), m)), m') == NewStored(c, Some(prev), m') <==>
            ValuesStay(c.env, prev.env) &&
            !(c.registryPassword.None? && c.registryUsername.None? && prev.password.Some? &&
              prev.settings.registryUsername == NilOf("", false))
  {
    var once := NewStored(c, Some(prev), m);
    RequestTwice(c, prev, m, m');
    if c.env == [] {
      AgainTwice(prev.env);
      assert once.env == Again(prev.env) && NewStored(c, Some(prev), m').env == Again(prev.env);
    } else {
      SpecifiedTwice(c.env, prev.env);
      assert once.env == StoreVariables(prev.env, SentEnvs(c.env)) == NewStored(c, Some(prev), m').env;
    }
  }
}
