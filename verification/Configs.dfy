/** The configuration of one application, and what the loader accepts. */
module Configs {
  import opened Options
  import opened Kinds
  import opened Wrappers
  import opened HealthChecks

  datatype PortConfig = PortConfig(
    targetPort: int32, loadBalancerPort: Option<int32>, useLetsEncrypt: bool, host: Slice<string>,
    healthCheck: Option<HealthCheck>)

  datatype EnvConfig = EnvConfig(key: string, value: Option<string>, secret: bool, secretVersion: Option<int>)

  datatype Spec = Spec(
    inheritImage: bool, cpu: int64, memory: int64, scalingMode: string, fixedScale: Option<int32>,
    minScale: Option<int32>, maxScale: Option<int32>, scaleInThreshold: Option<int32>,
    scaleOutThreshold: Option<int32>, image: string, cmd: seq<string>, registryUsername: Option<string>,
    registryPassword: Option<string>, registryPasswordVersion: Option<int>, exposedPorts: seq<PortConfig>,
    env: seq<EnvConfig>)

  predicate Accepted(c: Spec) {
    100 <= c.cpu <= 64000 && 128 <= c.memory <= 131072 && (c.scalingMode == "manual" || c.scalingMode == "cpu") &&
    c.image != "" && c.exposedPorts != [] &&
    (c.scalingMode == "manual" ==> c.fixedScale.Some?) &&
    (c.scalingMode == "cpu" ==> c.minScale.Some? && c.maxScale.Some?) &&
    (c.registryPassword.Some? ==> c.registryPasswordVersion.Some?) &&
    forall i :: 0 <= i < |c.env| && c.env[i].secret ==> c.env[i].secretVersion.Some?
  }

  /** `validateApplication`: true when no check fails. */
  method ValidateApplication(name: string, c: Spec) returns (valid: bool)
    ensures valid <==> name != "" && Accepted(c)
    ensures valid <==>
            name != "" && 100 <= c.cpu <= 64000 && 128 <= c.memory <= 131072 && c.image != "" && |c.exposedPorts| > 0 &&
            ((c.scalingMode == "manual" && c.fixedScale.Some?) ||
             (c.scalingMode == "cpu" && c.minScale.Some? && c.maxScale.Some?)) &&
            !(c.registryPassword.Some? && c.registryPasswordVersion.None?) &&
            !exists e :: e in c.env && e.secret && e.secretVersion.None?
  {
    if name == "" {
      return false;
    }
    if c.cpu < 100 || c.cpu > 64000 {
      return false;
    }
    if c.memory < 128 || c.memory > 131072 {
      return false;
    }
    if c.scalingMode != "manual" && c.scalingMode != "cpu" {
      return false;
    }
    if c.image == "" {
      return false;
    }
    if |c.exposedPorts| == 0 {
      return false;
    }
    if c.scalingMode == "manual" {
      if c.fixedScale.None? {
        return false;
      }
    } else if c.minScale.None? || c.maxScale.None? {
      return false;
    }
    if c.registryPassword.Some? && c.registryPasswordVersion.None? {
      return false;
    }
    for j := 0 to |c.env|
      invariant forall i :: 0 <= i < j && c.env[i].secret ==> c.env[i].secretVersion.Some?
    {
      if c.env[j].secret && c.env[j].secretVersion.None? {
        return false;
      }
    }
    return true;
  }

  /** Leaving any of these settings out is not accepted: they can never be inherited. */
  lemma NeverLeftOut(c: Spec)
    requires c.cpu == 0 || c.memory == 0 || c.scalingMode == "" || c.image == "" || c.exposedPorts == []
    ensures !Accepted(c)
  {
  }
}
