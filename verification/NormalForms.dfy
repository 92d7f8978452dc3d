/** The normal form of a version's settings, in which the plan compares them. */
module NormalForms {
  import opened Options
  import opened Kinds
  import opened Wrappers
  import opened HealthChecks
  import opened Versions
  import opened ReadVersions
  import opened Configs

  type Detail = ReadApplicationVersionDetail

  // ---------- the normal form ----------

  /** A port; its hosts are one string. */
  datatype NormalPort = NormalPort(
    targetPort: int, loadBalancerPort: Option<int>, useLetsEncrypt: bool, hosts: string, path: string,
    interval: int, timeout: int)

  datatype NormalSpec = NormalSpec(
    cpu: int, memory: int, scalingMode: string, fixedScale: Option<int>, minScale: Option<int>,
    maxScale: Option<int>, scaleInThreshold: Option<int>, scaleOutThreshold: Option<int>, image: string,
    cmd: string, registryUsername: string, exposedPorts: seq<NormalPort>)

  /** `strings.Join`. */
  function Join(parts: seq<string>, sep: string): string {
    if parts == [] then ""
    else if |parts| == 1 then parts[0]
    else Join(parts[..|parts| - 1], sep) + sep + parts[|parts| - 1]
  }

  /** Lexicographic order of strings. */
  predicate Below(s: string, t: string) {
    s == [] || (t != [] && (s[0] < t[0] || (s[0] == t[0] && Below(s[1..], t[1..]))))
  }

  function Insert(s: string, sorted: seq<string>): seq<string> {
    if sorted == [] || Below(s, sorted[0]) then [s] + sorted else [sorted[0]] + Insert(s, sorted[1..])
  }

  /** `sort.Strings`. */
  function Sort(strings: seq<string>): seq<string> {
    if strings == [] then [] else Insert(strings[0], Sort(strings[1..]))
  }

  function Hosts(host: Slice<string>): string { Join(Sort(Items(host)), ",") }

  function InsertPort(p: NormalPort, sorted: seq<NormalPort>): seq<NormalPort> {
    if sorted == [] || p.targetPort <= sorted[0].targetPort then [p] + sorted
    else [sorted[0]] + InsertPort(p, sorted[1..])
  }

  /** `sortNormalizedSpec`: by target port, equal ones in their order. */
  function SortPorts(ports: seq<NormalPort>): seq<NormalPort> {
    if ports == [] then [] else InsertPort(ports[0], SortPorts(ports[1..]))
  }

  function PortOfAPI(p: ExposedPort): NormalPort {
    var hc := if p.healthCheck.isNull then ZERO_HEALTH_CHECK else p.healthCheck.value;
    NormalPort(p.targetPort, if p.loadBalancerPort.isNull then None else Some(p.loadBalancerPort.value),
               p.useLetsEncrypt, Hosts(p.host), hc.path, hc.intervalSeconds, hc.timeoutSeconds)
  }

  function PortOfConfig(p: PortConfig): NormalPort {
    var hc := if p.healthCheck.None? then ZERO_HEALTH_CHECK else p.healthCheck.value;
    NormalPort(p.targetPort, Asked(p.loadBalancerPort),
               p.useLetsEncrypt, Hosts(p.host), hc.path, hc.intervalSeconds, hc.timeoutSeconds)
  }

  function PortsOfAPI(ports: seq<ExposedPort>): seq<NormalPort> {
    seq(|ports|, i requires 0 <= i < |ports| => PortOfAPI(ports[i]))
  }

  function PortsOfConfig(ports: seq<PortConfig>): seq<NormalPort> {
    seq(|ports|, i requires 0 <= i < |ports| => PortOfConfig(ports[i]))
  }

  function Unset(o: OptOf<int32>): Option<int> { if o.isSet then Some(o.value) else None }

  function Asked(o: Option<int32>): Option<int> { if o.Some? then Some(o.value) else None }

  function Username(o: NilOf<string>): string { if o.isNull then "" else o.value }

  function Named(o: Option<string>): string { if o.Some? then o.value else "" }

  function OfAPI(v: Detail): NormalSpec {
    NormalSpec(v.cpu, v.memory, v.scalingMode, Unset(v.fixedScale), Unset(v.minScale), Unset(v.maxScale),
               Unset(v.scaleInThreshold), Unset(v.scaleOutThreshold), v.image, Join(Items(v.cmd), " "),
               Username(v.registryUsername), SortPorts(PortsOfAPI(Items(v.exposedPorts))))
  }

  function OfConfig(c: Spec): NormalSpec {
    NormalSpec(c.cpu, c.memory, c.scalingMode, Asked(c.fixedScale), Asked(c.minScale), Asked(c.maxScale),
               Asked(c.scaleInThreshold), Asked(c.scaleOutThreshold), c.image, Join(c.cmd, " "),
               Named(c.registryUsername), SortPorts(PortsOfConfig(c.exposedPorts)))
  }

  /** `NormalizeFromAPI`. */
  method NormalizeFromAPI(v: Detail) returns (spec: NormalSpec)
    ensures spec == OfAPI(v)
  {
    spec := NormalSpec(v.cpu, v.memory, v.scalingMode, None, None, None, None, None, v.image,
                       Join(Items(v.cmd), " "), "", []);
    if v.fixedScale.isSet {
      spec := spec.(fixedScale := Some(v.fixedScale.value));
    }
    if v.minScale.isSet {
      spec := spec.(minScale := Some(v.minScale.value));
    }
    if v.maxScale.isSet {
      spec := spec.(maxScale := Some(v.maxScale.value));
    }
    if v.scaleInThreshold.isSet {
      spec := spec.(scaleInThreshold := Some(v.scaleInThreshold.value));
    }
    if v.scaleOutThreshold.isSet {
      spec := spec.(scaleOutThreshold := Some(v.scaleOutThreshold.value));
    }
    if !v.registryUsername.isNull {
      spec := spec.(registryUsername := v.registryUsername.value);
    }
    var ports := NormalizePorts(Items(v.exposedPorts));
    spec := spec.(exposedPorts := SortPorts(ports));
  }

  method NormalizePorts(ports: seq<ExposedPort>) returns (normal: seq<NormalPort>)
    ensures normal == PortsOfAPI(ports)
  {
    normal := [];
    for i := 0 to |ports|
      invariant normal == PortsOfAPI(ports[..i])
    {
      var p := ports[i];
      var np := NormalPort(p.targetPort, None, p.useLetsEncrypt, "", "", 0, 0);
      if !p.loadBalancerPort.isNull {
        np := np.(loadBalancerPort := Some(p.loadBalancerPort.value));
      }
      np := np.(hosts := Join(Sort(Items(p.host)), ","));
      if !p.healthCheck.isNull {
        var hc := p.healthCheck.value;
        np := np.(path := hc.path, interval := hc.intervalSeconds, timeout := hc.timeoutSeconds);
      }
      normal := normal + [np];
    }
    assert ports[..|ports|] == ports;
  }

  /** `NormalizeFromConfig`. */
  method NormalizeFromConfig(c: Spec) returns (spec: NormalSpec)
    ensures spec == OfConfig(c)
  {
    spec := NormalSpec(c.cpu, c.memory, c.scalingMode, Asked(c.fixedScale), Asked(c.minScale), Asked(c.maxScale),
                       Asked(c.scaleInThreshold), Asked(c.scaleOutThreshold), c.image, Join(c.cmd, " "), "", []);
    if c.registryUsername.Some? {
      spec := spec.(registryUsername := c.registryUsername.value);
    }
    var ports: seq<NormalPort> := [];
    for i := 0 to |c.exposedPorts|
      invariant ports == PortsOfConfig(c.exposedPorts[..i])
    {
      var p := c.exposedPorts[i];
      var np := NormalPort(p.targetPort, Asked(p.loadBalancerPort), p.useLetsEncrypt, "", "", 0, 0);
      np := np.(hosts := Join(Sort(Items(p.host)), ","));
      if p.healthCheck.Some? {
        var hc := p.healthCheck.value;
        np := np.(path := hc.path, interval := hc.intervalSeconds, timeout := hc.timeoutSeconds);
      }
      ports := ports + [np];
    }
    assert c.exposedPorts[..|c.exposedPorts|] == c.exposedPorts;
    spec := spec.(exposedPorts := SortPorts(ports));
  }

  // ---------- the diff library ----------

  datatype Change =
    | Setting(name: string)
    | PortChange(targetPort: int)
    | EnvAdd(key: string, secret: bool)
    | EnvUpdate(key: string)
    | EnvRemove(key: string, secret: bool)
    | PasswordVersion(stored: Option<int>, wanted: Option<int>)

  /** Ports are matched by their target port; the last of equal ones counts. */
  function PortAt(ports: seq<NormalPort>, target: int): Option<NormalPort> {
    if ports == [] then None
    else
      var last := ports[|ports| - 1];
      if last.targetPort == target then Some(last) else PortAt(ports[..|ports| - 1], target)
  }

  const ZERO_PORT := NormalPort(0, None, false, "", "", 0, 0)

  /** A port that is new or gone is compared field by field with the zero port. */
  function OrZero(p: Option<NormalPort>): NormalPort { if p.Some? then p.value else ZERO_PORT }

  function PortChanges(ports: seq<NormalPort>, from: seq<NormalPort>, to: seq<NormalPort>): seq<Change> {
    if ports == [] then []
    else
      var target := ports[|ports| - 1].targetPort;
      PortChanges(ports[..|ports| - 1], from, to) +
      if OrZero(PortAt(from, target)) != OrZero(PortAt(to, target)) then [PortChange(target)] else []
  }

  function Differ(differs: bool, name: string): seq<Change> { if differs then [Setting(name)] else [] }

  function SizeChanges(from: NormalSpec, to: NormalSpec): seq<Change> {
    Differ(from.cpu != to.cpu, "CPU") + Differ(from.memory != to.memory, "Memory") +
    Differ(from.scalingMode != to.scalingMode, "ScalingMode")
  }

  function ScaleChanges(from: NormalSpec, to: NormalSpec): seq<Change> {
    Differ(from.fixedScale != to.fixedScale, "FixedScale") + Differ(from.minScale != to.minScale, "MinScale") +
    Differ(from.maxScale != to.maxScale, "MaxScale") +
    Differ(from.scaleInThreshold != to.scaleInThreshold, "ScaleInThreshold") +
    Differ(from.scaleOutThreshold != to.scaleOutThreshold, "ScaleOutThreshold")
  }

  function TextChanges(from: NormalSpec, to: NormalSpec): seq<Change> {
    Differ(from.image != to.image, "Image") + Differ(from.cmd != to.cmd, "Cmd") +
    Differ(from.registryUsername != to.registryUsername, "RegistryUsername")
  }

  /** `diff.Diff`, as to which values it reports. */
  function Diff(from: NormalSpec, to: NormalSpec): seq<Change> {
    SizeChanges(from, to) + ScaleChanges(from, to) + TextChanges(from, to) +
    PortChanges(from.exposedPorts + to.exposedPorts, from.exposedPorts, to.exposedPorts)
  }

  /** `CompareSpecs`: everything reported, in order, with the image left out on demand. */
  method CompareSpecs(from: NormalSpec, to: NormalSpec, skipImage: bool) returns (changes: seq<Change>)
    ensures changes == Without(Diff(from, to), skipImage)
  {
    changes := Format(Diff(from, to), skipImage);
  }

  method Format(changelog: seq<Change>, skipImage: bool) returns (changes: seq<Change>)
    ensures changes == Without(changelog, skipImage)
  {
    changes := [];
    for i := 0 to |changelog|
      invariant changes == Without(changelog[..i], skipImage)
    {
      assert changelog[..i + 1][..i] == changelog[..i];
      if skipImage && changelog[i] == Setting("Image") {
        continue;
      }
      changes := changes + [changelog[i]];
    }
    assert changelog[..|changelog|] == changelog;
  }

  function Without(changes: seq<Change>, skipImage: bool): seq<Change> {
    if changes == [] then []
    else
      var last := changes[|changes| - 1];
      Without(changes[..|changes| - 1], skipImage) + if skipImage && last == Setting("Image") then [] else [last]
  }

  lemma {:induction false} WithoutExactly(changes: seq<Change>, skipImage: bool)
    ensures forall c :: c in Without(changes, skipImage) <==> c in changes && !(skipImage && c == Setting("Image"))
  {
    if changes != [] {
      var init, last := changes[..|changes| - 1], changes[|changes| - 1];
      WithoutExactly(init, skipImage);
      assert changes == init + [last];
    }
  }

  // ---------- what is reported ----------

  // Which settings a comparison names.

  predicate SizeDiffers(from: NormalSpec, to: NormalSpec, name: string) {
    (name == "CPU" && from.cpu != to.cpu) || (name == "Memory" && from.memory != to.memory) ||
    (name == "ScalingMode" && from.scalingMode != to.scalingMode)
  }

  predicate ScaleDiffers(from: NormalSpec, to: NormalSpec, name: string) {
    (name == "FixedScale" && from.fixedScale != to.fixedScale) ||
    (name == "MinScale" && from.minScale != to.minScale) ||
    (name == "MaxScale" && from.maxScale != to.maxScale) ||
    (name == "ScaleInThreshold" && from.scaleInThreshold != to.scaleInThreshold) ||
    (name == "ScaleOutThreshold" && from.scaleOutThreshold != to.scaleOutThreshold)
  }

  predicate TextDiffers(from: NormalSpec, to: NormalSpec, name: string) {
    (name == "Image" && from.image != to.image) || (name == "Cmd" && from.cmd != to.cmd) ||
    (name == "RegistryUsername" && from.registryUsername != to.registryUsername)
  }

  lemma SizesReported(from: NormalSpec, to: NormalSpec, c: Change)
    ensures c in SizeChanges(from, to) <==> c.Setting? && SizeDiffers(from, to, c.name)
  {
  }

  lemma ScalesReported(from: NormalSpec, to: NormalSpec, c: Change)
    ensures c in ScaleChanges(from, to) <==> c.Setting? && ScaleDiffers(from, to, c.name)
  {
  }

  lemma TextsReported(from: NormalSpec, to: NormalSpec, c: Change)
    ensures c in TextChanges(from, to) <==> c.Setting? && TextDiffers(from, to, c.name)
  {
  }

  lemma {:induction false} PortChangesExactly(ports: seq<NormalPort>, from: seq<NormalPort>, to: seq<NormalPort>)
    ensures forall c :: c in PortChanges(ports, from, to) ==> c.PortChange?
    ensures forall t :: PortChange(t) in PortChanges(ports, from, to) <==>
                        OrZero(PortAt(from, t)) != OrZero(PortAt(to, t)) &&
                        exists i :: 0 <= i < |ports| && ports[i].targetPort == t
  {
    if ports != [] {
      var init, last := ports[..|ports| - 1], ports[|ports| - 1];
      PortChangesExactly(init, from, to);
      assert forall i :: 0 <= i < |ports| ==> ports[i] == if i < |init| then init[i] else last;
    }
  }

  lemma {:induction false} PortAtExact(ports: seq<NormalPort>, target: int)
    ensures PortAt(ports, target).None? <==> forall i :: 0 <= i < |ports| ==> ports[i].targetPort != target
    ensures PortAt(ports, target).Some? ==> PortAt(ports, target).value.targetPort == target
    ensures PortAt(ports, target).Some? ==> PortAt(ports, target).value in ports
  {
    if ports != [] {
      var init := ports[..|ports| - 1];
      PortAtExact(init, target);
      assert forall i :: 0 <= i < |init| ==> init[i] == ports[i];
    }
  }

  /** Sorting changes nothing about what is found at a target port. */
  lemma {:induction false} PortAtSorted(ports: seq<NormalPort>, target: int)
    ensures PortAt(SortPorts(ports), target) == PortAt(ports, target)
  {
    if ports != [] {
      PortAtSorted(ports[1..], target);
      PortAtInserted(ports[0], SortPorts(ports[1..]), target);
      PortAtFront(ports[0], ports[1..], target);
      assert ports == [ports[0]] + ports[1..];
    }
  }

  lemma {:induction false} PortAtFront(p: NormalPort, ports: seq<NormalPort>, target: int)
    ensures PortAt([p] + ports, target) ==
            if PortAt(ports, target).Some? then PortAt(ports, target)
            else if p.targetPort == target then Some(p) else None
    decreases |ports|
  {
    var all := [p] + ports;
    if ports == [] {
      assert all == [p] && all[..0] == [];
    } else {
      PortAtFront(p, ports[..|ports| - 1], target);
      assert all[..|all| - 1] == [p] + ports[..|ports| - 1];
    }
  }

  lemma {:induction false} PortAtInserted(p: NormalPort, sorted: seq<NormalPort>, target: int)
    ensures PortAt(InsertPort(p, sorted), target) ==
            if PortAt(sorted, target).Some? then PortAt(sorted, target)
            else if p.targetPort == target then Some(p) else None
    decreases |sorted|
  {
    PortAtFront(p, sorted, target);
    if sorted != [] && sorted[0].targetPort < p.targetPort {
      PortAtInserted(p, sorted[1..], target);
      PortAtFront(sorted[0], InsertPort(p, sorted[1..]), target);
      PortAtFront(sorted[0], sorted[1..], target);
      assert sorted == [sorted[0]] + sorted[1..];
    }
  }

  lemma PortsReported(from: seq<NormalPort>, to: seq<NormalPort>, c: Change)
    ensures c in PortChanges(from + to, from, to) <==>
            c.PortChange? && OrZero(PortAt(from, c.targetPort)) != OrZero(PortAt(to, c.targetPort))
  {
    PortChangesExactly(from + to, from, to);
    if c.PortChange? && OrZero(PortAt(from, c.targetPort)) != OrZero(PortAt(to, c.targetPort)) {
      PortAtExact(from, c.targetPort);
      PortAtExact(to, c.targetPort);
      var p := if PortAt(from, c.targetPort).Some? then PortAt(from, c.targetPort) else PortAt(to, c.targetPort);
      assert p.value in from + to;
    }
  }

  /** A comparison reports exactly the settings that differ, and the target ports at which what
      is found differs. */
  lemma DiffExactly(from: NormalSpec, to: NormalSpec, c: Change)
    ensures c in Diff(from, to) <==>
            (c.Setting? &&
             (SizeDiffers(from, to, c.name) || ScaleDiffers(from, to, c.name) || TextDiffers(from, to, c.name))) ||
            (c.PortChange? &&
             OrZero(PortAt(from.exposedPorts, c.targetPort)) != OrZero(PortAt(to.exposedPorts, c.targetPort)))
  {
    SizesReported(from, to, c);
    ScalesReported(from, to, c);
    TextsReported(from, to, c);
    PortsReported(from.exposedPorts, to.exposedPorts, c);
  }

  /** The same is found at every target port. */
  ghost predicate Agree(from: seq<NormalPort>, to: seq<NormalPort>) {
    forall target: int :: OrZero(PortAt(from, target)) == OrZero(PortAt(to, target))
  }

  lemma AgreeSorted(from: seq<NormalPort>, to: seq<NormalPort>)
    ensures Agree(SortPorts(from), SortPorts(to)) <==> Agree(from, to)
  {
    forall target: int
      ensures PortAt(SortPorts(from), target) == PortAt(from, target)
      ensures PortAt(SortPorts(to), target) == PortAt(to, target)
    {
      PortAtSorted(from, target);
      PortAtSorted(to, target);
    }
  }

  /** Nothing is reported exactly when everything compared is equal. */
  lemma NothingReported(from: NormalSpec, to: NormalSpec, skipImage: bool)
    ensures Without(Diff(from, to), skipImage) == [] <==>
            from.(image := to.image, exposedPorts := to.exposedPorts) == to &&
            (skipImage || from.image == to.image) && Agree(from.exposedPorts, to.exposedPorts)
  {
    var diff := Diff(from, to);
    WithoutExactly(diff, skipImage);
    if Without(diff, skipImage) == [] {
      AllSame(from, to, skipImage);
    } else {
      var c := Without(diff, skipImage)[0];
      assert c in Without(diff, skipImage);
      DiffExactly(from, to, c);
    }
  }

  lemma AllSame(from: NormalSpec, to: NormalSpec, skipImage: bool)
    requires forall c :: c in Diff(from, to) ==> skipImage && c == Setting("Image")
    ensures from.(image := to.image, exposedPorts := to.exposedPorts) == to
    ensures skipImage || from.image == to.image
    ensures Agree(from.exposedPorts, to.exposedPorts)
  {
    DiffExactly(from, to, Setting("CPU"));
    DiffExactly(from, to, Setting("Memory"));
    DiffExactly(from, to, Setting("ScalingMode"));
    DiffExactly(from, to, Setting("FixedScale"));
    DiffExactly(from, to, Setting("MinScale"));
    DiffExactly(from, to, Setting("MaxScale"));
    DiffExactly(from, to, Setting("ScaleInThreshold"));
    DiffExactly(from, to, Setting("ScaleOutThreshold"));
    DiffExactly(from, to, Setting("Image"));
    DiffExactly(from, to, Setting("Cmd"));
    DiffExactly(from, to, Setting("RegistryUsername"));
    forall target: int
      ensures OrZero(PortAt(from.exposedPorts, target)) == OrZero(PortAt(to.exposedPorts, target))
    {
      DiffExactly(from, to, PortChange(target));
    }
  }
}
