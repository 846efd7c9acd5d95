/** Who claims which host port: the registry, the proxy rules and the other device updates put together. */
module HostPorts {
  import opened Wrappers
  import opened Text
  import opened Incus
  import opened PortAllocator
  import Registry
  import Bandwidth
  import Proxy
  import PlanLimits

  /** The registry with its open sessions, and the instances that live in Incus. `tasks` are the SSH tasks of
      finished creations that have not run yet, each with the host port it was given. `deleting` are the
      instances whose deletion Incus has accepted and not ended, `rowsDue` those whose delete handler has still
      to remove the row. A snapshot, by its instance and its own name, holds the devices of its moment. */
  datatype World = World(
    reg: Registry.State, live: map<string, Instance>, snapshots: map<(string, string), Devices>,
    tasks: set<(string, int)>, deleting: set<string>, rowsDue: set<string>)

  const EmptyWorld := World(Registry.State(map[], None, map[]), map[], map[], {}, {}, {})

  /** What the program does. A handler's update of an instance is one step: it starts from the devices it has
      just read, and a stale etag makes the server refuse it. */
  datatype Step =
    | CreatesInstance(name: string, profile: Devices)
    | Statement(step: Registry.Step)
    | SpawnsSshTask(name: string)
    | RunsSshTask(name: string, port: int)
    | AddsRule(name: string, caller: Proxy.Caller, rule: Proxy.AddRequest)
    | DeletesRule(name: string, devName: string)
    | PutsBandwidth(name: string, nic: string, limits: Bandwidth.Bandwidth)
    | AppliesPlan(name: string, nic: string, mbps: int)
    | TakesSnapshot(name: string, snap: string)
    | DeletesSnapshot(name: string, snap: string)
    | RestoresSnapshot(name: string, snap: string, profile: Devices)   // with the profiles of its moment
    | RequestsDeletion(name: string, andRow: bool)   // by the delete handler, or after a failed registration
    | DeletionEnds(name: string, isGone: bool)

  /** The range of a registered instance. */
  function OwnRange(w: World, name: string): Option<Range> {
    if name in w.reg.table then w.reg.table[name].ports else None
  }

  function WithDevices(w: World, name: string, devices: Devices): World
    requires name in w.live
  {
    w.(live := w.live[name := w.live[name].(devices := devices)])
  }

  /** With an instance go its snapshots. */
  function WithoutSnapshotsOf(snapshots: map<(string, string), Devices>, name: string): map<(string, string), Devices> {
    map key | key in snapshots && key.0 != name :: snapshots[key]
  }

  predicate HasNoProxies(devices: Devices) {
    forall d | d in devices :: !Proxy.IsProxy(devices[d])
  }

  /** The steps of the code. The delete handler gets an operation from Incus, does not wait for it, and removes
      the row. Deleting a user removes rows and nothing else. A rule is checked against the row that was read
      before, which may be outdated: `caller` holds whatever range that row had. */
  ghost predicate Next(pool: PortPool, w: World, step: Step, w': World) {
    match step
    case CreatesInstance(name, profile) =>
      name !in w.live && HasNoProxies(profile) && w' == w.(live := w.live[name := Instance(map[], profile)])
    case Statement(s) =>
      && (s.DeleteByName? ==> s.name in w.rowsDue)
      && Registry.Next(pool, w.reg, s, w'.reg)
      && w' == w.(reg := w'.reg, rowsDue := if s.DeleteByName? then w.rowsDue - {s.name} else w.rowsDue)
    case SpawnsSshTask(name) =>
      OwnRange(w, name).Some? && w' == w.(tasks := w.tasks + {(name, OwnRange(w, name).value.first)})
    case RunsSshTask(name, port) =>
      && (name, port) in w.tasks
      && var v := w.(tasks := w.tasks - {(name, port)});
         w' == if name in w.live then WithDevices(v, name, PlanLimits.WithSshProxy(w.live[name].devices, port)) else v
    case AddsRule(name, caller, rule) =>
      && name in w.live && Proxy.PortsAreValid(rule) && Proxy.MayClaim(caller, rule.hostPort)
      && w' == WithDevices(w, name, Proxy.WithRule(w.live[name].devices, rule))
    case DeletesRule(name, devName) => name in w.live && w' == WithDevices(w, name, w.live[name].devices - {devName})
    case PutsBandwidth(name, nic, limits) =>
      name in w.live && w' == WithDevices(w, name, Bandwidth.Overridden(w.live[name], nic, limits))
    case AppliesPlan(name, nic, mbps) =>
      name in w.live && w' == WithDevices(w, name, PlanLimits.RateLimited(w.live[name], nic, mbps))
    case TakesSnapshot(name, snap) =>
      && name in w.live && (name, snap) !in w.snapshots
      && w' == w.(snapshots := w.snapshots[(name, snap) := w.live[name].devices])
    case DeletesSnapshot(name, snap) => w' == w.(snapshots := w.snapshots - {(name, snap)})
    case RestoresSnapshot(name, snap, profile) =>
      && name in w.live && (name, snap) in w.snapshots && HasNoProxies(profile)
      && w' == w.(live := w.live[name := Instance(w.snapshots[(name, snap)], profile)])
    case RequestsDeletion(name, andRow) =>
      && name in w.live
      && w' == w.(deleting := w.deleting + {name}, rowsDue := if andRow then w.rowsDue + {name} else w.rowsDue)
    case DeletionEnds(name, isGone) =>
      && name in w.deleting
      && var v := w.(deleting := w.deleting - {name});
         w' == if isGone then v.(live := w.live - {name}, snapshots := WithoutSnapshotsOf(w.snapshots, name)) else v
  }

  // ---------- what is a step ----------

  /** What the handlers do to the devices of a live instance are steps: rules added by whoever may claim their port,
      any device deleted, any limits, any plan. */
  lemma DeviceUpdatesAreSteps(pool: PortPool, w: World, name: string, caller: Proxy.Caller, rule: Proxy.AddRequest,
                              devName: string, limits: Bandwidth.Bandwidth, mbps: int)
    requires name in w.live
    ensures var inst := w.live[name];
            && (Proxy.PortsAreValid(rule) && Proxy.MayClaim(caller, rule.hostPort) ==>
                  Next(pool, w, AddsRule(name, caller, rule),
                       w.(live := w.live[name := Instance(Proxy.WithRule(inst.devices, rule), inst.profile)])))
            && Next(pool, w, DeletesRule(name, devName),
                    w.(live := w.live[name := Instance(inst.devices - {devName}, inst.profile)]))
            && Next(pool, w, PutsBandwidth(name, devName, limits),
                    w.(live := w.live[name := Bandwidth.After(inst, devName, limits)]))
            && Next(pool, w, AppliesPlan(name, devName, mbps),
                    w.(live := w.live[name := PlanLimits.Applied(inst, devName, mbps, false, 0)]))
  {
  }

  /** Snapshots are taken, deleted and restored at any time, and a restore brings back the devices of that moment. */
  lemma SnapshotRequestsAreSteps(pool: PortPool, w: World, name: string, snap: string, profile: Devices)
    requires name in w.live && HasNoProxies(profile)
    ensures (name, snap) !in w.snapshots ==>
              Next(pool, w, TakesSnapshot(name, snap),
                   w.(snapshots := w.snapshots[(name, snap) := w.live[name].devices]))
    ensures Next(pool, w, DeletesSnapshot(name, snap), w.(snapshots := w.snapshots - {(name, snap)}))
    ensures (name, snap) in w.snapshots ==>
              Next(pool, w, RestoresSnapshot(name, snap, profile),
                   w.(live := w.live[name := Instance(w.snapshots[(name, snap)], profile)]))
  {
  }

  /** An instance may be deleted at any time; its row goes whenever the handler gets to it, and the instance itself when
      Incus is done, or never. A user's rows go at any time. */
  lemma DeletionsAreSteps(pool: PortPool, w: World, name: string, owner: int)
    ensures name in w.live ==>
              Next(pool, w, RequestsDeletion(name, true),
                   w.(deleting := w.deleting + {name}, rowsDue := w.rowsDue + {name}))
    ensures name in w.rowsDue ==>
              Next(pool, w, Statement(Registry.DeleteByName(name)),
                   w.(reg := w.reg.(table := w.reg.table - {name}), rowsDue := w.rowsDue - {name}))
    ensures name in w.deleting ==>
              && Next(pool, w, DeletionEnds(name, false), w.(deleting := w.deleting - {name}))
              && Next(pool, w, DeletionEnds(name, true),
                      w.(deleting := w.deleting - {name}, live := w.live - {name},
                         snapshots := map key | key in w.snapshots && key.0 != name :: w.snapshots[key]))
    ensures var t := w.reg.table;
            Next(pool, w, Statement(Registry.DeleteOwner(owner)),
                 w.(reg := w.reg.(table := map n | n in t && t[n].owner != owner :: t[n])))
  {
    Registry.DeletesNeverWait(pool, w.reg, name, owner, 0);
    assert w.reg.table - {name} == map n | n in w.reg.table && n != name :: w.reg.table[n];
  }

  // ---------- the claim ----------

  /** The host port a proxy device listens on. */
  function ListenPort(dev: Device): Option<int> {
    Proxy.PortOf(Field(dev, "listen"))
  }

  predicate Claims(w: World, name: string, d: string) {
    name in w.live && d in w.live[name].devices && Proxy.IsProxy(w.live[name].devices[d])
  }

  /** A proxy device is named after the port it listens on, and that port is one of the instance's own range. */
  predicate OwnPort(range: Option<Range>, d: string, dev: Device) {
    && range.Some?
    && var port := ListenPort(dev);
       port.Some? && d == Proxy.DeviceName(port.value) && range.value.first <= port.value <= range.value.last
  }

  predicate OwnPorts(range: Option<Range>, devices: Devices) {
    forall d | d in devices && Proxy.IsProxy(devices[d]) :: OwnPort(range, d, devices[d])
  }

  /** Every port claimed in Incus is one of the claiming instance's own range. */
  predicate Exclusive(w: World) {
    forall name | name in w.live :: OwnPorts(OwnRange(w, name), w.live[name].devices)
  }

  /** What holds whatever happens. */
  predicate Sound(pool: PortPool, w: World) {
    && Registry.Safe(pool, w.reg)
    && (forall name | name in w.live :: HasNoProxies(w.live[name].profile))
    && (forall t | t in w.tasks :: pool.start <= t.1 <= pool.end)
  }

  /** The pool's bounds are machine integers. */
  predicate PoolIs64(pool: PortPool) {
    INT64_MIN <= pool.start && pool.end <= INT64_MAX
  }

  lemma WrittenRuleListens(protocol: string, hostPort: int, containerPort: int)
    requires Proxy.IsPort64(hostPort)
    ensures var dev := Proxy.ProxyDevice(protocol, hostPort, containerPort);
            Proxy.IsProxy(dev) && ListenPort(dev) == Some(hostPort)
  {
    Proxy.HostsHaveNoColon();
    Proxy.EndpointPieces(protocol, Proxy.ANY_HOST, hostPort);
  }

  /** Exactly when a written rule leaves an instance with ports of its own: its host port is in the instance's
      range, and so are the ports of the devices it does not replace. The rule of an administrator may fail
      this, as would the SSH task of an instance that is gone. */
  lemma RuleKeepsOwnPortsIff(range: Option<Range>, devices: Devices,
                             protocol: string, hostPort: int, containerPort: int)
    requires Proxy.IsPort64(hostPort)
    ensures var name := Proxy.DeviceName(hostPort);
            OwnPorts(range, devices[name := Proxy.ProxyDevice(protocol, hostPort, containerPort)])
            <==> range.Some? && range.value.first <= hostPort <= range.value.last && OwnPorts(range, devices - {name})
  {
    var name, dev := Proxy.DeviceName(hostPort), Proxy.ProxyDevice(protocol, hostPort, containerPort);
    var devices' := devices[name := dev];
    WrittenRuleListens(protocol, hostPort, containerPort);
    assert devices' - {name} == devices - {name};
    assert OwnPorts(range, devices') <==> OwnPort(range, name, dev) && OwnPorts(range, devices' - {name}) by {
      forall d | d in devices' && d != name ensures d in devices' - {name} && (devices' - {name})[d] == devices'[d] {
      }
      assert devices'[name] == dev;
    }
  }

  lemma FewerDevicesKeepOwnPorts(range: Option<Range>, devices: Devices, names: set<string>)
    requires OwnPorts(range, devices)
    ensures OwnPorts(range, devices - names)
  {
  }

  /** A device update that leaves a device's type and listen address alone adds no claim, unless it copies one
      from the profile. */
  lemma LimitsKeepOwnPorts(range: Option<Range>, inst: Instance, nic: string, dev: Device)
    requires OwnPorts(range, inst.devices) && HasNoProxies(inst.profile)
    requires var base := Bandwidth.BaseDevice(inst, nic);
             Field(dev, "type") == Field(base, "type") && Field(dev, "listen") == Field(base, "listen")
    ensures OwnPorts(range, inst.devices[nic := dev])
  {
    if Proxy.IsProxy(dev) {
      assert nic in inst.devices;
    }
  }

  lemma LimitKeysAreOthers()
    ensures "type" !in Bandwidth.LimitKeys() && "listen" !in Bandwidth.LimitKeys()
  {
  }

  lemma LimitedKeepsField(dev: Device, req: Bandwidth.Bandwidth, mbps: int, key: string)
    requires key !in Bandwidth.LimitKeys()
    ensures Field(Bandwidth.Limited(dev, req), key) == Field(dev, key)
    ensures Field(PlanLimits.WithRate(dev, mbps), key) == Field(dev, key)
  {
  }

  lemma UpdateKeepsOwnPorts(w: World, name: string, nic: string, req: Bandwidth.Bandwidth, mbps: int)
    requires name in w.live && OwnPorts(OwnRange(w, name), w.live[name].devices) && HasNoProxies(w.live[name].profile)
    ensures OwnPorts(OwnRange(w, name), Bandwidth.Overridden(w.live[name], nic, req))
    ensures OwnPorts(OwnRange(w, name), PlanLimits.RateLimited(w.live[name], nic, mbps))
  {
    var inst, range := w.live[name], OwnRange(w, name);
    var base := Bandwidth.BaseDevice(inst, nic);
    LimitKeysAreOthers();
    LimitedKeepsField(base, req, mbps, "type");
    LimitedKeepsField(base, req, mbps, "listen");
    FewerDevicesKeepOwnPorts(range, inst.devices, {nic});
    LimitsKeepOwnPorts(range, inst, nic, Bandwidth.Limited(base, req));
    LimitsKeepOwnPorts(range, inst, nic, PlanLimits.WithRate(base, mbps));
  }

  // ---------- which steps keep the claims exclusive ----------

  predicate IsOwnPort(w: World, name: string, port: int) {
    OwnRange(w, name).Some? && OwnRange(w, name).value.first <= port <= OwnRange(w, name).value.last
  }

  /** The rows that a statement takes out of the table. */
  function RemovedRows(t: Registry.Table, s: Registry.Step): set<string> {
    match s
    case DeleteByName(name) => {name}
    case DeleteOwner(owner) => Registry.OwnedBy(t, owner)
    case _ => {}
  }

  /** The exact condition under which a step keeps every claim in its own range: a row goes only when its instance
      is gone or forwards no port, and a proxy device that is new, or back from a snapshot, listens on a port of the
      instance's present range. */
  predicate IsHarmless(w: World, step: Step) {
    match step
    case Statement(s) =>
      forall name | name in RemovedRows(w.reg.table, s) && name in w.live :: HasNoProxies(w.live[name].devices)
    case RunsSshTask(name, port) =>
      name in w.live && port > 0 && Proxy.DeviceName(port) !in w.live[name].devices ==> IsOwnPort(w, name, port)
    case AddsRule(name, _, rule) => IsOwnPort(w, name, rule.hostPort)
    case RestoresSnapshot(name, snap, _) =>
      (name, snap) in w.snapshots ==> OwnPorts(OwnRange(w, name), w.snapshots[(name, snap)])
    case _ => true
  }

  /** A step taken in time: a row goes when the deletion of its instance has completed, an SSH task still finds the
      registration it belongs to, and a rule is added by the owner while the row that was read is current. */
  predicate IsInTime(w: World, step: Step) {
    match step
    case Statement(s) => RemovedRows(w.reg.table, s) !! w.live.Keys
    case RunsSshTask(name, port) => name in w.live ==> OwnRange(w, name).Some? && OwnRange(w, name).value.first == port
    case AddsRule(name, caller, _) => caller == Proxy.Owner(OwnRange(w, name))
    case _ => true
  }

  /** Every snapshot is one of a live instance, and its proxy devices listen on ports of that instance's range. */
  predicate SnapshotsOwn(w: World) {
    forall key | key in w.snapshots :: key.0 in w.live && OwnPorts(OwnRange(w, key.0), w.snapshots[key])
  }

  lemma InTimeIsHarmless(pool: PortPool, w: World, step: Step, w': World)
    requires Sound(pool, w) && SnapshotsOwn(w) && Next(pool, w, step, w') && IsInTime(w, step)
    ensures IsHarmless(w, step)
  {
    if step.RunsSshTask? && step.name in w.live {
      assert step.name in Registry.Holders(w.reg.table);
    }
  }

  /** The instance that a step gives new devices. */
  predicate Updates(w: World, step: Step, name: string) {
    match step
    case RunsSshTask(n, _) => n == name && name in w.live
    case AddsRule(n, _, _) => n == name
    case DeletesRule(n, _) => n == name
    case PutsBandwidth(n, _, _) => n == name
    case AppliesPlan(n, _, _) => n == name
    case RestoresSnapshot(n, _, _) => n == name
    case CreatesInstance(n, _) => n == name
    case _ => false
  }

  lemma UpdateKeepsOwnPortsIff(pool: PortPool, w: World, step: Step, w': World, name: string)
    requires PoolIs64(pool) && Sound(pool, w) && Exclusive(w) && Next(pool, w, step, w') && Updates(w, step, name)
    ensures name in w'.live && HasNoProxies(w'.live[name].profile)
    ensures OwnPorts(OwnRange(w', name), w'.live[name].devices) <==> IsHarmless(w, step)
  {
    match step
    case RunsSshTask(_, port) =>
      assert (name, port) in w.tasks;
      FewerDevicesKeepOwnPorts(OwnRange(w, name), w.live[name].devices, {Proxy.DeviceName(port)});
      RuleKeepsOwnPortsIff(OwnRange(w, name), w.live[name].devices, "tcp", port, PlanLimits.SSH_PORT);
    case AddsRule(_, _, rule) =>
      var devices := w.live[name].devices;
      FewerDevicesKeepOwnPorts(OwnRange(w, name), devices, {Proxy.DeviceName(rule.hostPort)});
      RuleKeepsOwnPortsIff(OwnRange(w, name), devices, Proxy.Protocol(rule), rule.hostPort, rule.containerPort);
    case DeletesRule(_, devName) => FewerDevicesKeepOwnPorts(OwnRange(w, name), w.live[name].devices, {devName});
    case PutsBandwidth(_, nic, limits) => UpdateKeepsOwnPorts(w, name, nic, limits, 0);
    case AppliesPlan(_, nic, mbps) => UpdateKeepsOwnPorts(w, name, nic, Bandwidth.Bandwidth("", "", "", ""), mbps);
    case _ =>
  }

  /** A row that appears finds no claim of its name; a row that goes leaves the claims of its instance unfounded. */
  lemma StatementKeepsOwnPortsIff(pool: PortPool, w: World, s: Registry.Step, w': World, name: string, devices: Devices)
    requires Sound(pool, w) && Next(pool, w, Statement(s), w') && OwnPorts(OwnRange(w, name), devices)
    ensures OwnPorts(OwnRange(w', name), devices)
       <==> (name in RemovedRows(w.reg.table, s) ==> HasNoProxies(devices))
  {
    if name in w.reg.table && name !in RemovedRows(w.reg.table, s) {
      assert OwnRange(w', name) == OwnRange(w, name);
    } else {
      assert name !in w.reg.table ==> HasNoProxies(devices);
    }
  }

  lemma StepKeepsSound(pool: PortPool, w: World, step: Step, w': World)
    requires Sound(pool, w) && Next(pool, w, step, w')
    ensures Sound(pool, w')
  {
    match step
    case Statement(s) => Registry.StepKeepsSafe(pool, w.reg, s, w'.reg);
    case SpawnsSshTask(name) => assert name in Registry.Holders(w.reg.table);
    case _ =>
  }

  /** From an exclusive world a step of the code leads to an exclusive world exactly when it is harmless. */
  lemma StepKeepsExclusiveIff(pool: PortPool, w: World, step: Step, w': World)
    requires PoolIs64(pool) && Sound(pool, w) && Exclusive(w) && Next(pool, w, step, w')
    ensures Exclusive(w') <==> IsHarmless(w, step)
  {
    if step.Statement? {
      forall name | name in w.live
        ensures OwnPorts(OwnRange(w', name), w'.live[name].devices)
           <==> (name in RemovedRows(w.reg.table, step.step) ==> HasNoProxies(w.live[name].devices))
      {
        StatementKeepsOwnPortsIff(pool, w, step.step, w', name, w.live[name].devices);
      }
    } else {
      assert w'.reg == w.reg;
      forall name | name in w'.live && !Updates(w, step, name)
        ensures OwnPorts(OwnRange(w', name), w'.live[name].devices)
      {
        assert w'.live[name] == w.live[name];
      }
      if Updates(w, step, step.name) {
        UpdateKeepsOwnPortsIff(pool, w, step, w', step.name);
      }
    }
  }

  lemma InTimeStatementKeepsSnapshotsOwn(pool: PortPool, w: World, s: Registry.Step, w': World)
    requires Sound(pool, w) && SnapshotsOwn(w) && Next(pool, w, Statement(s), w') && IsInTime(w, Statement(s))
    ensures SnapshotsOwn(w')
  {
    forall key | key in w'.snapshots ensures key.0 in w'.live && OwnPorts(OwnRange(w', key.0), w'.snapshots[key]) {
      StatementKeepsOwnPortsIff(pool, w, s, w', key.0, w.snapshots[key]);
    }
  }

  /** Every snapshot was there before or holds the devices of a live instance, and an instance that goes takes its
      snapshots along. */
  ghost predicate CopiesSnapshots(w: World, w': World) {
    && w'.reg == w.reg
    && forall key | key in w'.snapshots ::
         && (key in w.snapshots || key.0 in w.live)
         && (key.0 in w.live ==> key.0 in w'.live)
         && w'.snapshots[key] == if key in w.snapshots then w.snapshots[key] else w.live[key.0].devices
  }

  lemma UpdateCopiesSnapshots(pool: PortPool, w: World, step: Step, w': World)
    requires Next(pool, w, step, w') && !step.Statement?
    ensures CopiesSnapshots(w, w')
  {
  }

  lemma CopiesKeepSnapshotsOwn(w: World, w': World)
    requires Exclusive(w) && SnapshotsOwn(w) && CopiesSnapshots(w, w')
    ensures SnapshotsOwn(w')
  {
  }

  /** Steps taken in time keep snapshots on ports of their instances: a row outlives its instance, and an instance
      its snapshots. */
  lemma InTimeKeepsSnapshotsOwn(pool: PortPool, w: World, step: Step, w': World)
    requires Sound(pool, w) && Exclusive(w) && SnapshotsOwn(w) && Next(pool, w, step, w') && IsInTime(w, step)
    ensures SnapshotsOwn(w')
  {
    if step.Statement? {
      InTimeStatementKeepsSnapshotsOwn(pool, w, step.step, w');
    } else {
      UpdateCopiesSnapshots(pool, w, step, w');
      CopiesKeepSnapshotsOwn(w, w');
    }
  }

  /** When the delete handler removes the row, its instance must be gone or forward no port. */
  lemma RowDeletionKeepsExclusiveIff(pool: PortPool, w: World, name: string, w': World)
    requires PoolIs64(pool) && Sound(pool, w) && Exclusive(w)
    requires Next(pool, w, Statement(Registry.DeleteByName(name)), w')
    ensures Exclusive(w') <==> (name in w.live ==> HasNoProxies(w.live[name].devices))
  {
    StepKeepsExclusiveIff(pool, w, Statement(Registry.DeleteByName(name)), w');
  }

  /** When a user is deleted, so must every instance of the user. */
  lemma UserDeletionKeepsExclusiveIff(pool: PortPool, w: World, owner: int, w': World)
    requires PoolIs64(pool) && Sound(pool, w) && Exclusive(w)
    requires Next(pool, w, Statement(Registry.DeleteOwner(owner)), w')
    ensures Exclusive(w') <==>
            forall name | name in w.live && name in Registry.OwnedBy(w.reg.table, owner) ::
              HasNoProxies(w.live[name].devices)
  {
    StepKeepsExclusiveIff(pool, w, Statement(Registry.DeleteOwner(owner)), w');
  }

  /** In an exclusive world any two proxy devices, on one instance or on two, listen on different host ports. */
  lemma ExclusiveWorldSharesNoPort(pool: PortPool, w: World, name1: string, d1: string, name2: string, d2: string)
    requires Sound(pool, w) && Exclusive(w)
    requires Claims(w, name1, d1) && Claims(w, name2, d2) && (name1, d1) != (name2, d2)
    ensures ListenPort(w.live[name1].devices[d1]) != ListenPort(w.live[name2].devices[d2])
  {
    assert OwnPort(OwnRange(w, name1), d1, w.live[name1].devices[d1]);
    assert OwnPort(OwnRange(w, name2), d2, w.live[name2].devices[d2]);
    if name1 != name2 {
      assert name1 in Registry.Holders(w.reg.table) && name2 in Registry.Holders(w.reg.table);
    }
  }

  // ---------- runs ----------

  ghost predicate Path(pool: PortPool, worlds: seq<World>, steps: seq<Step>) {
    |worlds| == |steps| + 1 && forall i | 0 <= i < |steps| :: Next(pool, worlds[i], steps[i], worlds[i + 1])
  }

  /** A run of the code: a path from the empty world. */
  ghost predicate Run(pool: PortPool, worlds: seq<World>, steps: seq<Step>) {
    Path(pool, worlds, steps) && worlds[0] == EmptyWorld
  }

  lemma {:induction false} RunsAreSound(pool: PortPool, worlds: seq<World>, steps: seq<Step>, i: nat)
    requires Run(pool, worlds, steps) && i < |worlds|
    ensures Sound(pool, worlds[i])
  {
    if i > 0 {
      RunsAreSound(pool, worlds, steps, i - 1);
      StepKeepsSound(pool, worlds[i - 1], steps[i - 1], worlds[i]);
    }
  }

  ghost predicate StaysExclusive(worlds: seq<World>, n: nat)
    requires n < |worlds|
  {
    forall i | 0 <= i <= n :: Exclusive(worlds[i])
  }

  ghost predicate StaysHarmless(worlds: seq<World>, steps: seq<Step>, n: nat)
    requires n <= |worlds| && n <= |steps|
  {
    forall i | 0 <= i < n :: IsHarmless(worlds[i], steps[i])
  }

  lemma ExclusiveOneStepLonger(worlds: seq<World>, n: nat)
    requires 0 < n < |worlds|
    ensures StaysExclusive(worlds, n) <==> StaysExclusive(worlds, n - 1) && Exclusive(worlds[n])
  {
  }

  lemma HarmlessOneStepLonger(worlds: seq<World>, steps: seq<Step>, n: nat)
    requires 0 < n <= |worlds| && n <= |steps|
    ensures StaysHarmless(worlds, steps, n)
       <==> StaysHarmless(worlds, steps, n - 1) && IsHarmless(worlds[n - 1], steps[n - 1])
  {
  }

  lemma StepOfRunIff(pool: PortPool, worlds: seq<World>, steps: seq<Step>, n: nat)
    requires PoolIs64(pool) && Run(pool, worlds, steps) && 0 < n < |worlds| && Exclusive(worlds[n - 1])
    ensures Exclusive(worlds[n]) <==> IsHarmless(worlds[n - 1], steps[n - 1])
  {
    RunsAreSound(pool, worlds, steps, n - 1);
    StepKeepsExclusiveIff(pool, worlds[n - 1], steps[n - 1], worlds[n]);
  }

  /** Exactly which runs are exclusive up to their n-th step: those whose first n steps are harmless. */
  lemma {:induction false} RunIsExclusiveIff(pool: PortPool, worlds: seq<World>, steps: seq<Step>, n: nat)
    requires PoolIs64(pool) && Run(pool, worlds, steps) && n < |worlds|
    ensures StaysExclusive(worlds, n) <==> StaysHarmless(worlds, steps, n)
    decreases n
  {
    if n > 0 {
      RunIsExclusiveIff(pool, worlds, steps, n - 1);
      ExclusiveOneStepLonger(worlds, n);
      HarmlessOneStepLonger(worlds, steps, n);
      if StaysExclusive(worlds, n - 1) {
        StepOfRunIff(pool, worlds, steps, n);
      }
    }
  }

  lemma {:induction false} InTimeRunsOwnTheirPorts(pool: PortPool, worlds: seq<World>, steps: seq<Step>, n: nat)
    requires PoolIs64(pool) && Run(pool, worlds, steps) && n < |worlds|
    requires forall i | 0 <= i < n :: IsInTime(worlds[i], steps[i])
    ensures Exclusive(worlds[n]) && SnapshotsOwn(worlds[n])
  {
    if n > 0 {
      var w, step := worlds[n - 1], steps[n - 1];
      InTimeRunsOwnTheirPorts(pool, worlds, steps, n - 1);
      RunsAreSound(pool, worlds, steps, n - 1);
      InTimeIsHarmless(pool, w, step, worlds[n]);
      StepKeepsExclusiveIff(pool, w, step, worlds[n]);
      InTimeKeepsSnapshotsOwn(pool, w, step, worlds[n]);
    }
  }

  /** Host-port exclusivity: while every step is taken in time, each proxy device listens on a port of its own
      instance's range, inside the pool, and no two devices anywhere listen on the same port. */
  lemma NoHostPortIsClaimedTwice(pool: PortPool, worlds: seq<World>, steps: seq<Step>, n: nat, name: string, d: string)
    requires PoolIs64(pool) && Run(pool, worlds, steps) && n < |worlds| && Claims(worlds[n], name, d)
    requires forall i | 0 <= i < n :: IsInTime(worlds[i], steps[i])
    ensures var w := worlds[n];
            var dev := w.live[name].devices[d];
            && OwnRange(w, name).Some? && InPool(pool, OwnRange(w, name).value)
            && ListenPort(dev).Some? && IsOwnPort(w, name, ListenPort(dev).value)
            && forall name2, d2 | Claims(w, name2, d2) && (name2, d2) != (name, d) ::
                 ListenPort(w.live[name2].devices[d2]) != ListenPort(dev)
  {
    InTimeRunsOwnTheirPorts(pool, worlds, steps, n);
    RunsAreSound(pool, worlds, steps, n);
    var w := worlds[n];
    assert OwnPort(OwnRange(w, name), d, w.live[name].devices[d]);
    assert name in Registry.Holders(w.reg.table);
    forall name2, d2 | Claims(w, name2, d2) && (name2, d2) != (name, d)
      ensures ListenPort(w.live[name2].devices[d2]) != ListenPort(w.live[name].devices[d])
    {
      ExclusiveWorldSharesNoPort(pool, w, name2, d2, name, d);
    }
  }

  // ---------- where the code claims a port twice ----------

  lemma PathGoesOn(pool: PortPool, worlds: seq<World>, steps: seq<Step>, step: Step, w': World)
    requires Path(pool, worlds, steps) && Next(pool, worlds[|steps|], step, w')
    ensures Path(pool, worlds + [w'], steps + [step])
  {
  }

  lemma PathsConnect(pool: PortPool, worlds: seq<World>, steps: seq<Step>, worlds': seq<World>, steps': seq<Step>)
    requires Path(pool, worlds, steps) && Path(pool, worlds', steps') && worlds[|steps|] == worlds'[0]
    ensures Path(pool, worlds + worlds'[1..], steps + steps')
    ensures (worlds + worlds'[1..])[|steps + steps'|] == worlds'[|steps'|]
  {
    var ws, ss := worlds + worlds'[1..], steps + steps';
    forall i | 0 <= i < |ss| ensures Next(pool, ws[i], ss[i], ws[i + 1]) {
      if i >= |steps| {
        assert ws[i] == worlds'[i - |steps|] && ws[i + 1] == worlds'[i - |steps| + 1];
      }
    }
  }

  lemma StatementsArePath(pool: PortPool, w: World, states: seq<Registry.State>, statements: seq<Registry.Step>)
    returns (worlds: seq<World>, steps: seq<Step>)
    requires Registry.Run(pool, states, statements) && states[0] == w.reg
    requires forall s | s in statements :: Registry.OfTransaction(s)
    ensures Path(pool, worlds, steps) && |steps| == |statements|
    ensures worlds[0] == w && worlds[|steps|] == w.(reg := states[|statements|])
  {
    worlds := seq(|states|, i requires 0 <= i < |states| => w.(reg := states[i]));
    steps := seq(|statements|, i requires 0 <= i < |statements| => Statement(statements[i]));
    forall i | 0 <= i < |steps| ensures Next(pool, worlds[i], steps[i], worlds[i + 1]) {
      assert statements[i] in statements;
    }
  }

  /** A pool of existing ports with room for one instance, and an item of its plan to sell. */
  predicate HoldsOne(pool: PortPool, input: Registry.CreateInput) {
    && PoolIs64(pool) && 0 < pool.start && 0 < Registry.PortCount(pool, input) <= pool.end - pool.start + 1
    && !Registry.IsSoldOut(map[], input)
  }

  function FirstRow(pool: PortPool, input: Registry.CreateInput): Registry.Row {
    Registry.NewRow(input, Window(pool.start, Registry.PortCount(pool, input)))
  }

  /** The only row: a registry at rest with one instance, on the first range of the pool. */
  function OnlyRow(pool: PortPool, input: Registry.CreateInput): Registry.State {
    Registry.State(map[Registry.RowName(input) := FirstRow(pool, input)], None, map[])
  }

  function ForwardingSsh(pool: PortPool): Instance {
    Instance(PlanLimits.WithSshProxy(map[], pool.start), map[])
  }

  lemma RegistersFirst(pool: PortPool, input: Registry.CreateInput)
    requires HoldsOne(pool, input)
    ensures Registry.Creates(map[], pool, input, true, Success(FirstRow(pool, input)), OnlyRow(pool, input).table)
  {
    var n := Registry.PortCount(pool, input);
    assert Registry.StoredRanges(map[]) == {};
    assert Leftmost({}, pool.start, n, pool.start);
    var a: Result<Range, AllocError> := Success(Window(pool.start, n));
    assert Allocates({}, pool, n, a);
    assert Registry.Registers(map[], input, a, true, Success(FirstRow(pool, input)), OnlyRow(pool, input).table);
  }

  /** An instance is created while the table is empty: in Incus, then in the registry, statement by statement, then
      its SSH task runs. It gets the first range of the pool and forwards its first port. */
  lemma FirstCreation(pool: PortPool, w: World, input: Registry.CreateInput)
    returns (worlds: seq<World>, steps: seq<Step>)
    requires HoldsOne(pool, input) && Registry.RowName(input) !in w.live
    requires w.reg == EmptyWorld.reg && w.tasks == {}
    ensures Path(pool, worlds, steps) && worlds[0] == w
    ensures worlds[|steps|] ==
            w.(reg := OnlyRow(pool, input), live := w.live[Registry.RowName(input) := ForwardingSsh(pool)])
  {
    var name := Registry.RowName(input);
    var w1 := w.(live := w.live[name := Instance(map[], map[])]);
    RegistersFirst(pool, input);
    var states, statements :=
      Registry.CreateIsARun(map[], pool, input, true, Success(FirstRow(pool, input)), OnlyRow(pool, input).table);
    var registering, registeringSteps := StatementsArePath(pool, w1, states, statements);
    PathGoesOn(pool, [w], [], CreatesInstance(name, map[]), w1);
    PathsConnect(pool, [w, w1], [CreatesInstance(name, map[])], registering, registeringSteps);
    worlds, steps := [w, w1] + registering[1..], [CreatesInstance(name, map[])] + registeringSteps;
    var w2 := w1.(reg := OnlyRow(pool, input));
    var w3 := w2.(tasks := {(name, pool.start)});
    var w4 := w.(reg := w2.reg, live := w.live[name := ForwardingSsh(pool)]);
    PathGoesOn(pool, worlds, steps, SpawnsSshTask(name), w3);
    worlds, steps := worlds + [w3], steps + [SpawnsSshTask(name)];
    assert w3.tasks - {(name, pool.start)} == {} == w.tasks;
    PathGoesOn(pool, worlds, steps, RunsSshTask(name, pool.start), w4);
    worlds, steps := worlds + [w4], steps + [RunsSshTask(name, pool.start)];
  }

  /** Two instances listen on the first port of the pool. */
  predicate SharesFirstPort(pool: PortPool, w: World, a: string, b: string) {
    var d := Proxy.DeviceName(pool.start);
    && a != b && Claims(w, a, d) && Claims(w, b, d)
    && ListenPort(w.live[a].devices[d]) == ListenPort(w.live[b].devices[d]) == Some(pool.start)
  }

  lemma ForwardingInstancesShare(pool: PortPool, w: World, a: string, b: string)
    requires PoolIs64(pool) && 0 < pool.start <= pool.end && a != b && a in w.live && b in w.live
    requires w.live[a] == w.live[b] == ForwardingSsh(pool)
    ensures SharesFirstPort(pool, w, a, b)
  {
    WrittenRuleListens("tcp", pool.start, PlanLimits.SSH_PORT);
  }

  /** Two creations, of any plans, for instances of different names. */
  predicate TwoCreations(pool: PortPool, a: Registry.CreateInput, b: Registry.CreateInput) {
    HoldsOne(pool, a) && HoldsOne(pool, b) && Registry.RowName(a) != Registry.RowName(b)
  }

  /** The common end of both stories: the row of the first instance is gone and the instance is not; the second is
      created. */
  lemma SecondCreationCollides(pool: PortPool, a: Registry.CreateInput, b: Registry.CreateInput,
                               worlds: seq<World>, steps: seq<Step>)
    returns (worlds': seq<World>, steps': seq<Step>)
    requires TwoCreations(pool, a, b) && Run(pool, worlds, steps)
    requires var w := worlds[|steps|];
             w.reg == EmptyWorld.reg && w.tasks == {} && w.live == map[Registry.RowName(a) := ForwardingSsh(pool)]
    ensures Run(pool, worlds', steps') && steps <= steps'
    ensures SharesFirstPort(pool, worlds'[|steps'|], Registry.RowName(a), Registry.RowName(b))
    ensures worlds'[|steps'|].deleting == worlds[|steps|].deleting
  {
    var w := worlds[|steps|];
    assert Registry.RowName(b) !in w.live;
    var ws, ss := FirstCreation(pool, w, b);
    PathsConnect(pool, worlds, steps, ws, ss);
    worlds', steps' := worlds + ws[1..], steps + ss;
    ForwardingInstancesShare(pool, worlds'[|steps'|], Registry.RowName(a), Registry.RowName(b));
  }

  lemma NoRowsLeft(pool: PortPool, input: Registry.CreateInput)
    ensures Registry.Without(OnlyRow(pool, input).table, {Registry.RowName(input)}) == map[]
    ensures Registry.OwnedBy(OnlyRow(pool, input).table, input.owner) == {Registry.RowName(input)}
  {
  }

  /** Deleting a user removes the user's rows and leaves the instances in Incus. In every pool with room, for any two
      creations by different users, there is a run of the code in which the first instance is created, its owner is
      deleted, the second is created, and both instances listen on the same port. */
  lemma UserDeletionLetsAPortBeClaimedTwice(pool: PortPool, a: Registry.CreateInput, b: Registry.CreateInput)
    returns (worlds: seq<World>, steps: seq<Step>)
    requires TwoCreations(pool, a, b) && a.owner != b.owner
    ensures Run(pool, worlds, steps) && Statement(Registry.DeleteOwner(a.owner)) in steps
    ensures SharesFirstPort(pool, worlds[|steps|], Registry.RowName(a), Registry.RowName(b))
  {
    worlds, steps := FirstCreation(pool, EmptyWorld, a);
    var w, deletion := worlds[|steps|], Statement(Registry.DeleteOwner(a.owner));
    NoRowsLeft(pool, a);
    PathGoesOn(pool, worlds, steps, deletion, w.(reg := EmptyWorld.reg));
    worlds, steps := worlds + [w.(reg := EmptyWorld.reg)], steps + [deletion];
    assert deletion == steps[|steps| - 1];
    assert w.live == map[Registry.RowName(a) := ForwardingSsh(pool)];
    worlds, steps := SecondCreationCollides(pool, a, b, worlds, steps);
  }

  /** An instance is created and its deletion requested, the delete handler removes the row, and the deletion is still
      under way or has failed. */
  lemma DeletionLeavesTheInstance(pool: PortPool, a: Registry.CreateInput, hasFailed: bool)
    returns (worlds: seq<World>, steps: seq<Step>)
    requires HoldsOne(pool, a)
    ensures Run(pool, worlds, steps) && RequestsDeletion(Registry.RowName(a), true) in steps
    ensures var name := Registry.RowName(a);
            worlds[|steps|] == EmptyWorld.(live := map[name := ForwardingSsh(pool)],
                                           deleting := if hasFailed then {} else {name})
  {
    worlds, steps := FirstCreation(pool, EmptyWorld, a);
    var name := Registry.RowName(a);
    var live := map[name := ForwardingSsh(pool)];
    assert EmptyWorld.live[name := ForwardingSsh(pool)] == live;
    var failed := EmptyWorld.(live := live);
    var removed := failed.(deleting := {name});
    var requested := removed.(reg := OnlyRow(pool, a), rowsDue := {name});
    PathGoesOn(pool, worlds, steps, RequestsDeletion(name, true), requested);
    worlds, steps := worlds + [requested], steps + [RequestsDeletion(name, true)];
    var n := |steps|;
    assert steps[n - 1] == RequestsDeletion(name, true);
    NoRowsLeft(pool, a);
    PathGoesOn(pool, worlds, steps, Statement(Registry.DeleteByName(name)), removed);
    worlds, steps := worlds + [removed], steps + [Statement(Registry.DeleteByName(name))];
    if hasFailed {
      PathGoesOn(pool, worlds, steps, DeletionEnds(name, false), failed);
      worlds, steps := worlds + [failed], steps + [DeletionEnds(name, false)];
    }
    assert steps[n - 1] == RequestsDeletion(name, true);
  }

  /** The delete handler removes the row while Incus is still deleting the instance. In every pool with room, for any
      two creations, there is a run of the code in which the first instance is created and deleted, the second is
      created while that deletion is under way (or, with `hasFailed`, after it has failed), and both instances
      listen on the same port. */
  lemma DeletionLetsAPortBeClaimedTwice(pool: PortPool, a: Registry.CreateInput, b: Registry.CreateInput,
                                        hasFailed: bool)
    returns (worlds: seq<World>, steps: seq<Step>)
    requires TwoCreations(pool, a, b)
    ensures Run(pool, worlds, steps) && RequestsDeletion(Registry.RowName(a), true) in steps
    ensures SharesFirstPort(pool, worlds[|steps|], Registry.RowName(a), Registry.RowName(b))
    ensures worlds[|steps|].deleting == if hasFailed then {} else {Registry.RowName(a)}
  {
    var before, request := DeletionLeavesTheInstance(pool, a, hasFailed);
    worlds, steps := SecondCreationCollides(pool, a, b, before, request);
    var i :| 0 <= i < |request| && request[i] == RequestsDeletion(Registry.RowName(a), true);
    assert steps[i] == RequestsDeletion(Registry.RowName(a), true);
  }
}
