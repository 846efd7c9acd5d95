/** Applying a plan's bandwidth to an instance, at creation and in the repair pass at startup:
    `applyBandwidthFromPlan` and `ReconcilePlanLimits` of internal/api/handler/handler.go. */
module PlanLimits {
  import opened Wrappers
  import opened Text
  import opened Incus
  import opened Bandwidth
  import Proxy

  const SSH_PORT := 22

  function Rate(mbps: int): string {
    FormatInt(mbps) + "Mbit"
  }

  function WithRate(dev: Device, mbps: int): Device {
    dev[INGRESS := Rate(mbps)][EGRESS := Rate(mbps)]
  }

  lemma RateChangesTwoKeys(dev: Device, mbps: int)
    ensures WithRate(dev, mbps) - {INGRESS, EGRESS} == dev - {INGRESS, EGRESS}
  {
  }

  function RateLimited(inst: Instance, nic: string, mbps: int): Devices {
    if mbps > 0 && nic != "" then inst.devices[nic := WithRate(BaseDevice(inst, nic), mbps)] else inst.devices
  }

  function WithSshProxy(devices: Devices, hostPort: int): Devices {
    var name := Proxy.DeviceName(hostPort);
    if hostPort > 0 && name !in devices then devices[name := Proxy.ProxyDevice("tcp", hostPort, SSH_PORT)] else devices
  }

  /** The limit that a plan sets is one that the bandwidth form would accept. */
  lemma PlanRateIsValid(mbps: int)
    requires mbps > 0
    ensures IsRate(Rate(mbps))
  {
    var amount := FormatInt(mbps);
    assert IsNumber(amount);
    UnitIff("Mbit");
    assert amount + ("" + "Mbit") == Rate(mbps);
    PartsAreRate(amount, "", "Mbit");
  }

  predicate HasFactor(unit: string, factor: nat) {
    || (unit == "bit" && factor == 1)
    || (unit == "kbit" && factor == 1_000)
    || (unit == "Mbit" && factor == 1_000_000)
    || (unit == "Gbit" && factor == 1_000_000_000)
    || (unit == "Tbit" && factor == 1_000_000_000_000)
  }

  /** `rate` stands for so many bits per second: a decimal number times its unit. */
  ghost predicate Denotes(rate: string, bits: int) {
    exists number, unit, factor ::
      && rate == number + unit && number != "" && AllDigits(number) && HasFactor(unit, factor)
      && bits == DigitsValue(number) * factor
  }

  /** A rate stands for one number only. */
  lemma DenotesOne(rate: string, a: int, b: int)
    requires Denotes(rate, a) && Denotes(rate, b)
    ensures a == b
  {
    var n1, u1, f1 :| rate == n1 + u1 && n1 != "" && AllDigits(n1) && HasFactor(u1, f1) && a == DigitsValue(n1) * f1;
    var n2, u2, f2 :| rate == n2 + u2 && n2 != "" && AllDigits(n2) && HasFactor(u2, f2) && b == DigitsValue(n2) * f2;
    UnitIsNoNumber(u1, f1, u2, f2);
    assert rate[|n1|] == u1[0] && rate[|n2|] == u2[0];
    assert n1 == rate[..|n1|] && n2 == rate[..|n2|] && u1 == rate[|n1|..] && u2 == rate[|n2|..];
  }

  lemma UnitIsNoNumber(u1: string, f1: nat, u2: string, f2: nat)
    requires HasFactor(u1, f1) && HasFactor(u2, f2)
    ensures u1 != "" && u2 != "" && !IsDigit(u1[0]) && !IsDigit(u2[0]) && (u1 == u2 ==> f1 == f2)
  {
  }

  lemma PlanRateDenotes(mbps: int)
    requires mbps > 0
    ensures Denotes(Rate(mbps), mbps * 1_000_000)
  {
    DigitsRoundTrip(mbps);
    assert Rate(mbps) == Digits(mbps) + "Mbit";
    assert HasFactor("Mbit", 1_000_000);
  }

  /** Both limits of a device stand for so many bits per second. */
  ghost predicate LimitedTo(dev: Device, bits: int) {
    && "limits.ingress" in dev && Denotes(dev["limits.ingress"], bits)
    && "limits.egress" in dev && Denotes(dev["limits.egress"], bits)
  }

  lemma WithRateIsLimitedTo(dev: Device, mbps: int)
    requires mbps > 0
    ensures LimitedTo(WithRate(dev, mbps), mbps * 1_000_000)
    ensures WithRate(dev, mbps) - {"limits.ingress", "limits.egress"} == dev - {"limits.ingress", "limits.egress"}
  {
    PlanRateDenotes(mbps);
    RateChangesTwoKeys(dev, mbps);
  }

  /** The SSH proxy of a new instance is listed as a rule from its host port to the guest's port 22. */
  lemma SshProxyIsListed(devices: Devices, hostPort: int)
    requires 0 < hostPort <= INT64_MAX && Proxy.DeviceName(hostPort) !in devices
    ensures Proxy.Rules(WithSshProxy(devices, hostPort)) ==
            {Proxy.ProxyRule(Proxy.DeviceName(hostPort), "tcp", hostPort, 22)}
            + (set r | r in Proxy.Rules(devices) && r.name != Proxy.DeviceName(hostPort))
  {
    var name := Proxy.DeviceName(hostPort);
    assert forall i | 0 <= i < |"tcp"| :: "tcp"[i] != ':';
    Proxy.RuleRoundTrip(name, "tcp", hostPort, SSH_PORT);
    Proxy.ReplacedDeviceIsListed(devices, name, Proxy.ProxyDevice("tcp", hostPort, SSH_PORT),
                                 Proxy.ProxyRule(name, "tcp", hostPort, SSH_PORT));
  }

  /** An instance after its plan was applied: limited at `nic`, and with the SSH proxy if it starts by itself. */
  function Applied(inst: Instance, nic: string, mbps: int, autoStart: bool, sshHostPort: int): Instance {
    var limited := RateLimited(inst, nic, mbps);
    inst.(devices := if autoStart then WithSshProxy(limited, sshHostPort) else limited)
  }

  /** A plan of `mbps` megabits gives the NIC that many million bits per second both ways, and keeps its other keys; a
      plan without a bandwidth leaves the devices alone. */
  lemma AppliedPlanGivesBandwidth(inst: Instance, nic: string, mbps: int, autoStart: bool, sshHostPort: int)
    requires nic in Expanded(inst) && nic != ""
    ensures var before, after := Expanded(inst), Expanded(Applied(inst, nic, mbps, autoStart, sshHostPort));
            && (mbps > 0 ==>
                  && nic in after && LimitedTo(after[nic], mbps * 1_000_000)
                  && after[nic] - {"limits.ingress", "limits.egress"} ==
                     before[nic] - {"limits.ingress", "limits.egress"})
            && (mbps <= 0 && !autoStart ==> after == before)
  {
    if mbps > 0 {
      WithRateIsLimitedTo(BaseDevice(inst, nic), mbps);
    }
  }

  /** Beside the NIC nothing changes but the SSH proxy. An instance that starts by itself gets one, on its first port
      and to the guest's port 22, unless a device has that name; no other instance does. */
  lemma AppliedPlanAddsSshProxy(inst: Instance, nic: string, mbps: int, autoStart: bool, sshHostPort: int)
    ensures var name := "proxy-" + FormatInt(sshHostPort);
            var before, after := inst.devices, Applied(inst, nic, mbps, autoStart, sshHostPort).devices;
            && after - {nic} - {name} == before - {nic} - {name}
            && (name != nic ==>
                  if name !in before && autoStart && sshHostPort > 0 then
                    && name in after
                    && after[name] == map["type" := "proxy", "listen" := "tcp:0.0.0.0:" + FormatInt(sshHostPort),
                                          "connect" := "tcp:127.0.0.1:22"]
                  else after - {nic} == before - {nic})
  {
    var name := "proxy-" + FormatInt(sshHostPort);
    assert Proxy.DeviceName(sshHostPort) == name;
    Proxy.RuleDevice("tcp", sshHostPort, SSH_PORT);
    SshText(sshHostPort);
    OtherDevicesStay(inst, nic, mbps, autoStart, sshHostPort);
  }

  lemma SshText(hostPort: int)
    ensures "tcp" + ":0.0.0.0:" + FormatInt(hostPort) == "tcp:0.0.0.0:" + FormatInt(hostPort)
    ensures "tcp" + ":127.0.0.1:" + FormatInt(SSH_PORT) == "tcp:127.0.0.1:22"
  {
    assert Digits(22) == Digits(2) + ['2'] && Digits(2) == ['2'];
  }

  lemma OtherDevicesStay(inst: Instance, nic: string, mbps: int, autoStart: bool, sshHostPort: int)
    ensures var name := Proxy.DeviceName(sshHostPort);
            var before, after := inst.devices, Applied(inst, nic, mbps, autoStart, sshHostPort).devices;
            && after - {nic} - {name} == before - {nic} - {name}
            && (name != nic && (name in before || !autoStart || sshHostPort <= 0) ==> after - {nic} == before - {nic})
  {
    var limited := RateLimited(inst, nic, mbps);
    assert limited - {nic} == inst.devices - {nic};
  }

  /** `created` tells whether waiting for the creation succeeded. */
  method ApplyBandwidthFromPlan(server: Server, name: string, mbps: int, autoStart: bool, sshHostPort: int,
                                created: bool, accepted: bool)
    returns (started: bool, ghost nic: string)
    modifies server
    ensures started <==> created && name in old(server.instances) && accepted && autoStart
    ensures created && name in old(server.instances) ==> IsPrimaryNic(Expanded(old(server.instances[name])), nic)
    ensures server.instances ==
            if created && name in old(server.instances) && accepted then
              old(server.instances)[name := Applied(old(server.instances[name]), nic, mbps, autoStart, sshHostPort)]
            else old(server.instances)
  {
    started, nic := false, "";
    if created && name in server.instances {
      var inst := server.instances[name];
      var primary := PickPrimaryNic(Expanded(inst));
      nic := primary;
      var devices := inst.devices;
      if mbps > 0 && primary != "" {
        var dev := if primary in devices then devices[primary] else DeviceAt(Expanded(inst), primary);
        var limit := Rate(mbps);
        dev := dev[INGRESS := limit];
        dev := dev[EGRESS := limit];
        devices := devices[primary := dev];
      }
      if autoStart && sshHostPort > 0 {
        var devName := Proxy.DeviceName(sshHostPort);
        if devName !in devices {
          devices := devices[devName := Proxy.ProxyDevice("tcp", sshHostPort, SSH_PORT)];
        }
      }
      var ok := server.UpdateInstance(name, devices, accepted);
      started := ok && autoStart;
    }
  }

  // ---------- the repair pass ----------

  ghost function PrimaryNic(expanded: Devices): (nic: string)
    ensures IsPrimaryNic(expanded, nic)
  {
    if IsNic(expanded, "eth0") then "eth0"
    else if exists name | name in expanded :: IsNic(expanded, name) then var name :| IsNic(expanded, name); name
    else ""
  }

  predicate BothLimited(inst: Instance, nic: string) {
    var cur := DeviceAt(Expanded(inst), nic);
    Field(cur, INGRESS) != "" && Field(cur, EGRESS) != ""
  }

  predicate IsPlanned(owned: map<string, Option<int>>, plans: map<int, int>, name: string) {
    name in owned && owned[name].Some? && owned[name].value in plans
  }

  /** The registered instances that the pass repairs: planned, with a NIC, and missing a limit. */
  ghost predicate IsDue(inst: Instance, owned: map<string, Option<int>>, plans: map<int, int>, name: string) {
    && IsPlanned(owned, plans, name)
    && var nic := PrimaryNic(Expanded(inst));
       nic != "" && !BothLimited(inst, nic)
  }

  ghost function Repaired(inst: Instance, mbps: int): Instance {
    inst.(devices := RateLimited(inst, PrimaryNic(Expanded(inst)), mbps))
  }

  /** The repaired form of every instance that is due, except those whose update the server refuses. */
  ghost function Repairs(instances: map<string, Instance>, owned: map<string, Option<int>>, plans: map<int, int>,
                         refused: set<string>): map<string, Instance>
  {
    map name | name in instances && IsDue(instances[name], owned, plans, name) && name !in refused ::
      Repaired(instances[name], plans[owned[name].value])
  }

  /** What a pass makes of one instance. */
  ghost function ReconciledOne(inst: Instance, owned: map<string, Option<int>>, plans: map<int, int>, name: string,
                               isRefused: bool): Instance
  {
    if IsDue(inst, owned, plans, name) && !isRefused then Repaired(inst, plans[owned[name].value]) else inst
  }

  /** What a pass leaves. */
  ghost function Reconciled(instances: map<string, Instance>, owned: map<string, Option<int>>, plans: map<int, int>,
                            refused: set<string>): map<string, Instance>
  {
    map name | name in instances :: ReconciledOne(instances[name], owned, plans, name, name in refused)
  }

  lemma RepairsMakeReconciled(instances: map<string, Instance>, owned: map<string, Option<int>>, plans: map<int, int>,
                              refused: set<string>)
    ensures instances + Repairs(instances, owned, plans, refused) == Reconciled(instances, owned, plans, refused)
  {
  }

  ghost predicate ChoicesAreFixed(instances: map<string, Instance>) {
    forall name | name in instances :: HasOneChoice(Expanded(instances[name]))
  }

  /** The tasks of a pass: the bandwidth that each due instance is to be given. */
  ghost function Tasks(instances: map<string, Instance>, owned: map<string, Option<int>>, plans: map<int, int>):
    map<string, int>
  {
    map name | name in instances && IsDue(instances[name], owned, plans, name) :: plans[owned[name].value]
  }

  /** In the middle of a pass that has `repairs` to make: those whose instance is neither unscanned nor pending
      are made, nothing else has changed, and what is pending are tasks of the pass. */
  ghost predicate InPass(start: map<string, Instance>, now: map<string, Instance>, repairs: map<string, Instance>,
                         tasks: map<string, int>, unscanned: set<string>, pending: map<string, int>)
  {
    && pending.Keys <= tasks.Keys - unscanned && repairs.Keys <= tasks.Keys <= start.Keys
    && now == start + (repairs - unscanned - pending.Keys)
    && forall name | name in pending :: pending[name] == tasks[name]
  }

  lemma PassStarts(start: map<string, Instance>, repairs: map<string, Instance>, tasks: map<string, int>,
                   unscanned: set<string>)
    requires repairs.Keys <= tasks.Keys <= start.Keys * unscanned
    ensures InPass(start, start, repairs, tasks, unscanned, map[])
  {
    assert repairs - unscanned - {} == map[];
  }

  lemma PassEnds(start: map<string, Instance>, now: map<string, Instance>, repairs: map<string, Instance>,
                 tasks: map<string, int>)
    requires InPass(start, now, repairs, tasks, {}, map[])
    ensures now == start + repairs
  {
    assert repairs - {} - {} == repairs;
  }

  lemma TaskRuns(start: map<string, Instance>, now: map<string, Instance>, repairs: map<string, Instance>,
                 tasks: map<string, int>, unscanned: set<string>, pending: map<string, int>, name: string)
    requires InPass(start, now, repairs, tasks, unscanned, pending) && name in pending
    ensures name in start && name in now && now[name] == start[name] && name in tasks && pending[name] == tasks[name]
    ensures InPass(start, if name in repairs then now[name := repairs[name]] else now, repairs, tasks,
                   unscanned, pending - {name})
  {
    assert (pending - {name}).Keys == pending.Keys - {name};
    var made := repairs - unscanned - pending.Keys;
    assert repairs - unscanned - (pending.Keys - {name}) ==
           if name in repairs then made[name := repairs[name]] else made;
  }

  lemma ScanSpawns(start: map<string, Instance>, now: map<string, Instance>, repairs: map<string, Instance>,
                   tasks: map<string, int>, unscanned: set<string>, pending: map<string, int>, name: string)
    requires InPass(start, now, repairs, tasks, unscanned, pending) && name in unscanned && name in tasks
    ensures InPass(start, now, repairs, tasks, unscanned - {name}, pending[name := tasks[name]])
  {
    assert pending[name := tasks[name]].Keys == pending.Keys + {name};
    SpawnedIsNotMade(repairs, unscanned, pending.Keys, name);
  }

  lemma SpawnedIsNotMade(repairs: map<string, Instance>, unscanned: set<string>, pending: set<string>, name: string)
    requires name in unscanned
    ensures repairs - unscanned - pending == repairs - (unscanned - {name}) - (pending + {name})
  {
  }

  lemma ScanSkips(start: map<string, Instance>, now: map<string, Instance>, repairs: map<string, Instance>,
                  tasks: map<string, int>, unscanned: set<string>, pending: map<string, int>, name: string)
    requires InPass(start, now, repairs, tasks, unscanned, pending) && name !in tasks
    ensures InPass(start, now, repairs, tasks, unscanned - {name}, pending)
  {
    assert repairs - unscanned == repairs - (unscanned - {name});
  }

  lemma UnscannedIsUntouched(start: map<string, Instance>, now: map<string, Instance>, repairs: map<string, Instance>,
                             tasks: map<string, int>, unscanned: set<string>, pending: map<string, int>, name: string)
    requires InPass(start, now, repairs, tasks, unscanned, pending) && name in unscanned
    ensures name in now <==> name in start
    ensures name in now ==> now[name] == start[name]
  {
  }

  /** The two moves of a pass, in the pass's own terms: a pending task runs, a row is scanned. */
  lemma PendingTaskRuns(start: map<string, Instance>, now: map<string, Instance>, owned: map<string, Option<int>>,
                        plans: map<int, int>, refused: set<string>, unscanned: set<string>, pending: map<string, int>,
                        name: string)
    requires ChoicesAreFixed(start) && name in pending
    requires InPass(start, now, Repairs(start, owned, plans, refused), Tasks(start, owned, plans), unscanned, pending)
    ensures name in now && HasOneChoice(Expanded(now[name]))
    ensures InPass(start, if name in refused then now else now[name := Repaired(now[name], pending[name])],
                   Repairs(start, owned, plans, refused), Tasks(start, owned, plans), unscanned, pending - {name})
  {
    TaskRuns(start, now, Repairs(start, owned, plans, refused), Tasks(start, owned, plans), unscanned, pending, name);
  }

  lemma RowIsScanned(start: map<string, Instance>, now: map<string, Instance>, owned: map<string, Option<int>>,
                     plans: map<int, int>, refused: set<string>, unscanned: set<string>, pending: map<string, int>,
                     name: string, task: Option<int>)
    requires name in unscanned
    requires InPass(start, now, Repairs(start, owned, plans, refused), Tasks(start, owned, plans), unscanned, pending)
    requires task.Some? <==> name in now && IsDue(now[name], owned, plans, name)
    requires task.Some? ==> task.value == plans[owned[name].value]
    ensures InPass(start, now, Repairs(start, owned, plans, refused), Tasks(start, owned, plans), unscanned - {name},
                   if task.Some? then pending[name := task.value] else pending)
  {
    var repairs, tasks := Repairs(start, owned, plans, refused), Tasks(start, owned, plans);
    UnscannedIsUntouched(start, now, repairs, tasks, unscanned, pending, name);
    if task.Some? {
      ScanSpawns(start, now, repairs, tasks, unscanned, pending, name);
    } else {
      ScanSkips(start, now, repairs, tasks, unscanned, pending, name);
    }
  }

  /** The pass, with the tasks it spawns: any task may run as soon as it is spawned, between any two steps of the
      scan, in any order. `owned` is the instances table (unique names, each with its plan), `plans` the
      bandwidth of each plan; the server refuses the updates of the instances in `refused`. */
  method ReconcilePlanLimits(server: Server, owned: map<string, Option<int>>, plans: map<int, int>,
                             refused: set<string>)
    requires ChoicesAreFixed(server.instances)
    modifies server
    ensures server.instances == Reconciled(old(server.instances), owned, plans, refused)
  {
    ghost var start := server.instances;
    ghost var repairs, tasks := Repairs(start, owned, plans, refused), Tasks(start, owned, plans);
    var unscanned, pending: map<string, int> := owned.Keys, map[];
    PassStarts(start, repairs, tasks, unscanned);
    while unscanned != {} || pending.Keys != {}
      invariant unscanned <= owned.Keys
      invariant InPass(start, server.instances, repairs, tasks, unscanned, pending)
      decreases unscanned, pending.Keys
    {
      var runTask: bool := *;
      if unscanned == {} || (runTask && pending.Keys != {}) {
        var name :| name in pending.Keys;
        PendingTaskRuns(start, server.instances, owned, plans, refused, unscanned, pending, name);
        RunTask(server, name, pending[name], name !in refused);
        pending := pending - {name};
      } else {
        var name :| name in unscanned;
        UnscannedIsUntouched(start, server.instances, repairs, tasks, unscanned, pending, name);
        var task, nic := SpawnTask(server, owned, plans, name);
        PickedNicDecides(server.instances, owned, plans, name, nic, task);
        RowIsScanned(start, server.instances, owned, plans, refused, unscanned, pending, name, task);
        if task.Some? {
          pending := pending[name := task.value];
        }
        unscanned := unscanned - {name};
      }
    }
    PassEnds(start, server.instances, repairs, tasks);
    RepairsMakeReconciled(start, owned, plans, refused);
  }

  /** Where the choice of the NIC is fixed, the task of a row is that of the specification. */
  lemma PickedNicDecides(now: map<string, Instance>, owned: map<string, Option<int>>, plans: map<int, int>,
                         name: string,
                         nic: string, task: Option<int>)
    requires name in now ==> HasOneChoice(Expanded(now[name])) && IsPrimaryNic(Expanded(now[name]), nic)
    requires task.Some? <==> IsPlanned(owned, plans, name) && name in now && nic != "" && !BothLimited(now[name], nic)
    ensures task.Some? <==> name in now && IsDue(now[name], owned, plans, name)
  {
    if name in now {
      PrimaryNicIsUnique(Expanded(now[name]), nic, PrimaryNic(Expanded(now[name])));
    }
  }

  /** The body of the scan, for one row: the bandwidth of the task to spawn, if the NIC picked misses a limit. */
  method SpawnTask(server: Server, owned: map<string, Option<int>>, plans: map<int, int>, name: string)
    returns (task: Option<int>, ghost nic: string)
    requires name in owned
    ensures name in server.instances ==> IsPrimaryNic(Expanded(server.instances[name]), nic)
    ensures task.Some? <==> IsPlanned(owned, plans, name) && name in server.instances &&
                            nic != "" && !BothLimited(server.instances[name], nic)
    ensures task.Some? ==> task.value == plans[owned[name].value]
  {
    task, nic := None, "";
    if name in server.instances {
      var primary := PickPrimaryNic(Expanded(server.instances[name]));
      nic := primary;
      if owned[name].Some? && owned[name].value in plans && primary != "" &&
         !BothLimited(server.instances[name], primary) {
        task := Some(plans[owned[name].value]);
      }
    }
  }

  /** A spawned task: no SSH proxy, no start, nothing to wait for. */
  method RunTask(server: Server, name: string, mbps: int, accepted: bool)
    requires name in server.instances && HasOneChoice(Expanded(server.instances[name]))
    modifies server
    ensures server.instances ==
            if accepted then old(server.instances)[name := Repaired(old(server.instances[name]), mbps)]
            else old(server.instances)
  {
    ghost var expanded := Expanded(server.instances[name]);
    var _, nic := ApplyBandwidthFromPlan(server, name, mbps, false, 0, true, accepted);
    PrimaryNicIsUnique(expanded, nic, PrimaryNic(expanded));
  }

  // ---------- convergence ----------

  lemma RepairedEffect(inst: Instance, mbps: int)
    requires HasOneChoice(Expanded(inst))
    ensures var nic, before, after := PrimaryNic(Expanded(inst)), Expanded(inst), Expanded(Repaired(inst, mbps));
            && after - {nic} == before - {nic}
            && PrimaryNic(after) == nic && HasOneChoice(after)
            && (nic != "" ==> after[nic] == if mbps > 0 then WithRate(before[nic], mbps) else before[nic])
            && (nic != "" && mbps > 0 ==> BothLimited(Repaired(inst, mbps), nic))
  {
    var nic, before, after := PrimaryNic(Expanded(inst)), Expanded(inst), Expanded(Repaired(inst, mbps));
    assert after - {nic} == before - {nic};
    OtherDevicesKeepNics(before, after, nic);
    assert IsNic(before, nic) <==> IsNic(after, nic);
    SameNicsSamePrimary(before, after);
    PrimaryNicIsUnique(before, nic, PrimaryNic(after));
  }

  /** One pass gives both limits to the primary NIC of every planned instance whose plan sets a bandwidth and whose
      update is not refused, and changes nothing else: not another device, nor another key of that NIC, nor a NIC
      that had both limits. */
  lemma ReconciledLimitsPlannedInstances(instances: map<string, Instance>, owned: map<string, Option<int>>,
                                         plans: map<int, int>, refused: set<string>, name: string)
    requires ChoicesAreFixed(instances) && name in instances
    ensures name in Reconciled(instances, owned, plans, refused)
    ensures var inst, inst' := instances[name], Reconciled(instances, owned, plans, refused)[name];
            var nic, before, after := PrimaryNic(Expanded(inst)), Expanded(inst), Expanded(inst');
            && after - {nic} == before - {nic}
            && PrimaryNic(after) == nic
            && (nic != "" ==> after[nic] - {INGRESS, EGRESS} == before[nic] - {INGRESS, EGRESS})
            && (nic != "" && IsPlanned(owned, plans, name) && plans[owned[name].value] > 0 && name !in refused ==>
                  BothLimited(inst', nic))
            && (name in refused || (nic != "" && BothLimited(inst, nic)) ==> inst' == inst)
  {
    if IsDue(instances[name], owned, plans, name) {
      var inst := instances[name];
      RepairedEffect(inst, plans[owned[name].value]);
      RateChangesTwoKeys(Expanded(inst)[PrimaryNic(Expanded(inst))], plans[owned[name].value]);
    }
  }

  /** The pass in full, for one instance and its NIC: a registered instance of a plan with a bandwidth that lacks one
      of the two limits gets both, at the plan's bandwidth, unless the server refuses; nothing else about it changes. */
  lemma PassGivesPlanBandwidth(instances: map<string, Instance>, owned: map<string, Option<int>>, plans: map<int, int>,
                               refused: set<string>, name: string, nic: string, plan: int)
    requires ChoicesAreFixed(instances) && name in instances
    requires nic in Expanded(instances[name]) && nic != "" && IsPrimaryNic(Expanded(instances[name]), nic)
    requires name in owned && owned[name] == Some(plan) && plan in plans && name !in refused
    requires var dev := Expanded(instances[name])[nic];
             Field(dev, "limits.ingress") == "" || Field(dev, "limits.egress") == ""
    ensures var before := Expanded(instances[name]);
            var after := Expanded(Reconciled(instances, owned, plans, refused)[name]);
            && after - {nic} == before - {nic} && nic in after
            && (plans[plan] > 0 ==> LimitedTo(after[nic], plans[plan] * 1_000_000))
            && after[nic] - {"limits.ingress", "limits.egress"} == before[nic] - {"limits.ingress", "limits.egress"}
            && (plans[plan] <= 0 ==> after == before)
  {
    var inst := instances[name];
    PrimaryNicIsUnique(Expanded(inst), nic, PrimaryNic(Expanded(inst)));
    assert !BothLimited(inst, nic);
    assert Reconciled(instances, owned, plans, refused)[name] == Repaired(inst, plans[plan]);
    RepairedEffect(inst, plans[plan]);
    if plans[plan] > 0 {
      WithRateIsLimitedTo(Expanded(inst)[nic], plans[plan]);
    }
  }

  /** The pass leaves alone every instance that is not registered, has no plan or one that is not found, has no NIC, has
      both limits, or whose update is refused. */
  lemma PassLeavesOthers(instances: map<string, Instance>, owned: map<string, Option<int>>, plans: map<int, int>,
                         refused: set<string>, name: string, nic: string)
    requires ChoicesAreFixed(instances) && name in instances && IsPrimaryNic(Expanded(instances[name]), nic)
    requires || name !in owned || owned[name] == None || owned[name].value !in plans || name in refused
             || nic == "" || nic !in Expanded(instances[name])
             || (var dev := Expanded(instances[name])[nic];
                 Field(dev, "limits.ingress") != "" && Field(dev, "limits.egress") != "")
    ensures Reconciled(instances, owned, plans, refused)[name] == instances[name]
  {
    PrimaryNicIsUnique(Expanded(instances[name]), nic, PrimaryNic(Expanded(instances[name])));
  }

  lemma OneKeepsChoice(inst: Instance, owned: map<string, Option<int>>, plans: map<int, int>, name: string,
                       isRefused: bool)
    requires HasOneChoice(Expanded(inst))
    ensures HasOneChoice(Expanded(ReconciledOne(inst, owned, plans, name, isRefused)))
  {
    if IsDue(inst, owned, plans, name) {
      RepairedEffect(inst, plans[owned[name].value]);
    }
  }

  lemma OneConverges(inst: Instance, owned: map<string, Option<int>>, plans: map<int, int>, name: string,
                     isRefused: bool)
    requires HasOneChoice(Expanded(inst))
    ensures ReconciledOne(ReconciledOne(inst, owned, plans, name, isRefused), owned, plans, name, false) ==
            ReconciledOne(inst, owned, plans, name, false)
  {
    if IsDue(inst, owned, plans, name) {
      RepairedEffect(inst, plans[owned[name].value]);
    }
  }

  lemma PassKeepsChoices(instances: map<string, Instance>, owned: map<string, Option<int>>, plans: map<int, int>,
                         refused: set<string>)
    requires ChoicesAreFixed(instances)
    ensures ChoicesAreFixed(Reconciled(instances, owned, plans, refused))
  {
    forall name | name in instances
      ensures HasOneChoice(Expanded(ReconciledOne(instances[name], owned, plans, name, name in refused)))
    {
      OneKeepsChoice(instances[name], owned, plans, name, name in refused);
    }
  }

  lemma SameMaps(a: map<string, Instance>, b: map<string, Instance>)
    requires a.Keys == b.Keys && forall name | name in a :: a[name] == b[name]
    ensures a == b
  {
  }

  /** A later pass without refusals finishes exactly what refusals left over; after a complete pass it changes
      nothing. */
  lemma ReconcileConverges(instances: map<string, Instance>, owned: map<string, Option<int>>, plans: map<int, int>,
                           refused: set<string>)
    requires ChoicesAreFixed(instances)
    ensures ChoicesAreFixed(Reconciled(instances, owned, plans, refused))
    ensures Reconciled(Reconciled(instances, owned, plans, refused), owned, plans, {}) ==
            Reconciled(instances, owned, plans, {})
  {
    PassKeepsChoices(instances, owned, plans, refused);
    var partly := Reconciled(instances, owned, plans, refused);
    var again, wholly := Reconciled(partly, owned, plans, {}), Reconciled(instances, owned, plans, {});
    forall name | name in instances ensures again[name] == wholly[name] {
      OneConverges(instances[name], owned, plans, name, name in refused);
    }
    SameMaps(again, wholly);
  }
}
