/** Port-forwarding rules, stored as proxy devices of an instance: internal/api/handler/proxy.go. */
module Proxy {
  import opened Wrappers
  import opened Text
  import opened Incus
  import PortAllocator

  datatype ProxyRule = ProxyRule(name: string, protocol: string, hostPort: int, containerPort: int)

  // ---------- printing and parsing ----------

  const ANY_HOST := "0.0.0.0"
  const LOCALHOST := "127.0.0.1"

  lemma HostsHaveNoColon()
    ensures ':' !in ANY_HOST && ':' !in LOCALHOST
  {
  }

  function DeviceName(hostPort: int): string {
    "proxy-" + FormatInt(hostPort)
  }

  function Endpoint(protocol: string, host: string, port: int): string {
    protocol + ":" + host + ":" + FormatInt(port)
  }

  function ProxyDevice(protocol: string, hostPort: int, containerPort: int): Device {
    map["type" := "proxy",
        "listen" := Endpoint(protocol, ANY_HOST, hostPort),
        "connect" := Endpoint(protocol, LOCALHOST, containerPort)]
  }

  /** The last piece of an endpoint, read as a number. */
  function PortOf(endpoint: string): Option<int> {
    var parts := Split(endpoint, ':');
    ParseInt(parts[|parts| - 1])
  }

  function ParseEndpoints(name: string, listen: string, connect: string): Option<ProxyRule> {
    var lp, cp := Split(listen, ':'), Split(connect, ':');
    if |lp| < 3 || |cp| < 3 then None else
    match (ParseInt(lp[|lp| - 1]), ParseInt(cp[|cp| - 1]))
    case (Some(hostPort), Some(containerPort)) => Some(ProxyRule(name, lp[0], hostPort, containerPort))
    case _ => None
  }

  function ParseProxyDevice(name: string, dev: Device): Option<ProxyRule> {
    ParseEndpoints(name, Field(dev, "listen"), Field(dev, "connect"))
  }

  predicate IsPort64(port: int) {
    INT64_MIN <= port <= INT64_MAX
  }

  lemma EndpointPieces(protocol: string, host: string, port: int)
    requires IsPort64(port) && ':' !in host
    ensures var parts := Split(Endpoint(protocol, host, port), ':');
            |parts| >= 3 && parts[0] == Split(protocol, ':')[0] && ParseInt(parts[|parts| - 1]) == Some(port)
    ensures PortOf(Endpoint(protocol, host, port)) == Some(port)
  {
    var number := FormatInt(port);
    var tail := host + ":" + number;
    assert Split(tail, ':') == [host, number] by {
      SplitConcat(host, ':', number);
      SplitWhole(host, ':');
      SplitWhole(number, ':');
    }
    assert Endpoint(protocol, host, port) == protocol + ":" + tail;
    assert Split(protocol + ":" + tail, ':') == Split(protocol, ':') + [host, number] by {
      SplitConcat(protocol, ':', tail);
    }
    ParseFormat(port);
  }

  /** The device of a rule, key by key: it listens on all addresses of the host and connects to the guest itself. */
  lemma RuleDevice(protocol: string, hostPort: int, containerPort: int)
    ensures ProxyDevice(protocol, hostPort, containerPort) ==
            map["type" := "proxy",
                "listen" := protocol + ":0.0.0.0:" + FormatInt(hostPort),
                "connect" := protocol + ":127.0.0.1:" + FormatInt(containerPort)]
  {
    var listen, connect := FormatInt(hostPort), FormatInt(containerPort);
    assert protocol + ":0.0.0.0:" + listen == protocol + ":" + ANY_HOST + ":" + listen;
    assert protocol + ":127.0.0.1:" + connect == protocol + ":" + LOCALHOST + ":" + connect;
  }

  /** What is read of an endpoint: its text before the first colon, and the number behind the last. */
  lemma EndpointIsRead(protocol: string, middle: string, number: string)
    requires ':' !in protocol && ':' !in number
    ensures var parts := Split(protocol + ":" + middle + ":" + number, ':');
            |parts| >= 3 && parts[0] == protocol && parts[|parts| - 1] == number
  {
    var tail := middle + ":" + number;
    assert protocol + ":" + middle + ":" + number == protocol + ":" + tail;
    SplitConcat(protocol, ':', tail);
    SplitConcat(middle, ':', number);
    SplitWhole(protocol, ':');
    SplitWhole(number, ':');
    assert Split(protocol + ":" + tail, ':') == [protocol] + (Split(middle, ':') + [number]);
  }

  /** Endpoints of the form protocol:anything:number give a rule exactly when both numbers fit 64 bits. */
  lemma EndpointsAreReadIff(name: string, p1: string, m1: string, n1: string, p2: string, m2: string, n2: string)
    requires ':' !in p1 && ':' !in n1 && ':' !in p2 && ':' !in n2
    ensures var rule := ParseEndpoints(name, p1 + ":" + m1 + ":" + n1, p2 + ":" + m2 + ":" + n2);
            && (rule.Some? <==> ParseInt(n1).Some? && ParseInt(n2).Some?)
            && (rule.Some? ==> rule.value == ProxyRule(name, p1, ParseInt(n1).value, ParseInt(n2).value))
  {
    EndpointIsRead(p1, m1, n1);
    EndpointIsRead(p2, m2, n2);
  }

  /** An endpoint with fewer than two colons gives none. */
  lemma ShortEndpointsAreNotRead(name: string, listen: string, connect: string)
    requires multiset(listen)[':'] < 2 || multiset(connect)[':'] < 2
    ensures ParseEndpoints(name, listen, connect) == None
  {
    SplitCount(listen, ':');
    SplitCount(connect, ':');
  }

  /** Reading back a written rule yields its name and ports always, and its protocol exactly when that holds no
      colon. */
  lemma RuleRoundTrip(name: string, protocol: string, hostPort: int, containerPort: int)
    requires IsPort64(hostPort) && IsPort64(containerPort)
    ensures var rule := ParseProxyDevice(name, ProxyDevice(protocol, hostPort, containerPort));
            && rule == Some(ProxyRule(name, Split(protocol, ':')[0], hostPort, containerPort))
            && (rule == Some(ProxyRule(name, protocol, hostPort, containerPort)) <==> ':' !in protocol)
  {
    HostsHaveNoColon();
    var listen, connect := Endpoint(protocol, ANY_HOST, hostPort), Endpoint(protocol, LOCALHOST, containerPort);
    var dev := ProxyDevice(protocol, hostPort, containerPort);
    assert Field(dev, "listen") == listen && Field(dev, "connect") == connect;
    assert ParseEndpoints(name, listen, connect) ==
           Some(ProxyRule(name, Split(protocol, ':')[0], hostPort, containerPort)) by {
      EndpointPieces(protocol, ANY_HOST, hostPort);
      EndpointPieces(protocol, LOCALHOST, containerPort);
    }
    SplitWhole(protocol, ':');
  }

  /** Device names tell host ports apart. */
  lemma DeviceNameInjective(a: int, b: int)
    requires IsPort64(a) && IsPort64(b) && DeviceName(a) == DeviceName(b)
    ensures a == b
  {
    assert DeviceName(a)[6..] == FormatInt(a) && DeviceName(b)[6..] == FormatInt(b);
    ParseFormat(a);
    ParseFormat(b);
  }

  // ---------- listing ----------

  predicate IsProxy(dev: Device) {
    Field(dev, "type") == "proxy"
  }

  predicate IsListed(devices: Devices, name: string) {
    name in devices && IsProxy(devices[name]) && ParseProxyDevice(name, devices[name]).Some?
  }

  function Rules(devices: Devices): set<ProxyRule> {
    set name | name in devices && IsListed(devices, name) :: ParseProxyDevice(name, devices[name]).value
  }

  /** What is listed: proxy devices, under their own names, as far as both endpoints can be read. */
  lemma ListedIff(devices: Devices, r: ProxyRule)
    ensures r in Rules(devices) <==>
            && r.name in devices
            && var dev := devices[r.name];
               && "type" in dev && dev["type"] == "proxy"
               && Some(r) == ParseEndpoints(r.name, if "listen" in dev then dev["listen"] else "",
                                            if "connect" in dev then dev["connect"] else "")
  {
    if r.name in devices && IsListed(devices, r.name) && ParseProxyDevice(r.name, devices[r.name]) == Some(r) {
      assert r in Rules(devices);
    }
  }

  /** A rule is listed under its device's name, so removing or replacing a device touches that rule alone. */
  lemma RulesWithout(devices: Devices, name: string)
    ensures Rules(devices - {name}) == set r | r in Rules(devices) && r.name != name
    ensures Rules(devices) ==
            Rules(devices - {name}) +
            (if IsListed(devices, name) then {ParseProxyDevice(name, devices[name]).value} else {})
  {
    var rest := devices - {name};
    forall r | r in Rules(devices) && r.name != name ensures r in Rules(rest) {
      assert IsListed(devices, r.name) && ParseProxyDevice(r.name, devices[r.name]).value == r;
      assert IsListed(rest, r.name);
    }
    forall r | r in Rules(rest) ensures r in Rules(devices) && r.name != name {
      assert IsListed(rest, r.name) && ParseProxyDevice(r.name, rest[r.name]).value == r;
      assert IsListed(devices, r.name);
    }
  }

  /** `rules` lists, each once, the rules of the devices that are no longer in `left`. */
  ghost predicate Listed(rules: seq<ProxyRule>, devices: Devices, left: Devices) {
    var seen := set r | r in rules;
    seen + Rules(left) == Rules(devices) && seen !! Rules(left) && |rules| == |seen|
  }

  lemma MoveOne<T>(seen: set<T>, rest: set<T>, rest': set<T>, x: T)
    requires seen !! rest && rest == rest' + {x} && x !in rest'
    ensures seen + {x} + rest' == seen + rest && seen + {x} !! rest' && |seen + {x}| == |seen| + 1
  {
  }

  lemma ListingGoesOn(rules: seq<ProxyRule>, devices: Devices, left: Devices, name: string)
    requires name in left && Listed(rules, devices, left)
    ensures Listed(if IsListed(left, name) then rules + [ParseProxyDevice(name, left[name]).value] else rules,
                   devices, left - {name})
  {
    RulesWithout(left, name);
    if IsListed(left, name) {
      var rule := ParseProxyDevice(name, left[name]).value;
      var seen := set r | r in rules;
      MoveOne(seen, Rules(left), Rules(left - {name}), rule);
      AppendNew(rules, rule);
    }
  }

  lemma AppendNew(rules: seq<ProxyRule>, rule: ProxyRule)
    ensures (set r | r in rules + [rule]) == (set r | r in rules) + {rule}
  {
  }

  /** Every rule once, in whatever order the devices come. */
  method ListProxyRules(server: Server, name: string) returns (status: Status, rules: seq<ProxyRule>)
    ensures status == Ok <==> name in server.instances
    ensures status == Ok ==>
              && (set r | r in rules) == Rules(server.instances[name].devices)
              && |rules| == |Rules(server.instances[name].devices)|
  {
    rules := [];
    if name !in server.instances {
      return NotFound, rules;
    }
    var devices := server.instances[name].devices;
    var left := devices;
    while left != map[]
      invariant Listed(rules, devices, left)
      decreases |left|
    {
      var devName :| devName in left;
      ListingGoesOn(rules, devices, left, devName);
      if Field(left[devName], "type") == "proxy" {
        var rule := ParseProxyDevice(devName, left[devName]);
        if rule.Some? {
          rules := rules + [rule.value];
        }
      }
      left := left - {devName};
    }
    return Ok, rules;
  }

  // ---------- adding and deleting ----------

  datatype AddRequest = AddRequest(hostPort: int, containerPort: int, protocol: string)

  /** Who asks: an administrator (a request without claims is let through alike), or the owner of an instance
      with the range its row holds. */
  datatype Caller = Admin | Owner(ports: Option<PortAllocator.Range>)

  function Protocol(req: AddRequest): string {
    if req.protocol == "" then "tcp" else req.protocol
  }

  predicate PortsAreValid(req: AddRequest) {
    0 < req.hostPort <= 65535 && 0 < req.containerPort <= 65535
  }

  /** An owner may claim only ports of the instance's own range; a range that starts at 0 counts as none. */
  predicate MayClaim(caller: Caller, hostPort: int) {
    match caller
    case Admin => true
    case Owner(None) => false
    case Owner(Some(range)) => range.first != 0 && range.first <= hostPort <= range.last
  }

  function WithRule(devices: Devices, req: AddRequest): Devices {
    devices[DeviceName(req.hostPort) := ProxyDevice(Protocol(req), req.hostPort, req.containerPort)]
  }

  method AddProxyRule(server: Server, name: string, caller: Caller, req: AddRequest, accepted: bool)
    returns (status: Status)
    modifies server
    ensures status == BadRequest <==> !(1 <= req.hostPort < 65536 && 1 <= req.containerPort < 65536)
    ensures status == Forbidden <==> PortsAreValid(req) && !MayClaim(caller, req.hostPort)
    ensures status == NotFound
       <==> PortsAreValid(req) && MayClaim(caller, req.hostPort) && name !in old(server.instances)
    ensures status == Accepted <==>
              PortsAreValid(req) && MayClaim(caller, req.hostPort) && name in old(server.instances) && accepted
    ensures server.instances ==
            if status != Accepted then old(server.instances)
            else
              var inst := old(server.instances[name]);
              old(server.instances)[name := inst.(devices := WithRule(inst.devices, req))]
  {
    var protocol := if req.protocol == "" then "tcp" else req.protocol;
    if req.hostPort <= 0 || req.hostPort > 65535 || req.containerPort <= 0 || req.containerPort > 65535 {
      return BadRequest;
    }
    if caller.Owner? {
      var first, last := 0, 0;
      if caller.ports.Some? {
        first, last := caller.ports.value.first, caller.ports.value.last;
      }
      if first == 0 || req.hostPort < first || req.hostPort > last {
        return Forbidden;
      }
    }
    if name !in server.instances {
      return NotFound;
    }
    var devices := server.instances[name].devices;
    devices := devices[DeviceName(req.hostPort) := ProxyDevice(protocol, req.hostPort, req.containerPort)];
    var ok := server.UpdateInstance(name, devices, accepted);
    return if ok then Accepted else ServerError;
  }

  method DeleteProxyRule(server: Server, name: string, devName: string, accepted: bool) returns (status: Status)
    modifies server
    ensures status == NotFound <==> name !in old(server.instances)
    ensures status == Accepted <==> name in old(server.instances) && accepted
    ensures server.instances ==
            if status != Accepted then old(server.instances)
            else
              var inst := old(server.instances[name]);
              old(server.instances)[name := inst.(devices := inst.devices - {devName})]
  {
    if name !in server.instances {
      return NotFound;
    }
    var ok := server.UpdateInstance(name, server.instances[name].devices - {devName}, accepted);
    return if ok then Accepted else ServerError;
  }

  /** The protocol asked for, or tcp: as text of the endpoints in any case, as read back if it holds no colon. */
  lemma ProtocolIsAsAsked(req: AddRequest)
    ensures Protocol(req) == if req.protocol == "" then "tcp" else req.protocol
    ensures ':' !in req.protocol ==> Split(Protocol(req), ':')[0] == if req.protocol == "" then "tcp" else req.protocol
  {
    assert forall i | 0 <= i < |"tcp"| :: "tcp"[i] != ':';
    SplitWhole(Protocol(req), ':');
  }

  /** Who may claim a port: an administrator any, the owner of an instance those of its range, if that starts above
      or below 0; without a range none. */
  lemma MayClaimIff(caller: Caller, hostPort: int)
    ensures MayClaim(caller, hostPort) <==>
            || caller == Admin
            || (caller.ports.Some? && caller.ports.value.first != 0 &&
                caller.ports.value.first <= hostPort && hostPort <= caller.ports.value.last)
  {
  }

  /** An accepted rule is one device, named after the host port, on the addresses asked for. */
  lemma RuleIsWritten(devices: Devices, req: AddRequest)
    ensures var protocol := if req.protocol == "" then "tcp" else req.protocol;
            var name := "proxy-" + FormatInt(req.hostPort);
            && name in WithRule(devices, req) && WithRule(devices, req) - {name} == devices - {name}
            && WithRule(devices, req)[name] ==
               map["type" := "proxy",
                   "listen" := protocol + ":0.0.0.0:" + FormatInt(req.hostPort),
                   "connect" := protocol + ":127.0.0.1:" + FormatInt(req.containerPort)]
  {
    ProtocolIsAsAsked(req);
    RuleDevice(Protocol(req), req.hostPort, req.containerPort);
    var name := DeviceName(req.hostPort);
    assert devices[name := ProxyDevice(Protocol(req), req.hostPort, req.containerPort)] - {name} == devices - {name};
  }

  lemma ReplacedDeviceIsListed(devices: Devices, name: string, dev: Device, rule: ProxyRule)
    requires IsProxy(dev) && ParseProxyDevice(name, dev) == Some(rule)
    ensures Rules(devices[name := dev]) == {rule} + (set r | r in Rules(devices) && r.name != name)
  {
    var devices' := devices[name := dev];
    assert devices' - {name} == devices - {name};
    RulesWithout(devices', name);
    RulesWithout(devices, name);
  }

  /** Listing after an add shows the new rule, and keeps every rule under another device name. */
  lemma ListingFollowsAdd(devices: Devices, req: AddRequest)
    requires PortsAreValid(req)
    ensures Rules(WithRule(devices, req)) ==
            {ProxyRule(DeviceName(req.hostPort), Split(Protocol(req), ':')[0], req.hostPort, req.containerPort)}
            + (set r | r in Rules(devices) && r.name != DeviceName(req.hostPort))
    ensures ':' !in req.protocol ==>
              ProxyRule("proxy-" + FormatInt(req.hostPort), if req.protocol == "" then "tcp" else req.protocol,
                        req.hostPort, req.containerPort) in Rules(WithRule(devices, req))
  {
    var name, protocol := DeviceName(req.hostPort), Protocol(req);
    ProtocolIsAsAsked(req);
    RuleRoundTrip(name, protocol, req.hostPort, req.containerPort);
    var rule := ProxyRule(name, Split(protocol, ':')[0], req.hostPort, req.containerPort);
    ReplacedDeviceIsListed(devices, name, ProxyDevice(protocol, req.hostPort, req.containerPort), rule);
  }
}
