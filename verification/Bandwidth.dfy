/** Reading and overriding the limits of an instance's primary NIC: internal/api/handler/bandwidth.go. */
module Bandwidth {
  import opened Text
  import opened Incus
  import Collections

  const INGRESS := "limits.ingress"
  const EGRESS := "limits.egress"
  const PRIORITY := "limits.priority"

  function LimitKeys(): set<string> {
    {INGRESS, EGRESS, PRIORITY}
  }

  datatype Bandwidth = Bandwidth(nic: string, ingress: string, egress: string, priority: string)

  // ---------- validation ----------

  const UNITS := ["bit", "kbit", "Mbit", "Gbit", "Tbit"]

  predicate IsNumber(s: string) {
    s != "" && AllDigits(s)
  }

  predicate EndsWith(s: string, tail: string) {
    |tail| <= |s| && s[|s| - |tail|..] == tail
  }

  /** `\s` of the regular expression, which knows only ASCII blanks. */
  predicate IsBlank(c: char) {
    c == '\t' || c == '\n' || c == '\r' || c == '\U{0C}' || c == ' '
  }

  /** The rate expression `^\d+(?:\.\d+)?\s*(?:bit|kbit|Mbit|Gbit|Tbit)$`: an integer or decimal number, blanks, a
      unit. */
  predicate IsRate(s: string) {
    exists u | u in UNITS :: IsRateIn(s, u)
  }

  predicate IsRateIn(s: string, u: string) {
    EndsWith(s, u) && exists cut | 0 <= cut <= |s| - |u| :: IsAmount(s[..cut]) && AreBlanks(s[cut..|s| - |u|])
  }

  predicate IsAmount(s: string) {
    || IsNumber(s)
    || exists dot | 0 <= dot < |s| :: s[dot] == '.' && IsNumber(s[..dot]) && IsNumber(s[dot + 1..])
  }

  predicate AreBlanks(s: string) {
    forall i | 0 <= i < |s| :: IsBlank(s[i])
  }

  predicate IsNumeral(s: string) {
    s != "" && forall i | 0 <= i < |s| :: '0' <= s[i] <= '9'
  }

  /** A numeral with a fraction, or with nothing behind it. */
  predicate IsAmountOf(s: string, number: string, fraction: string) {
    s == number + fraction && IsNumeral(number) && (fraction == "" || (fraction[0] == '.' && IsNumeral(fraction[1..])))
  }

  /** `s` is an amount, blanks, and a unit, one after the other. */
  predicate IsRateOf(s: string, number: string, fraction: string, blanks: string, unit: string) {
    && s == (number + fraction) + (blanks + unit) && IsAmountOf(number + fraction, number, fraction)
    && (forall c | c in blanks :: c == ' ' || c == '\t' || c == '\n' || c == '\r' || c == '\U{0C}')
    && (unit == "bit" || unit == "kbit" || unit == "Mbit" || unit == "Gbit" || unit == "Tbit")
  }

  lemma DecimalHasParts(s: string, dot: nat)
    requires dot < |s| && s[dot] == '.' && IsNumber(s[..dot]) && IsNumber(s[dot + 1..])
    ensures IsAmountOf(s, s[..dot], s[dot..])
  {
    assert s == s[..dot] + s[dot..];
    assert s[dot..][0] == '.' && s[dot..][1..] == s[dot + 1..];
  }

  lemma AmountHasParts(s: string) returns (number: string, fraction: string)
    requires IsAmount(s)
    ensures IsAmountOf(s, number, fraction)
  {
    number, fraction := s, "";
    if !IsNumber(s) {
      var dot :| 0 <= dot < |s| && s[dot] == '.' && IsNumber(s[..dot]) && IsNumber(s[dot + 1..]);
      DecimalHasParts(s, dot);
      number, fraction := s[..dot], s[dot..];
    }
  }

  lemma PartsMakeAmount(s: string, number: string, fraction: string)
    requires IsAmountOf(s, number, fraction)
    ensures IsAmount(s)
  {
    if fraction == "" {
      assert s == number;
    } else {
      var dot := |number|;
      assert s[dot] == '.' && s[..dot] == number && s[dot + 1..] == fraction[1..];
      assert IsNumber(s[..dot]) && IsNumber(s[dot + 1..]);
    }
  }

  lemma UnitIff(unit: string)
    ensures unit in UNITS <==> unit == "bit" || unit == "kbit" || unit == "Mbit" || unit == "Gbit" || unit == "Tbit"
  {
    assert unit in UNITS <==> unit == UNITS[0] || unit == UNITS[1] || unit == UNITS[2] || unit == UNITS[3] ||
                              unit == UNITS[4];
  }

  lemma CutIntoParts(s: string, unit: string) returns (amount: string, blanks: string)
    requires IsRateIn(s, unit)
    ensures s == amount + (blanks + unit) && IsAmount(amount) && AreBlanks(blanks)
  {
    var cut :| 0 <= cut <= |s| - |unit| && IsAmount(s[..cut]) && AreBlanks(s[cut..|s| - |unit|]);
    amount, blanks := s[..cut], s[cut..|s| - |unit|];
    assert s == amount + (blanks + s[|s| - |unit|..]);
  }

  lemma PartsAreRate(amount: string, blanks: string, unit: string)
    requires IsAmount(amount) && AreBlanks(blanks)
    ensures IsRateIn(amount + (blanks + unit), unit)
  {
    var s, cut := amount + (blanks + unit), |amount|;
    assert s[..cut] == amount && s[cut..|s| - |unit|] == blanks && s[|s| - |unit|..] == unit;
  }

  lemma RateHasParts(s: string) returns (number: string, fraction: string, blanks: string, unit: string)
    requires IsRate(s)
    ensures IsRateOf(s, number, fraction, blanks, unit)
  {
    unit :| unit in UNITS && IsRateIn(s, unit);
    UnitIff(unit);
    var amount;
    amount, blanks := CutIntoParts(s, unit);
    number, fraction := AmountHasParts(amount);
  }

  lemma PartsMakeRate(s: string, number: string, fraction: string, blanks: string, unit: string)
    requires IsRateOf(s, number, fraction, blanks, unit)
    ensures IsRate(s)
  {
    PartsMakeAmount(number + fraction, number, fraction);
    forall i | 0 <= i < |blanks| ensures IsBlank(blanks[i]) {
      assert blanks[i] in blanks;
    }
    PartsAreRate(number + fraction, blanks, unit);
    UnitIff(unit);
  }

  /** The rates that are let in are exactly those texts. */
  lemma RateIff(s: string)
    ensures IsRate(s) <==> exists number, fraction, blanks, unit :: IsRateOf(s, number, fraction, blanks, unit)
  {
    if IsRate(s) {
      var number, fraction, blanks, unit := RateHasParts(s);
    }
    if number, fraction, blanks, unit :| IsRateOf(s, number, fraction, blanks, unit) {
      PartsMakeRate(s, number, fraction, blanks, unit);
    }
  }

  predicate IsPriority(s: string) {
    |s| == 1 && '0' <= s[0] <= '7'
  }

  function Trimmed(req: Bandwidth): Bandwidth {
    req.(ingress := Trim(req.ingress), egress := Trim(req.egress), priority := Trim(req.priority))
  }

  predicate IsValid(req: Bandwidth) {
    && (req.ingress == "" || IsRate(req.ingress))
    && (req.egress == "" || IsRate(req.egress))
    && (req.priority == "" || IsPriority(req.priority))
  }

  /** A request is valid exactly when each limit, trimmed, is empty or of its own form: two rates and a digit below
      8. */
  lemma RequestIsValidIff(request: Bandwidth)
    ensures var ingress, egress, priority := Trim(request.ingress), Trim(request.egress), Trim(request.priority);
            IsValid(Trimmed(request)) <==>
            && (ingress == "" || IsRate(ingress)) && (egress == "" || IsRate(egress))
            && (priority == "" || exists d: nat | d < 8 :: priority == ["01234567"[d]])
    ensures Trimmed(request).nic == request.nic
  {
    var priority := Trim(request.priority);
    if IsPriority(priority) {
      var d := priority[0] as int - '0' as int;
      assert "01234567"[d] == priority[0];
    }
  }

  predicate AsksNothing(req: Bandwidth) {
    req.ingress == "" && req.egress == "" && req.priority == ""
  }

  // ---------- the primary NIC ----------

  predicate IsNic(expanded: Devices, name: string) {
    name in expanded && Field(expanded[name], "type") == "nic"
  }

  /** What pickPrimaryNic may answer: eth0 if it is a NIC, else any NIC, else none. */
  predicate IsPrimaryNic(expanded: Devices, nic: string) {
    if IsNic(expanded, "eth0") then nic == "eth0"
    else if exists name | name in expanded :: IsNic(expanded, name) then IsNic(expanded, nic)
    else nic == ""
  }

  /** The choice does not hang on the order of a Go map: eth0 is a NIC, or no two devices are. */
  predicate HasOneChoice(expanded: Devices) {
    || IsNic(expanded, "eth0")
    || (forall a, b | a in expanded && b in expanded && IsNic(expanded, a) && IsNic(expanded, b) :: a == b)
  }

  predicate IsNicDevice(dev: Device) {
    "type" in dev && dev["type"] == "nic"
  }

  /** eth0 is picked whenever it is a NIC; what is picked is a NIC; nothing is picked exactly when there is none. */
  lemma PrimaryNicIsANic(expanded: Devices, nic: string)
    requires IsPrimaryNic(expanded, nic)
    ensures "eth0" in expanded && IsNicDevice(expanded["eth0"]) ==> nic == "eth0"
    ensures (exists name | name in expanded :: IsNicDevice(expanded[name])) <==>
            nic in expanded && IsNicDevice(expanded[nic])
    ensures (nic in expanded && IsNicDevice(expanded[nic])) || nic == ""
  {
    if name :| name in expanded && IsNicDevice(expanded[name]) {
      assert IsNic(expanded, name);
    }
  }

  method PickPrimaryNic(expanded: Devices) returns (nic: string)
    ensures IsPrimaryNic(expanded, nic)
  {
    if "eth0" in expanded && Field(expanded["eth0"], "type") == "nic" {
      return "eth0";
    }
    var left := expanded.Keys;
    while left != {}
      invariant left <= expanded.Keys
      invariant forall name | name in expanded.Keys - left :: !IsNic(expanded, name)
      decreases |left|
    {
      var name :| name in left;
      if Field(expanded[name], "type") == "nic" {
        return name;
      }
      left := left - {name};
    }
    return "";
  }

  lemma PrimaryNicIsUnique(expanded: Devices, a: string, b: string)
    requires HasOneChoice(expanded) && IsPrimaryNic(expanded, a) && IsPrimaryNic(expanded, b)
    ensures a == b
  {
  }

  /** The NICs of two device sets are the same, so the primary one is. */
  lemma SameNicsSamePrimary(before: Devices, after: Devices)
    requires forall name :: IsNic(before, name) <==> IsNic(after, name)
    ensures forall nic :: IsPrimaryNic(before, nic) <==> IsPrimaryNic(after, nic)
    ensures HasOneChoice(before) <==> HasOneChoice(after)
  {
    forall name | IsNic(before, name) || IsNic(after, name) ensures name in before && name in after {
    }
  }

  // ---------- the override ----------

  predicate DevicesEqual(a: Device, b: Device) {
    |a| == |b| && forall key | key in a :: Field(b, key) == a[key]
  }

  /** The comparison takes an absent key for an empty one: it is equality exactly when no empty key of the left
      device is missing on the right. */
  lemma DevicesEqualIff(a: Device, b: Device)
    ensures DevicesEqual(a, b) && (forall key | key in a && a[key] == "" :: key in b) <==> a == b
    ensures DevicesEqual(map["x" := ""], map["y" := "z"])
  {
    assert |map["x" := ""]| == |map["y" := "z"]|;
    if DevicesEqual(a, b) && (forall key | key in a && a[key] == "" :: key in b) {
      assert forall key | key in a :: key in b;
      Collections.SubsetCard(a.Keys, b.Keys);
      assert |a.Keys| == |a| && |b.Keys| == |b|;
    }
  }

  function SetOrDelete(dev: Device, key: string, val: string): Device {
    if val == "" then dev - {key} else dev[key := val]
  }

  function Limited(dev: Device, req: Bandwidth): Device {
    SetOrDelete(SetOrDelete(SetOrDelete(dev, INGRESS, req.ingress), EGRESS, req.egress), PRIORITY, req.priority)
  }

  /** A request sets each limit under its own key, removes those not asked for, and leaves every other key. */
  lemma LimitedByKey(dev: Device, req: Bandwidth)
    ensures var limited := Limited(dev, req);
            && ("limits.ingress" in limited <==> req.ingress != "")
            && (req.ingress != "" ==> limited["limits.ingress"] == req.ingress)
            && ("limits.egress" in limited <==> req.egress != "")
            && (req.egress != "" ==> limited["limits.egress"] == req.egress)
            && ("limits.priority" in limited <==> req.priority != "")
            && (req.priority != "" ==> limited["limits.priority"] == req.priority)
            && limited - {"limits.ingress", "limits.egress", "limits.priority"} ==
               dev - {"limits.ingress", "limits.egress", "limits.priority"}
  {
  }

  predicate HasLimits(dev: Device) {
    Field(dev, INGRESS) != "" || Field(dev, EGRESS) != "" || Field(dev, PRIORITY) != ""
  }

  /** The device an override starts from: the instance's own, else a copy of the inherited one. */
  function BaseDevice(inst: Instance, nic: string): Device {
    if nic in inst.devices then inst.devices[nic] else DeviceAt(Expanded(inst), nic)
  }

  /** The instance's devices with `dev` as override, or with none where it would only repeat what holds anyway. */
  function Stored(inst: Instance, nic: string, dev: Device): Devices {
    if !HasLimits(dev) && DevicesEqual(dev, DeviceAt(Expanded(inst), nic)) then inst.devices - {nic}
    else inst.devices[nic := dev]
  }

  /** The instance's devices after a request for `nic`. */
  function Overridden(inst: Instance, nic: string, req: Bandwidth): Devices {
    Stored(inst, nic, Limited(BaseDevice(inst, nic), req))
  }

  method PutBandwidth(server: Server, name: string, request: Bandwidth, accepted: bool)
    returns (status: Status, nic: string)
    modifies server
    ensures status == Accepted <==>
            && IsValid(Trimmed(request)) && name in old(server.instances) && nic != "" && accepted
    ensures status == Accepted ==>
              var inst := old(server.instances[name]);
              && (nic == request.nic || (request.nic == "" && IsPrimaryNic(Expanded(inst), nic)))
              && server.instances ==
                   old(server.instances)[name := inst.(devices := Overridden(inst, nic, Trimmed(request)))]
    ensures status != Accepted ==> server.instances == old(server.instances)
    ensures status == BadRequest <==>
              || !IsValid(Trimmed(request))
              || (name in old(server.instances) && request.nic == "" && nic == "" &&
                  IsPrimaryNic(Expanded(old(server.instances[name])), ""))
    ensures status == NotFound <==> IsValid(Trimmed(request)) && name !in old(server.instances)
  {
    var req := Trimmed(request);
    nic := request.nic;
    if !IsValid(req) {
      return BadRequest, nic;
    }
    if name !in server.instances {
      return NotFound, nic;
    }
    var inst := server.instances[name];
    if nic == "" {
      nic := PickPrimaryNic(Expanded(inst));
    }
    if nic == "" {
      return BadRequest, nic;
    }
    var devices := inst.devices;
    var dev := if nic in devices then devices[nic] else DeviceAt(Expanded(inst), nic);
    dev := SetOrDelete(dev, INGRESS, req.ingress);
    dev := SetOrDelete(dev, EGRESS, req.egress);
    dev := SetOrDelete(dev, PRIORITY, req.priority);
    if !HasLimits(dev) && DevicesEqual(dev, DeviceAt(Expanded(inst), nic)) {
      devices := devices - {nic};
    } else {
      devices := devices[nic := dev];
    }
    var ok := server.UpdateInstance(name, devices, accepted);
    return if ok then Accepted else ServerError, nic;
  }

  /** What GetBandwidth shows for a NIC: the instance's own override, not what it inherits. */
  function Shown(inst: Instance, nic: string): Bandwidth {
    if nic == "" then Bandwidth("", "", "", "") else
    var dev := DeviceAt(inst.devices, nic);
    Bandwidth(nic, Field(dev, INGRESS), Field(dev, EGRESS), Field(dev, PRIORITY))
  }

  /** Each limit is shown from its own key of the instance's own device; what the profile sets is not shown. */
  lemma ShownByKey(inst: Instance, nic: string)
    requires nic != ""
    ensures var dev: Device := if nic in inst.devices then inst.devices[nic] else map[];
            Shown(inst, nic) == Bandwidth(nic, if "limits.ingress" in dev then dev["limits.ingress"] else "",
                                          if "limits.egress" in dev then dev["limits.egress"] else "",
                                          if "limits.priority" in dev then dev["limits.priority"] else "")
    ensures Shown(inst, "") == Bandwidth("", "", "", "")
  {
  }

  method GetBandwidth(server: Server, name: string) returns (status: Status, shown: Bandwidth)
    ensures status == Ok <==> name in server.instances
    ensures status == Ok ==>
              var inst := server.instances[name];
              exists nic :: IsPrimaryNic(Expanded(inst), nic) && shown == Shown(inst, nic)
  {
    shown := Bandwidth("", "", "", "");
    if name !in server.instances {
      return NotFound, shown;
    }
    var inst := server.instances[name];
    var nic := PickPrimaryNic(Expanded(inst));
    if nic != "" {
      var dev := DeviceAt(inst.devices, nic);
      shown := Bandwidth(nic, Field(dev, INGRESS), Field(dev, EGRESS), Field(dev, PRIORITY));
    }
    return Ok, shown;
  }

  // ---------- what a request changes ----------

  function WithoutLimits(dev: Device): Device {
    dev - LimitKeys()
  }

  function After(inst: Instance, nic: string, req: Bandwidth): Instance {
    inst.(devices := Overridden(inst, nic, req))
  }

  /** The request that removes an override outright: the instance has its own device, without limits, and nothing
      is asked for. */
  predicate DropsOverride(inst: Instance, nic: string, req: Bandwidth) {
    nic in inst.devices && inst.devices[nic].Keys !! LimitKeys() && AsksNothing(req)
  }

  /** When the request is harmless: it drops no override, or the profile's device is the same but for limits. */
  predicate IsHarmless(inst: Instance, nic: string, req: Bandwidth) {
    DropsOverride(inst, nic, req) ==> nic in inst.profile && WithoutLimits(inst.profile[nic]) == inst.devices[nic]
  }

  predicate ShowsLimits(dev: Device, req: Bandwidth) {
    Field(dev, INGRESS) == req.ingress && Field(dev, EGRESS) == req.egress && Field(dev, PRIORITY) == req.priority
  }

  /** `dev` is `base` with the limits asked for, and without limit keys where nothing is asked. */
  predicate IsLimited(base: Device, dev: Device, req: Bandwidth) {
    && WithoutLimits(dev) == WithoutLimits(base)
    && ShowsLimits(dev, req)
    && (AsksNothing(req) ==> dev == WithoutLimits(base))
  }

  lemma LimitedIsLimited(base: Device, req: Bandwidth)
    ensures IsLimited(base, Limited(base, req), req)
  {
  }

  /** A device without its limits equals itself under the source's comparison only if it had no limit key. */
  lemma StrippedEqualsIff(dev: Device)
    ensures DevicesEqual(WithoutLimits(dev), dev) <==> dev.Keys !! LimitKeys()
  {
    Collections.SubsetCard(WithoutLimits(dev).Keys, dev.Keys);
    assert |WithoutLimits(dev).Keys| == |WithoutLimits(dev)| && |dev.Keys| == |dev|;
    if dev.Keys !! LimitKeys() {
      assert WithoutLimits(dev) == dev;
    }
  }

  /** When the override is stored and when it is removed. */
  lemma StoredByCases(inst: Instance, nic: string, dev: Device, req: Bandwidth)
    requires nic in Expanded(inst) && IsLimited(Expanded(inst)[nic], dev, req)
    ensures Stored(inst, nic, dev) ==
            if AsksNothing(req) && Expanded(inst)[nic].Keys !! LimitKeys() then inst.devices - {nic}
            else inst.devices[nic := dev]
  {
    StrippedEqualsIff(Expanded(inst)[nic]);
  }

  /** After a request for one of its NICs an instance differs in nothing but the limits of that NIC exactly when
      the request is harmless; the NIC then has the limits asked for, and they are what its own device shows.
      Every other device stays in every case. */
  ghost predicate ChangesOnlyLimitsIff(inst: Instance, nic: string, req: Bandwidth, inst': Instance)
    requires nic in Expanded(inst)
  {
    var before, after := Expanded(inst), Expanded(inst');
    && after - {nic} == before - {nic}
    && (nic in after && WithoutLimits(after[nic]) == WithoutLimits(before[nic]) <==> IsHarmless(inst, nic, req))
    && (!DropsOverride(inst, nic, req) ==> nic in after && ShowsLimits(after[nic], req))
    && (nic != "" ==> Shown(inst', nic) == req.(nic := nic))
  }

  lemma ExpandedOverride(inst: Instance, nic: string, dev: Device)
    ensures var after := Expanded(inst.(devices := inst.devices[nic := dev]));
            after == Expanded(inst)[nic := dev] && after - {nic} == Expanded(inst) - {nic}
  {
    assert Expanded(inst.(devices := inst.devices[nic := dev])) == Expanded(inst)[nic := dev];
    assert Expanded(inst)[nic := dev] - {nic} == Expanded(inst) - {nic};
  }

  lemma OverrideHasEffect(inst: Instance, nic: string, req: Bandwidth, dev: Device)
    requires nic in Expanded(inst) && IsLimited(Expanded(inst)[nic], dev, req) && !DropsOverride(inst, nic, req)
    ensures ChangesOnlyLimitsIff(inst, nic, req, inst.(devices := inst.devices[nic := dev]))
  {
    ExpandedOverride(inst, nic, dev);
  }

  lemma RemovalHasEffect(inst: Instance, nic: string, req: Bandwidth)
    requires nic in Expanded(inst) && AsksNothing(req) && Expanded(inst)[nic].Keys !! LimitKeys()
    ensures ChangesOnlyLimitsIff(inst, nic, req, inst.(devices := inst.devices - {nic}))
  {
    var before, after := Expanded(inst), Expanded(inst.(devices := inst.devices - {nic}));
    assert after - {nic} == before - {nic};
    assert WithoutLimits(before[nic]) == before[nic];
  }

  lemma RequestByCases(inst: Instance, nic: string, req: Bandwidth) returns (dev: Device)
    requires nic in Expanded(inst)
    ensures IsLimited(Expanded(inst)[nic], dev, req)
    ensures Overridden(inst, nic, req) ==
            if AsksNothing(req) && Expanded(inst)[nic].Keys !! LimitKeys() then inst.devices - {nic}
            else inst.devices[nic := dev]
  {
    var base := BaseDevice(inst, nic);
    assert base == Expanded(inst)[nic];
    dev := Limited(base, req);
    LimitedIsLimited(base, req);
    StoredByCases(inst, nic, dev, req);
  }

  /** What a request changes, for every instance, NIC and request. */
  lemma RequestChangesOnlyLimitsIff(inst: Instance, nic: string, req: Bandwidth)
    requires nic in Expanded(inst)
    ensures ChangesOnlyLimitsIff(inst, nic, req, After(inst, nic, req))
  {
    var dev := RequestByCases(inst, nic, req);
    if AsksNothing(req) && Expanded(inst)[nic].Keys !! LimitKeys() {
      RemovalHasEffect(inst, nic, req);
    } else {
      OverrideHasEffect(inst, nic, req, dev);
    }
  }

  /** Device sets that differ in one device hold the same other NICs. */
  lemma OtherDevicesKeepNics(before: Devices, after: Devices, nic: string)
    requires after - {nic} == before - {nic}
    ensures forall name | name != nic :: IsNic(before, name) <==> IsNic(after, name)
  {
    forall name | name != nic ensures IsNic(before, name) <==> IsNic(after, name) {
      assert name in before <==> name in before - {nic};
      assert name in before ==> (before - {nic})[name] == before[name];
      assert name in after ==> (after - {nic})[name] == after[name];
    }
  }

  lemma TypeIsNoLimit(dev: Device)
    ensures Field(WithoutLimits(dev), "type") == Field(dev, "type")
  {
  }

  lemma RemovalUncoversProfile(inst: Instance, nic: string)
    ensures IsNic(Expanded(inst.(devices := inst.devices - {nic})), nic) <==> IsNic(inst.profile, nic)
  {
  }

  /** After a request for a NIC it is still a NIC, unless its override is dropped over a profile that has no such
      NIC. */
  lemma StaysANicIff(inst: Instance, nic: string, req: Bandwidth)
    requires IsNic(Expanded(inst), nic)
    ensures IsNic(Expanded(After(inst, nic, req)), nic)
       <==> (DropsOverride(inst, nic, req) ==> IsNic(inst.profile, nic))
  {
    if DropsOverride(inst, nic, req) {
      var _ := RequestByCases(inst, nic, req);
      RemovalUncoversProfile(inst, nic);
    } else {
      RequestChangesOnlyLimitsIff(inst, nic, req);
      TypeIsNoLimit(Expanded(inst)[nic]);
      TypeIsNoLimit(Expanded(After(inst, nic, req))[nic]);
    }
  }

  /** Whatever the map order made of the choice: reading back shows the request's limits exactly when it picks the
      NIC written. */
  lemma GetAfterPutFollowsChoice(inst: Instance, nic: string, req: Bandwidth, shownNic: string)
    requires nic in Expanded(inst) && nic != ""
    ensures Shown(After(inst, nic, req), shownNic) == req.(nic := nic) <==> shownNic == nic
  {
    RequestChangesOnlyLimitsIff(inst, nic, req);
  }

  /** Reading back after a request for the primary NIC shows that NIC with the request's limits exactly when the
      NIC is still one: the request drops no override, or the profile has a NIC of that name. */
  lemma GetAfterPutIff(inst: Instance, nic: string, req: Bandwidth, shownNic: string)
    requires HasOneChoice(Expanded(inst)) && nic != "" && IsPrimaryNic(Expanded(inst), nic)
    requires IsPrimaryNic(Expanded(After(inst, nic, req)), shownNic)
    ensures Shown(After(inst, nic, req), shownNic) == req.(nic := nic)
       <==> (DropsOverride(inst, nic, req) ==> IsNic(inst.profile, nic))
  {
    RequestChangesOnlyLimitsIff(inst, nic, req);
    GetAfterPutFollowsChoice(inst, nic, req, shownNic);
    StaysANicIff(inst, nic, req);
    var before, after := Expanded(inst), Expanded(After(inst, nic, req));
    OtherDevicesKeepNics(before, after, nic);
    if IsNic(after, nic) {
      SameNicsSamePrimary(before, after);
      PrimaryNicIsUnique(before, nic, shownNic);
    } else {
      assert shownNic != nic;
    }
  }

  lemma RemovedInstanceDevice(inst: Instance, nic: string)
    requires nic in inst.devices && nic !in inst.profile
    ensures Expanded(inst.(devices := inst.devices - {nic})) == Expanded(inst) - {nic}
    ensures Expanded(inst)[nic] == inst.devices[nic]
  {
  }

  /** The worst of the requests that are not harmless: clearing the limits of a NIC that only the instance
      defines, and that has none, removes the NIC. */
  lemma ClearingLimitsCanRemoveTheNic(inst: Instance, nic: string, req: Bandwidth)
    requires DropsOverride(inst, nic, req) && nic !in inst.profile
    ensures Expanded(After(inst, nic, req)) == Expanded(inst) - {nic}
  {
    RemovedInstanceDevice(inst, nic);
    var _ := RequestByCases(inst, nic, req);
  }

  /** A request may name a device that does not exist: asking nothing changes nothing, asking for limits creates a
      device of limits alone, without a type. */
  lemma RequestForUnknownNic(inst: Instance, nic: string, req: Bandwidth)
    requires nic !in Expanded(inst)
    ensures AsksNothing(req) ==> After(inst, nic, req) == inst
    ensures !AsksNothing(req) ==>
              exists dev: Device :: Expanded(After(inst, nic, req)) == Expanded(inst)[nic := dev] &&
                                    dev.Keys <= LimitKeys() && ShowsLimits(dev, req)
  {
    var dev := Limited(map[], req);
    LimitedIsLimited(map[], req);
    assert BaseDevice(inst, nic) == map[];
    if AsksNothing(req) {
      assert dev == map[];
      assert inst.devices - {nic} == inst.devices;
    } else {
      assert dev.Keys <= LimitKeys();
      ExpandedOverride(inst, nic, dev);
    }
  }

  /** What an accepted request leaves of a NIC that the instance has: each limit asked for under its own key, no
      limit that was not asked for, and every other key as it was. The one exception is the dropped override. */
  lemma AcceptedRequestByKey(inst: Instance, nic: string, req: Bandwidth)
    requires nic in Expanded(inst) && !DropsOverride(inst, nic, req)
    ensures var before, after := Expanded(inst), Expanded(After(inst, nic, req));
            && nic in after && after - {nic} == before - {nic}
            && Field(after[nic], "limits.ingress") == req.ingress
            && Field(after[nic], "limits.egress") == req.egress
            && Field(after[nic], "limits.priority") == req.priority
            && after[nic] - {"limits.ingress", "limits.egress", "limits.priority"} ==
               before[nic] - {"limits.ingress", "limits.egress", "limits.priority"}
  {
    RequestChangesOnlyLimitsIff(inst, nic, req);
    assert LimitKeys() == {"limits.ingress", "limits.egress", "limits.priority"};
  }
}
