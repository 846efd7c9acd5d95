/** The part of Incus the panel relies on: instances with their own devices over those of their profiles. */
module Incus {
  type Device = map<string, string>

  type Devices = map<string, Device>

  datatype Instance = Instance(devices: Devices, profile: Devices)

  /** ExpandedDevices: an instance device replaces the profile device of the same name. */
  function Expanded(inst: Instance): Devices {
    inst.profile + inst.devices
  }

  /** A device of the instance hides the profile's device of its name; where the instance has none, the profile's
      shows. */
  lemma ExpandedDevices(inst: Instance, name: string)
    ensures name in Expanded(inst) <==> name in inst.devices || name in inst.profile
    ensures name in inst.devices ==> Expanded(inst)[name] == inst.devices[name]
    ensures name in inst.profile && name !in inst.devices ==> Expanded(inst)[name] == inst.profile[name]
  {
  }

  /** Reading a key of a Go map: "" when it is absent, also from a device that does not exist. */
  function Field(dev: Device, key: string): string {
    if key in dev then dev[key] else ""
  }

  function DeviceAt(devices: Devices, name: string): Device {
    if name in devices then devices[name] else map[]
  }

  datatype Status = Ok | Accepted | BadRequest | Forbidden | NotFound | ServerError

  class Server {
    var instances: map<string, Instance>

    /** UpdateInstance replaces the instance's own devices. `accepted` is the server's verdict: it refuses a
        stale etag or a device it finds invalid. */
    method UpdateInstance(name: string, devices: Devices, accepted: bool) returns (ok: bool)
      requires name in instances
      modifies this
      ensures ok == accepted
      ensures instances ==
              if ok then old(instances)[name := old(instances[name]).(devices := devices)] else old(instances)
    {
      if accepted {
        instances := instances[name := instances[name].(devices := devices)];
      }
      return accepted;
    }
  }
}
