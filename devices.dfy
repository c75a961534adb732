/** The device registry's records: one row per edge unit, keyed by a
    server-generated id, with its display name, location, status and the
    times it was registered and last heard from. */
module Devices {
  import opened Common

  /** Column defaults and the only status the service ever writes. */
  const DefaultName: string := "Raspberry Pi"
  const DefaultLocation: string := "Não especificado"
  const Active: string := "ativo"

  datatype Device = Device(id: string, name: string, location: string, status: string,
                           registeredAt: int, lastSeen: int)

  /** The row `register_device` writes: the given id, name and location
      (defaults when the body omits them), status active, and both times
      stamped with the current clock reading. */
  function NewDevice(id: string, name: Option<string>, location: Option<string>, now: int): (d: Device)
    ensures d.id == id && d.status == Active
    ensures d.registeredAt == now && d.lastSeen == now
    ensures d.name == (if name.Some? then name.value else DefaultName)
    ensures d.location == (if location.Some? then location.value else DefaultLocation)
  {
    Device(id, name.GetOr(DefaultName), location.GetOr(DefaultLocation), Active, now, now)
  }

  /** The route's answer listing devices: the rows and how many there are. */
  datatype DeviceList = DeviceList(devices: seq<Device>, total: nat)
}
