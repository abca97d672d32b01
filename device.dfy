/** The host-adapter object's own logic: building its identifier dictionary,
    and deciding which serial port a set of identifiers names and whether the
    adapter on that port is one this class handles. The device manager that
    lists ports and reads USB hardware ids is given as data. */
module Device {
  import opened Results
  import opened Text

  /** A Python value stored in an identifier dictionary. */
  datatype IdValue = Null | Flag(b: bool) | Int(i: int) | Str(s: string)

  /** Python truthiness of an identifier value. */
  predicate Truthy(v: IdValue)
    ensures Truthy(v) <==> v !in {Null, Flag(false), Int(0), Str("")}
  {
    match v
    case Null => false
    case Flag(b) => b
    case Int(i) => i != 0
    case Str(s) => s != ""
  }

  type Identifiers = map<string, IdValue>

  /** The USB vendor id every accepted adapter's hardware id must mention. */
  const UsbVidPid: string := "04D8"

  datatype DeviceError = DeviceNotFound | KeyError(key: string) | IndexError | TypeError

  /** The defaults (vendor id, product id, find_all) extended and overridden
      by the caller's identifiers. */
  function PopulateDefaultIdentifiers(boardVendorId: IdValue, boardProductId: IdValue,
                                      deviceIdentifiers: Identifiers, findAll: bool): (r: Identifiers)
    ensures r.Keys == {"idVendor", "idProduct", "find_all"} + deviceIdentifiers.Keys
    ensures forall k :: k in deviceIdentifiers ==> r[k] == deviceIdentifiers[k]
    ensures "idVendor" !in deviceIdentifiers ==> r["idVendor"] == boardVendorId
    ensures "idProduct" !in deviceIdentifiers ==> r["idProduct"] == boardProductId
    ensures "find_all" !in deviceIdentifiers ==> r["find_all"] == Flag(findAll)
  {
    var identifiers := map["idVendor" := boardVendorId, "idProduct" := boardProductId, "find_all" := Flag(findAll)];
    identifiers + deviceIdentifiers
  }

  /** The identifiers with a None serial number taken out: None means that a
      board with any serial number is accepted. */
  function WithoutNullSerial(ids: Identifiers): (r: Identifiers)
    ensures "serial_number" in r ==> r["serial_number"] != Null
    ensures r.Keys == if "serial_number" in ids && ids["serial_number"] == Null
                      then ids.Keys - {"serial_number"} else ids.Keys
    ensures forall k :: k in r ==> r[k] == ids[k]
  {
    if "serial_number" in ids && ids["serial_number"] == Null then ids - {"serial_number"} else ids
  }

  /** A host adapter as its constructor leaves it; the comms object and the
      protocol drivers it creates are not part of this model. */
  class BinhoApi {
    const serialPort: IdValue
    var identifiers: Identifiers
    var inBootloader: bool

    constructor (deviceIdentifiers: Identifiers, boardVendorId: IdValue, boardProductId: IdValue)
      requires "port" in deviceIdentifiers
      ensures serialPort == deviceIdentifiers["port"]
      ensures !inBootloader
      ensures identifiers == WithoutNullSerial(PopulateDefaultIdentifiers(boardVendorId, boardProductId, deviceIdentifiers, false))
      ensures "serial_number" in deviceIdentifiers && deviceIdentifiers["serial_number"] == Null
              ==> "serial_number" !in identifiers
      ensures "serial_number" in deviceIdentifiers && deviceIdentifiers["serial_number"] != Null
              ==> identifiers["serial_number"] == deviceIdentifiers["serial_number"]
    {
      serialPort := deviceIdentifiers["port"];
      inBootloader := false;
      identifiers := PopulateDefaultIdentifiers(boardVendorId, boardProductId, deviceIdentifiers, false);
      new;
      if "serial_number" in identifiers && identifiers["serial_number"] == Null {
        identifiers := identifiers - {"serial_number"};
      }
    }
  }

  /** What the device manager reports: the available ports in order, the port
      of each device id, and the USB hardware id string of each port it can
      look up (None when it finds the port but no id). */
  datatype DeviceManager = DeviceManager(
    availablePorts: seq<string>,
    portByDeviceId: IdValue -> IdValue,
    usbHwidByPort: map<IdValue, Option<string>>)

  /** A value used as a list index: an int, or a bool, which Python treats as
      0 or 1. Anything else is a TypeError (None). */
  function AsIndex(v: IdValue): (r: Option<int>)
    ensures r.Some? <==> v.Int? || v.Flag?
    ensures v.Int? ==> r == Some(v.i)
    ensures v.Flag? ==> r == Some(if v.b then 1 else 0)
  {
    match v
    case Int(i) => Some(i)
    case Flag(b) => Some(if b then 1 else 0)
    case _ => None
  }

  /** The position Python's xs[i] reads in a list of length n; negative
      indices count from the end. None is an IndexError. */
  function ListPosition(i: int, n: nat): (r: Option<nat>)
    ensures r.Some? <==> -(n as int) <= i < n
    ensures r.Some? ==> r.value < n && (r.value == i || r.value == n + i)
  {
    if 0 <= i < n then Some(i) else if -(n as int) <= i < 0 then Some(n + i) else None
  }

  predicate HasTruthyDeviceId(ids: Identifiers) {
    "deviceID" in ids && Truthy(ids["deviceID"])
  }

  /** The identifiers once the port is chosen: a truthy device id picks the
      manager's port for it, otherwise an index picks an available port. */
  function SelectPort(ids: Identifiers, manager: DeviceManager): (r: Result<Identifiers, DeviceError>)
    ensures r.Ok? ==> ids.Keys <= r.value.Keys <= ids.Keys + {"port"}
    ensures r.Ok? ==> forall k :: k in ids && k != "port" ==> r.value[k] == ids[k]
    ensures HasTruthyDeviceId(ids) ==>
              r == Ok(ids["port" := manager.portByDeviceId(ids["deviceID"])])
    ensures !HasTruthyDeviceId(ids) && "index" in ids ==>
              (r.Ok? <==> (AsIndex(ids["index"]).Some? &&
                           -|manager.availablePorts| <= AsIndex(ids["index"]).value < |manager.availablePorts|))
    ensures !HasTruthyDeviceId(ids) && "index" in ids && AsIndex(ids["index"]).Some? ==>
              var i := AsIndex(ids["index"]).value;
              && (i >= |manager.availablePorts| ==> r == Err(DeviceNotFound))
              && (0 <= i < |manager.availablePorts| ==> r == Ok(ids["port" := Str(manager.availablePorts[i])]))
              && (-|manager.availablePorts| <= i < 0 ==>
                    r == Ok(ids["port" := Str(manager.availablePorts[|manager.availablePorts| + i])]))
              && (i < -|manager.availablePorts| ==> r == Err(IndexError))
    ensures !HasTruthyDeviceId(ids) && "index" in ids && AsIndex(ids["index"]).None? ==> r == Err(TypeError)
    ensures !HasTruthyDeviceId(ids) && "index" in ids && r.Ok? ==>
              "port" in r.value &&
              exists j :: 0 <= j < |manager.availablePorts| && r.value["port"] == Str(manager.availablePorts[j])
    ensures !HasTruthyDeviceId(ids) && "index" !in ids ==> r == Ok(ids)
  {
    if HasTruthyDeviceId(ids) then
      Ok(ids["port" := manager.portByDeviceId(ids["deviceID"])])
    else if "index" in ids then
      var ports := manager.availablePorts;
      match AsIndex(ids["index"])
      case None => Err(TypeError)
      case Some(i) =>
        if |ports| <= i then Err(DeviceNotFound)
        else match ListPosition(i, |ports|)
             case None => Err(IndexError)
             case Some(p) => Ok(ids["port" := Str(ports[p])])
    else
      Ok(ids)
  }

  /** The truth test applied to a looked-up hardware id: present, non-empty
      and mentioning the vendor id. */
  predicate HwidAccepted(hwid: Option<string>)
    ensures HwidAccepted(hwid) <==> hwid.Some? && exists i :: OccursAt(hwid.value, UsbVidPid, i)
  {
    hwid.Some? && hwid.value != "" && Contains(hwid.value, UsbVidPid)
  }

  /** Whether the adapter named by the identifiers is accepted. A port the
      manager cannot look up is not an error, just not accepted. */
  function Acceptance(ids: Identifiers, manager: DeviceManager): (r: Result<bool, DeviceError>)
    ensures r.Err? <==> SelectPort(ids, manager).Err? || "port" !in SelectPort(ids, manager).value
    ensures r == Ok(true) <==>
              && SelectPort(ids, manager).Ok?
              && "port" in SelectPort(ids, manager).value
              && var port := SelectPort(ids, manager).value["port"];
              && port in manager.usbHwidByPort
              && var hwid := manager.usbHwidByPort[port];
              && hwid.Some? && hwid.value != ""
              && exists i :: OccursAt(hwid.value, UsbVidPid, i)
    ensures SelectPort(ids, manager).Ok? && "port" in SelectPort(ids, manager).value
            && SelectPort(ids, manager).value["port"] !in manager.usbHwidByPort
            ==> r == Ok(false)
    ensures SelectPort(ids, manager).Err? ==> r == Err(SelectPort(ids, manager).error)
    ensures SelectPort(ids, manager).Ok? && "port" !in SelectPort(ids, manager).value ==> r == Err(KeyError("port"))
  {
    match SelectPort(ids, manager)
    case Err(e) => Err(e)
    case Ok(chosen) =>
      if "port" !in chosen then Err(KeyError("port"))
      else if chosen["port"] !in manager.usbHwidByPort then Ok(false)
      else Ok(HwidAccepted(manager.usbHwidByPort[chosen["port"]]))
  }

  /** The caller's identifier dictionary, which the acceptance test updates
      in place with the port it chooses. */
  class IdentifierDict {
    var entries: Identifiers

    constructor (entries: Identifiers)
      ensures this.entries == entries
    {
      this.entries := entries;
    }
  }

  /** accepts_connected_device: chooses the port, writes it into the caller's
      dictionary, then tests the hardware id found for it. */
  method AcceptsConnectedDevice(deviceIdentifiers: IdentifierDict, manager: DeviceManager)
    returns (r: Result<bool, DeviceError>)
    modifies deviceIdentifiers
    ensures r == Acceptance(old(deviceIdentifiers.entries), manager)
    ensures deviceIdentifiers.entries ==
              match SelectPort(old(deviceIdentifiers.entries), manager)
              case Ok(chosen) => chosen
              case Err(_) => old(deviceIdentifiers.entries)
  {
    var ids := deviceIdentifiers.entries;
    if "deviceID" in ids && Truthy(ids["deviceID"]) {
      var port := manager.portByDeviceId(ids["deviceID"]);
      deviceIdentifiers.entries := deviceIdentifiers.entries["port" := port];
    } else if "index" in ids {
      var ports := manager.availablePorts;
      var index := AsIndex(ids["index"]);
      if index.None? {
        return Err(TypeError);
      }
      if |ports| <= index.value {
        return Err(DeviceNotFound);
      }
      var position := ListPosition(index.value, |ports|);
      if position.None? {
        return Err(IndexError);
      }
      deviceIdentifiers.entries := deviceIdentifiers.entries["port" := Str(ports[position.value])];
    }
    if "port" !in deviceIdentifiers.entries {
      return Err(KeyError("port"));
    }
    var port := deviceIdentifiers.entries["port"];
    if port !in manager.usbHwidByPort {
      return Ok(false);
    }
    var usbHwid := manager.usbHwidByPort[port];
    if usbHwid.Some? && usbHwid.value != "" {
      return Ok(Contains(usbHwid.value, UsbVidPid));
    }
    return Ok(false);
  }
}
