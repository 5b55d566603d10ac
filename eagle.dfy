/** The client objects: the hub, which posts commands and keeps the tables
    of devices and meters, and the electricity meter view, which keeps its
    device record and the components of its last reply. Both classes live
    in one module because each refers to the other.

    The network is a parameter of each operation that talks to the hub: the
    reply it gives to an envelope at that moment. */
module Eagle {
  import opened Wrappers
  import opened Tree
  import opened Errors
  import opened Text
  import opened Util
  import opened Model
  import opened MeterSpec
  import opened HubSpec

  /** What `async_refresh_device` accepts: a device record or an address. */
  datatype DeviceRef = ByRecord(device: EagleDevice) | ByAddress(address: string)

  function AddressOf(ref: DeviceRef): string {
    match ref
    case ByRecord(device) => device.HardwareAddress
    case ByAddress(address) => address
  }

  class EagleHub {
    static const Manufacturer := "Rainforest Automation"
    static const ModelName := "EAGLE-200"

    /** The cloud id, lower-cased; it names the default host. */
    const cloudId: string
    /** The basic-auth login: the cloud id as given. */
    const authLogin: string
    const installCode: string
    const hostname: string

    var online: bool
    var devices: map<string, EagleDevice>
    var meters: map<string, ElectricityMeter>

    /** Every meter is one of this hub's devices and belongs to this hub. */
    predicate Valid()
      reads this
    {
      && meters.Keys <= devices.Keys
      && forall a :: a in meters ==> meters[a].hub == this
    }

    /** The state a refresh changes, as the value the refresh cycle is
        specified on. */
    function Snapshot(): Tables
      reads this
    {
      Tables(online, devices, meters.Keys)
    }

    constructor(cloudId: string, installCode: string, hostname: Option<string>)
      ensures this.cloudId == Lower(cloudId) && authLogin == cloudId && this.installCode == installCode
      ensures this.hostname == if hostname.Some? && hostname.value != "" then hostname.value
                               else "eagle-" + Lower(cloudId)
      ensures !online && devices == map[] && meters == map[]
      ensures Valid()
    {
      this.cloudId := Lower(cloudId);
      this.authLogin := cloudId;
      this.installCode := installCode;
      this.hostname := if hostname.Some? && hostname.value != "" then hostname.value
                       else "eagle-" + Lower(cloudId);
      online := false;
      devices := map[];
      meters := map[];
    }

    /** `close`: the hub is offline afterwards. */
    method Close()
      modifies this`online
      ensures !online
      ensures forall m: ElectricityMeter :: m.hub == this ==> !m.Available()
    {
      online := false;
    }

    /** `_post`: sends one envelope; the flag follows the reply. */
    method Post(envelope: Node, transport: Node -> Reply) returns (r: Result<map<string, Node>, Error>)
      modifies this`online
      ensures online == PostOnline(old(online), transport(envelope))
      ensures r == PostOutcome(transport(envelope))
    {
      var reply := transport(envelope);
      match reply {
        case NoResponse(e) =>
          return Failure(e);
        case ErrorResponse(e) =>
          if online {
            online := false;
          }
          return Failure(e);
        case Document(body) =>
          if !online {
            online := true;
          }
          return Success(body);
        case Malformed =>
          if !online {
            online := true;
          }
          return Failure(BadXml);
      }
    }

    /** `async_execute_command`: a command that is neither a mapping nor a
        name is refused before anything is sent. */
    method ExecuteCommand(command: Node, transport: Node -> Reply) returns (r: Result<map<string, Node>, Error>)
      modifies this`online
      ensures NormalizeCommand(command).Failure? ==> r == Failure(NotACommand) && online == old(online)
      ensures NormalizeCommand(command).Success? ==>
        var envelope := NormalizeCommand(command).value;
        && r == PostOutcome(transport(envelope))
        && online == PostOnline(old(online), transport(envelope))
    {
      var envelope := command;
      if envelope.Str? {
        envelope := Dict(map["Command" := Dict(map["Name" := envelope])]);
      }
      if !envelope.Dict? {
        return Failure(NotACommand);
      }
      if "Command" !in envelope.fields {
        envelope := Dict(map["Command" := envelope]);
      }
      r := Post(envelope, transport);
    }

    /** `_async_get_device_list`, with the list taken from under its
        "DeviceList" key. */
    method GetDeviceList(transport: Node -> Reply) returns (r: Result<seq<EagleDevice>, Error>)
      modifies this`online
      ensures r == ListOutcome(transport)
      ensures online == PostOnline(old(online), transport(DeviceListRequest))
    {
      var body :- ExecuteCommand(Str(DeviceListCommand), transport);
      r := ParseEach(DeviceListEntries(body), ParseDevice);
    }

    /** `async_query_device` */
    method QueryDevice(device: EagleDevice, variables: Option<seq<string>>, transport: Node -> Reply)
      returns (r: Result<QueryResponse, Error>)
      modifies this`online
      ensures r == QueryOutcome(device, variables, transport)
      ensures online == PostOnline(old(online), transport(QueryRequest(device, variables)))
    {
      var command := DeviceCommand(device, DeviceQueryCommand, Some(map["Components" := QueryComponents(variables)]));
      var body :- ExecuteCommand(Dict(command), transport);
      r := ParseQueryResponse(UnwrapOuterDict(Dict(body), "Device"));
    }

    /** `async_refresh_device`: only a known device is queried, with its
        stored record, and only its entry changes. */
    method RefreshDevice(ref: DeviceRef, transport: Node -> Reply) returns (r: Result<(), Error>)
      requires Valid()
      modifies this`online, this`devices
      ensures Valid()
      ensures (Snapshot(), r) == RefreshOne(old(Snapshot()), AddressOf(ref), transport)
      ensures meters == old(meters)
    {
      var address := match ref case ByRecord(d) => d.HardwareAddress case ByAddress(a) => a;
      if address in devices {
        var response :- QueryDevice(devices[address], None, transport);
        devices := devices[address := response.DeviceDetails];
      }
      return Success(());
    }

    /** One pass of the loop of `async_refresh_devices`: query `d`, store the
        details under its address and, for an electric meter not yet known,
        build its meter view. */
    method StoreQueried(d: EagleDevice, transport: Node -> Reply) returns (failed: Option<Error>)
      requires Valid()
      modifies this`online, this`devices, this`meters
      ensures Valid()
      ensures (Snapshot(), failed) == Step(old(Snapshot()), d, transport)
      ensures forall a :: a in old(meters) ==> a in meters && meters[a] == old(meters)[a]
      ensures forall a :: a in meters && a !in old(meters) ==>
        a == d.HardwareAddress && fresh(meters[a]) && meters[a].device == d && meters[a].components == []
        && meters[a].Valid()
    {
      var response := QueryDevice(d, None, transport);
      if response.Failure? {
        return Some(response.error);
      }
      Store(d, response.value.DeviceDetails);
      return None;
    }

    /** Stores the queried details of `d` under its address and, for an
        electric meter not yet known, builds its meter view. */
    method Store(d: EagleDevice, details: EagleDevice)
      requires Valid()
      modifies this`devices, this`meters
      ensures Valid()
      ensures devices == old(devices)[d.HardwareAddress := details]
      ensures meters.Keys == if d.ModelId == ElectricMeterModel then old(meters).Keys + {d.HardwareAddress} else old(meters).Keys
      ensures forall a :: a in old(meters) ==> a in meters && meters[a] == old(meters)[a]
      ensures forall a :: a in meters && a !in old(meters) ==>
        a == d.HardwareAddress && fresh(meters[a]) && meters[a].device == d && meters[a].components == []
        && meters[a].Valid()
    {
      devices := devices[d.HardwareAddress := details];
      if d.ModelId == ElectricMeterModel && d.HardwareAddress !in meters {
        var meter := new ElectricityMeter(this, d);
        meters := meters[d.HardwareAddress := meter];
      }
    }

    /** The loop of `async_refresh_devices` over `devs`. */
    method RefreshAll(devs: seq<EagleDevice>, transport: Node -> Reply) returns (failed: Option<Error>)
      requires Valid()
      modifies this`online, this`devices, this`meters
      ensures Valid()
      ensures (Snapshot(), failed) == RefreshEach(old(Snapshot()), devs, transport)
      ensures forall a :: a in old(meters) ==> a in meters && meters[a] == old(meters)[a]
      ensures forall a :: a in meters && a !in old(meters) ==>
        fresh(meters[a]) && meters[a].device.HardwareAddress == a && meters[a].components == []
        && meters[a].Valid()
    {
      ghost var begin := Snapshot();
      var i := 0;
      while i < |devs|
        invariant 0 <= i <= |devs|
        invariant Valid()
        invariant RefreshEach(Snapshot(), devs[i..], transport) == RefreshEach(begin, devs, transport)
        invariant forall a :: a in old(meters) ==> a in meters && meters[a] == old(meters)[a]
        invariant forall a :: a in meters && a !in old(meters) ==>
          fresh(meters[a]) && meters[a].device.HardwareAddress == a && meters[a].components == []
          && meters[a].Valid()
      {
        assert devs[i..][0] == devs[i] && devs[i..][1..] == devs[i + 1..];
        failed := StoreQueried(devs[i], transport);
        if failed.Some? {
          return;
        }
        i := i + 1;
      }
      assert devs[i..] == [];
      return None;
    }

    /** `async_refresh_devices`: every listed device is queried and stored
        under its address; an electric meter not yet known gets a new meter
        view; the first failure ends the cycle with TimeoutError or
        ConnectionError, keeping what was stored before it. Without a list,
        the device list is fetched first. */
    method RefreshDevices(list: Option<seq<EagleDevice>>, transport: Node -> Reply) returns (r: Result<(), Error>)
      requires Valid()
      modifies this`online, this`devices, this`meters
      ensures Valid()
      ensures (Snapshot(), r) == RefreshCycle(old(Snapshot()), list, transport, hostname)
      ensures forall a :: a in old(meters) ==> a in meters && meters[a] == old(meters)[a]
      ensures forall a :: a in meters && a !in old(meters) ==>
        fresh(meters[a]) && meters[a].device.HardwareAddress == a && meters[a].components == []
        && meters[a].Valid()
    {
      var devs: seq<EagleDevice>;
      if list.Some? {
        devs := list.value;
      } else {
        var listed := GetDeviceList(transport);
        if listed.Failure? {
          return Failure(Wrap(listed.error, hostname));
        }
        devs := listed.value;
      }
      var failed := RefreshAll(devs, transport);
      r := if failed.Some? then Failure(Wrap(failed.value, hostname)) else Success(());
    }
  }

  class ElectricityMeter {
    const hub: EagleHub
    var device: EagleDevice
    var components: seq<Component>

    /** The view is of an electricity meter. */
    predicate Valid()
      reads this
    {
      device.ModelId == ElectricMeterModel
    }

    constructor(hub: EagleHub, device: EagleDevice)
      requires device.ModelId == ElectricMeterModel
      ensures this.hub == hub && this.device == device && components == []
      ensures Valid()
    {
      this.hub := hub;
      this.device := device;
      components := [];
    }

    /** `ElectricityMeter(hub, device)` with its check: a device of another
        model is refused with ValueError. */
    static method Create(hub: EagleHub, device: EagleDevice) returns (r: Result<ElectricityMeter, Error>)
      ensures r.Failure? <==> device.ModelId != ElectricMeterModel
      ensures r.Failure? ==> r.error == NotAMeter
      ensures r.Success? ==> fresh(r.value) && r.value.hub == hub && r.value.device == device
                             && r.value.components == [] && r.value.Valid()
                             && r.value.HardwareAddress() == device.HardwareAddress
    {
      if device.ModelId != ElectricMeterModel {
        return Failure(NotAMeter);
      }
      var meter := new ElectricityMeter(hub, device);
      return Success(meter);
    }

    /** The availability gate of the meter's sensors: the hub is online and
        the device reports itself connected. */
    predicate Available()
      reads this, hub
      ensures Available() ==> hub.online
      ensures Available() ==> device.ConnectionStatus == Some("Connected")
      ensures hub.online && device.ConnectionStatus == Some("Connected") ==> Available()
    {
      hub.online && device.ConnectionStatus == Some("Connected")
    }

    /** `hardware_address`: the address of the device the meter was built for. */
    function HardwareAddress(): (address: string)
      reads this
      ensures address == device.HardwareAddress
    {
      device.HardwareAddress
    }

    /** `last_contact`: the device's last contact, as the last refresh left it. */
    function LastContact(): (time: Option<int>)
      reads this
      ensures time == device.LastContact
    {
      device.LastContact
    }

    /** `refresh`: queries the hub for this device and merges the reply;
        a failed query changes nothing but the hub's flag. */
    method Refresh(transport: Node -> Reply) returns (r: Result<(), Error>)
      requires Valid()
      modifies this, hub`online
      ensures Valid() && HardwareAddress() == old(HardwareAddress())
      ensures hub.online == PostOnline(old(hub.online), transport(QueryRequest(old(device), None)))
      ensures transport(QueryRequest(old(device), None)).ErrorResponse? ==> r.Failure? && !Available()
      ensures var q := QueryOutcome(old(device), None, transport);
        && (q.Failure? ==> r == Failure(q.error) && device == old(device) && components == old(components))
        && (q.Success? ==>
              && r == Success(())
              && device == MergeStatus(old(device), q.value.DeviceDetails)
              && components == MergeComponents(old(components), q.value.Components)
              && LastContact() == MergeStatus(old(device), q.value.DeviceDetails).LastContact)
    {
      var response :- hub.QueryDevice(device, None, transport);
      var details := response.DeviceDetails;
      if details.LastContact.Some? {
        device := device.(ConnectionStatus := details.ConnectionStatus,
                          LastContact := details.LastContact,
                          NetworkAddress := details.NetworkAddress);
      }
      if response.Components != [] {
        components := response.Components;
      }
      return Success(());
    }

    /** `get_variable(key)`: the first variable called `key`, component by
        component; KeyError naming the key and the address when there is none. */
    method GetVariable(key: string) returns (r: Result<Variable, Error>)
      ensures FirstNamed(Flatten(components), key).Some? ==> r == Success(FirstNamed(Flatten(components), key).value)
      ensures FirstNamed(Flatten(components), key).None? ==> r == Failure(UnknownVariable(key, device.HardwareAddress))
    {
      for i := 0 to |components|
        invariant FirstNamed(Flatten(components[..i]), key).None?
      {
        var entries := components[i].Variables;
        for j := 0 to |entries|
          invariant FirstNamed(entries[..j], key).None?
        {
          var entry := entries[j];
          if entry.Var? && entry.variable.Name == key {
            FoundAt(components, i, j, key);
            return Success(entry.variable);
          }
          FirstNamedAppend(entries[..j], [entry], key);
          assert entries[..j + 1] == entries[..j] + [entry];
        }
        assert entries[..|entries|] == entries;
        FlattenSnoc(components, i);
        FirstNamedAppend(Flatten(components[..i]), entries, key);
      }
      assert components[..|components|] == components;
      return Failure(UnknownVariable(key, device.HardwareAddress));
    }

    /** `get_all_variables(include_null)`: the variables of every component,
        in order, leaving out those with no value unless asked for. */
    method GetAllVariables(includeNull: bool) returns (vs: seq<Variable>)
      ensures vs == Selected(Flatten(components), includeNull)
    {
      vs := [];
      for i := 0 to |components|
        invariant vs == Selected(Flatten(components[..i]), includeNull)
      {
        vs := vs + Selected(components[i].Variables, includeNull);
        FlattenSnoc(components, i);
        SelectedAppend(Flatten(components[..i]), components[i].Variables, includeNull);
      }
      assert components[..|components|] == components;
    }
  }

  /** Finding a variable called `key` at entry `j` of component `i`, with none
      before it, finds the first one of the flattened entries. */
  lemma FoundAt(components: seq<Component>, i: nat, j: nat, key: string)
    requires i < |components| && j < |components[i].Variables|
    requires FirstNamed(Flatten(components[..i]), key).None?
    requires FirstNamed(components[i].Variables[..j], key).None?
    requires Named(components[i].Variables[j], key)
    ensures FirstNamed(Flatten(components), key) == Some(components[i].Variables[j].variable)
  {
    var entries := components[i].Variables;
    var rest := Flatten(components[i..][1..]);
    assert Flatten(components) == Flatten(components[..i]) + (entries + rest) by {
      FlattenSplit(components, i);
      FlattenSplit(components[i..], 1);
      assert components[i..][..1] == [components[i]];
      assert Flatten([components[i]]) == entries by {
        assert [components[i]][..0] == [];
      }
    }
    assert FirstNamed(entries, key) == Some(entries[j].variable) by {
      assert entries == entries[..j] + entries[j..];
      FirstNamedAppend(entries[..j], entries[j..], key);
    }
    FirstNamedAppend(entries, rest, key);
    FirstNamedAppend(Flatten(components[..i]), entries + rest, key);
  }
}
