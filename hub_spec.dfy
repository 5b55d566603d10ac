/** The hub client's requests and the effect of its replies, as values: the
    command envelopes it posts, what a post does to the `online` flag, how a
    reply becomes records, and the refresh cycle over the device and meter
    tables. The `EagleHub` class is proved to do exactly this. */
module HubSpec {
  import opened Wrappers
  import opened Tree
  import opened Errors
  import opened Util
  import opened Model
  import opened MeterSpec

  /** `EagleApiCommand` */
  const DeviceListCommand := "device_list"
  const DeviceQueryCommand := "device_query"

  /** `device_command(device, command_name, extra)`: the name and the device's
      address, with the entries of a non-empty `extra` laid over them. */
  function DeviceCommand(device: EagleDevice, name: string, extra: Option<map<string, Node>>): map<string, Node> {
    var command := map[
      "Name" := Str(name),
      "DeviceDetails" := Dict(map["HardwareAddress" := Str(device.HardwareAddress)])];
    if extra.Some? && extra.value != map[] then command + extra.value else command
  }

  /** The envelope normalisation of `async_execute_command`: a command name
      becomes `{"Command": {"Name": name}}`, a mapping without "Command" is
      wrapped under it, a mapping with it is kept, anything else is a TypeError. */
  function NormalizeCommand(command: Node): Result<Node, Error> {
    match command
    case Str(name) => Success(Dict(map["Command" := Dict(map["Name" := command])]))
    case Dict(fields) => if "Command" in fields then Success(command) else Success(Dict(map["Command" := command]))
    case _ => Failure(NotACommand)
  }

  /** The `Components` payload of `async_query_device`: every component, or the
      component "Main" with one `Variable` entry per requested name. */
  function QueryComponents(variables: Option<seq<string>>): Node {
    match variables
    case None => Dict(map["All" := Str("Y")])
    case Some(names) =>
      Dict(map["Component" := Dict(map[
        "Name" := Str("Main"),
        "Variables" := List(seq(|names|, i requires 0 <= i < |names| =>
                          Dict(map["Variable" := Dict(map["Name" := Str(names[i])])])))])])
  }

  /** The names a `Components` payload asks for; `None` for "All". */
  function RequestedNames(payload: Node): Option<seq<string>> {
    if HasKey(payload, "Component") && HasKey(payload.fields["Component"], "Variables")
       && payload.fields["Component"].fields["Variables"].List?
    then
      var items := payload.fields["Component"].fields["Variables"].items;
      Some(seq(|items|, i requires 0 <= i < |items| => NameOfRequest(items[i])))
    else None
  }

  function NameOfRequest(item: Node): string {
    if HasKey(item, "Variable") && HasKey(item.fields["Variable"], "Name")
       && item.fields["Variable"].fields["Name"].Str?
    then item.fields["Variable"].fields["Name"].s
    else ""
  }

  /** The envelope `async_query_device` posts. */
  function QueryRequest(device: EagleDevice, variables: Option<seq<string>>): Node {
    Dict(map["Command" := Dict(DeviceCommand(device, DeviceQueryCommand,
                                             Some(map["Components" := QueryComponents(variables)])))])
  }

  /** The envelope `_async_get_device_list` posts. */
  const DeviceListRequest := Dict(map["Command" := Dict(map["Name" := Str(DeviceListCommand)])])

  /** What the transport makes of one posted envelope. */
  datatype Reply =
    | NoResponse(error: Error)     // entering `session.post` raised: no response object exists
    | ErrorResponse(error: Error)  // reading the body or `raise_for_status()` raised
    | Document(body: map<string, Node>)  // a 2xx reply whose body the XML decoder read
    | Malformed                    // a 2xx reply whose body is not well-formed XML

  /** `online` after `_post`: a failure inside the response handling turns it
      off, a successful status turns it on, a failure before any response
      leaves it as it was. */
  function PostOnline(online: bool, reply: Reply): bool {
    match reply
    case NoResponse(_) => online
    case ErrorResponse(_) => false
    case Document(_) => true
    case Malformed => true
  }

  /** What `_post` returns or raises. */
  function PostOutcome(reply: Reply): Result<map<string, Node>, Error> {
    match reply
    case NoResponse(e) => Failure(e)
    case ErrorResponse(e) => Failure(e)
    case Document(body) => Success(body)
    case Malformed => Failure(BadXml)
  }

  /** The entries of a device list reply: the `Device` children of its
      "DeviceList" element; a reply without that element is kept whole as
      the one entry, as `get_ensure_list(response, "DeviceList")` keeps it. */
  function DeviceListEntries(body: map<string, Node>): seq<Node> {
    if "DeviceList" in body then EnsureList(body["DeviceList"], "Device") else [Dict(body)]
  }

  /** The entries as `_async_get_device_list` takes them, `get_ensure_list(response, "DeviceList")`. */
  function DeviceListEntriesAsWritten(body: map<string, Node>): seq<Node> {
    EnsureList(Dict(body), "DeviceList")
  }

  /** The result of `_async_get_device_list`. */
  function ListOutcome(transport: Node -> Reply): Result<seq<EagleDevice>, Error> {
    var body :- PostOutcome(transport(DeviceListRequest));
    ParseEach(DeviceListEntries(body), ParseDevice)
  }

  /** The result of `async_query_device`: the reply, unwrapped from an outer
      "Device" key, validated as a `DeviceQueryResponse`. */
  function QueryOutcome(device: EagleDevice, variables: Option<seq<string>>, transport: Node -> Reply): Result<QueryResponse, Error> {
    var body :- PostOutcome(transport(QueryRequest(device, variables)));
    ParseQueryResponse(UnwrapOuterDict(Dict(body), "Device"))
  }

  /** `async_query_device` as written: the validated response is sent
      `.to_device()`, a method `DeviceQueryResponse` does not define. */
  function QueryOutcomeAsWritten(device: EagleDevice, variables: Option<seq<string>>, transport: Node -> Reply): Result<EagleDevice, Error> {
    var response :- QueryOutcome(device, variables, transport);
    Failure(NoAttribute("to_device"))
  }

  /** The exception a refresh cycle raises for a failure inside it. */
  function Wrap(e: Error, host: string): Error {
    if e == Timeout then Timeout else ConnectionFailed(host)
  }

  /** The part of the hub a refresh changes: the flag, the device table and
      the addresses of the meter table. */
  datatype Tables = Tables(online: bool, devices: map<string, EagleDevice>, meters: set<string>)

  /** The loop of `async_refresh_devices` over `list`: each device is queried
      and stored under its address, each electric meter's address is added to
      the meters; the first failure stops the loop, keeping what was written. */
  function RefreshEach(t: Tables, list: seq<EagleDevice>, transport: Node -> Reply): (Tables, Option<Error>)
    decreases |list|
  {
    if list == [] then (t, None)
    else
      var (t2, failed) := Step(t, list[0], transport);
      if failed.Some? then (t2, failed) else RefreshEach(t2, list[1..], transport)
  }

  /** One pass of that loop, for the device `d`. */
  function Step(t: Tables, d: EagleDevice, transport: Node -> Reply): (Tables, Option<Error>) {
    var t1 := t.(online := PostOnline(t.online, transport(QueryRequest(d, None))));
    match QueryOutcome(d, None, transport)
    case Failure(e) => (t1, Some(e))
    case Success(response) =>
      (t1.(devices := t1.devices[d.HardwareAddress := response.DeviceDetails],
           meters := if d.ModelId == ElectricMeterModel then t1.meters + {d.HardwareAddress} else t1.meters),
       None)
  }

  /** The loop of `async_refresh_devices` with only the meter construction
      as written, and the query corrected as in `RefreshEach` (fully as
      written, the query's `to_device()` raises first and the construction is
      never reached). A new electric meter is constructed as
      `ElectricityMeter(hub=..., address=...)`, a keyword the constructor does
      not take, so the construction raises TypeError after the device was
      stored and no meter is ever registered. */
  function RefreshEachAsWritten(t: Tables, list: seq<EagleDevice>, transport: Node -> Reply): (Tables, Option<Error>)
    decreases |list|
  {
    if list == [] then (t, None)
    else
      var d := list[0];
      var t1 := t.(online := PostOnline(t.online, transport(QueryRequest(d, None))));
      match QueryOutcome(d, None, transport)
      case Failure(e) => (t1, Some(e))
      case Success(response) =>
        var t2 := t1.(devices := t1.devices[d.HardwareAddress := response.DeviceDetails]);
        if d.ModelId == ElectricMeterModel && d.HardwareAddress !in t2.meters then (t2, Some(UnexpectedKeyword("address")))
        else RefreshEachAsWritten(t2, list[1..], transport)
  }

  function Finish(run: (Tables, Option<Error>), host: string): (Tables, Result<(), Error>) {
    match run.1
    case None => (run.0, Success(()))
    case Some(e) => (run.0, Failure(Wrap(e, host)))
  }

  /** `async_refresh_devices(devices)`: with no list given, the device list is
      fetched first. */
  function RefreshCycle(t: Tables, devices: Option<seq<EagleDevice>>, transport: Node -> Reply, host: string): (Tables, Result<(), Error>) {
    match devices
    case Some(list) => Finish(RefreshEach(t, list, transport), host)
    case None =>
      var t1 := t.(online := PostOnline(t.online, transport(DeviceListRequest)));
      match ListOutcome(transport)
      case Failure(e) => (t1, Failure(Wrap(e, host)))
      case Success(list) => Finish(RefreshEach(t1, list, transport), host)
  }

  /** `async_refresh_device(address)` */
  function RefreshOne(t: Tables, address: string, transport: Node -> Reply): (Tables, Result<(), Error>) {
    if address !in t.devices then (t, Success(()))
    else
      var stored := t.devices[address];
      var t1 := t.(online := PostOnline(t.online, transport(QueryRequest(stored, None))));
      match QueryOutcome(stored, None, transport)
      case Failure(e) => (t1, Failure(e))
      case Success(response) => (t1.(devices := t1.devices[address := response.DeviceDetails]), Success(()))
  }

  /** The addresses of the devices in `list` */
  function Addresses(list: seq<EagleDevice>): set<string> {
    set d | d in list :: d.HardwareAddress
  }

  /** The addresses of the electric meters in `list` */
  function MeterAddresses(list: seq<EagleDevice>): set<string> {
    set d | d in list && d.ModelId == ElectricMeterModel :: d.HardwareAddress
  }

  // ---------------------------------------------------------------------------
  // Commands

  /** The command holds the name and the device's address under the keys
      `extra` does not override, and every entry of `extra`. */
  lemma DeviceCommandContents(device: EagleDevice, name: string, extra: map<string, Node>)
    ensures DeviceCommand(device, name, Some(extra)).Keys == {"Name", "DeviceDetails"} + extra.Keys
    ensures forall k :: k in extra ==> DeviceCommand(device, name, Some(extra))[k] == extra[k]
    ensures "Name" !in extra ==> DeviceCommand(device, name, Some(extra))["Name"] == Str(name)
    ensures "DeviceDetails" !in extra ==> DeviceCommand(device, name, Some(extra))["DeviceDetails"]
                                          == Dict(map["HardwareAddress" := Str(device.HardwareAddress)])
  {
  }

  /** A normalised envelope is a mapping with a "Command" entry, and
      normalising it again changes nothing. */
  lemma NormalizeCommandIdempotent(command: Node)
    requires NormalizeCommand(command).Success?
    ensures HasKey(NormalizeCommand(command).value, "Command")
    ensures NormalizeCommand(NormalizeCommand(command).value) == NormalizeCommand(command)
  {
  }

  /** Only mappings and strings are commands. */
  lemma NormalizeCommandRejects(command: Node)
    ensures NormalizeCommand(command).Failure? <==> !command.Str? && !command.Dict?
  {
  }

  /** The requested variable names are recovered, in order, from the payload;
      without names the payload asks for everything. */
  lemma QueryComponentsRoundTrip(variables: Option<seq<string>>)
    ensures RequestedNames(QueryComponents(variables)) == variables
    ensures variables.None? ==> QueryComponents(variables) == Dict(map["All" := Str("Y")])
  {
    if variables.Some? {
      var names := variables.value;
      var payload := QueryComponents(variables);
      var items := payload.fields["Component"].fields["Variables"].items;
      assert |items| == |names|;
      forall i | 0 <= i < |items| ensures NameOfRequest(items[i]) == names[i] {
        assert items[i] == Dict(map["Variable" := Dict(map["Name" := Str(names[i])])]);
      }
      assert RequestedNames(payload).value == names;
    }
  }

  /** The query envelope depends on the device only through its address. */
  lemma QueryOutcomeByAddress(d1: EagleDevice, d2: EagleDevice, variables: Option<seq<string>>, transport: Node -> Reply)
    requires d1.HardwareAddress == d2.HardwareAddress
    ensures QueryRequest(d1, variables) == QueryRequest(d2, variables)
    ensures QueryOutcome(d1, variables, transport) == QueryOutcome(d2, variables, transport)
  {
  }

  /** A reply carrying the device's details and one or more components,
      inside its `Device` element as the hub sends it, is read back as exactly
      those details and components; as written the same reply makes the
      query raise AttributeError, as does every reply that validates. */
  lemma QueryOutcomeOfDetails(device: EagleDevice, details: EagleDevice, cs: seq<Component>,
                              variables: Option<seq<string>>, transport: Node -> Reply)
    requires details.LastContact.Some? ==> details.LastContact.value >= 0
    requires cs != [] && forall i :: 0 <= i < |cs| ==> ComponentReadable(cs[i])
    requires transport(QueryRequest(device, variables)) == Document(map["Device" := Dict(QueryTree(details, cs))])
    ensures QueryOutcome(device, variables, transport) == Success(QueryResponse(details, cs))
    ensures QueryOutcomeAsWritten(device, variables, transport) == Failure(NoAttribute("to_device"))
  {
    ParseQueryResponseRoundTrip(details, cs);
  }

  /** As written, no query ever returns a device. */
  lemma QueryOutcomeAsWrittenFails(device: EagleDevice, variables: Option<seq<string>>, transport: Node -> Reply)
    ensures QueryOutcomeAsWritten(device, variables, transport).Failure?
    ensures QueryOutcome(device, variables, transport).Success? ==>
      QueryOutcomeAsWritten(device, variables, transport) == Failure(NoAttribute("to_device"))
  {
  }

  // ---------------------------------------------------------------------------
  // The online flag

  /** The flag changes only on the two edges: off to on on a response with a
      successful status, on to off on a failure while handling a response.
      A post that returns always leaves the hub online. */
  lemma PostOnlineEdges(online: bool, reply: Reply)
    ensures PostOnline(online, reply) != online ==>
      (!online && (reply.Document? || reply.Malformed?)) || (online && reply.ErrorResponse?)
    ensures PostOutcome(reply).Success? ==> PostOnline(online, reply)
    ensures reply.ErrorResponse? ==> !PostOnline(online, reply) && PostOutcome(reply) == Failure(reply.error)
  {
  }

  /** A failure inside a refresh cycle surfaces as TimeoutError exactly when it
      was a timeout, and as ConnectionError otherwise. */
  lemma WrapKinds(e: Error, host: string)
    ensures Wrap(e, host) == Timeout <==> e == Timeout
    ensures e != Timeout ==> Wrap(e, host) == ConnectionFailed(host)
  {
  }

  // ---------------------------------------------------------------------------
  // The device list

  /** The device list read with the corrected extraction: however many
      devices the reply holds (none, one, several), exactly those devices, in
      order, come back. */
  lemma DeviceListRoundTrip(devices: seq<EagleDevice>)
    requires forall i :: 0 <= i < |devices| ==>
      devices[i].LastContact.Some? ==> devices[i].LastContact.value >= 0
    ensures ParseEach(DeviceListEntries(map["DeviceList" := XmlChildren("Device", DeviceTrees(devices))]), ParseDevice)
         == Success(devices)
  {
    var trees := DeviceTrees(devices);
    EnsureListOfXmlChildren("Device", trees);
    var entries := DeviceListEntries(map["DeviceList" := XmlChildren("Device", trees)]);
    assert entries == trees;
    forall i | 0 <= i < |trees| ensures ParseDevice(trees[i]) == Success(devices[i]) {
      ParseDeviceRoundTrip(devices[i]);
    }
    var r := ParseEach(trees, ParseDevice);
    assert r.Success?;
    assert r.value == devices;
  }

  function DeviceTrees(devices: seq<EagleDevice>): (r: seq<Node>)
    requires forall i :: 0 <= i < |devices| ==>
      devices[i].LastContact.Some? ==> devices[i].LastContact.value >= 0
    ensures |r| == |devices|
    ensures forall i :: 0 <= i < |r| ==> r[i] == Dict(DeviceTree(devices[i]))
  {
    seq(|devices|, i requires 0 <= i < |devices| => Dict(DeviceTree(devices[i])))
  }

  /** As written, a reply with two or more devices is taken as a single entry
      holding the whole `Device` list, which does not validate as a device. */
  lemma DeviceListAsWrittenRejectsSeveral(devices: seq<Node>)
    requires |devices| >= 2
    ensures DeviceListEntriesAsWritten(map["DeviceList" := XmlChildren("Device", devices)])
         == [Dict(map["Device" := List(devices)])]
    ensures ParseEach(DeviceListEntriesAsWritten(map["DeviceList" := XmlChildren("Device", devices)]), ParseDevice).Failure?
  {
    var entry := Dict(map["Device" := List(devices)]);
    assert ParseDevice(entry).Failure?;
  }

  /** On a reply listing exactly one device the two readings agree: as
      written the one entry is `{"Device": tree}`, which the device validator
      unwraps, so both give that device. */
  lemma DeviceListReadingsAgreeOnOne(d: EagleDevice)
    requires d.LastContact.Some? ==> d.LastContact.value >= 0
    ensures ParseEach(DeviceListEntriesAsWritten(map["DeviceList" := XmlChildren("Device", [Dict(DeviceTree(d))])]), ParseDevice)
         == Success([d])
    ensures ParseEach(DeviceListEntries(map["DeviceList" := XmlChildren("Device", [Dict(DeviceTree(d))])]), ParseDevice)
         == Success([d])
  {
    var tree := Dict(DeviceTree(d));
    ParseDeviceRoundTrip(d);
    assert "Device" !in DeviceTree(d);
    assert ParseDevice(Dict(map["Device" := tree])) == Success(d);
    ParseEachAll([Dict(map["Device" := tree])], ParseDevice, [d]);
    DeviceListRoundTrip([d]);
    assert DeviceTrees([d]) == [tree];
  }

  /** A reply without a "DeviceList" element, an error report say, is read
      the same way by both readings: as the one entry holding the whole
      reply, which fails validation when it names no hardware address. */
  lemma DeviceListWithoutList(body: map<string, Node>)
    requires "DeviceList" !in body
    ensures DeviceListEntries(body) == DeviceListEntriesAsWritten(body) == [Dict(body)]
    ensures "Device" !in body && "HardwareAddress" !in body ==>
      ParseEach(DeviceListEntries(body), ParseDevice).Failure?
  {
    if "Device" !in body && "HardwareAddress" !in body {
      assert ParseDevice(Dict(body)).Failure?;
    }
  }

  /** A cycle that fetches the list and gets such a reply raises
      ConnectionError and refreshes nothing. */
  lemma RefreshCycleWithoutList(t: Tables, body: map<string, Node>, transport: Node -> Reply, host: string)
    requires "DeviceList" !in body && "Device" !in body && "HardwareAddress" !in body
    requires transport(DeviceListRequest) == Document(body)
    ensures RefreshCycle(t, None, transport, host) == (t.(online := true), Failure(ConnectionFailed(host)))
  {
    DeviceListWithoutList(body);
  }

  /** As written, an empty device list is the one entry `None`, on which the
      device validator's `.get` raises AttributeError. */
  lemma DeviceListAsWrittenRejectsEmpty()
    ensures ParseEach(DeviceListEntriesAsWritten(map["DeviceList" := XmlChildren("Device", [])]), ParseDevice)
         == Failure(NoAttribute("get"))
  {
    assert DeviceListEntriesAsWritten(map["DeviceList" := Null]) == [Null];
  }

  // ---------------------------------------------------------------------------
  // The refresh cycle

  /** One pass stores the device and, for an electric meter, its address;
      a failed pass changes only the flag. */
  lemma StepTables(t: Tables, d: EagleDevice, transport: Node -> Reply)
    ensures Step(t, d, transport).1.None? <==> QueryOutcome(d, None, transport).Success?
    ensures Step(t, d, transport).0.online == PostOnline(t.online, transport(QueryRequest(d, None)))
    ensures Step(t, d, transport).1.Some? ==>
      Step(t, d, transport).0.devices == t.devices && Step(t, d, transport).0.meters == t.meters
    ensures Step(t, d, transport).1.None? ==>
      && Step(t, d, transport).0.devices == t.devices[d.HardwareAddress := Details(d, transport)]
      && Step(t, d, transport).0.meters
         == t.meters + (if d.ModelId == ElectricMeterModel then {d.HardwareAddress} else {})
  {
  }

  /** The addresses of a list are those of its head and of its tail. */
  lemma AddressesCons(list: seq<EagleDevice>)
    requires list != []
    ensures Addresses(list) == {list[0].HardwareAddress} + Addresses(list[1..])
    ensures MeterAddresses(list)
         == (if list[0].ModelId == ElectricMeterModel then {list[0].HardwareAddress} else {})
            + MeterAddresses(list[1..])
  {
    assert list == [list[0]] + list[1..];
    assert forall x :: x in list <==> x == list[0] || x in list[1..];
  }

  /** The meter table's addresses stay among the device table's, and no entry
      of either table is ever removed, whether the loop completes or not;
      only listed addresses are added. */
  lemma {:induction false} RefreshEachKeepsTables(t: Tables, list: seq<EagleDevice>, transport: Node -> Reply)
    requires t.meters <= t.devices.Keys
    ensures var r := RefreshEach(t, list, transport).0;
      && r.meters <= r.devices.Keys
      && t.devices.Keys <= r.devices.Keys
      && t.meters <= r.meters
      && r.devices.Keys <= t.devices.Keys + Addresses(list)
      && r.meters <= t.meters + MeterAddresses(list)
    decreases |list|
  {
    if list != [] {
      StepTables(t, list[0], transport);
      var (t2, failed) := Step(t, list[0], transport);
      if failed.None? {
        RefreshEachKeepsTables(t2, list[1..], transport);
        AddressesCons(list);
      }
    }
  }

  /** The entries of addresses the list does not name are left as they were. */
  lemma {:induction false} RefreshEachKeepsOthers(t: Tables, list: seq<EagleDevice>, transport: Node -> Reply)
    ensures forall a :: a in t.devices && a !in Addresses(list) ==>
      a in RefreshEach(t, list, transport).0.devices && RefreshEach(t, list, transport).0.devices[a] == t.devices[a]
    decreases |list|
  {
    if list != [] {
      StepTables(t, list[0], transport);
      var (t2, failed) := Step(t, list[0], transport);
      if failed.None? {
        RefreshEachKeepsOthers(t2, list[1..], transport);
        AddressesCons(list);
      }
    }
  }

  /** The details a successful query of `d` stores. */
  function Details(d: EagleDevice, transport: Node -> Reply): EagleDevice
    requires QueryOutcome(d, None, transport).Success?
  {
    QueryOutcome(d, None, transport).value.DeviceDetails
  }

  /** A loop that completes has stored every listed device under its address,
      with the details its query returned, has registered exactly the
      listed electric meters beside the old ones, and leaves the hub online. */
  lemma RefreshEachComplete(t: Tables, list: seq<EagleDevice>, transport: Node -> Reply)
    requires RefreshEach(t, list, transport).1.None?
    ensures var r := RefreshEach(t, list, transport).0;
      && (forall d :: d in list ==>
            && QueryOutcome(d, None, transport).Success?
            && d.HardwareAddress in r.devices
            && r.devices[d.HardwareAddress] == Details(d, transport))
      && r.meters == t.meters + MeterAddresses(list)
      && (list != [] ==> r.online)
      && (list == [] ==> r == t)
  {
    RefreshEachStores(t, list, transport);
    RefreshEachMeters(t, list, transport);
  }

  lemma {:induction false} RefreshEachStores(t: Tables, list: seq<EagleDevice>, transport: Node -> Reply)
    requires RefreshEach(t, list, transport).1.None?
    ensures var r := RefreshEach(t, list, transport).0;
      forall d :: d in list ==>
        && QueryOutcome(d, None, transport).Success?
        && d.HardwareAddress in r.devices
        && r.devices[d.HardwareAddress] == Details(d, transport)
    decreases |list|
  {
    if list != [] {
      var d := list[0];
      StepTables(t, d, transport);
      var t2 := Step(t, d, transport).0;
      RefreshEachStores(t2, list[1..], transport);
      var r := RefreshEach(t, list, transport).0;
      forall x | x in list
        ensures QueryOutcome(x, None, transport).Success? && x.HardwareAddress in r.devices
             && r.devices[x.HardwareAddress] == Details(x, transport)
      {
        if x !in list[1..] {
          assert x == d;
          if x.HardwareAddress in Addresses(list[1..]) {
            var y :| y in list[1..] && y.HardwareAddress == x.HardwareAddress;
            QueryOutcomeByAddress(x, y, None, transport);
          } else {
            RefreshEachKeepsOthers(t2, list[1..], transport);
          }
        }
      }
    }
  }

  lemma {:induction false} RefreshEachMeters(t: Tables, list: seq<EagleDevice>, transport: Node -> Reply)
    requires RefreshEach(t, list, transport).1.None?
    ensures var r := RefreshEach(t, list, transport).0;
      && r.meters == t.meters + MeterAddresses(list)
      && (list != [] ==> r.online)
      && (list == [] ==> r == t)
    decreases |list|
  {
    if list != [] {
      var d := list[0];
      StepTables(t, d, transport);
      var t2 := Step(t, d, transport).0;
      RefreshEachMeters(t2, list[1..], transport);
      AddressesCons(list);
      if list[1..] == [] {
        assert PostOutcome(transport(QueryRequest(d, None))).Success?;
      }
    }
  }

  // ---------------------------------------------------------------------------
  // Refreshing one device

  /** An unknown address is a no-op that succeeds. A known one is queried with
      its stored record: on success its entry becomes the returned details and
      the hub is online; on failure the table is untouched. Either way no
      other entry, no key and no meter address changes. */
  lemma RefreshOneEffect(t: Tables, address: string, transport: Node -> Reply)
    ensures address !in t.devices ==> RefreshOne(t, address, transport) == (t, Success(()))
    ensures var r := RefreshOne(t, address, transport).0;
      && r.devices.Keys == t.devices.Keys
      && r.meters == t.meters
      && (forall a :: a in t.devices && a != address ==> r.devices[a] == t.devices[a])
    ensures address in t.devices ==>
      var stored := t.devices[address];
      var (r, result) := RefreshOne(t, address, transport);
      && (result.Success? <==> QueryOutcome(stored, None, transport).Success?)
      && r.online == PostOnline(t.online, transport(QueryRequest(stored, None)))
      && (result.Success? ==> r.devices[address] == Details(stored, transport) && r.online)
      && (result.Failure? ==> r.devices == t.devices && result.error == QueryOutcome(stored, None, transport).error)
  {
  }

  // ---------------------------------------------------------------------------
  // Meter discovery

  /** As written, a cycle whose first device is a new electric meter that
      answers its query fails with ConnectionError and registers no meter;
      the loop that builds the meter from the device registers it. */
  lemma MeterDiscoveryAsWritten(t: Tables, list: seq<EagleDevice>, transport: Node -> Reply, host: string)
    requires list != [] && list[0].ModelId == ElectricMeterModel && list[0].HardwareAddress !in t.meters
    requires QueryOutcome(list[0], None, transport).Success?
    ensures Finish(RefreshEachAsWritten(t, list, transport), host).1 == Failure(ConnectionFailed(host))
    ensures RefreshEachAsWritten(t, list, transport).0.meters == t.meters
    ensures list[0].HardwareAddress in RefreshEach(t, list, transport).0.meters
  {
    var d := list[0];
    var t1 := t.(online := PostOnline(t.online, transport(QueryRequest(d, None))));
    var response := QueryOutcome(d, None, transport).value;
    var t2 := t1.(devices := t1.devices[d.HardwareAddress := response.DeviceDetails],
                  meters := t1.meters + {d.HardwareAddress});
    assert RefreshEach(t, list, transport) == RefreshEach(t2, list[1..], transport);
    RefreshEachMetersGrow(t2, list[1..], transport);
  }

  /** No loop, complete or not, drops a meter address. */
  lemma {:induction false} RefreshEachMetersGrow(t: Tables, list: seq<EagleDevice>, transport: Node -> Reply)
    ensures t.meters <= RefreshEach(t, list, transport).0.meters
    decreases |list|
  {
    if list != [] {
      var d := list[0];
      var t1 := t.(online := PostOnline(t.online, transport(QueryRequest(d, None))));
      match QueryOutcome(d, None, transport)
      case Failure(e) =>
      case Success(response) =>
        var t2 := t1.(devices := t1.devices[d.HardwareAddress := response.DeviceDetails],
                      meters := if d.ModelId == ElectricMeterModel then t1.meters + {d.HardwareAddress} else t1.meters);
        RefreshEachMetersGrow(t2, list[1..], transport);
    }
  }
}
