# Rainforest EAGLE-200 hub client, modelled in Dafny

This project models the client library that talks to a Rainforest
Automation EAGLE-200 energy gateway over its local XML API. The client:

- posts XML command envelopes to `/cgi-bin/post_manager`;
- keeps an `online` flag that follows the replies;
- validates the decoded replies into device, component and variable records;
- keeps two tables: the known devices by hardware address, and the
  electricity-meter views by address.

A meter view answers variable lookups from the components of its last query.

The model covers four source files:

| file | in the model |
|---|---|
| `eagle/util.py` | `util.dfy`: list normalisation, wrapper unwrapping, hex timestamps |
| `eagle/model.py` | `model.dfy`: the value cascade (an imperative method) and the record validators (functions) |
| `eagle/meter.py` | `meter_spec.dfy` (specification functions and lemmas), `eagle.dfy` class `ElectricityMeter` |
| `eagle/hub.py` | `hub_spec.dfy` (envelopes, post outcomes, the refresh cycle as a function on values), `eagle.dfy` class `EagleHub` |

The other files support them:

- `wrappers.dfy`: `Option` and `Result`.
- `tree.dfy`: `Node`, the tree the XML decoder produces. It holds strings,
  mappings, lists and `None`, plus the booleans, integers, float texts and
  instants that validation puts in.
- `errors.dfy`: the exceptions.
- `text.dfy`: the Python built-ins the validators rely on, on ASCII text.
  These are `str.lower`, `int(s, 10)`, `int(s, 16)` and whether `float(s)`
  accepts `s`. The white space `int()` and `float()` skip around an ASCII
  string is tab, line feed, vertical tab, form feed, carriage return and
  space. Decimal `int()` refuses more than 4300 digits, the default limit
  of `sys.set_int_max_str_digits`; such a value then takes the float branch
  of the value cascade (`CoerceLongDecimal`).

The network is a parameter of every operation that posts: a function from
the envelope sent to a `Reply`. A `Reply` is one of four things:

- no response at all;
- an error while reading the response;
- a decoded document;
- a body that is not XML.

`EagleHub` and `ElectricityMeter` are classes whose methods update their
fields in place. Every method is proved against a function on values:

- `EagleHub.Post` against `PostOnline`/`PostOutcome`.
- `EagleHub.RefreshDevices` against `RefreshCycle`.
- `ElectricityMeter.GetVariable` against `FirstNamed(Flatten(components))`.
- `ElectricityMeter.GetAllVariables` against `Selected(Flatten(components))`.
- `ElectricityMeter.Refresh` against `MergeStatus`/`MergeComponents`.

The source's promises are proved as lemmas about those functions.

Two behaviours of the code are easy to misread; the model follows the code:

- **Errors before a response.** `_post` changes the flag only inside the
  response context (`hub.py:67-80`). An error raised on entering
  `session.post`, before any response exists, leaves `online` as it was
  (`Reply.NoResponse`). A body that is not XML raises after the flag was set
  to `True`.
- **A failed device query.** It ends the whole refresh cycle, because the
  `try` encloses the loop (`hub.py:126-160`). It does not skip to the next
  device. Entries stored before the failure stay.

Three calls in `hub.py` cannot work as written (see "## Findings"):

- `hub.py:99` reads the device list as `get_ensure_list(response,
  "DeviceList")`, normalising the whole reply. The model reads the entries
  under "DeviceList" with the key "Device" (`DeviceListEntries`,
  `ListOutcome`, `EagleHub.GetDeviceList`). A reply without a "DeviceList"
  element is still kept whole as the one entry, as the code keeps it. The
  two readings agree on a reply listing exactly one device
  (`DeviceListReadingsAgreeOnOne`) and on a reply with no "DeviceList"
  (`DeviceListWithoutList`). As written, a reply with no device or with
  several fails.
- `hub.py:115` sends `.to_device()` to a `DeviceQueryResponse`, which does
  not define it. The model returns the validated response, and the hub
  stores its `DeviceDetails`.
- `hub.py:133-135` builds `ElectricityMeter(hub=..., address=...)`, but the
  constructor takes `device` (`meter.py:26-30`). The model builds the meter
  from the listed device record.

The before-validators of `Variable`, `Component` and `EagleDevice`
(`model.py:33`, `model.py:57`, `model.py:84`) call `.get` on their input. On
anything but a mapping this raises AttributeError, which validation does not
turn into a validation error; the model reports it as `NoAttribute("get")`.
Two consequences the model keeps:

- A query reply whose `Components` element is empty decodes to `None`, which
  `ensure_components_list` turns into `[None]` (`model.py:125-133`); that
  entry raises AttributeError (`ParseQueryResponseOfNoComponents`).
- `Variables` is typed `Variable | str`, but the `Variable` alternative is
  tried first and its before-validator raises on a string, so a plain-string
  entry is never accepted (`ParseEntryOfText`).

The availability gate of the meter's sensors (`sensor.py:126-129`) reads
`meter.connection_status`, which the meter class does not define.
`ElectricityMeter.Available` reads the device's `ConnectionStatus` instead.

## Model

| member | source | states |
|---|---|---|
| Util.EnsureListOfNull | custom_components/rainforest_eagle3/eagle/util.py:22-23 | `get_ensure_list(None, k)` is the empty list |
| Util.EnsureListKeyed | custom_components/rainforest_eagle3/eagle/util.py:24-26 | a mapping holding `k` yields the list under `k` itself, or the one-element list of a non-list value under `k` |
| Util.EnsureListSingleton | custom_components/rainforest_eagle3/eagle/util.py:24-26 | a value that is not `None`, not a list and not a mapping holding `k` is wrapped as a singleton |
| Util.EnsureListIdempotent | custom_components/rainforest_eagle3/eagle/util.py:24-26 | every list comes back unchanged, so normalising a normalised list changes nothing |
| Util.EnsureListOfXmlChildren | custom_components/rainforest_eagle3/eagle/util.py:20-26 | for repeated XML elements decoded as none, one mapping or a list, normalisation recovers exactly the elements, in order |
| Util.UnwrapOuterDictCases | custom_components/rainforest_eagle3/eagle/util.py:29-33 | a mapping holding the key yields the value under it; every other input is returned unchanged |
| Util.UnwrapWrapped | custom_components/rainforest_eagle3/eagle/util.py:29-33 | unwrapping `{key: v}` gives back `v` |
| Util.ParseHexTimestampOfDigits | custom_components/rainforest_eagle3/eagle/util.py:11-15 | a non-empty string of hex digits gives the instant whose epoch seconds are its base-16 value |
| Util.ParseHexTimestampRoundTrip | custom_components/rainforest_eagle3/eagle/util.py:11-15 | every non-negative epoch second count written in hex is read back exactly |
| Util.ParseHexTimestampPrefixed | custom_components/rainforest_eagle3/eagle/util.py:11-15 | the `0x`/`0X` form of a hex second count, which `int(value, 16)` also accepts, reads back exactly |
| Util.ParseHexTimestampOfNonString | custom_components/rainforest_eagle3/eagle/util.py:16-17 | a non-string gives `None` (the TypeError is absorbed) |
| Util.ParseHexTimestampOfNonHex | custom_components/rainforest_eagle3/eagle/util.py:11-17 | a string holding a character that is not a hex digit, white space, a sign, `x`/`X` or an underscore gives `None` (the ValueError is absorbed) |
| Util.ParseHexTimestampExamples | custom_components/rainforest_eagle3/eagle/util.py:11-17 | "not-hex", "12g" and "0xzz" give `None` |
| Text.Lower | custom_components/rainforest_eagle3/eagle/model.py:34 | lower-casing keeps the length and lowers each character independently |
| Text.ParseDigits | custom_components/rainforest_eagle3/eagle/model.py:39 | `int(s, base)` of an optionally signed digit string is the signed value of its digits |
| Text.ToDigitsRoundTrip | custom_components/rainforest_eagle3/eagle/util.py:14 | the digits of `n` in a base read back as `n` |
| Text.NoDigitNoNumber | custom_components/rainforest_eagle3/eagle/model.py:37-42 | a string without decimal digits is neither an `int` nor a decimal `float` literal |
| Model.ValidateValue | custom_components/rainforest_eagle3/eagle/model.py:31-44 | the input mapping comes back with only its "Value" entry rewritten (added as `None` when missing), holding the coerced value |
| Model.CoerceBoolWord | custom_components/rainforest_eagle3/eagle/model.py:34-36 | "true" and "false", in any case, both become `True` |
| Model.CoerceDecimal | custom_components/rainforest_eagle3/eagle/model.py:37-39 | an optionally negative string of at most 4300 decimal digits becomes that integer |
| Model.CoerceRoundTrip | custom_components/rainforest_eagle3/eagle/model.py:37-39 | every integer whose decimal text `str()` can write (at most 4300 digits) is read back as that integer |
| Text.LongDigitsNoInt | custom_components/rainforest_eagle3/eagle/model.py:37-39 | decimal `int()` refuses a digit string longer than 4300 digits |
| Model.CoerceLongDecimal | custom_components/rainforest_eagle3/eagle/model.py:37-42 | a digit string longer than 4300 digits is not an integer but is accepted by `float()`, so it stays the float text |
| Model.CoerceKeepsText | custom_components/rainforest_eagle3/eagle/model.py:37-43 | a string that is not a boolean word, has no digit and is not a float word stays the same string |
| Model.CoerceNonString | custom_components/rainforest_eagle3/eagle/model.py:33-43 | `None` and non-string values pass through unchanged |
| Model.CoerceIdempotent | custom_components/rainforest_eagle3/eagle/model.py:33-44 | validating an already validated value changes nothing |
| Model.CoerceExamples | custom_components/rainforest_eagle3/eagle/model.py:37-43 | "42" becomes 42, "3.14" is taken by the float branch, and "on" stays a string |
| Model.ParseLastContactIsHexTimestamp | custom_components/rainforest_eagle3/eagle/model.py:89-99 | an instant is kept; `None` stays `None`; anything else is read as a hex timestamp, and a malformed value becomes `None` |
| Model.ParseLastContactRoundTrip | custom_components/rainforest_eagle3/eagle/model.py:95-97 | a hex epoch second count is read back exactly |
| Model.RequiredStr | custom_components/rainforest_eagle3/eagle/model.py:72-76 | a required string field is accepted exactly when present as a string, and the result is that string; otherwise the field is reported invalid |
| Model.OptionalStr | custom_components/rainforest_eagle3/eagle/model.py:78-79 | an optional string field is accepted exactly when missing, `None` or a string; missing and `None` give `None`, a string gives itself |
| Model.ParseEach | custom_components/rainforest_eagle3/eagle/hub.py:100 | a list validates exactly when every element does, giving one record per element in order |
| Model.EnsureVariablesListIsEnsureList | custom_components/rainforest_eagle3/eagle/model.py:60-66 | `ensure_variables_list` returns a list unchanged and otherwise equals `get_ensure_list(value, "Variable")`, so it agrees with that function on every input |
| Model.EnsureComponentsList | custom_components/rainforest_eagle3/eagle/model.py:108-116 | a list is returned unchanged |
| Model.EnsureComponentsListIsEnsureList | custom_components/rainforest_eagle3/eagle/model.py:125-133 | the validator unwraps "Component" and wraps a non-list as a singleton; unlike `get_ensure_list`, it turns `None` into `[None]` |
| Model.ParseDeviceUnwraps | custom_components/rainforest_eagle3/eagle/model.py:81-85 | a device under one outer "Device" key parses as the bare device; a non-mapping under that key fails validation, and a bare non-mapping raises AttributeError |
| Model.ParseComponentUnwraps | custom_components/rainforest_eagle3/eagle/model.py:54-58 | a component under one outer "Component" key parses as the bare component; a non-mapping under that key fails validation, and a bare non-mapping raises AttributeError |
| Model.ParseDeviceRoundTrip | custom_components/rainforest_eagle3/eagle/model.py:69-99 | every device record, sent with a hex last-contact time, validates back to itself |
| Model.ParseDeviceResponseIsDevice | custom_components/rainforest_eagle3/eagle/model.py:136-149 | a device response validates only where its device does and, without `Components`, carries none |
| Model.ParseEachAll | custom_components/rainforest_eagle3/eagle/model.py:52 | a list whose elements validate one by one to given records validates to exactly that list of records |
| Model.ValueRoundTrip | custom_components/rainforest_eagle3/eagle/model.py:31-44 | the text of every value but False, and of a string or float text not taken for something else, goes through the cascade back to that value |
| Model.ParseVariableRoundTrip | custom_components/rainforest_eagle3/eagle/model.py:21-44 | a variable whose value reads back is validated from its decoded element to exactly itself |
| Model.ParseComponentRoundTrip | custom_components/rainforest_eagle3/eagle/model.py:47-66 | a component with zero, one or several variables is validated from its decoded element to exactly itself, variables in order |
| Model.ParseQueryResponseRoundTrip | custom_components/rainforest_eagle3/eagle/model.py:119-133 | a decoded query reply with one or more components validates to exactly its details and components, in order |
| Model.ParseQueryResponseOfNoComponents | custom_components/rainforest_eagle3/eagle/model.py:125-133 | a reply whose `Components` element is empty becomes `[None]`, and validating that entry raises AttributeError from `.get` (model.py:57) |
| Model.ParseEntryOfText | custom_components/rainforest_eagle3/eagle/model.py:29-33 | a plain-string `Variables` entry raises AttributeError in `Variable`'s before-validator instead of being accepted as a `str` |
| MeterSpec.FirstNamedIsFirst | custom_components/rainforest_eagle3/eagle/meter.py:64-69 | a variable found is an entry called `key`, and no earlier entry is a variable with that name |
| MeterSpec.FirstNamedNone | custom_components/rainforest_eagle3/eagle/meter.py:70-71 | nothing is found exactly when no entry is a variable called `key` |
| MeterSpec.SelectedMembers | custom_components/rainforest_eagle3/eagle/meter.py:79-83 | a variable is listed exactly when it is an entry and, unless nulls are asked for, has a value; strings never are |
| MeterSpec.SelectedNonNull | custom_components/rainforest_eagle3/eagle/meter.py:73-84 | the default listing is the full listing with the null-valued variables filtered out |
| MeterSpec.NonNullIsSubsequence | custom_components/rainforest_eagle3/eagle/meter.py:79-83 | filtering out null values leaves a subsequence |
| MeterSpec.SelectedSubsequence | custom_components/rainforest_eagle3/eagle/meter.py:73-84 | the `include_null=False` listing is a subsequence of the `include_null=True` listing |
| MeterSpec.MergeStatusPreserves | custom_components/rainforest_eagle3/eagle/meter.py:56-59 | a refresh never changes the device's identity fields, and a reply without last contact leaves the device as it was |
| MeterSpec.MergeLastContact | custom_components/rainforest_eagle3/eagle/meter.py:45-59 | after a merge the last contact is the reply's when it has one and the old one otherwise, so a known time is never lost, and the connection status moves with it |
| MeterSpec.MergeIdempotent | custom_components/rainforest_eagle3/eagle/meter.py:56-62 | merging the same reply twice is merging it once |
| HubSpec.DeviceCommandContents | custom_components/rainforest_eagle3/eagle/hub.py:16-24 | the command holds the name and the device's address unless `extra` overrides them, and every entry of `extra` |
| HubSpec.NormalizeCommandIdempotent | custom_components/rainforest_eagle3/eagle/hub.py:86-92 | a normalised envelope has a "Command" entry, and normalising it again changes nothing |
| HubSpec.NormalizeCommandRejects | custom_components/rainforest_eagle3/eagle/hub.py:88-90 | exactly the commands that are neither mappings nor strings are refused with TypeError |
| HubSpec.QueryComponentsRoundTrip | custom_components/rainforest_eagle3/eagle/hub.py:106-111 | without names the query asks for everything; with names it asks for component "Main" with exactly those names, in order |
| HubSpec.QueryOutcomeByAddress | custom_components/rainforest_eagle3/eagle/hub.py:112-114 | a query depends on the device only through its hardware address |
| HubSpec.QueryOutcomeOfDetails | custom_components/rainforest_eagle3/eagle/hub.py:113-115 | a decoded reply holding a device's details and one or more components validates to exactly those details and components; as written the same query raises AttributeError |
| HubSpec.QueryOutcomeAsWrittenFails | custom_components/rainforest_eagle3/eagle/hub.py:114-115 | as written no query returns a device: every reply that validates raises AttributeError |
| HubSpec.PostOnlineEdges | custom_components/rainforest_eagle3/eagle/hub.py:64-80 | the flag turns on only on a reply with a good status and off only on a failure inside the response; a post that returns leaves the hub online; a response failure is re-raised |
| HubSpec.WrapKinds | custom_components/rainforest_eagle3/eagle/hub.py:155-160 | inside a refresh cycle a timeout surfaces as TimeoutError and every other failure as ConnectionError |
| HubSpec.DeviceListRoundTrip | custom_components/rainforest_eagle3/eagle/hub.py:96-100 | with the list taken from under "DeviceList", a reply with any number of devices yields exactly those devices, in order |
| HubSpec.DeviceListAsWrittenRejectsSeveral | custom_components/rainforest_eagle3/eagle/hub.py:98-100 | as written, a reply with two or more devices is one entry holding the whole list, which fails validation |
| HubSpec.DeviceListReadingsAgreeOnOne | custom_components/rainforest_eagle3/eagle/hub.py:96-100 | on a reply listing exactly one device, the as-written and the corrected readings both give that device |
| HubSpec.DeviceListAsWrittenRejectsEmpty | custom_components/rainforest_eagle3/eagle/hub.py:98-100 | as written, an empty device list is the one entry `None`, on which the device validator raises AttributeError |
| HubSpec.DeviceListWithoutList | custom_components/rainforest_eagle3/eagle/hub.py:98-100 | a reply without "DeviceList" is kept whole as the one entry by both readings, and fails validation when it is no device record |
| HubSpec.RefreshCycleWithoutList | custom_components/rainforest_eagle3/eagle/hub.py:123-160 | a refresh cycle whose device list has no "DeviceList" and no device fields ends with ConnectionError and leaves the devices and meters unchanged |
| HubSpec.StepTables | custom_components/rainforest_eagle3/eagle/hub.py:130-135 | one pass stores the queried details under the device's address and adds an electric meter's address; a failed pass changes only the flag |
| HubSpec.RefreshEachKeepsTables | custom_components/rainforest_eagle3/eagle/hub.py:129-135 | whether or not the loop completes: meter keys stay within device keys, no entry is removed, only listed addresses are added |
| HubSpec.RefreshEachKeepsOthers | custom_components/rainforest_eagle3/eagle/hub.py:129-130 | the entries of addresses the list does not name are left as they were |
| HubSpec.RefreshEachComplete | custom_components/rainforest_eagle3/eagle/hub.py:129-135 | a completed loop stores every listed device under its address with its queried details, adds exactly the listed electric meters, and leaves the hub online |
| HubSpec.RefreshEachMetersGrow | custom_components/rainforest_eagle3/eagle/hub.py:131-135 | no refresh loop drops a meter address |
| HubSpec.MeterDiscoveryAsWritten | custom_components/rainforest_eagle3/eagle/hub.py:131-135 | with the query of hub.py:115 corrected, a new electric meter still ends the cycle with ConnectionError and registers nothing; building the meter from the device registers it |
| HubSpec.RefreshOneEffect | custom_components/rainforest_eagle3/eagle/hub.py:117-122 | an unknown address is a no-op that succeeds; a known one is queried with its stored record, its entry becomes the returned details on success and is untouched on failure; no other entry, key or meter changes |
| Eagle.EagleHub.constructor | custom_components/rainforest_eagle3/eagle/hub.py:33-52 | the cloud id is lower-cased, the host defaults to `eagle-<cloud id>`, the hub starts offline with no devices and no meters |
| Eagle.EagleHub.Close | custom_components/rainforest_eagle3/eagle/hub.py:59-62 | the hub is offline afterwards, so no meter of the hub is available |
| Eagle.EagleHub.Post | custom_components/rainforest_eagle3/eagle/hub.py:64-80 | the new flag and the result are those of `PostOnline` and `PostOutcome` for the reply |
| Eagle.EagleHub.ExecuteCommand | custom_components/rainforest_eagle3/eagle/hub.py:82-94 | a command that is not a mapping or a string fails before anything is sent; otherwise the normalised envelope is posted |
| Eagle.EagleHub.GetDeviceList | custom_components/rainforest_eagle3/eagle/hub.py:96-100 | the device list posted, and its validated entries taken from under "DeviceList", or the whole reply as the one entry when it has no "DeviceList" |
| Eagle.EagleHub.QueryDevice | custom_components/rainforest_eagle3/eagle/hub.py:102-115 | the query envelope posted and its reply, unwrapped from "Device", validated as a query response |
| Eagle.EagleHub.RefreshDevice | custom_components/rainforest_eagle3/eagle/hub.py:117-122 | an unknown address changes nothing; a known one is queried with its stored record, and only its entry and the flag change |
| Eagle.EagleHub.StoreQueried | custom_components/rainforest_eagle3/eagle/hub.py:130-135 | one device queried and stored, and a new meter view built for a new electric meter |
| Eagle.EagleHub.RefreshAll | custom_components/rainforest_eagle3/eagle/hub.py:129-135 | the loop over the devices produces the tables of `RefreshEach`; meter views already known are kept, and new ones are fresh, of this hub and for their address |
| Eagle.EagleHub.RefreshDevices | custom_components/rainforest_eagle3/eagle/hub.py:124-160 | the whole cycle, fetching the list when none is given, produces the tables and the TimeoutError/ConnectionError of `RefreshCycle`; every meter view stays registered once |
| Eagle.ElectricityMeter.constructor | custom_components/rainforest_eagle3/eagle/meter.py:26-38 | a meter of an electric meter device starts with no components |
| Eagle.ElectricityMeter.Create | custom_components/rainforest_eagle3/eagle/meter.py:26-43 | construction fails with ValueError exactly when the device is not an electric meter; otherwise the meter has no components and the device's address |
| Eagle.ElectricityMeter.Refresh | custom_components/rainforest_eagle3/eagle/meter.py:50-62 | the status fields are copied only from a reply with last contact, so afterwards `last_contact` is the reply's when it has one and the old one otherwise; the components are replaced only by a non-empty list; the hardware address never changes; a failed query changes nothing but the hub's flag |
| Eagle.ElectricityMeter.HardwareAddress | custom_components/rainforest_eagle3/eagle/meter.py:40-43 | the meter's address is its device record's `HardwareAddress` |
| Eagle.ElectricityMeter.LastContact | custom_components/rainforest_eagle3/eagle/meter.py:45-48 | the meter's last contact is its device record's `LastContact` |
| Eagle.ElectricityMeter.Available | custom_components/rainforest_eagle3/sensor.py:126-129 | a meter is available exactly when the hub is online and the device reports "Connected" |
| Eagle.ElectricityMeter.GetVariable | custom_components/rainforest_eagle3/eagle/meter.py:64-71 | the first variable called `key` in component and entry order, else KeyError naming the key and the meter's address |
| Eagle.ElectricityMeter.GetAllVariables | custom_components/rainforest_eagle3/eagle/meter.py:73-84 | the variables of all components, in order, without the null-valued ones unless asked for |

## Left out

- HTTP: the aiohttp session, basic authentication, the request headers, the
  URL and `raise_for_status`. A post is the transport function's `Reply`.
  The transport is a function of the envelope, so the model cannot express
  two different answers to the same envelope within one operation.
- XML: `xmltodict.unparse` of the envelope and `xmltodict.parse` of the
  reply. The model posts the envelope tree and receives the decoded tree.
  The error `unparse` raises for a mapping with several roots is not modelled.
- `close` also closes the HTTP session. That is not modelled beyond the flag.
- The pydantic machinery: its
  lax coercions (a boolean accepted where an integer is declared), type
  coercions of field values, and the aggregation of several validation
  errors into one. Each validator is a function that fails at the first
  problem.
- Model.ValueRoundTrip: the value False has no text that reads back as
  False, because `bool("false")` is True; the round trip is stated for the
  other values only.
- Floating point: the float branch of the value cascade only recognises an
  accepted literal and keeps its text. It recognises `inf`/`infinity`/`nan`
  and decimal forms with exponents and underscores. It computes no value.
- `datetime.fromtimestamp`: instants are integer epoch seconds. Its range
  limits and the OverflowError for huge values are not modelled.
- Non-ASCII text: white space skipping, `str.lower`, `int` and `float` are modelled on
  ASCII only. Unicode spaces, case mappings and digits are not.
- `resolve_host` and `resolve_host_ex` (DNS), logging, async scheduling and
  timeouts.
- The `device_list` property: it returns `self.devices.values()` in
  insertion order, and the model's `map` has no order.
- Aliasing of device records: the source's meter view keeps the record
  object it was built from and mutates its status fields in place, so a
  caller holding the same object sees the change. The model holds records
  as values, and a refresh changes only the meter's own copy.
- The `EagleApiCommand` enum is modelled as string constants for the two
  commands the client sends; `DEVICE_DETAILS` is never sent, so it has no
  constant. The `MeterVariable` names (`meter.py:15-20`) are only used by the sensors, so
  they are not part of this model.
- The Home Assistant integration (sensors, coordinator, config flow) is not
  part of this model, except the availability gate `ElectricityMeter.Available`.

## Findings

| source | as written | input that shows it | evidently intended | confidence | as-written member | corrected member |
|---|---|---|---|---|---|---|
| custom_components/rainforest_eagle3/eagle/hub.py:99 | the device list is normalised from the whole reply under the key "DeviceList" | a reply listing two devices: the one entry is `{"Device": [d1, d2]}`, which is not a device; an empty list gives the entry `None` | normalise the value under "DeviceList" with the key "Device" | not executed | HubSpec.DeviceListAsWrittenRejectsSeveral | HubSpec.DeviceListRoundTrip |
| custom_components/rainforest_eagle3/eagle/hub.py:133-135 | a new meter is built with the keyword `address`, which the constructor (meter.py:26-30) does not take; stated with the query of hub.py:115 corrected, since as written that query raises first | a device list holding one electric meter whose query answers: TypeError, reported as ConnectionError, no meter registered | build the meter from the device record | not executed | HubSpec.MeterDiscoveryAsWritten | HubSpec.RefreshEachComplete |
| custom_components/rainforest_eagle3/eagle/hub.py:115 | the validated query response is sent `to_device()`, which no model class defines | any reply that validates as a query response: AttributeError | return the validated response, whose `DeviceDetails` the callers use | not executed | HubSpec.QueryOutcomeAsWrittenFails | HubSpec.QueryOutcomeOfDetails |
