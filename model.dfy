/** The typed records of the hub's XML API and the validators that turn a
    decoded tree into them: variables (with the coercion of their raw value),
    components, devices and the two shapes of a device query reply. */
module Model {
  import opened Wrappers
  import opened Tree
  import opened Text
  import opened Errors
  import opened Util

  /** The value of a variable: `int | float | str | None`, plus the `bool`
      the coercion writes back. A float is kept as the text it was read from. */
  datatype Value =
    | NoValue
    | BoolValue(b: bool)
    | IntValue(i: int)
    | FloatValue(text: string)
    | StrValue(s: string)

  datatype Variable = Variable(Name: string, Value: Value, Description: Option<string>, Units: Option<string>)

  /** An entry of `Component.Variables`, typed `Variable | str`. */
  datatype VariableEntry = Var(variable: Variable) | Label(text: string)

  datatype Component = Component(Name: string, FixedId: string, Variables: seq<VariableEntry>)

  /** `EagleDevice`; `LastContact` is in epoch seconds. */
  datatype EagleDevice = EagleDevice(
    Name: string,
    HardwareAddress: string,
    Manufacturer: string,
    ModelId: string,
    Protocol: string,
    LastContact: Option<int>,
    ConnectionStatus: Option<string>,
    NetworkAddress: Option<string>)

  /** `DeviceDetailsResponse` and `DeviceQueryResponse`, which have the same fields. */
  datatype QueryResponse = QueryResponse(DeviceDetails: EagleDevice, Components: seq<Component>)

  /** `DeviceResponse`: a device with optional components. */
  datatype DeviceResponse = DeviceResponse(Device: EagleDevice, Components: Option<seq<Component>>)

  // ---------------------------------------------------------------------------
  // Variable.validate_value

  /** The coercion cascade of `validate_value` on the raw value: a string that
      is "true" or "false" in any case becomes `bool(value)`, which is True for
      every non-empty string; then a string `int()` reads becomes that integer;
      then a string `float()` reads becomes a float; anything else is kept. */
  function Coerce(value: Node): Node {
    match value
    case Str(s) =>
      if IsBoolWord(s) then Bool(|s| > 0)
      else if ParseInt(s, 10).Some? then Int(ParseInt(s, 10).value)
      else if IsFloatText(s) then Float(s)
      else value
    case _ => value
  }

  /** `validate_value` rewrites the "Value" entry of the incoming mapping
      (adding it, as `None`, when it is missing) and leaves every other entry. */
  method ValidateValue(values: map<string, Node>) returns (r: map<string, Node>)
    ensures r.Keys == values.Keys + {"Value"}
    ensures forall k :: k in values && k != "Value" ==> r[k] == values[k]
    ensures r["Value"] == Coerce(Get(values, "Value", Null))
  {
    var value := Get(values, "Value", Null);
    if value.Str? && IsBoolWord(value.s) {
      value := Bool(value.s != "");
    }
    if value.Str? {
      var n := ParseInt(value.s, 10);
      if n.Some? {
        value := Int(n.value);
      }
    }
    if value.Str? && IsFloatText(value.s) {
      value := Float(value.s);
    }
    r := values["Value" := value];
  }

  /** "true" and "false", in any case, both become True. */
  lemma CoerceBoolWord(s: string)
    requires IsBoolWord(s)
    ensures Coerce(Str(s)) == Bool(true)
  {
    assert |Lower(s)| == |s|;
  }

  /** A string of decimal digits, with or without a minus sign, becomes the
      integer it denotes. */
  lemma CoerceDecimal(full: string, digits: string, negative: bool)
    requires DecimalText(full, digits, negative)
    ensures Coerce(Str(full)) == Int(if negative then -(Num(digits, 10) as int) else Num(digits, 10))
  {
    NotBoolWord(full, digits, negative);
    ParseDigits(full, digits, 10, negative);
  }

  /** `full` is `digits`, a non-empty run of at most `MaxStrDigits` decimal
      digits, with a minus sign in front when `negative`. */
  predicate DecimalText(full: string, digits: string, negative: bool) {
    && digits != [] && AllDigits(digits, 10) && |digits| <= MaxStrDigits
    && full == (if negative then "-" else "") + digits
  }

  lemma NotBoolWord(full: string, digits: string, negative: bool)
    requires digits != [] && AllDigits(digits, 10)
    requires full == (if negative then "-" else "") + digits
    ensures !IsBoolWord(full)
  {
    var k := if negative then 1 else 0;
    assert full[k] == digits[0];
    assert Lower(full)[k] == full[k];
  }

  /** `str(n)` read back as a variable value is `n`, for every `n` that
      `str()` writes (at most `MaxStrDigits` digits). */
  lemma CoerceRoundTrip(n: int)
    requires |ToDigits(if n < 0 then -n else n, 10)| <= MaxStrDigits
    ensures Coerce(Str((if n < 0 then "-" else "") + ToDigits(if n < 0 then -n else n, 10))) == Int(n)
  {
    var m: nat := if n < 0 then -n else n;
    ToDigitsAreDigits(m, 10);
    ToDigitsRoundTrip(m, 10);
    CoerceDecimal((if n < 0 then "-" else "") + ToDigits(m, 10), ToDigits(m, 10), n < 0);
  }

  /** A decimal digit string longer than `MaxStrDigits` is refused by `int()`
      and taken by the float branch. */
  lemma CoerceLongDecimal(s: string)
    requires AllDigits(s, 10) && |s| > MaxStrDigits
    ensures Coerce(Str(s)) == Float(s)
  {
    NotBoolWord(s, s, false);
    LongDigitsNoInt(s);
    assert IsFloatText(s) by {
      SignedDigitsStrip(s, s, 10, false);
      DigitsAreDecimalFloat(s);
    }
  }

  /** A string with no decimal digit that is neither a boolean word nor one of
      `float()`'s special words ("on", "off", "Connected") stays a string. */
  lemma CoerceKeepsText(s: string)
    requires forall c :: c in s ==> !IsDigitOf(c, 10)
    requires !IsBoolWord(s) && !IsFloatWord(s)
    ensures Coerce(Str(s)) == Str(s)
  {
    NoDigitNoNumber(s);
  }

  /** `None` and every value that is not a string pass through unchanged. */
  lemma CoerceNonString(value: Node)
    requires !value.Str?
    ensures Coerce(value) == value
  {
  }

  /** Coercing an already coerced value changes nothing more. */
  lemma CoerceIdempotent(value: Node)
    ensures Coerce(Coerce(value)) == Coerce(value)
  {
  }

  /** Examples of the cascade: "42" is an integer, "3.14" a float, "on" a string. */
  lemma CoerceExamples()
    ensures Coerce(Str("42")) == Int(42)
    ensures Coerce(Str("3.14")) == Float("3.14")
    ensures Coerce(Str("on")) == Str("on")
  {
    CoerceFortyTwo();
    CoerceFloatText();
    CoerceOn();
  }

  lemma CoerceFortyTwo()
    ensures Coerce(Str("42")) == Int(42)
  {
    assert Num("42", 10) == 42 by {
      assert "42"[..1] == "4";
      assert "4"[..0] == "";
    }
    assert DecimalText("42", "42", false);
    CoerceDecimal("42", "42", false);
  }

  lemma CoerceFloatText()
    ensures Coerce(Str("3.14")) == Float("3.14")
  {
    assert !IsBoolWord("3.14") by {
      assert Lower("3.14")[0] == '3';
    }
    PiNotInt();
    PiIsFloat();
  }

  lemma PiNotInt()
    ensures ParseInt("3.14", 10).None?
  {
    StripOfNoSpace("3.14");
    assert !IsDigitOf("3.14"[1], 10);
  }

  lemma PiIsFloat()
    ensures IsFloatText("3.14")
  {
    StripOfNoSpace("3.14");
    assert GroupEnd("3.14", 0) == 1;
    assert GroupEnd("3.14", 2) == 4;
  }

  lemma CoerceOn()
    ensures Coerce(Str("on")) == Str("on")
  {
    assert |Lower("on")| == 2;
    StripOfNoSpace("on");
    CoerceKeepsText("on");
  }

  // ---------------------------------------------------------------------------
  // EagleDevice.parse_last_contact

  /** `parse_last_contact`: `None` stays `None`, an instant already parsed is
      kept, anything else goes through `parse_hex_timestamp`. */
  function ParseLastContact(value: Node): Option<int> {
    match value
    case Null => None
    case Time(t) => Some(t)
    case _ => ParseHexTimestamp(value)
  }

  /** Apart from keeping an already parsed instant, the validator is exactly
      `parse_hex_timestamp`: it never fails, a malformed value gives `None`. */
  lemma ParseLastContactIsHexTimestamp(value: Node)
    ensures value.Time? ==> ParseLastContact(value) == Some(value.epoch)
    ensures !value.Time? ==> ParseLastContact(value) == ParseHexTimestamp(value)
  {
  }

  /** The hexadecimal epoch seconds the hub sends read back as those seconds. */
  lemma ParseLastContactRoundTrip(seconds: nat)
    ensures ParseLastContact(Str(ToDigits(seconds, 16))) == Some(seconds as int)
  {
    ParseHexTimestampRoundTrip(seconds);
  }

  // ---------------------------------------------------------------------------
  // Record validation

  function RequiredStr(m: map<string, Node>, key: string): (r: Result<string, Error>)
    ensures r.Success? <==> key in m && m[key].Str?
    ensures r.Success? ==> Str(r.value) == m[key]
    ensures r.Failure? ==> r.error == Invalid(key)
  {
    if key in m && m[key].Str? then Success(m[key].s) else Failure(Invalid(key))
  }

  /** A `str | None = None` field: missing or `None` is `None`. */
  function OptionalStr(m: map<string, Node>, key: string): (r: Result<Option<string>, Error>)
    ensures r.Success? <==> key !in m || m[key].Null? || m[key].Str?
    ensures r == Success(None) <==> key !in m || m[key].Null?
    ensures r.Success? && r.value.Some? ==> Str(r.value.value) == m[key]
    ensures r.Failure? ==> r.error == Invalid(key)
  {
    if key !in m || m[key].Null? then Success(None)
    else if m[key].Str? then Success(Some(m[key].s))
    else Failure(Invalid(key))
  }

  /** Validates every element with `parse`; fails when any element fails. */
  function ParseEach<T>(xs: seq<Node>, parse: Node -> Result<T, Error>): (r: Result<seq<T>, Error>)
    ensures r.Success? <==> forall i :: 0 <= i < |xs| ==> parse(xs[i]).Success?
    ensures r.Success? ==> |r.value| == |xs| && forall i :: 0 <= i < |xs| ==> parse(xs[i]) == Success(r.value[i])
  {
    if xs == [] then Success([])
    else
      match parse(xs[0])
      case Failure(e) => Failure(e)
      case Success(first) =>
        match ParseEach(xs[1..], parse)
        case Failure(e) => Failure(e)
        case Success(rest) =>
          assert forall i :: 1 <= i < |xs| ==> xs[i] == xs[1..][i - 1];
          Success([first] + rest)
  }

  function ParseValue(value: Node): Result<Value, Error> {
    match value
    case Null => Success(NoValue)
    case Bool(b) => Success(BoolValue(b))
    case Int(i) => Success(IntValue(i))
    case Float(t) => Success(FloatValue(t))
    case Str(s) => Success(StrValue(s))
    case _ => Failure(Invalid("Value"))
  }

  /** `Variable.model_validate`: the value is coerced first, then the fields
      are checked. The coercion calls `.get` on its input, so anything but a
      mapping raises AttributeError, which validation lets through. */
  function ParseVariable(data: Node): Result<Variable, Error> {
    if !data.Dict? then Failure(NoAttribute("get"))
    else
      var m := data.fields["Value" := Coerce(Get(data.fields, "Value", Null))];
      var name :- RequiredStr(m, "Name");
      var value :- ParseValue(m["Value"]);
      var description :- OptionalStr(m, "Description");
      var units :- OptionalStr(m, "Units");
      Success(Variable(name, value, description, units))
  }

  /** An element of `Variables`, typed `Variable | str`. The `Variable`
      alternative is tried first, and its before-validator raises
      AttributeError on a string before the `str` alternative is reached, so
      only variables come out. */
  function ParseEntry(data: Node): Result<VariableEntry, Error> {
    var v :- ParseVariable(data);
    Success(Var(v))
  }

  /** `Component.ensure_variables_list` */
  function EnsureVariablesList(value: Node): seq<Node> {
    if value.List? then value.items else EnsureList(value, "Variable")
  }

  /** The list test in front of `get_ensure_list` changes nothing: the
      validator is `get_ensure_list(value, "Variable")` for every input. */
  lemma EnsureVariablesListIsEnsureList(value: Node)
    ensures EnsureVariablesList(value) == EnsureList(value, "Variable")
  {
  }

  /** `Component.model_validate`, after `Component.unwrap_outer_dict`, whose
      `.get` raises AttributeError on anything but a mapping. */
  function ParseComponent(data: Node): Result<Component, Error> {
    var d := UnwrapOuterDict(data, "Component");
    if !data.Dict? then Failure(NoAttribute("get"))
    else if !d.Dict? then Failure(Invalid("Component"))
    else
      var name :- RequiredStr(d.fields, "Name");
      var fixedId :- RequiredStr(d.fields, "FixedId");
      if "Variables" !in d.fields then Failure(Invalid("Variables"))
      else
        var entries :- ParseEach(EnsureVariablesList(d.fields["Variables"]), ParseEntry);
        Success(Component(name, fixedId, entries))
  }

  /** `ensure_components_list`, the validator of `Components` in
      `DeviceDetailsResponse`, `DeviceQueryResponse` and `DeviceResponse`. */
  function EnsureComponentsList(value: Node): (r: seq<Node>)
    ensures value.List? ==> r == value.items
  {
    if value.List? then value.items
    else
      var inner := if HasKey(value, "Component") then value.fields["Component"] else value;
      if inner.List? then inner.items else [inner]
  }

  /** The validator is `get_ensure_list(value, "Component")` except on `None`,
      which it turns into `[None]` where `get_ensure_list` gives `[]`. */
  lemma EnsureComponentsListIsEnsureList(value: Node)
    ensures value.Null? ==> EnsureComponentsList(value) == [Null]
    ensures !value.Null? ==> EnsureComponentsList(value) == EnsureList(value, "Component")
  {
  }

  /** `EagleDevice.model_validate`, after `EagleDevice.unwrap_outer_dict`,
      whose `.get` raises AttributeError on anything but a mapping. */
  function ParseDevice(data: Node): Result<EagleDevice, Error> {
    var d := UnwrapOuterDict(data, "Device");
    if !data.Dict? then Failure(NoAttribute("get"))
    else if !d.Dict? then Failure(Invalid("Device"))
    else
      var m := d.fields;
      var name :- RequiredStr(m, "Name");
      var address :- RequiredStr(m, "HardwareAddress");
      var manufacturer :- RequiredStr(m, "Manufacturer");
      var modelId :- RequiredStr(m, "ModelId");
      var protocol :- RequiredStr(m, "Protocol");
      var status :- OptionalStr(m, "ConnectionStatus");
      var network :- OptionalStr(m, "NetworkAddress");
      var lastContact := if "LastContact" in m then ParseLastContact(m["LastContact"]) else None;
      Success(EagleDevice(name, address, manufacturer, modelId, protocol, lastContact, status, network))
  }

  /** `DeviceQueryResponse.model_validate` (and `DeviceDetailsResponse`'s). */
  function ParseQueryResponse(data: Node): Result<QueryResponse, Error> {
    if !data.Dict? then Failure(Invalid("DeviceQueryResponse"))
    else if "DeviceDetails" !in data.fields then Failure(Invalid("DeviceDetails"))
    else if "Components" !in data.fields then Failure(Invalid("Components"))
    else
      var details :- ParseDevice(data.fields["DeviceDetails"]);
      var components :- ParseEach(EnsureComponentsList(data.fields["Components"]), ParseComponent);
      Success(QueryResponse(details, components))
  }

  /** `DeviceResponse.model_validate`: a device whose `Components` may be
      missing, looked up after the device's own unwrapping. */
  function ParseDeviceResponse(data: Node): Result<DeviceResponse, Error> {
    var device :- ParseDevice(data);
    var d := UnwrapOuterDict(data, "Device");
    if "Components" !in d.fields then Success(DeviceResponse(device, None))
    else
      var components :- ParseEach(EnsureComponentsList(d.fields["Components"]), ParseComponent);
      Success(DeviceResponse(device, Some(components)))
  }

  // ---------------------------------------------------------------------------
  // Unwrapping and round trips

  /** A device wrapped in one outer "Device" key parses as the bare device. */
  lemma ParseDeviceUnwraps(data: Node)
    requires !HasKey(data, "Device")
    ensures data.Dict? ==> ParseDevice(Dict(map["Device" := data])) == ParseDevice(data)
    ensures !data.Dict? ==> ParseDevice(Dict(map["Device" := data])) == Failure(Invalid("Device"))
    ensures !data.Dict? ==> ParseDevice(data) == Failure(NoAttribute("get"))
  {
  }

  /** A device response is the device itself plus its components: it
      parses only where the device does, and without a `Components` entry it
      carries none. */
  lemma ParseDeviceResponseIsDevice(data: Node)
    ensures ParseDeviceResponse(data).Success? ==>
      ParseDevice(data).Success? && ParseDeviceResponse(data).value.Device == ParseDevice(data).value
    ensures ParseDevice(data).Success? && !HasKey(UnwrapOuterDict(data, "Device"), "Components") ==>
      ParseDeviceResponse(data) == Success(DeviceResponse(ParseDevice(data).value, None))
  {
  }

  /** A component wrapped in one outer "Component" key parses as the bare one. */
  lemma ParseComponentUnwraps(data: Node)
    requires !HasKey(data, "Component")
    ensures data.Dict? ==> ParseComponent(Dict(map["Component" := data])) == ParseComponent(data)
    ensures !data.Dict? ==> ParseComponent(Dict(map["Component" := data])) == Failure(Invalid("Component"))
    ensures !data.Dict? ==> ParseComponent(data) == Failure(NoAttribute("get"))
  {
  }

  /** A plain string in `Variables` is never taken as a label: it raises
      AttributeError in `Variable`'s before-validator. */
  lemma ParseEntryOfText(text: string)
    ensures ParseEntry(Str(text)) == Failure(NoAttribute("get"))
  {
  }

  /** How the XML decoder presents a device whose last contact is a
      non-negative number of epoch seconds, sent in hexadecimal. */
  function DeviceTree(d: EagleDevice): map<string, Node>
    requires d.LastContact.Some? ==> d.LastContact.value >= 0
  {
    var base := map[
      "Name" := Str(d.Name),
      "HardwareAddress" := Str(d.HardwareAddress),
      "Manufacturer" := Str(d.Manufacturer),
      "ModelId" := Str(d.ModelId),
      "Protocol" := Str(d.Protocol),
      "ConnectionStatus" := if d.ConnectionStatus.Some? then Str(d.ConnectionStatus.value) else Null,
      "NetworkAddress" := if d.NetworkAddress.Some? then Str(d.NetworkAddress.value) else Null];
    if d.LastContact.Some? then base["LastContact" := Str(ToDigits(d.LastContact.value, 16))] else base
  }

  /** Every device the hub can describe is read back exactly from its tree. */
  lemma ParseDeviceRoundTrip(d: EagleDevice)
    requires d.LastContact.Some? ==> d.LastContact.value >= 0
    ensures ParseDevice(Dict(DeviceTree(d))) == Success(d)
  {
    var m := DeviceTree(d);
    DeviceTreeFields(d);
    assert (if "LastContact" in m then ParseLastContact(m["LastContact"]) else None) == d.LastContact by {
      if d.LastContact.Some? {
        ParseLastContactRoundTrip(d.LastContact.value);
      } else {
        assert "LastContact" !in m;
      }
    }
  }

  lemma DeviceTreeFields(d: EagleDevice)
    requires d.LastContact.Some? ==> d.LastContact.value >= 0
    ensures var m := DeviceTree(d);
      && "Device" !in m
      && RequiredStr(m, "Name") == Success(d.Name)
      && RequiredStr(m, "HardwareAddress") == Success(d.HardwareAddress)
      && RequiredStr(m, "Manufacturer") == Success(d.Manufacturer)
      && RequiredStr(m, "ModelId") == Success(d.ModelId)
      && RequiredStr(m, "Protocol") == Success(d.Protocol)
      && OptionalStr(m, "ConnectionStatus") == Success(d.ConnectionStatus)
      && OptionalStr(m, "NetworkAddress") == Success(d.NetworkAddress)
  {
  }

  /** Validating each of `xs` gives `ys`: the whole list validates as `ys`. */
  lemma ParseEachAll<T>(xs: seq<Node>, parse: Node -> Result<T, Error>, ys: seq<T>)
    requires |xs| == |ys|
    requires forall i :: 0 <= i < |xs| ==> parse(xs[i]) == Success(ys[i])
    ensures ParseEach(xs, parse) == Success(ys)
  {
    var r := ParseEach(xs, parse);
    assert r.Success?;
    assert |r.value| == |ys|;
    forall i | 0 <= i < |xs| ensures r.value[i] == ys[i] {
      assert parse(xs[i]) == Success(r.value[i]);
    }
    assert r.value == ys;
  }

  // ---------------------------------------------------------------------------
  // Components and query replies as the XML decoder presents them

  /** The values whose text reads back as themselves: every value but False
      (the text "false" reads as True), an integer too long for `str()`, and
      a string or float text the cascade takes for something else. */
  predicate Readable(v: Value) {
    match v
    case NoValue => true
    case BoolValue(b) => b
    case IntValue(i) => |ToDigits(if i < 0 then -i else i, 10)| <= MaxStrDigits
    case FloatValue(t) => !IsBoolWord(t) && ParseInt(t, 10).None? && IsFloatText(t)
    case StrValue(s) => !IsBoolWord(s) && ParseInt(s, 10).None? && !IsFloatText(s)
  }

  /** `str(n)` */
  function IntText(n: int): string {
    (if n < 0 then "-" else "") + ToDigits(if n < 0 then -n else n, 10)
  }

  /** The text of a `Value` element; an empty element for no value. */
  function ValueTree(v: Value): Node {
    match v
    case NoValue => Null
    case BoolValue(b) => Str(if b then "true" else "false")
    case IntValue(i) => Str(IntText(i))
    case FloatValue(t) => Str(t)
    case StrValue(s) => Str(s)
  }

  function OptionalTree(o: Option<string>): Node {
    if o.Some? then Str(o.value) else Null
  }

  function VariableTree(v: Variable): map<string, Node> {
    map["Name" := Str(v.Name), "Value" := ValueTree(v.Value),
        "Description" := OptionalTree(v.Description), "Units" := OptionalTree(v.Units)]
  }

  /** A `Variable` element: its children, or its text for a label. */
  function EntryTree(e: VariableEntry): Node {
    match e
    case Var(v) => Dict(VariableTree(v))
    case Label(text) => Str(text)
  }

  /** An entry that reads back: a variable whose value does (a label never
      does). */
  predicate EntryReadable(e: VariableEntry) {
    e.Var? && Readable(e.variable.Value)
  }

  function EntryTrees(es: seq<VariableEntry>): (r: seq<Node>)
    ensures |r| == |es| && forall i :: 0 <= i < |es| ==> r[i] == EntryTree(es[i])
  {
    seq(|es|, i requires 0 <= i < |es| => EntryTree(es[i]))
  }

  /** A `Component` element, its variables as repeated `Variable` children. */
  function ComponentTree(c: Component): map<string, Node> {
    map["Name" := Str(c.Name), "FixedId" := Str(c.FixedId),
        "Variables" := XmlChildren("Variable", EntryTrees(c.Variables))]
  }

  predicate ComponentReadable(c: Component) {
    forall i :: 0 <= i < |c.Variables| ==> EntryReadable(c.Variables[i])
  }

  function ComponentTrees(cs: seq<Component>): (r: seq<Node>)
    ensures |r| == |cs| && forall i :: 0 <= i < |cs| ==> r[i] == Dict(ComponentTree(cs[i]))
  {
    seq(|cs|, i requires 0 <= i < |cs| => Dict(ComponentTree(cs[i])))
  }

  /** The body of a `device_query` reply inside its `Device` element: the
      details and the components as repeated `Component` children. */
  function QueryTree(d: EagleDevice, cs: seq<Component>): map<string, Node>
    requires d.LastContact.Some? ==> d.LastContact.value >= 0
  {
    map["DeviceDetails" := Dict(DeviceTree(d)), "Components" := XmlChildren("Component", ComponentTrees(cs))]
  }

  /** The text of a readable value goes through the cascade back to it. */
  lemma ValueRoundTrip(v: Value)
    requires Readable(v)
    ensures ParseValue(Coerce(ValueTree(v))) == Success(v)
  {
    match v
    case NoValue =>
    case BoolValue(b) =>
      CoerceTrue();
    case IntValue(i) =>
      CoerceIntText(i);
    case FloatValue(t) =>
      FloatValueText(t);
    case StrValue(s) =>
      StrValueText(s);
  }

  lemma FloatValueText(t: string)
    requires Readable(FloatValue(t))
    ensures ParseValue(Coerce(ValueTree(FloatValue(t)))) == Success(FloatValue(t))
  {
    assert Coerce(Str(t)) == Float(t) by { CoerceText(t); }
  }

  lemma StrValueText(s: string)
    requires Readable(StrValue(s))
    ensures ParseValue(Coerce(ValueTree(StrValue(s)))) == Success(StrValue(s))
  {
    assert Coerce(Str(s)) == Str(s) by { CoerceText(s); }
  }

  lemma CoerceIntText(n: int)
    requires |ToDigits(if n < 0 then -n else n, 10)| <= MaxStrDigits
    ensures ParseValue(Coerce(ValueTree(IntValue(n)))) == Success(IntValue(n))
  {
    CoerceRoundTrip(n);
  }

  /** A text that is neither a boolean word nor an integer is a float exactly
      when `float()` reads it, and otherwise stays a string. */
  lemma CoerceText(s: string)
    requires !IsBoolWord(s) && ParseInt(s, 10).None?
    ensures Coerce(Str(s)) == if IsFloatText(s) then Float(s) else Str(s)
  {
  }

  lemma CoerceTrue()
    ensures Coerce(Str("true")) == Bool(true)
  {
    assert Lower("true") == "true" by {
      assert |Lower("true")| == 4;
    }
    CoerceBoolWord("true");
  }

  /** A variable with a readable value is read back exactly. */
  lemma ParseVariableRoundTrip(v: Variable)
    requires Readable(v.Value)
    ensures ParseVariable(Dict(VariableTree(v))) == Success(v)
  {
    var data := VariableTree(v);
    var m := data["Value" := Coerce(Get(data, "Value", Null))];
    assert RequiredStr(m, "Name") == Success(v.Name);
    ValueRoundTrip(v.Value);
    assert ParseValue(m["Value"]) == Success(v.Value);
    assert OptionalStr(m, "Description") == Success(v.Description);
    assert OptionalStr(m, "Units") == Success(v.Units);
  }

  /** A component whose variables all have readable values is read back
      exactly, with its variables and labels in order, however many. */
  lemma ParseComponentRoundTrip(c: Component)
    requires ComponentReadable(c)
    ensures ParseComponent(Dict(ComponentTree(c))) == Success(c)
  {
    var m := ComponentTree(c);
    var trees := EntryTrees(c.Variables);
    EnsureListOfXmlChildren("Variable", trees);
    assert EnsureVariablesList(m["Variables"]) == trees;
    forall i | 0 <= i < |trees| ensures ParseEntry(trees[i]) == Success(c.Variables[i]) {
      ParseVariableRoundTrip(c.Variables[i].variable);
    }
    ParseEachAll(trees, ParseEntry, c.Variables);
    assert RequiredStr(m, "Name") == Success(c.Name);
    assert RequiredStr(m, "FixedId") == Success(c.FixedId);
  }

  /** A query reply with one or more components, as decoded, validates as
      exactly its device details and those components, in order. */
  lemma ParseQueryResponseRoundTrip(d: EagleDevice, cs: seq<Component>)
    requires d.LastContact.Some? ==> d.LastContact.value >= 0
    requires cs != [] && forall i :: 0 <= i < |cs| ==> ComponentReadable(cs[i])
    ensures ParseQueryResponse(Dict(QueryTree(d, cs))) == Success(QueryResponse(d, cs))
  {
    var trees := ComponentTrees(cs);
    EnsureListOfXmlChildren("Component", trees);
    assert EnsureComponentsList(XmlChildren("Component", trees)) == trees;
    forall i | 0 <= i < |trees| ensures ParseComponent(trees[i]) == Success(cs[i]) {
      ParseComponentRoundTrip(cs[i]);
    }
    ParseEachAll(trees, ParseComponent, cs);
    ParseDeviceRoundTrip(d);
  }

  /** An empty `Components` element decodes to `None`, which
      `ensure_components_list` turns into `[None]`; validating that entry as a
      component calls `.get` on `None`, which raises AttributeError. */
  lemma ParseQueryResponseOfNoComponents(d: EagleDevice)
    requires d.LastContact.Some? ==> d.LastContact.value >= 0
    ensures ParseQueryResponse(Dict(QueryTree(d, []))) == Failure(NoAttribute("get"))
  {
    ParseDeviceRoundTrip(d);
    assert EnsureComponentsList(Null) == [Null];
  }
}
