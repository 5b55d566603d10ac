/** The three normalisation helpers every validator of the client shares:
    making a "maybe one, maybe many" field a list, stripping an optional
    wrapper key, and reading a hexadecimal epoch timestamp. */
module Util {
  import opened Wrappers
  import opened Tree
  import opened Text

  /** `get_ensure_list(value, key)`: `None` is the empty list; a mapping that
      holds `key` is replaced by its entry; a list is kept and anything else
      becomes a one-element list. */
  function EnsureList(value: Node, key: string): seq<Node> {
    if value.Null? then []
    else
      var inner := if HasKey(value, key) then value.fields[key] else value;
      if inner.List? then inner.items else [inner]
  }

  /** `unwrap_outer_dict(value, key)`: the entry under `key` of a mapping that
      has one, the input itself otherwise. */
  function UnwrapOuterDict(value: Node, key: string): Node {
    if value.Dict? then Get(value.fields, key, value) else value
  }

  /** `parse_hex_timestamp(value)` as epoch seconds: `int(value, 16)` of a
      string; `None` where that raises ValueError or, for a non-string, TypeError. */
  function ParseHexTimestamp(value: Node): Option<int> {
    if value.Str? then ParseInt(value.s, 16) else None
  }

  // ---------------------------------------------------------------------------
  // get_ensure_list

  /** `None` normalises to the empty list. */
  lemma EnsureListOfNull(key: string)
    ensures EnsureList(Null, key) == []
  {
  }

  /** A mapping holding `key` yields exactly the list under `key`, or a
      singleton of the single value there. */
  lemma EnsureListKeyed(fields: map<string, Node>, key: string)
    requires key in fields
    ensures fields[key].List? ==> EnsureList(Dict(fields), key) == fields[key].items
    ensures !fields[key].List? ==> EnsureList(Dict(fields), key) == [fields[key]]
  {
  }

  /** Anything that is neither `None`, nor a list, nor a mapping holding `key`
      (a mapping without `key` included) becomes a one-element list. */
  lemma EnsureListSingleton(value: Node, key: string)
    requires !value.Null? && !value.List? && !HasKey(value, key)
    ensures EnsureList(value, key) == [value]
  {
  }

  /** A list comes back unchanged, and the result is always such a list:
      normalising twice is normalising once. */
  lemma EnsureListIdempotent(value: Node, key: string)
    ensures forall xs: seq<Node> :: EnsureList(List(xs), key) == xs
    ensures EnsureList(List(EnsureList(value, key)), key) == EnsureList(value, key)
  {
  }

  /** The round trip with the XML decoder: whatever number of `key` children
      an element has (none, one, several), normalising the decoded element
      gives them back, in order. Decoded children are never lists themselves. */
  lemma EnsureListOfXmlChildren(key: string, xs: seq<Node>)
    requires forall i :: 0 <= i < |xs| ==> !xs[i].List?
    ensures EnsureList(XmlChildren(key, xs), key) == xs
  {
    if |xs| == 1 {
      assert xs == [xs[0]];
    }
  }

  // ---------------------------------------------------------------------------
  // unwrap_outer_dict

  /** A wrapped value is unwrapped; anything without the wrapper key (a
      mapping without it, or no mapping at all) is returned unchanged. */
  lemma UnwrapOuterDictCases(value: Node, key: string)
    ensures HasKey(value, key) ==> UnwrapOuterDict(value, key) == value.fields[key]
    ensures !HasKey(value, key) ==> UnwrapOuterDict(value, key) == value
  {
  }

  /** Wrapping under `key` and unwrapping gives the value back. */
  lemma UnwrapWrapped(value: Node, key: string)
    ensures UnwrapOuterDict(Dict(map[key := value]), key) == value
  {
  }

  // ---------------------------------------------------------------------------
  // parse_hex_timestamp

  /** A string of hexadecimal digits is the instant whose epoch seconds are
      its base-16 value. */
  lemma ParseHexTimestampOfDigits(s: string)
    requires s != [] && AllDigits(s, 16)
    ensures ParseHexTimestamp(Str(s)) == Some(Num(s, 16) as int)
  {
    ParseDigits(s, s, 16, false);
  }

  /** Formatting epoch seconds in hexadecimal and parsing them back is the
      identity. */
  lemma ParseHexTimestampRoundTrip(seconds: nat)
    ensures ParseHexTimestamp(Str(ToDigits(seconds, 16))) == Some(seconds as int)
  {
    ToDigitsAreDigits(seconds, 16);
    ToDigitsRoundTrip(seconds, 16);
    ParseHexTimestampOfDigits(ToDigits(seconds, 16));
  }

  /** The `0x` or `0X` form `int(s, 16)` also accepts reads back the same. */
  lemma ParseHexTimestampPrefixed(seconds: nat)
    ensures ParseHexTimestamp(Str("0x" + ToDigits(seconds, 16))) == Some(seconds as int)
    ensures ParseHexTimestamp(Str("0X" + ToDigits(seconds, 16))) == Some(seconds as int)
  {
    ToDigitsAreDigits(seconds, 16);
    ToDigitsRoundTrip(seconds, 16);
    PrefixedDigits("0x" + ToDigits(seconds, 16), ToDigits(seconds, 16));
    PrefixedDigits("0X" + ToDigits(seconds, 16), ToDigits(seconds, 16));
  }

  lemma PrefixedDigits(full: string, ds: string)
    requires ds != [] && AllDigits(ds, 16)
    requires |full| == |ds| + 2 && full[0] == '0' && (full[1] == 'x' || full[1] == 'X') && full[2..] == ds
    ensures ParseHexTimestamp(Str(full)) == Some(Num(ds, 16) as int)
  {
    forall i | 0 <= i < |full| ensures !IsSpace(full[i]) {
      if i >= 2 {
        assert full[i] == ds[i - 2];
      }
    }
    StripOfNoSpace(full);
    assert Unsigned(full) == full;
    assert full[2] == ds[0];
    assert DropHexPrefix(full) == ds;
    PlainMagnitude(ds, 16);
  }

  /** A value that is not a string gives `None` (Python raises TypeError,
      which is caught). */
  lemma ParseHexTimestampOfNonString(value: Node)
    requires !value.Str?
    ensures ParseHexTimestamp(value) == None
  {
  }

  /** A string holding a character `int(s, 16)` cannot skip (no hexadecimal
      digit, white space, sign, `x`/`X` of the prefix or underscore) gives
      `None`: Python raises ValueError, which is caught. */
  lemma ParseHexTimestampOfNonHex(s: string)
    requires exists i :: 0 <= i < |s| && !IsDigitOf(s[i], 16) && !IsSpace(s[i]) && s[i] !in "+-_xX"
    ensures ParseHexTimestamp(Str(s)) == None
  {
    var i :| 0 <= i < |s| && !IsDigitOf(s[i], 16) && !IsSpace(s[i]) && s[i] !in "+-_xX";
    assert s[i] != '0';
    HexBodyKeeps(s, s[i]);
  }

  /** Malformed timestamps: "not-hex", a stray letter after digits, and a
      prefix with no digit after it. */
  lemma ParseHexTimestampExamples()
    ensures ParseHexTimestamp(Str("not-hex")) == None
    ensures ParseHexTimestamp(Str("12g")) == None
    ensures ParseHexTimestamp(Str("0xzz")) == None
  {
    assert "not-hex"[0] == 'n';
    ParseHexTimestampOfNonHex("not-hex");
    assert "12g"[2] == 'g';
    ParseHexTimestampOfNonHex("12g");
    assert "0xzz"[2] == 'z';
    ParseHexTimestampOfNonHex("0xzz");
  }
}
