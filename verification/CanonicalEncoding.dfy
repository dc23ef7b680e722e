/** The tagged JSON form of OTLP attribute values, hexadecimal text, and the length-prefixed framing of identity hashes:
    none of them loses anything. */
module CanonicalEncoding {
  import opened Wrappers

  type Byte = b: nat | b < 256

  // ---------------------------------------------------------------- digits

  const HEX_DIGITS: string := "0123456789abcdef"

  function Digit(value: nat): char
    requires value < 16
  {
    HEX_DIGITS[value]
  }

  function DigitValue(digit: char): Option<nat> {
    if '0' <= digit <= '9' then Some((digit - '0') as nat)
    else if 'a' <= digit <= 'f' then Some(10 + (digit - 'a') as nat)
    else None
  }

  lemma DigitReadsBack(value: nat)
    requires value < 16
    ensures DigitValue(Digit(value)) == Some(value)
  {
  }

  datatype Radix = Ten | Sixteen {
    function Base(): nat {
      match this case Ten => 10 case Sixteen => 16
    }
  }

  function Quotient(value: nat, radix: Radix): (quotient: nat)
    ensures value >= radix.Base() ==> quotient < value
  {
    match radix case Ten => value / 10 case Sixteen => value / 16
  }

  function Remainder(value: nat, radix: Radix): (remainder: nat)
    ensures remainder < radix.Base()
  {
    match radix case Ten => value % 10 case Sixteen => value % 16
  }

  /** The digits of a number, most significant first, padded with zeros to a width of at least one. */
  function Digits(value: nat, radix: Radix, width: nat): (digits: string)
    ensures digits != "" && |digits| >= width
    decreases value, width
  {
    if value < radix.Base() && width <= 1 then [Digit(value)]
    else
      Digits(Quotient(value, radix), radix, if width <= 1 then 1 else width - 1) + [Digit(Remainder(value, radix))]
  }

  function Value(digits: string, radix: Radix): Option<nat> {
    if digits == "" then Some(0)
    else
      var last := |digits| - 1;
      match (Value(digits[..last], radix), DigitValue(digits[last]))
      case (Some(high), Some(low)) => if low < radix.Base() then Some(high * radix.Base() + low) else None
      case _ => None
  }

  lemma QuotientAndRemainder(value: nat, radix: Radix)
    ensures Quotient(value, radix) * radix.Base() + Remainder(value, radix) == value
    ensures radix.Base() <= 16
  {
  }

  lemma ValueOfLonger(high: string, digit: nat, radix: Radix)
    requires digit < radix.Base() <= 16
    ensures Value(high + [Digit(digit)], radix)
         == (match Value(high, radix) case None => None case Some(value) => Some(value * radix.Base() + digit))
  {
    hide Digit, DigitValue;
    DigitReadsBack(digit);
    assert (high + [Digit(digit)])[..|high|] == high;
  }

  lemma {:induction false} DigitsReadBack(value: nat, radix: Radix, width: nat)
    ensures Value(Digits(value, radix, width), radix) == Some(value)
    decreases value, width
  {
    hide Quotient, Remainder, Radix.Base, Digit, DigitValue, Value, Digits;
    QuotientAndRemainder(value, radix);
    var rest := if width <= 1 then 1 else width - 1;
    LastDigit(value, radix, width);
    if value < radix.Base() && width <= 1 {
      ValueOfLonger("", value, radix);
      ValueOfNothing(radix);
    } else {
      DigitsReadBack(Quotient(value, radix), radix, rest);
      ValueOfLonger(Digits(Quotient(value, radix), radix, rest), Remainder(value, radix), radix);
    }
  }

  lemma LastDigit(value: nat, radix: Radix, width: nat)
    ensures radix.Base() <= 16
    ensures Digits(value, radix, width)
         == (if value < radix.Base() && width <= 1 then "" + [Digit(value)]
             else Digits(Quotient(value, radix), radix, if width <= 1 then 1 else width - 1)
                  + [Digit(Remainder(value, radix))])
  {
    hide Quotient, Remainder, Digit;
  }

  lemma ValueOfNothing(radix: Radix)
    ensures Value("", radix) == Some(0)
  {
  }

  function Power(base: nat, exponent: nat): nat {
    if exponent == 0 then 1 else base * Power(base, exponent - 1)
  }

  /** A number that fits the width takes exactly that many digits. */
  lemma {:induction false} DigitsFillWidth(value: nat, radix: Radix, width: nat)
    requires width > 0 && value < Power(radix.Base(), width)
    ensures |Digits(value, radix, width)| == width
    decreases width
  {
    if width == 1 {
      assert Power(radix.Base(), 1) == radix.Base() * Power(radix.Base(), 0) == radix.Base();
    } else {
      QuotientFits(value, radix, Power(radix.Base(), width - 1));
      DigitsFillWidth(Quotient(value, radix), radix, width - 1);
    }
  }

  lemma QuotientFits(value: nat, radix: Radix, bound: nat)
    requires value < radix.Base() * bound
    ensures Quotient(value, radix) < bound
  {
  }

  lemma {:induction false} DigitsAreDigits(value: nat, radix: Radix, width: nat)
    ensures forall digit <- Digits(value, radix, width) :: digit in HEX_DIGITS
    decreases value, width
  {
    if value >= radix.Base() || width > 1 {
      DigitsAreDigits(Quotient(value, radix), radix, if width <= 1 then 1 else width - 1);
    }
  }

  function Hex(bytes: seq<Byte>): (text: string)
    ensures |text| == 2 * |bytes|
  {
    if bytes == [] then ""
    else
      var last := |bytes| - 1;
      Hex(bytes[..last]) + [Digit(bytes[last] / 16), Digit(bytes[last] % 16)]
  }

  method EncodeHex(bytes: seq<Byte>) returns (encoded: string)
    ensures encoded == Hex(bytes)
  {
    encoded := "";
    for i := 0 to |bytes|
      invariant encoded == Hex(bytes[..i])
    {
      assert bytes[..i + 1][..i] == bytes[..i];
      encoded := encoded + [Digit(bytes[i] / 16), Digit(bytes[i] % 16)];
    }
    assert bytes[..|bytes|] == bytes;
  }

  function Unhex(text: string): Option<seq<Byte>> {
    if text == "" then Some([])
    else if |text| == 1 then None
    else
      var last := |text| - 2;
      match (Unhex(text[..last]), DigitValue(text[last]), DigitValue(text[last + 1]))
      case (Some(bytes), Some(high), Some(low)) =>
        if high < 16 && low < 16 then Some(bytes + [high * 16 + low]) else None
      case _ => None
  }

  lemma {:induction false} HexReadsBack(bytes: seq<Byte>)
    ensures Unhex(Hex(bytes)) == Some(bytes)
  {
    hide Digit, DigitValue, Unhex;
    NothingUnhexed();
    if bytes != [] {
      var last := |bytes| - 1;
      HexReadsBack(bytes[..last]);
      UnhexOfLonger(Hex(bytes[..last]), bytes[last] / 16, bytes[last] % 16);
      assert bytes == bytes[..last] + [bytes[last]];
    }
  }

  lemma NothingUnhexed()
    ensures Unhex("") == Some([])
  {
  }

  lemma UnhexOfLonger(text: string, high: nat, low: nat)
    requires high < 16 && low < 16
    ensures Unhex(text + [Digit(high), Digit(low)])
         == (match Unhex(text) case None => None case Some(bytes) => Some(bytes + [high * 16 + low]))
  {
    hide Digit, DigitValue;
    DigitReadsBack(high);
    DigitReadsBack(low);
    assert (text + [Digit(high), Digit(low)])[..|text|] == text;
  }

  function Decimal(value: int): string {
    if value < 0 then "-" + Digits(-value, Ten, 1) else Digits(value, Ten, 1)
  }

  function Negated(value: Option<nat>): Option<int> {
    if value.None? then None
    else
      var number: int := value.value;
      Some(-number)
  }

  function ReadDecimal(text: string): Option<int> {
    if text != "" && text[0] == '-' then Negated(Value(text[1..], Ten)) else Value(text, Ten)
  }

  lemma DecimalReadsBack(value: int)
    ensures ReadDecimal(Decimal(value)) == Some(value)
  {
    var size := if value < 0 then -value else value;
    DigitsReadBack(size, Ten, 1);
    StartsWithDigit(size, Ten, 1);
    if value < 0 {
      assert Decimal(value)[1..] == Digits(size, Ten, 1);
    }
  }

  lemma {:induction false} StartsWithDigit(value: nat, radix: Radix, width: nat)
    ensures Digits(value, radix, width)[0] in HEX_DIGITS
    decreases value, width
  {
    if value >= radix.Base() || width > 1 {
      StartsWithDigit(Quotient(value, radix), radix, if width <= 1 then 1 else width - 1);
    }
  }

  // ---------------------------------------------------------------- attribute values

  /** A double is its bit pattern; an index refers into a string table. */
  datatype AnyValue =
    | Empty
    | String(text: string)
    | Bool(flag: bool)
    | Int(number: int)
    | Double(bits: nat)
    | Array(values: seq<AnyValue>)
    | KeyValueList(pairs: seq<KeyValue>)
    | Bytes(bytes: seq<Byte>)
    | StringIndex(index: int)

  datatype KeyValue = KeyValue(key: string, keyIndex: int, value: Option<AnyValue>)

  datatype Json =
    | Text(text: string)
    | Flag(flag: bool)
    | Whole(number: int)
    | Float(bits: nat)
    | List(items: seq<Json>)
    | Object(members: map<string, Json>)

  /** Neither infinite nor NaN: the exponent bits are not all set. */
  predicate IsFinite(bits: nat) {
    bits / 0x10_0000_0000_0000 % 0x800 != 0x7ff
  }

  function Tagged(tag: string): Json {
    Object(map["type" := Text(tag)])
  }

  function TaggedValue(tag: string, value: Json): Json {
    Object(map["type" := Text(tag), "value" := value])
  }

  function AnyValueJson(value: AnyValue): Json
    decreases value
  {
    match value
    case Empty => Tagged("empty")
    case String(text) => TaggedValue("string", Text(text))
    case Bool(flag) => TaggedValue("bool", Flag(flag))
    case Int(number) => TaggedValue("int64", Whole(number))
    case Double(bits) =>
      var encoded := map["bits" := Text(Digits(bits, Sixteen, 16)), "type" := Text("double")];
      Object(if IsFinite(bits) then encoded["value" := Float(bits)] else encoded)
    case Array(values) =>
      TaggedValue("array", List(ValuesJson(values)))
    case KeyValueList(pairs) =>
      TaggedValue("keyValueList", List(AttributesJson(pairs)))
    case Bytes(bytes) => TaggedValue("bytes", Text(Hex(bytes)))
    case StringIndex(index) => TaggedValue("stringTableIndex", Text(Decimal(index)))
  }

  function ValuesJson(values: seq<AnyValue>): (items: seq<Json>)
    ensures |items| == |values| && forall i :: 0 <= i < |values| ==> items[i] == AnyValueJson(values[i])
    decreases values
  {
    seq(|values|, i requires 0 <= i < |values| => AnyValueJson(values[i]))
  }

  function AttributesJson(pairs: seq<KeyValue>): (items: seq<Json>)
    ensures |items| == |pairs| && forall i :: 0 <= i < |pairs| ==> items[i] == KeyValueJson(pairs[i])
    decreases pairs
  {
    seq(|pairs|, i requires 0 <= i < |pairs| => KeyValueJson(pairs[i]))
  }

  function KeyValueJson(pair: KeyValue): Json
    decreases pair
  {
    Object(map[
      "key" := Text(pair.key),
      "keyStringTableIndex" := Whole(pair.keyIndex),
      "value" := match pair.value case None => Tagged("empty") case Some(value) => AnyValueJson(value)])
  }

  const SIGN := 0x8000_0000_0000_0000
  const EXPONENT := 0x10_0000_0000_0000

  /** A double, given by its sign, exponent and fraction bits, is encoded by its bit pattern in sixteen lower-case
      digits; its number is there too exactly if it has one, that is, unless all exponent bits are set. */
  lemma DoubleHasNumberExactlyIf(sign: nat, exponent: nat, fraction: nat)
    requires sign < 2 && exponent < 0x800 && fraction < EXPONENT
    ensures var bits := sign * SIGN + exponent * EXPONENT + fraction;
            var json := AnyValueJson(Double(bits));
            && json.Object? && json.members.Keys == {"type", "bits"} + (if exponent == 0x7ff then {} else {"value"})
            && (exponent != 0x7ff ==> json.members["value"] == Float(bits))
            && json.members["bits"].Text? && |json.members["bits"].text| == 16
            && (forall digit <- json.members["bits"].text :: digit in HEX_DIGITS)
  {
    var bits := sign * SIGN + exponent * EXPONENT + fraction;
    assert bits / EXPONENT == sign * 0x800 + exponent;
    assert IsFinite(bits) <==> exponent != 0x7ff;
    SixteenDigits();
    DigitsFillWidth(bits, Sixteen, 16);
    DigitsAreDigits(bits, Sixteen, 16);
  }

  lemma SixteenDigits()
    ensures Power(16, 16) == 2 * SIGN
  {
    assert Power(16, 4) == 0x1_0000;
    assert Power(16, 8) == 16 * (16 * (16 * (16 * Power(16, 4))));
    assert Power(16, 12) == 16 * (16 * (16 * (16 * Power(16, 8))));
    assert Power(16, 16) == 16 * (16 * (16 * (16 * Power(16, 12))));
  }

  // ---------------------------------------------------------------- reading them back

  function Member(json: Json, name: string): Option<Json> {
    if json.Object? && name in json.members then Some(json.members[name]) else None
  }

  function AllSome<T>(items: seq<Option<T>>): Option<seq<T>> {
    if forall i :: 0 <= i < |items| ==> items[i].Some?
    then Some(seq(|items|, i requires 0 <= i < |items| && items[i].Some? => items[i].value))
    else None
  }

  function ReadAnyValue(json: Json): Option<AnyValue>
    decreases json
  {
    match Member(json, "type")
    case Some(Text(tag)) =>
      if tag == "empty" then Some(Empty)
      else if tag == "double" then
        (match Member(json, "bits")
         case Some(Text(digits)) =>
           (match Value(digits, Sixteen) case Some(bits) => Some(Double(bits)) case None => None)
         case _ => None)
      else if "value" in json.members then ReadTagged(tag, json.members["value"])
      else None
    case _ => None
  }

  function ReadTagged(tag: string, json: Json): Option<AnyValue>
    decreases json
  {
    match json
    case Text(text) =>
      if tag == "string" then Some(String(text))
      else if tag == "bytes" then (match Unhex(text) case Some(bytes) => Some(Bytes(bytes)) case None => None)
      else if tag == "stringTableIndex" then
        (match ReadDecimal(text) case Some(index) => Some(StringIndex(index)) case None => None)
      else None
    case Flag(flag) => if tag == "bool" then Some(Bool(flag)) else None
    case Whole(number) => if tag == "int64" then Some(Int(number)) else None
    case List(items) =>
      if tag == "array" then
        (match AllSome(ReadValues(items))
         case Some(values) => Some(Array(values)) case None => None)
      else if tag == "keyValueList" then
        (match AllSome(ReadPairs(items))
         case Some(pairs) => Some(KeyValueList(pairs)) case None => None)
      else None
    case _ => None
  }

  function ReadValues(items: seq<Json>): (read: seq<Option<AnyValue>>)
    ensures |read| == |items| && forall i :: 0 <= i < |items| ==> read[i] == ReadAnyValue(items[i])
    decreases items
  {
    seq(|items|, i requires 0 <= i < |items| => ReadAnyValue(items[i]))
  }

  function ReadPairs(items: seq<Json>): (read: seq<Option<KeyValue>>)
    ensures |read| == |items| && forall i :: 0 <= i < |items| ==> read[i] == ReadKeyValue(items[i])
    decreases items
  {
    seq(|items|, i requires 0 <= i < |items| => ReadKeyValue(items[i]))
  }

  function ReadKeyValue(json: Json): Option<KeyValue>
    decreases json
  {
    if json.Object? && "value" in json.members then
      match (Member(json, "key"), Member(json, "keyStringTableIndex"), ReadAnyValue(json.members["value"]))
      case (Some(Text(key)), Some(Whole(index)), Some(value)) => Some(KeyValue(key, index, Some(value)))
      case _ => None
    else None
  }

  // ---------------------------------------------------------------- nothing is lost

  /** The one thing the form does not tell apart: a missing attribute value and an empty one. */
  function Normal(value: AnyValue): AnyValue
    decreases value
  {
    match value
    case Array(values) => Array(NormalValues(values))
    case KeyValueList(pairs) => KeyValueList(NormalPairs(pairs))
    case _ => value
  }

  function NormalValues(values: seq<AnyValue>): (normal: seq<AnyValue>)
    ensures |normal| == |values| && forall i :: 0 <= i < |values| ==> normal[i] == Normal(values[i])
    decreases values
  {
    seq(|values|, i requires 0 <= i < |values| => Normal(values[i]))
  }

  function NormalPairs(pairs: seq<KeyValue>): (normal: seq<KeyValue>)
    ensures |normal| == |pairs| && forall i :: 0 <= i < |pairs| ==> normal[i] == NormalPair(pairs[i])
    decreases pairs
  {
    seq(|pairs|, i requires 0 <= i < |pairs| => NormalPair(pairs[i]))
  }

  function NormalPair(pair: KeyValue): KeyValue
    decreases pair
  {
    pair.(value := match pair.value case None => Some(Empty) case Some(value) => Some(Normal(value)))
  }

  lemma {:induction false} AnyValueReadsBack(value: AnyValue)
    ensures ReadAnyValue(AnyValueJson(value)) == Some(Normal(value))
    decreases value
  {
    hide Digits, Value, Hex, Unhex, Decimal, ReadDecimal, IsFinite, ValuesJson, AttributesJson, ReadValues, ReadPairs;
    match value
    case Double(bits) => DigitsReadBack(bits, Sixteen, 16);
    case Bytes(bytes) => HexReadsBack(bytes);
    case StringIndex(index) => DecimalReadsBack(index);
    case Array(values) => ArrayReadsBack(value);
    case KeyValueList(pairs) => PairsReadBack(value);
    case _ =>
  }

  lemma AllSomeOf<T>(items: seq<Option<T>>, values: seq<T>)
    requires |items| == |values| && forall i :: 0 <= i < |items| ==> items[i] == Some(values[i])
    ensures AllSome(items) == Some(values)
  {
    assert AllSome(items).value == values;
  }

  lemma {:induction false} ArrayReadsBack(value: AnyValue)
    requires value.Array?
    ensures ReadAnyValue(AnyValueJson(value)) == Some(Normal(value))
    decreases value, 0
  {
    var values := value.values;
    var items := ValuesJson(values);
    forall i | 0 <= i < |values|
      ensures ReadAnyValue(items[i]) == Some(Normal(values[i]))
    {
      AnyValueReadsBack(values[i]);
    }
    AllSomeOf(ReadValues(items), NormalValues(values));
  }

  lemma {:induction false} PairsReadBack(value: AnyValue)
    requires value.KeyValueList?
    ensures ReadAnyValue(AnyValueJson(value)) == Some(Normal(value))
    decreases value, 0
  {
    var pairs := value.pairs;
    var items := AttributesJson(pairs);
    forall i | 0 <= i < |pairs|
      ensures ReadKeyValue(items[i]) == Some(NormalPair(pairs[i]))
    {
      KeyValueReadsBack(pairs[i]);
    }
    AllSomeOf(ReadPairs(items), NormalPairs(pairs));
  }

  lemma {:induction false} KeyValueReadsBack(pair: KeyValue)
    ensures ReadKeyValue(KeyValueJson(pair)) == Some(NormalPair(pair))
    decreases pair
  {
    if pair.value.Some? {
      AnyValueReadsBack(pair.value.value);
    }
  }

  lemma {:induction false} NormalEncodesTheSame(value: AnyValue)
    ensures AnyValueJson(Normal(value)) == AnyValueJson(value)
    decreases value
  {
    match value
    case Array(values) =>
      forall i | 0 <= i < |values|
        ensures AnyValueJson(Normal(values[i])) == AnyValueJson(values[i])
      {
        NormalEncodesTheSame(values[i]);
      }
      assert ValuesJson(NormalValues(values)) == ValuesJson(values);
    case KeyValueList(pairs) =>
      forall i | 0 <= i < |pairs|
        ensures KeyValueJson(NormalPair(pairs[i])) == KeyValueJson(pairs[i])
      {
        if pairs[i].value.Some? {
          NormalEncodesTheSame(pairs[i].value.value);
        }
      }
      assert AttributesJson(NormalPairs(pairs)) == AttributesJson(pairs);
    case _ =>
  }

  /** Two values have the same form exactly when they differ at most in missing against empty nested values. */
  lemma AnyValueJsonLosesNothing(one: AnyValue, other: AnyValue)
    ensures AnyValueJson(one) == AnyValueJson(other) <==> Normal(one) == Normal(other)
  {
    AnyValueReadsBack(one);
    AnyValueReadsBack(other);
    NormalEncodesTheSame(one);
    NormalEncodesTheSame(other);
  }

  lemma KeyValueJsonLosesNothing(one: KeyValue, other: KeyValue)
    ensures KeyValueJson(one) == KeyValueJson(other) <==> NormalPair(one) == NormalPair(other)
  {
    KeyValueReadsBack(one);
    KeyValueReadsBack(other);
    if NormalPair(one) == NormalPair(other) {
      if one.value.Some? { NormalEncodesTheSame(one.value.value); }
      if other.value.Some? { NormalEncodesTheSame(other.value.value); }
    }
  }

  // ---------------------------------------------------------------- attribute lookup

  datatype Lookup = Found(value: AnyValue) | Missing | Ambiguous | NoValue

  function Matching(attributes: seq<KeyValue>, key: string): seq<KeyValue> {
    if attributes == [] then []
    else (if attributes[0].key == key then [attributes[0]] else []) + Matching(attributes[1..], key)
  }

  function LookupAttribute(attributes: seq<KeyValue>, key: string): Lookup {
    var matches := Matching(attributes, key);
    if matches == [] then Missing
    else if |matches| > 1 then Ambiguous
    else if matches[0].value.None? then NoValue
    else Found(matches[0].value.value)
  }

  ghost predicate Occurs(attributes: seq<KeyValue>, key: string, at: nat) {
    at < |attributes| && attributes[at].key == key
  }

  lemma {:induction false} MatchingCounts(attributes: seq<KeyValue>, key: string, at: nat)
    requires Occurs(attributes, key, at)
    ensures Matching(attributes, key) != []
    ensures |Matching(attributes, key)| == 1 <==> forall other: nat :: Occurs(attributes, key, other) ==> other == at
    ensures |Matching(attributes, key)| == 1 ==> Matching(attributes, key)[0] == attributes[at]
  {
    var rest := attributes[1..];
    forall other: nat
      ensures Occurs(rest, key, other) <==> Occurs(attributes, key, other + 1)
    {
    }
    if at > 0 {
      MatchingCounts(rest, key, at - 1);
      if attributes[0].key == key { assert Occurs(attributes, key, 0); }
      forall other: nat | Occurs(attributes, key, other)
        ensures other == 0 || Occurs(rest, key, other - 1)
      {
      }
    } else if Matching(rest, key) != [] {
      var other := FirstMatch(rest, key);
      assert Occurs(attributes, key, other + 1);
    } else {
      forall other: nat | Occurs(attributes, key, other)
        ensures other == at
      {
        if other > 0 { MatchingCounts(rest, key, other - 1); }
      }
    }
  }

  lemma {:induction false} FirstMatch(attributes: seq<KeyValue>, key: string) returns (at: nat)
    requires Matching(attributes, key) != []
    ensures Occurs(attributes, key, at)
  {
    if attributes[0].key == key {
      at := 0;
    } else {
      var rest := FirstMatch(attributes[1..], key);
      at := rest + 1;
    }
  }

  /** An attribute is found exactly when its key occurs once, with a value. */
  lemma FoundMeansUnique(attributes: seq<KeyValue>, key: string, value: AnyValue)
    ensures LookupAttribute(attributes, key) == Found(value) <==>
              exists at: nat :: && Occurs(attributes, key, at) && attributes[at].value == Some(value)
                                && forall other: nat :: Occurs(attributes, key, other) ==> other == at
  {
    if Matching(attributes, key) != [] {
      var at := FirstMatch(attributes, key);
      MatchingCounts(attributes, key, at);
    } else if at: nat :| Occurs(attributes, key, at) {
      MatchingCounts(attributes, key, at);
    }
  }

  // ---------------------------------------------------------------- identity hashing

  /** A length as eight bytes, most significant first; longer parts than that do not exist in memory. */
  function BigEndian(value: nat, width: nat): (bytes: seq<Byte>)
    ensures |bytes| == width
  {
    if width == 0 then [] else BigEndian(value / 256, width - 1) + [value % 256]
  }

  function FromBigEndian(bytes: seq<Byte>): nat {
    if bytes == [] then 0
    else FromBigEndian(bytes[..|bytes| - 1]) * 256 + bytes[|bytes| - 1]
  }

  function Power256(k: nat): nat {
    if k == 0 then 1 else 256 * Power256(k - 1)
  }

  lemma {:induction false} BigEndianReadsBack(value: nat, width: nat)
    requires value < Power256(width)
    ensures FromBigEndian(BigEndian(value, width)) == value
    decreases width
  {
    if width > 0 {
      BigEndianReadsBack(value / 256, width - 1);
      assert BigEndian(value, width)[..width - 1] == BigEndian(value / 256, width - 1);
    }
  }

  const LENGTH_LIMIT := 0x1_0000_0000_0000_0000

  lemma EightBytes()
    ensures Power256(8) == LENGTH_LIMIT
  {
    assert Power256(4) == 0x1_0000_0000 by { assert Power256(2) == 65536; }
    assert Power256(6) == 256 * (256 * Power256(4));
  }

  predicate FitsLength(parts: seq<seq<Byte>>) {
    forall part <- parts :: |part| < LENGTH_LIMIT
  }

  /** A part after its length in eight bytes. */
  function Prefixed(part: seq<Byte>): seq<Byte> {
    BigEndian(|part|, 8) + part
  }

  /** The bytes that are hashed for a list of parts. */
  function Framed(parts: seq<seq<Byte>>): seq<Byte> {
    if parts == [] then []
    else
      var last := |parts| - 1;
      Framed(parts[..last]) + Prefixed(parts[last])
  }

  method HashParts(sha256: seq<Byte> -> string, parts: seq<seq<Byte>>) returns (digest: string)
    requires FitsLength(parts)
    ensures digest == sha256(Framed(parts))
  {
    var hashed: seq<Byte> := [];
    for i := 0 to |parts|
      invariant hashed == Framed(parts[..i])
    {
      assert parts[..i + 1][..i] == parts[..i];
      Reassociate(hashed, BigEndian(|parts[i]|, 8), parts[i]);
      hashed := hashed + BigEndian(|parts[i]|, 8);
      hashed := hashed + parts[i];
    }
    assert parts[..|parts|] == parts;
    digest := sha256(hashed);
  }

  lemma {:induction false} FramedFromFirst(parts: seq<seq<Byte>>)
    requires parts != []
    ensures Framed(parts) == Prefixed(parts[0]) + Framed(parts[1..])
  {
    hide Prefixed;
    var last := |parts| - 1;
    if last == 0 {
      assert parts[..0] == [] && parts[1..] == [];
    } else {
      FramedFromFirst(parts[..last]);
      InnerParts(parts);
      Reassociate(Prefixed(parts[0]), Framed(parts[1..][..last - 1]), Prefixed(parts[last]));
    }
  }

  lemma InnerParts(parts: seq<seq<Byte>>)
    requires |parts| > 1
    ensures parts[..|parts| - 1][1..] == parts[1..][..|parts| - 2]
    ensures parts[..|parts| - 1][0] == parts[0] && parts[1..][|parts| - 2] == parts[|parts| - 1]
  {
  }

  lemma Reassociate(head: seq<Byte>, inner: seq<Byte>, tail: seq<Byte>)
    ensures (head + inner) + tail == head + (inner + tail)
  {
  }

  /** The framing determines the parts: no two lists of parts are hashed as the same bytes. */
  lemma {:induction false} FramingIsInjective(one: seq<seq<Byte>>, other: seq<seq<Byte>>)
    requires FitsLength(one) && FitsLength(other) && Framed(one) == Framed(other)
    ensures one == other
  {
    hide BigEndian, Framed;
    if one == [] || other == [] {
      NothingFramed(one);
      NothingFramed(other);
    } else {
      FirstPartsAgree(one, other);
      FramingIsInjective(one[1..], other[1..]);
      assert one == [one[0]] + one[1..] && other == [other[0]] + other[1..];
    }
  }

  lemma NothingFramed(parts: seq<seq<Byte>>)
    ensures Framed(parts) == [] <==> parts == []
  {
    hide BigEndian;
    if parts != [] { FramedFromFirst(parts); }
  }

  lemma FirstPartsAgree(one: seq<seq<Byte>>, other: seq<seq<Byte>>)
    requires FitsLength(one) && FitsLength(other) && Framed(one) == Framed(other) && one != [] && other != []
    ensures one[0] == other[0] && Framed(one[1..]) == Framed(other[1..])
  {
    hide BigEndian, FromBigEndian, Power256, Framed;
    FramedFromFirst(one);
    FramedFromFirst(other);
    var bytes := Framed(one);
    EightBytes();
    assert bytes[..8] == BigEndian(|one[0]|, 8) == BigEndian(|other[0]|, 8);
    BigEndianReadsBack(|one[0]|, 8);
    BigEndianReadsBack(|other[0]|, 8);
    var length := |one[0]|;
    assert one[0] == bytes[8..8 + length] == other[0];
    assert Framed(one[1..]) == bytes[8 + length..] == Framed(other[1..]);
  }

  // ---------------------------------------------------------------- what identities are made of

  /** The bytes of an ASCII text. */
  function Ascii(text: string): (bytes: seq<Byte>)
    ensures |bytes| == |text|
  {
    if text == "" then [] else [text[0] as int % 256] + Ascii(text[1..])
  }

  /** The authority's texts and the last component are given as their bytes. */
  datatype LogicalSource =
    | FromContent(tenant: seq<Byte>, application: seq<Byte>, environment: seq<Byte>, contentDigest: seq<Byte>)
    | FromIdentity(tenant: seq<Byte>, application: seq<Byte>, environment: seq<Byte>, identity: seq<Byte>)
  {
    function Parts(): seq<seq<Byte>> {
      match this
      case FromContent(_, _, _, _) =>
        [Ascii("flaggo-logical-source-content-v3"), tenant, application, environment, contentDigest]
      case FromIdentity(_, _, _, _) =>
        [Ascii("flaggo-logical-source-v3"), tenant, application, environment, identity]
    }
  }

  function ObservationParts(logicalSourceId: seq<Byte>, contentDigest: seq<Byte>): seq<seq<Byte>> {
    [Ascii("flaggo-observation-v4"), logicalSourceId, contentDigest]
  }

  /** Different sources are hashed from different bytes, whichever way each of them is identified, and never from the
      bytes of an observation. */
  lemma IdentityInputsDiffer(one: LogicalSource, other: LogicalSource, logicalSourceId: seq<Byte>,
                             contentDigest: seq<Byte>)
    requires FitsLength(one.Parts()) && FitsLength(other.Parts())
    requires FitsLength(ObservationParts(logicalSourceId, contentDigest))
    ensures Framed(one.Parts()) == Framed(other.Parts()) <==> one == other
    ensures Framed(one.Parts()) != Framed(ObservationParts(logicalSourceId, contentDigest))
  {
    hide Framed, FitsLength, Ascii;
    if Framed(one.Parts()) == Framed(other.Parts()) {
      FramingIsInjective(one.Parts(), other.Parts());
      assert |one.Parts()[0]| == |other.Parts()[0]|;
      assert one.Parts()[1] == other.Parts()[1] && one.Parts()[2] == other.Parts()[2];
      assert one.Parts()[3] == other.Parts()[3] && one.Parts()[4] == other.Parts()[4];
    }
    assert |one.Parts()| == 5 && |ObservationParts(logicalSourceId, contentDigest)| == 3;
    FramingSeparates(one.Parts(), ObservationParts(logicalSourceId, contentDigest));
  }

  lemma FramingSeparates(one: seq<seq<Byte>>, other: seq<seq<Byte>>)
    requires FitsLength(one) && FitsLength(other) && one != other
    ensures Framed(one) != Framed(other)
  {
    if Framed(one) == Framed(other) { FramingIsInjective(one, other); }
  }
}
