/** Protobuf base-128 varints, and the scanner that looks for a length-delimited field one. */
module Varint {
  import opened Wrappers

  type Byte = b: nat | b < 256

  /** A varint that ends within ten bytes has seventy bits. */
  const MAXIMUM_BYTES := 10

  // ---------------------------------------------------------------- varints

  function Power(k: nat): (power: nat)
    ensures power >= 1
  {
    if k == 0 then 1 else 128 * Power(k - 1)
  }

  function Encoded(value: nat): (bytes: seq<Byte>)
    ensures bytes != []
  {
    if value <= 127 then [value] else [value % 128 + 128] + Encoded(value / 128)
  }

  method EncodeVarint(value: nat) returns (result: seq<Byte>)
    ensures result == Encoded(value)
  {
    hide Encoded;
    result := [];
    var rest := value;
    while rest > 127
      invariant result + Encoded(rest) == Encoded(value)
    {
      FirstGroup(rest, result);
      result := result + [rest % 128 + 128];
      rest := rest / 128;
    }
    LastGroup(rest);
    result := result + [rest];
  }

  /** Of a value that does not fit one byte, the lowest seven bits come first. */
  lemma FirstGroup(value: nat, before: seq<Byte>)
    requires value > 127
    ensures value / 128 < value
    ensures (before + [value % 128 + 128]) + Encoded(value / 128) == before + Encoded(value)
  {
  }

  lemma LastGroup(value: nat)
    requires value <= 127
    ensures Encoded(value) == [value]
  {
  }

  /** What a varint at an offset stands for and where it ends, after some of its bytes have been read already. */
  function Read(data: seq<Byte>, offset: nat, bytesRead: nat): (read: Option<(nat, nat)>)
    ensures read.Some? ==> offset < read.value.1 <= |data|
    decreases |data| - offset
  {
    if offset >= |data| || bytesRead >= MAXIMUM_BYTES then None
    else if data[offset] < 128 then Some((data[offset], offset + 1))
    else
      match Read(data, offset + 1, bytesRead + 1)
      case None => None
      case Some((rest, end)) => Some((data[offset] - 128 + 128 * rest, end))
  }

  function Above(value: nat, power: nat, read: Option<(nat, nat)>): Option<(nat, nat)> {
    match read
    case None => None
    case Some((rest, end)) => Some((value + power * rest, end))
  }

  /** Adding the next seven bits above the ones gathered so far: the bits never overlap. */
  lemma NextGroup(value: nat, power: nat, low: nat, read: Option<(nat, nat)>)
    requires value < power && low < 128
    ensures value + power * low < 128 * power
    ensures Above(value + power * low, 128 * power, read)
         == Above(value, power, match read case None => None case Some((rest, end)) => Some((low + 128 * rest, end)))
  {
    assert power * low <= power * 127 by { Ordered(power, low, 127); }
    match read
    case None =>
    case Some((rest, end)) =>
      Distributes(power, low, 128 * rest);
      Associates(power, rest);
  }

  lemma Ordered(power: nat, low: nat, high: nat)
    requires low <= high
    ensures power * low <= power * high
  {
  }

  lemma Distributes(power: nat, one: nat, other: nat)
    ensures power * (one + other) == power * one + power * other
  {
  }

  lemma Associates(power: nat, rest: nat)
    ensures (128 * power) * rest == power * (128 * rest)
  {
  }

  /** The reader gathers seven bits a byte; the value is below the next power, so adding is the same as or-ing. */
  method ReadVarint(data: seq<Byte>, start: nat) returns (read: Option<(nat, nat)>)
    ensures read == Read(data, start, 0)
  {
    var value: nat, power: nat, offset, bytesRead := 0, 1, start, 0;
    while offset < |data| && bytesRead < MAXIMUM_BYTES
      invariant power == Power(bytesRead) && value < power
      invariant Read(data, start, 0) == Above(value, power, Read(data, offset, bytesRead))
    {
      var byte := data[offset];
      var low := byte % 128;
      NextGroup(value, power, low, Read(data, offset + 1, bytesRead + 1));
      offset := offset + 1;
      value := value + power * low;
      if byte < 128 {
        return Some((value, offset));
      }
      power := 128 * power;
      bytesRead := bytesRead + 1;
    }
    read := None;
  }

  /** An encoded value is read back wherever it stands, with whatever follows, exactly if it fits the bytes left. */
  lemma {:induction false} ReadsBack(before: seq<Byte>, value: nat, after: seq<Byte>, bytesRead: nat)
    requires bytesRead < MAXIMUM_BYTES
    ensures Read(before + Encoded(value) + after, |before|, bytesRead)
         == (if value < Power(MAXIMUM_BYTES - bytesRead) then Some((value, |before| + |Encoded(value)|)) else None)
    decreases value
  {
    var data := before + Encoded(value) + after;
    if value <= 127 {
      assert data[|before|] == value;
      assert Power(MAXIMUM_BYTES - bytesRead) >= 128;
    } else {
      var first := [value % 128 + 128];
      assert data[|before|] == value % 128 + 128;
      assert data == (before + first) + Encoded(value / 128) + after;
      if bytesRead + 1 < MAXIMUM_BYTES {
        ReadsBack(before + first, value / 128, after, bytesRead + 1);
      } else {
        assert Power(1) == 128 * Power(0);
      }
    }
  }

  /** Round trip: reading undoes writing for exactly the values below two to the seventieth. */
  lemma VarintRoundTrip(value: nat)
    ensures Read(Encoded(value), 0, 0) == Some((value, |Encoded(value)|)) <==> value < 0x40_0000_0000_0000_0000
  {
    ReadsBack([], value, [], 0);
    assert [] + Encoded(value) + [] == Encoded(value);
    TenGroups();
  }

  lemma TenGroups()
    ensures Power(10) == 0x40_0000_0000_0000_0000
  {
    assert Power(5) == 128 * 128 * 128 * 128 * 128
      by { assert Power(2) == 16384; assert Power(4) == 128 * (128 * Power(2)); }
    assert Power(7) == 128 * (128 * Power(5));
    assert Power(9) == 128 * (128 * Power(7));
  }

  lemma {:induction false} EncodedLength(value: nat, k: nat)
    requires Power(k) <= value < Power(k + 1)
    ensures |Encoded(value)| == k + 1
    decreases k
  {
    if k > 0 {
      EncodedLength(value / 128, k - 1);
    }
  }

  // ---------------------------------------------------------------- fields

  datatype Field =
    | Number(number: nat, value: nat)
    | Fixed64(number: nat, eight: seq<Byte>)
    | Delimited(number: nat, payload: seq<Byte>)
    | Fixed32(number: nat, four: seq<Byte>)
  {
    predicate Valid() {
      && number < 0x8_0000_0000_0000_0000
      && match this
         case Number(_, value) => value < 0x40_0000_0000_0000_0000
         case Fixed64(_, eight) => |eight| == 8
         case Delimited(_, payload) => |payload| < 0x40_0000_0000_0000_0000
         case Fixed32(_, four) => |four| == 4
    }

    function WireType(): nat {
      match this
      case Number(_, _) => 0
      case Fixed64(_, _) => 1
      case Delimited(_, _) => 2
      case Fixed32(_, _) => 5
    }

    function Body(): seq<Byte> {
      match this
      case Number(_, value) => Encoded(value)
      case Fixed64(_, eight) => eight
      case Delimited(_, payload) => Encoded(|payload|) + payload
      case Fixed32(_, four) => four
    }

    function Bytes(): seq<Byte> {
      Encoded(number * 8 + WireType()) + Body()
    }

    predicate IsFieldOne() {
      Delimited? && number == 1
    }
  }

  function Message(fields: seq<Field>): seq<Byte> {
    if fields == [] then [] else fields[0].Bytes() + Message(fields[1..])
  }

  function ValueEnd(data: seq<Byte>, wireType: nat, body: nat): Option<nat> {
    if wireType == 0 then (match Read(data, body, 0) case None => None case Some((_, end)) => Some(end))
    else if wireType == 1 then Some(body + 8)
    else if wireType == 2 then
      (match Read(data, body, 0) case None => None case Some((length, start)) => Some(start + length))
    else if wireType == 5 then Some(body + 4)
    else None
  }

  /** Where a field that begins at the offset ends, and whether it is a length-delimited field one. */
  function ReadField(data: seq<Byte>, offset: nat): (field: Option<(nat, bool)>)
    ensures field.Some? ==> offset < field.value.0 <= |data|
  {
    match Read(data, offset, 0)
    case None => None
    case Some((key, body)) =>
      var wireType := key % 8;
      var end := ValueEnd(data, wireType, body);
      if end.None? || end.value > |data| then None else Some((end.value, wireType == 2 && key / 8 == 1))
  }

  /** The scanner's verdict from an offset on; None is a message it rejects. */
  function Scan(data: seq<Byte>, offset: nat, found: bool): Option<bool>
    decreases |data| - offset
  {
    if offset >= |data| then Some(found)
    else
      match ReadField(data, offset)
      case None => None
      case Some((end, isOne)) => Scan(data, end, found || isOne)
  }

  method HasLengthDelimitedFieldOne(data: seq<Byte>) returns (verdict: Option<bool>)
    ensures verdict == Scan(data, 0, false)
  {
    var offset: nat, found := 0, false;
    while offset < |data|
      invariant Scan(data, offset, found) == Scan(data, 0, false)
      decreases |data| - offset
    {
      var read := ReadVarint(data, offset);
      if read.None? {
        return None;
      }
      var (key, body) := read.value;
      var fieldNumber, wireType := key / 8, key % 8;
      var end := SkipValue(data, wireType, body);
      if end.None? || end.value > |data| {
        return None;
      }
      found := found || (wireType == 2 && fieldNumber == 1);
      offset := end.value;
    }
    verdict := Some(found);
  }

  /** Where the value of a field ends, by its wire type; None for a wire type that is not accepted. */
  method SkipValue(data: seq<Byte>, wireType: nat, body: nat) returns (end: Option<nat>)
    ensures end == ValueEnd(data, wireType, body)
  {
    if wireType == 0 {
      var number := ReadVarint(data, body);
      end := if number.None? then None else Some(number.value.1);
    } else if wireType == 1 {
      end := Some(body + 8);
    } else if wireType == 2 {
      var prefix := ReadVarint(data, body);
      end := if prefix.None? then None else Some(prefix.value.1 + prefix.value.0);
    } else if wireType == 5 {
      end := Some(body + 4);
    } else {
      end := None;
    }
  }

  lemma KeySplits(number: nat, wireType: nat)
    requires wireType < 8
    ensures (number * 8 + wireType) % 8 == wireType && (number * 8 + wireType) / 8 == number
  {
  }

  lemma FieldReadsBack(before: seq<Byte>, field: Field, after: seq<Byte>)
    requires field.Valid()
    ensures ReadField(before + field.Bytes() + after, |before|)
              == Some((|before| + |field.Bytes()|, field.IsFieldOne()))
  {
    hide Read, Encoded;
    var data := before + field.Bytes() + after;
    var key := field.number * 8 + field.WireType();
    KeySplits(field.number, field.WireType());
    TenGroups();
    ReadsBack(before, key, field.Body() + after, 0);
    assert data == before + Encoded(key) + (field.Body() + after);
    assert data == (before + Encoded(key)) + field.Body() + after;
    ValueReadsBack(before + Encoded(key), field, after);
    hide ValueEnd, Field.Body, Field.WireType;
  }

  lemma ValueReadsBack(head: seq<Byte>, field: Field, after: seq<Byte>)
    requires field.Valid()
    ensures ValueEnd(head + field.Body() + after, field.WireType(), |head|) == Some(|head| + |field.Body()|)
  {
    hide Read, Encoded;
    var data := head + field.Body() + after;
    TenGroups();
    match field
    case Number(_, value) => ReadsBack(head, value, after, 0);
    case Delimited(_, payload) =>
      ReadsBack(head, |payload|, payload + after, 0);
      assert data == head + Encoded(|payload|) + (payload + after);
    case Fixed64(_, _) =>
    case Fixed32(_, _) =>
  }

  /** Fields that follow are scanned one by one, whatever stands before them. */
  lemma {:induction false} ScansFields(before: seq<Byte>, fields: seq<Field>, found: bool)
    requires forall field <- fields :: field.Valid()
    ensures Scan(before + Message(fields), |before|, found)
              == Some(found || exists field <- fields :: field.IsFieldOne())
    decreases |fields|
  {
    hide ReadField, Field.Bytes, Field.IsFieldOne, Field.Valid;
    if fields == [] {
      assert before + Message(fields) == before;
    } else {
      var first := fields[0];
      var data := before + Message(fields);
      assert data == before + first.Bytes() + Message(fields[1..]);
      FieldReadsBack(before, first, Message(fields[1..]));
      assert data == (before + first.Bytes()) + Message(fields[1..]);
      ScansFields(before + first.Bytes(), fields[1..], found || first.IsFieldOne());
      assert fields == [first] + fields[1..];
    }
  }

  /** On an encoded message the scanner answers exactly whether field one occurs length-delimited. */
  lemma ScannerIsExact(fields: seq<Field>)
    requires forall field <- fields :: field.Valid()
    ensures Scan(Message(fields), 0, false) == Some(exists field <- fields :: field.IsFieldOne())
  {
    ScansFields([], fields, false);
    assert [] + Message(fields) == Message(fields);
  }

  // ---------------------------------------------------------------- appending fields

  lemma {:induction false} ReadIgnoresWhatFollows(data: seq<Byte>, after: seq<Byte>, offset: nat, bytesRead: nat)
    requires Read(data, offset, bytesRead).Some?
    ensures Read(data + after, offset, bytesRead) == Read(data, offset, bytesRead)
    decreases |data| - offset
  {
    if data[offset] >= 128 {
      ReadIgnoresWhatFollows(data, after, offset + 1, bytesRead + 1);
    }
  }

  lemma FieldIgnoresWhatFollows(data: seq<Byte>, after: seq<Byte>, offset: nat)
    requires ReadField(data, offset).Some?
    ensures ReadField(data + after, offset) == ReadField(data, offset)
  {
    hide Read;
    ReadIgnoresWhatFollows(data, after, offset, 0);
    var (key, body) := Read(data, offset, 0).value;
    if key % 8 == 0 || key % 8 == 2 {
      ReadIgnoresWhatFollows(data, after, body, 0);
    }
  }

  /** A message that scans keeps its verdict up to its end when anything is appended. */
  lemma {:induction false} ScanGoesOn(data: seq<Byte>, after: seq<Byte>, offset: nat, found: bool)
    requires offset <= |data| && Scan(data, offset, found).Some?
    ensures Scan(data + after, offset, found) == Scan(data + after, |data|, Scan(data, offset, found).value)
    decreases |data| - offset
  {
    hide ReadField;
    if offset < |data| {
      var (end, isOne) := ReadField(data, offset).value;
      FieldIgnoresWhatFollows(data, after, offset);
      ScanGoesOn(data, after, end, found || isOne);
    }
  }

  /** The padding: field one hundred, length-delimited, filled with zeros. */
  function Padding(size: nat): Field {
    Delimited(100, seq(size, _ => 0))
  }

  /** Appending the padding field to any message that scans never changes the answer. */
  lemma PaddingChangesNothing(data: seq<Byte>, size: nat)
    requires Scan(data, 0, false).Some? && size < 0x40_0000_0000_0000_0000
    ensures Scan(data + Padding(size).Bytes(), 0, false) == Scan(data, 0, false)
  {
    var padding := [Padding(size)];
    ScanGoesOn(data, Padding(size).Bytes(), 0, false);
    ScansFields(data, padding, Scan(data, 0, false).value);
    assert Message(padding) == Padding(size).Bytes() by {
      assert padding[1..] == [];
    }
  }

  /** The key of field one hundred, wire type two, then the length, then zeros. */
  lemma PaddingInFull(size: nat)
    ensures Padding(size).Bytes() == [0xa2, 0x06] + Encoded(size) + seq(size, _ => 0)
  {
    KeyOfPadding();
    hide Encoded;
  }

  lemma KeyOfPadding()
    ensures Encoded(100 * 8 + 2) == [0xa2, 0x06]
  {
  }

  /** Five bytes for key and length are right exactly when the length takes three bytes. */
  lemma PaddingFillsExactly(data: seq<Byte>, size: nat)
    requires size >= |data| + 5
    ensures var padding := size - |data| - 5;
            && (|data + Padding(padding).Bytes()| == size <==> 0x4000 <= padding < 0x20_0000)
            && Padding(padding).Bytes() == [0xa2, 0x06] + Encoded(padding) + seq(padding, _ => 0)
  {
    hide Padding, Field.Bytes, Encoded;
    var padding := size - |data| - 5;
    PaddingInFull(padding);
    assert Power(1) == 128 && Power(2) == 0x4000 && Power(3) == 0x20_0000;
    if padding < 128 {
      LastGroup(padding);
    } else if padding < 0x4000 {
      EncodedLength(padding, 1);
    } else if padding < 0x20_0000 {
      EncodedLength(padding, 2);
    } else {
      LongerThanThree(padding);
    }
  }

  lemma LongerThanThree(value: nat)
    requires value >= 0x20_0000
    ensures |Encoded(value)| > 3
  {
    assert |Encoded(value / 128)| >= 3 by {
      assert value / 128 >= 0x4000;
      assert value / 128 / 128 >= 128;
    }
  }
}
