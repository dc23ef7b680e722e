/** The contract catalog between two services: one validates contracts, and publishes the current ones sorted by UTF-16
    code units; the other validates them again, demands strictly increasing UTF-8 strings, and counts how many contracts
    declare each evidence route. */
module CatalogOrder {
  import opened Wrappers

  /** A Unicode scalar value: anything but a surrogate. */
  type Scalar = c: nat | c < 0x11_0000 && !(0xd800 <= c < 0xe000)

  type Text = seq<Scalar>

  // ---------------------------------------------------------------- the two encodings

  /** A continuation byte carries the lowest six bits. */
  function Continuation(bits: nat): nat {
    0x80 + bits % 0x40
  }

  function Utf8Of(c: Scalar): seq<nat> {
    var above: nat := c / 0x40;
    var further: nat := above / 0x40;
    var top: nat := further / 0x40;
    if c < 0x80 then [c]
    else if c < 0x800 then [0xc0 + above, Continuation(c)]
    else if c < 0x1_0000 then [0xe0 + further, Continuation(above), Continuation(c)]
    else [0xf0 + top, Continuation(further), Continuation(above), Continuation(c)]
  }

  function Utf16Of(c: Scalar): seq<nat> {
    if c < 0x1_0000 then [c] else [0xd800 + (c - 0x1_0000) / 0x400, 0xdc00 + (c - 0x1_0000) % 0x400]
  }

  function Utf8(text: Text): seq<nat> {
    if text == [] then [] else Utf8Of(text[0]) + Utf8(text[1..])
  }

  function Utf16(text: Text): seq<nat> {
    if text == [] then [] else Utf16Of(text[0]) + Utf16(text[1..])
  }

  function Rejoined(bytes: seq<int>): int {
    match |bytes|
    case 1 => bytes[0]
    case 2 => (bytes[0] - 0xc0) * 0x40 + (bytes[1] - 0x80)
    case 3 => ((bytes[0] - 0xe0) * 0x40 + (bytes[1] - 0x80)) * 0x40 + (bytes[2] - 0x80)
    case 4 => (((bytes[0] - 0xf0) * 0x40 + (bytes[1] - 0x80)) * 0x40 + (bytes[2] - 0x80)) * 0x40 + (bytes[3] - 0x80)
    case _ => -1
  }

  /** The bits of the bytes, put together, are the character. */
  lemma Utf8StandsForCharacter(c: Scalar)
    ensures Rejoined(Utf8Of(c)) == c
  {
    hide Continuation;
    var above: nat := c / 0x40;
    var further: nat := above / 0x40;
    ContinuationBits(c);
    ContinuationBits(above);
    ContinuationBits(further);
  }

  lemma ContinuationBits(bits: nat)
    ensures bits / 0x40 * 0x40 + (Continuation(bits) - 0x80) == bits && 0x80 <= Continuation(bits) < 0xc0
  {
  }

  /** So are those of the two surrogates. */
  lemma Utf16StandsForCharacter(c: Scalar)
    ensures var units := Utf16Of(c);
            if |units| == 1 then units[0] == c
            else
              && |units| == 2 && 0xd800 <= units[0] < 0xdc00 <= units[1] < 0xe000
              && c == 0x1_0000 + (units[0] - 0xd800) * 0x400 + (units[1] - 0xdc00)
  {
  }

  // ---------------------------------------------------------------- lexicographic order

  predicate Less(left: seq<nat>, right: seq<nat>) {
    if right == [] then false
    else if left == [] then true
    else left[0] < right[0] || (left[0] == right[0] && Less(left[1..], right[1..]))
  }

  /** The left one is smaller at the first difference, before either ends. */
  predicate Diverges(left: seq<nat>, right: seq<nat>) {
    && left != [] && right != []
    && (left[0] < right[0] || (left[0] == right[0] && Diverges(left[1..], right[1..])))
  }

  lemma {:induction false} DivergenceDecides(left: seq<nat>, right: seq<nat>, more: seq<nat>, other: seq<nat>)
    requires Diverges(left, right)
    ensures Less(left + more, right + other) && !Less(right + other, left + more)
  {
    assert (left + more)[1..] == left[1..] + more && (right + other)[1..] == right[1..] + other;
    if left[0] == right[0] {
      DivergenceDecides(left[1..], right[1..], more, other);
    }
  }

  lemma {:induction false} CommonPrefix(prefix: seq<nat>, left: seq<nat>, right: seq<nat>)
    ensures Less(prefix + left, prefix + right) <==> Less(left, right)
  {
    if prefix == [] {
      assert prefix + left == left && prefix + right == right;
    } else {
      assert (prefix + left)[1..] == prefix[1..] + left && (prefix + right)[1..] == prefix[1..] + right;
      CommonPrefix(prefix[1..], left, right);
    }
  }

  lemma {:induction false} LessIsTotal(left: seq<nat>, right: seq<nat>)
    ensures left != right ==> Less(left, right) || Less(right, left)
    ensures !(Less(left, right) && Less(right, left))
  {
    if left != [] && right != [] && left[0] == right[0] {
      assert left == [left[0]] + left[1..] && right == [right[0]] + right[1..];
      LessIsTotal(left[1..], right[1..]);
    }
  }

  // ---------------------------------------------------------------- where the encodings disagree

  lemma SixBits(c: nat, d: nat)
    requires c < d
    ensures c / 0x40 < d / 0x40 || (c / 0x40 == d / 0x40 && Continuation(c) < Continuation(d))
  {
  }

  lemma Utf8OfDiverges(c: Scalar, d: Scalar)
    requires c < d
    ensures Diverges(Utf8Of(c), Utf8Of(d))
  {
    hide Continuation;
    var left, right := Utf8Of(c), Utf8Of(d);
    var (c1: nat, d1: nat) := (c / 0x40, d / 0x40);
    var (c2: nat, d2: nat) := (c1 / 0x40, d1 / 0x40);
    SixBits(c, d);
    if c1 < d1 { SixBits(c1, d1); }
    if c2 < d2 { SixBits(c2, d2); }
    if |left| == |right| == 2 {
      FirstUnits(left[0], right[0], [Continuation(c)], [Continuation(d)]);
    } else if |left| == |right| == 3 {
      FirstUnits(Continuation(c1), Continuation(d1), [Continuation(c)], [Continuation(d)]);
      FirstUnits(left[0], right[0], [Continuation(c1)] + [Continuation(c)], [Continuation(d1)] + [Continuation(d)]);
      assert left == [left[0]] + ([Continuation(c1)] + [Continuation(c)]);
      assert right == [right[0]] + ([Continuation(d1)] + [Continuation(d)]);
    } else if |left| == |right| == 4 {
      var (low, high) := ([Continuation(c1)] + [Continuation(c)], [Continuation(d1)] + [Continuation(d)]);
      FirstUnits(Continuation(c1), Continuation(d1), [Continuation(c)], [Continuation(d)]);
      FirstUnits(Continuation(c2), Continuation(d2), low, high);
      FirstUnits(left[0], right[0], [Continuation(c2)] + low, [Continuation(d2)] + high);
      assert left == [left[0]] + ([Continuation(c2)] + low) && right == [right[0]] + ([Continuation(d2)] + high);
    }
  }

  lemma FirstUnits(x: nat, y: nat, left: seq<nat>, right: seq<nat>)
    ensures Diverges([x] + left, [y] + right) <==> x < y || (x == y && Diverges(left, right))
  {
    assert ([x] + left)[1..] == left && ([y] + right)[1..] == right;
  }

  /** A supplementary character against one from the end of the basic plane: surrogates sort below it. */
  predicate Inverts(c: Scalar, d: Scalar) {
    || (c >= 0x1_0000 && 0xe000 <= d < 0x1_0000)
    || (d >= 0x1_0000 && 0xe000 <= c < 0x1_0000)
  }

  lemma Utf16OfDiverges(c: Scalar, d: Scalar)
    requires c < d
    ensures if Inverts(c, d) then Diverges(Utf16Of(d), Utf16Of(c)) else Diverges(Utf16Of(c), Utf16Of(d))
  {
    var left, right := Utf16Of(c), Utf16Of(d);
    if |left| == 2 {
      assert left[1..] == [left[1]] && right[1..] == [right[1]];
    }
  }

  /** At the first character where the texts differ, the encodings put them in opposite orders. */
  predicate Inverted(left: Text, right: Text) {
    && left != [] && right != []
    && (if left[0] == right[0] then Inverted(left[1..], right[1..]) else Inverts(left[0], right[0]))
  }

  /** UTF-8 keeps the order of the characters themselves. */
  lemma {:induction false} Utf8Order(left: Text, right: Text)
    ensures Less(Utf8(left), Utf8(right)) <==> Less(left, right)
  {
    hide Utf8Of;
    if left != [] && right != [] {
      if left[0] == right[0] {
        CommonPrefix(Utf8Of(left[0]), Utf8(left[1..]), Utf8(right[1..]));
        Utf8Order(left[1..], right[1..]);
      } else if left[0] < right[0] {
        Utf8OfDiverges(left[0], right[0]);
        DivergenceDecides(Utf8Of(left[0]), Utf8Of(right[0]), Utf8(left[1..]), Utf8(right[1..]));
      } else {
        Utf8OfDiverges(right[0], left[0]);
        DivergenceDecides(Utf8Of(right[0]), Utf8Of(left[0]), Utf8(right[1..]), Utf8(left[1..]));
      }
    } else {
      NonEmpty(left);
      NonEmpty(right);
    }
  }

  lemma NonEmpty(text: Text)
    ensures text != [] ==> Utf8(text) != [] && Utf16(text) != []
  {
  }

  /** UTF-16 keeps it too, except exactly between inverted texts, which it puts the other way round. */
  lemma {:induction false} Utf16Order(left: Text, right: Text)
    ensures Less(Utf16(left), Utf16(right)) <==>
              (if Inverted(left, right) then Less(right, left) else Less(left, right))
  {
    hide Utf16Of, Inverts;
    if left != [] && right != [] {
      if left[0] == right[0] {
        CommonPrefix(Utf16Of(left[0]), Utf16(left[1..]), Utf16(right[1..]));
        Utf16Order(left[1..], right[1..]);
      } else {
        InvertsIsSymmetric(left[0], right[0]);
        var (low, high) := if left[0] < right[0] then (left, right) else (right, left);
        Utf16OfDiverges(low[0], high[0]);
        if Inverts(low[0], high[0]) {
          DivergenceDecides(Utf16Of(high[0]), Utf16Of(low[0]), Utf16(high[1..]), Utf16(low[1..]));
        } else {
          DivergenceDecides(Utf16Of(low[0]), Utf16Of(high[0]), Utf16(low[1..]), Utf16(high[1..]));
        }
      }
    } else {
      NonEmpty(left);
      NonEmpty(right);
    }
  }

  lemma InvertsIsSymmetric(c: Scalar, d: Scalar)
    ensures Inverts(c, d) == Inverts(d, c)
  {
  }

  // ---------------------------------------------------------------- the catalog

  /** An evidence source; the key of its route has the same parts. */
  datatype SourceKey =
    | Metric(scope: Text, name: Text, metricKind: Text, unit: Text)
    | Log(scope: Text, name: Text)
    | Span(scope: Text, name: Text)
    | SpanEvent(scope: Text, name: Text, spanName: Text)

  datatype Authority = Authority(tenant: Text, application: Text, environment: Text)

  datatype Entry = Entry(authority: Authority, name: Text, digest: Text, sources: seq<SourceKey>) {
    function Fields(): seq<Text> {
      [authority.tenant, authority.application, authority.environment, name]
    }
  }

  /** Fields are compared one after the other; the digest decides last. */
  predicate ServiceLess(left: Entry, right: Entry) {
    FieldsLess16(left.Fields(), right.Fields())
      || (left.Fields() == right.Fields() && Less(Utf8(left.digest), Utf8(right.digest)))
  }

  predicate FieldsLess16(left: seq<Text>, right: seq<Text>)
    requires |left| == |right|
  {
    && left != []
    && (Less(Utf16(left[0]), Utf16(right[0])) || (left[0] == right[0] && FieldsLess16(left[1..], right[1..])))
  }

  predicate FieldsLess8(left: seq<Text>, right: seq<Text>)
    requires |left| == |right|
  {
    && left != []
    && (Less(Utf8(left[0]), Utf8(right[0])) || (left[0] == right[0] && FieldsLess8(left[1..], right[1..])))
  }

  predicate RustLess(left: Entry, right: Entry) {
    FieldsLess8(left.Fields(), right.Fields())
      || (left.Fields() == right.Fields() && Less(Utf8(left.digest), Utf8(right.digest)))
  }

  predicate FieldsInverted(left: seq<Text>, right: seq<Text>)
    requires |left| == |right|
  {
    && left != []
    && (if left[0] == right[0] then FieldsInverted(left[1..], right[1..]) else Inverted(left[0], right[0]))
  }

  /** Sorted by the service's order, and every name once. */
  ghost predicate IsSorted(entries: seq<Entry>) {
    && (forall i :: 0 <= i < |entries| - 1 ==> !ServiceLess(entries[i + 1], entries[i]))
    && (forall i, j :: 0 <= i < j < |entries| ==> entries[i].name != entries[j].name)
  }

  ghost predicate IsStrictlyOrdered(entries: seq<Entry>) {
    forall i :: 0 <= i < |entries| - 1 ==> RustLess(entries[i], entries[i + 1])
  }

  lemma {:induction false} FieldsAgree(left: seq<Text>, right: seq<Text>)
    requires |left| == |right| && left != right
    ensures FieldsLess16(left, right) || FieldsLess16(right, left)
    ensures !(FieldsLess8(left, right) && FieldsLess8(right, left))
    ensures !(FieldsLess16(left, right) && FieldsLess16(right, left))
    ensures FieldsLess16(left, right) <==>
              (if FieldsInverted(left, right) then FieldsLess8(right, left) else FieldsLess8(left, right))
    ensures FieldsInverted(left, right) == FieldsInverted(right, left)
  {
    if left[0] == right[0] {
      assert left == [left[0]] + left[1..] && right == [right[0]] + right[1..];
      NotBelowItself(left[0]);
      FieldsAgree(left[1..], right[1..]);
    } else {
      Utf8Order(left[0], right[0]);
      Utf8Order(right[0], left[0]);
      Utf16Order(left[0], right[0]);
      Utf16Order(right[0], left[0]);
      InvertedIsSymmetric(left[0], right[0]);
      LessIsTotal(left[0], right[0]);
    }
  }

  lemma NotBelowItself(text: Text)
    ensures !Less(Utf8(text), Utf8(text)) && !Less(Utf16(text), Utf16(text))
  {
    LessIsTotal(Utf8(text), Utf8(text));
    LessIsTotal(Utf16(text), Utf16(text));
  }

  lemma {:induction false} InvertedIsSymmetric(left: Text, right: Text)
    ensures Inverted(left, right) == Inverted(right, left)
  {
    if left != [] && right != [] {
      if left[0] == right[0] { InvertedIsSymmetric(left[1..], right[1..]); }
    }
  }

  /** For any texts at all: what one order sorts passes the other's strict check exactly when no two neighbours are
      inverted. */
  lemma SortedPassesUnlessInverted(entries: seq<Entry>)
    requires IsSorted(entries)
    ensures IsStrictlyOrdered(entries) <==>
              forall i :: 0 <= i < |entries| - 1 ==> !FieldsInverted(entries[i].Fields(), entries[i + 1].Fields())
  {
    hide FieldsLess8, FieldsLess16, FieldsInverted;
    forall i | 0 <= i < |entries| - 1
      ensures RustLess(entries[i], entries[i + 1]) <==> !FieldsInverted(entries[i].Fields(), entries[i + 1].Fields())
    {
      var left, right := entries[i].Fields(), entries[i + 1].Fields();
      assert left[3] != right[3];
      FieldsAgree(left, right);
    }
  }

  predicate IsBasic(text: Text) {
    forall i :: 0 <= i < |text| ==> text[i] < 0x1_0000
  }

  lemma {:induction false} BasicIsNotInverted(left: Text, right: Text)
    requires IsBasic(left) && IsBasic(right)
    ensures !Inverted(left, right)
  {
    if left != [] && right != [] && left[0] == right[0] {
      BasicIsNotInverted(left[1..], right[1..]);
    }
  }

  lemma {:induction false} BasicFieldsAreNotInverted(left: seq<Text>, right: seq<Text>)
    requires |left| == |right|
    requires (forall text <- left :: IsBasic(text)) && (forall text <- right :: IsBasic(text))
    ensures !FieldsInverted(left, right)
  {
    hide IsBasic;
    if left != [] {
      if left[0] == right[0] { BasicFieldsAreNotInverted(left[1..], right[1..]); }
      else { BasicIsNotInverted(left[0], right[0]); }
    }
  }

  /** So whatever is sorted without characters above U+FFFF in its ordering fields is in the order demanded. */
  lemma SortedBasicPasses(entries: seq<Entry>)
    requires IsSorted(entries)
    requires forall i :: 0 <= i < |entries| ==> forall text <- entries[i].Fields() :: IsBasic(text)
    ensures IsStrictlyOrdered(entries)
  {
    hide IsBasic, FieldsInverted;
    forall i | 0 <= i < |entries| - 1
      ensures !FieldsInverted(entries[i].Fields(), entries[i + 1].Fields())
    {
      BasicFieldsAreNotInverted(entries[i].Fields(), entries[i + 1].Fields());
    }
    SortedPassesUnlessInverted(entries);
  }

  // ---------------------------------------------------------------- what each service validates

  const LINE_FEED: Scalar := 0x0a

  predicate IsLetter(c: nat) {
    0x41 <= c <= 0x5a || 0x61 <= c <= 0x7a
  }

  predicate IsNamePart(c: nat) {
    IsLetter(c) || 0x30 <= c <= 0x39 || c == 0x2e || c == 0x5f || c == 0x2d
  }

  predicate EndsInLineFeed(text: Text) {
    text != [] && text[|text| - 1] == LINE_FEED
  }

  predicate IsPlainName(text: Text) {
    text != [] && IsLetter(text[0]) && forall i :: 0 <= i < |text| ==> IsNamePart(text[i])
  }

  /** The contract service ignores one final line feed, as the regular expressions it replaces did. */
  predicate IsDecisionName(text: Text) {
    1 <= |Utf16(text)| <= 128 && IsPlainName(if EndsInLineFeed(text) then text[..|text| - 1] else text)
  }

  predicate IsWhitespace(c: Scalar) {
    || 0x09 <= c <= 0x0d || c == 0x20 || c == 0x85 || c == 0xa0 || c == 0x1680
    || 0x2000 <= c <= 0x200a || c == 0x2028 || c == 0x2029 || c == 0x202f || c == 0x205f || c == 0x3000
  }

  /** The contract store refuses a name with surrounding whitespace; of an authority it only refuses blanks. */
  predicate IsTrimmed(text: Text) {
    text == [] || (!IsWhitespace(text[0]) && !IsWhitespace(text[|text| - 1]))
  }

  predicate IsBlank(text: Text) {
    forall i :: 0 <= i < |text| ==> IsWhitespace(text[i])
  }

  /** The materializer looks at the bytes, all of them. */
  predicate IsIdentifier(text: Text) {
    var bytes := Utf8(text);
    && bytes != [] && |bytes| <= 128 && IsLetter(bytes[0])
    && forall i :: 0 <= i < |bytes| ==> IsNamePart(bytes[i])
  }

  const DIGEST_SCHEME: Text := [0x73, 0x68, 0x61, 0x32, 0x35, 0x36, 0x3a]

  /** Both services ask the same of a digest: the scheme and sixty-four lower-case hexadecimal digits. */
  predicate IsDigest(text: Text) {
    && |text| == 71 && text[..7] == DIGEST_SCHEME
    && forall i :: 7 <= i < 71 ==> 0x30 <= text[i] <= 0x39 || 0x61 <= text[i] <= 0x66
  }

  const METRIC_KINDS: set<Text> := {
    [0x67, 0x61, 0x75, 0x67, 0x65],
    [0x73, 0x75, 0x6d],
    [0x68, 0x69, 0x73, 0x74, 0x6f, 0x67, 0x72, 0x61, 0x6d],
    [0x65, 0x78, 0x70, 0x6f, 0x6e, 0x65, 0x6e, 0x74, 0x69, 0x61, 0x6c, 0x48, 0x69, 0x73, 0x74, 0x6f, 0x67, 0x72, 0x61,
     0x6d],
    [0x73, 0x75, 0x6d, 0x6d, 0x61, 0x72, 0x79]
  }

  /** The contract service counts UTF-16 units. */
  predicate IsTelemetryName(text: Text) {
    1 <= |Utf16(text)| <= 256
  }

  predicate ServiceAcceptsSource(source: SourceKey) {
    && IsTelemetryName(source.scope) && IsTelemetryName(source.name)
    && (source.Metric? ==> source.metricKind in METRIC_KINDS && |Utf16(source.unit)| <= 128)
    && (source.SpanEvent? ==> IsTelemetryName(source.spanName))
  }

  /** The materializer counts characters. */
  predicate IsSourceText(text: Text) {
    1 <= |text| <= 256
  }

  predicate SourceIsValid(source: SourceKey) {
    && IsSourceText(source.scope) && IsSourceText(source.name)
    && (source.Metric? ==> source.metricKind in METRIC_KINDS && |source.unit| <= 128)
    && (source.SpanEvent? ==> IsSourceText(source.spanName))
  }

  predicate AuthorityIsValid(authority: Authority) {
    IsIdentifier(authority.tenant) && IsIdentifier(authority.application) && IsIdentifier(authority.environment)
  }

  /** What it takes to be deployed, and so to be current: the contract service validates the contract, and the contract
      store checks name and authority once more. */
  predicate IsDeployable(entry: Entry) {
    && IsDigest(entry.digest)
    && (forall text <- entry.Fields() :: IsDecisionName(text))
    && IsTrimmed(entry.name)
    && !IsBlank(entry.authority.tenant) && !IsBlank(entry.authority.application)
       && !IsBlank(entry.authority.environment)
    && forall source <- entry.sources :: ServiceAcceptsSource(source)
  }

  /** What the contract service publishes: one deployed version of each name, in its own order. */
  ghost predicate IsPublished(entries: seq<Entry>) {
    IsSorted(entries) && forall i :: 0 <= i < |entries| ==> IsDeployable(entries[i])
  }

  lemma {:induction false} EncodedLengths(text: Text)
    ensures |text| <= |Utf16(text)| && |text| <= |Utf8(text)|
    ensures text != [] <==> Utf16(text) != []
  {
    if text != [] { EncodedLengths(text[1..]); }
  }

  predicate IsAscii(text: Text) {
    forall i :: 0 <= i < |text| ==> text[i] < 0x80
  }

  lemma {:induction false} AsciiEncodesItself(text: Text)
    requires IsAscii(text)
    ensures |Utf8(text)| == |Utf16(text)| == |text|
    ensures forall i :: 0 <= i < |text| ==> Utf8(text)[i] == text[i]
  {
    if text != [] { AsciiEncodesItself(text[1..]); }
  }

  /** Bytes that are all below 0x80 come from such characters only. */
  lemma {:induction false} AsciiBytes(text: Text)
    requires forall i :: 0 <= i < |Utf8(text)| ==> Utf8(text)[i] < 0x80
    ensures IsAscii(text)
  {
    if text != [] {
      var first, rest := Utf8Of(text[0]), Utf8(text[1..]);
      assert first[0] == Utf8(text)[0];
      assert forall i :: 0 <= i < |rest| ==> rest[i] == Utf8(text)[|first| + i];
      AsciiBytes(text[1..]);
      assert text == [text[0]] + text[1..];
    }
  }

  /** A name is made of name parts, up to one final line feed. */
  lemma NameIsAscii(text: Text)
    requires IsDecisionName(text)
    ensures IsAscii(text) && text != [] && IsLetter(text[0]) && |text| <= 128
    ensures forall i :: 0 <= i < |text| - 1 ==> IsNamePart(text[i])
    ensures !EndsInLineFeed(text) ==> IsNamePart(text[|text| - 1])
  {
    hide Utf16;
    EncodedLengths(text);
    var value := if EndsInLineFeed(text) then text[..|text| - 1] else text;
    assert IsPlainName(value);
    assert forall i :: 0 <= i < |value| ==> value[i] == text[i];
  }

  /** A name that the one service accepts is an identifier for the other exactly if it does not end in a line feed. */
  lemma NameIsIdentifierExactlyIf(text: Text)
    requires IsDecisionName(text)
    ensures IsIdentifier(text) <==> !EndsInLineFeed(text)
    ensures IsBasic(text)
  {
    hide Utf8, Utf16;
    NameIsAscii(text);
    AsciiEncodesItself(text);
    if EndsInLineFeed(text) {
      assert Utf8(text)[|text| - 1] == LINE_FEED;
    }
  }

  /** The other way round nothing is lost: every identifier is a name. */
  lemma IdentifierIsName(text: Text)
    requires IsIdentifier(text)
    ensures IsDecisionName(text) && !EndsInLineFeed(text)
  {
    hide Utf8, Utf16;
    AsciiBytes(text);
    AsciiEncodesItself(text);
    EncodedLengths(text);
  }

  lemma AcceptedSourceIsValid(source: SourceKey)
    requires ServiceAcceptsSource(source)
    ensures SourceIsValid(source)
  {
    hide Utf16;
    EncodedLengths(source.scope);
    EncodedLengths(source.name);
    if source.Metric? { EncodedLengths(source.unit); }
    if source.SpanEvent? { EncodedLengths(source.spanName); }
  }

  /** Every published catalog is in the order demanded, since what can be deployed sorts alike in both encodings. */
  lemma PublishedIsStrictlyOrdered(entries: seq<Entry>)
    requires IsPublished(entries)
    ensures IsStrictlyOrdered(entries)
  {
    hide IsDecisionName, IsBasic, IsSorted, IsIdentifier;
    forall i | 0 <= i < |entries|
      ensures forall text <- entries[i].Fields() :: IsBasic(text)
    {
      forall text | text in entries[i].Fields()
        ensures IsBasic(text)
      {
        NameIsIdentifierExactlyIf(text);
      }
    }
    SortedBasicPasses(entries);
  }

  // ---------------------------------------------------------------- compiling the catalog

  datatype Route = Route(authority: Authority, source: SourceKey)

  datatype ContractKey = ContractKey(authority: Authority, name: Text)

  datatype Problem =
    | InvalidDigest | DuplicateDigest | InvalidName | InvalidAuthority | InvalidOrder | DuplicateContract
    | InvalidSource | CountOverflow

  datatype Compilation =
    | Compiled(current: map<ContractKey, Text>, counts: map<Route, nat>)
    | Rejected(problem: Problem)

  const MAXIMUM_COUNT: nat := 0xffff_ffff

  predicate Declares(entry: Entry, route: Route) {
    entry.authority == route.authority && route.source in entry.sources
  }

  function Declarers(entries: seq<Entry>, route: Route): nat {
    if entries == [] then 0
    else Declarers(entries[..|entries| - 1], route) + (if Declares(entries[|entries| - 1], route) then 1 else 0)
  }

  function KeyOf(entry: Entry): ContractKey {
    ContractKey(entry.authority, entry.name)
  }

  predicate SourcesAreValid(entry: Entry) {
    forall source <- entry.sources :: SourceIsValid(source)
  }

  predicate EntryIsValid(entry: Entry) {
    IsDigest(entry.digest) && IsIdentifier(entry.name) && AuthorityIsValid(entry.authority) && SourcesAreValid(entry)
  }

  ghost predicate HasFewDeclarers(entries: seq<Entry>) {
    forall route: Route :: Declarers(entries, route) <= MAXIMUM_COUNT
  }

  /** What the materializer accepts. */
  ghost predicate IsAcceptable(entries: seq<Entry>) {
    && (forall i :: 0 <= i < |entries| ==> EntryIsValid(entries[i]))
    && (forall i, j :: 0 <= i < j < |entries| ==> entries[i].digest != entries[j].digest)
    && IsStrictlyOrdered(entries)
    && (forall i, j :: 0 <= i < j < |entries| ==> KeyOf(entries[i]) != KeyOf(entries[j]))
    && HasFewDeclarers(entries)
  }

  ghost predicate CountsDeclarers(entries: seq<Entry>, counts: map<Route, nat>) {
    forall route: Route :: (if route in counts then counts[route] else 0) == Declarers(entries, route)
                           && (route in counts ==> counts[route] > 0)
  }

  ghost predicate HoldsCurrent(entries: seq<Entry>, current: map<ContractKey, Text>) {
    && (forall i :: 0 <= i < |entries| ==>
        && KeyOf(entries[i]) == ContractKey(entries[i].authority, entries[i].name)
        && KeyOf(entries[i]) in current && current[KeyOf(entries[i])] == entries[i].digest)
    && (forall key <- current :: exists i :: 0 <= i < |entries| && KeyOf(entries[i]) == key)
  }

  lemma {:induction false} MoreDeclarers(entries: seq<Entry>, n: nat, route: Route)
    requires n <= |entries|
    ensures Declarers(entries[..n], route) <= Declarers(entries, route)
  {
    if n < |entries| {
      var last := |entries| - 1;
      assert entries[..last][..n] == entries[..n];
      MoreDeclarers(entries[..last], n, route);
    } else {
      assert entries[..n] == entries;
    }
  }

  /** A part of an acceptable catalog is acceptable. */
  lemma PrefixIsAcceptable(entries: seq<Entry>, n: nat)
    requires n <= |entries| && IsAcceptable(entries)
    ensures IsAcceptable(entries[..n])
  {
    hide RustLess, Declarers;
    forall route: Route
      ensures Declarers(entries[..n], route) <= MAXIMUM_COUNT
    {
      MoreDeclarers(entries, n, route);
    }
  }

  /** The routes a contract declares, each of them once however many declarations lead to it. */
  function RoutesOf(entry: Entry): set<Route> {
    set source <- entry.sources :: Route(entry.authority, source)
  }

  lemma RoutesAreDeclared(entry: Entry, route: Route)
    ensures route in RoutesOf(entry) <==> Declares(entry, route)
  {
    if Declares(entry, route) {
      assert route == Route(entry.authority, route.source);
    }
  }

  /** One contract's routes are each counted once more, unless one of the counters is full. */
  method CountRoutes(entry: Entry, counts: map<Route, nat>) returns (result: Option<map<Route, nat>>)
    ensures result.None? <==> exists route <- counts :: Declares(entry, route) && counts[route] >= MAXIMUM_COUNT
    ensures result.Some? ==> forall route: Route ::
              && (route in result.value <==> route in counts || Declares(entry, route))
              && (route in result.value ==>
                    result.value[route] == (if route in counts then counts[route] else 0)
                                           + (if Declares(entry, route) then 1 else 0))
  {
    var routes := RoutesOf(entry);
    forall route: Route
      ensures route in routes <==> Declares(entry, route)
    {
      RoutesAreDeclared(entry, route);
    }
    var counted := counts;
    var rest := routes;
    while rest != {}
      invariant rest <= routes
      invariant forall route <- routes - rest :: route in counts ==> counts[route] < MAXIMUM_COUNT
      invariant forall route: Route ::
                  && (route in counted <==> route in counts || route in routes - rest)
                  && (route in counted ==>
                        counted[route] == (if route in counts then counts[route] else 0)
                                          + (if route in routes - rest then 1 else 0))
      decreases rest
    {
      var route :| route in rest;
      var count := if route in counted then counted[route] else 0;
      if count >= MAXIMUM_COUNT {
        return None;
      }
      counted := counted[route := count + 1];
      rest := rest - {route};
    }
    result := Some(counted);
  }

  /** What the next entry has to bring along. */
  ghost predicate Fits(before: seq<Entry>, entry: Entry) {
    && EntryIsValid(entry)
    && (forall i :: 0 <= i < |before| ==> before[i].digest != entry.digest)
    && (before != [] ==> RustLess(before[|before| - 1], entry))
    && (forall i :: 0 <= i < |before| ==> KeyOf(before[i]) != KeyOf(entry))
    && (forall route: Route :: Declares(entry, route) ==> Declarers(before, route) < MAXIMUM_COUNT)
  }

  lemma OneMoreDeclarer(before: seq<Entry>, entry: Entry, route: Route)
    ensures Declarers(before + [entry], route) == Declarers(before, route) + (if Declares(entry, route) then 1 else 0)
  {
    assert (before + [entry])[..|before|] == before;
  }

  lemma OneMoreIsAcceptable(before: seq<Entry>, entry: Entry)
    requires IsAcceptable(before)
    ensures IsAcceptable(before + [entry]) <==> Fits(before, entry)
  {
    hide RustLess, Declarers, Declares, EntryIsValid;
    var all := before + [entry];
    forall route: Route
      ensures Declarers(all, route) == Declarers(before, route) + (if Declares(entry, route) then 1 else 0)
    {
      OneMoreDeclarer(before, entry, route);
    }
    if IsAcceptable(all) {
      var last := |before|;
      assert all[last] == entry;
      assert forall i :: 0 <= i < last ==> all[i] == before[i];
      assert forall i :: 0 <= i < last ==> all[i].digest != all[last].digest && KeyOf(all[i]) != KeyOf(all[last]);
      if last > 0 {
        assert RustLess(all[last - 1], all[last]);
      }
    }
  }

  lemma CountsGoOn(before: seq<Entry>, entry: Entry, counts: map<Route, nat>, next: map<Route, nat>)
    requires CountsDeclarers(before, counts)
    requires forall route: Route ::
               && (route in next <==> route in counts || Declares(entry, route))
               && (route in next ==> next[route] == (if route in counts then counts[route] else 0)
                                                    + (if Declares(entry, route) then 1 else 0))
    ensures CountsDeclarers(before + [entry], next)
  {
    hide Declarers, Declares;
    forall route: Route
      ensures (if route in next then next[route] else 0) == Declarers(before + [entry], route)
      ensures route in next ==> next[route] > 0
    {
      OneMoreDeclarer(before, entry, route);
    }
  }

  lemma CurrentGoesOn(before: seq<Entry>, entry: Entry, current: map<ContractKey, Text>)
    requires HoldsCurrent(before, current) && KeyOf(entry) !in current
    ensures HoldsCurrent(before + [entry], current[KeyOf(entry) := entry.digest])
  {
    var all := before + [entry];
    assert all[|before|] == entry;
    assert forall i :: 0 <= i < |before| ==> all[i] == before[i];
  }

  lemma TooManyDeclarers(before: seq<Entry>, entry: Entry, counts: map<Route, nat>, route: Route)
    requires CountsDeclarers(before, counts) && route in counts && Declares(entry, route)
    requires counts[route] >= MAXIMUM_COUNT
    ensures Declarers(before, route) >= MAXIMUM_COUNT
  {
  }

  lemma FewEnoughDeclarers(before: seq<Entry>, entry: Entry, counts: map<Route, nat>)
    requires CountsDeclarers(before, counts)
    requires !exists route <- counts :: Declares(entry, route) && counts[route] >= MAXIMUM_COUNT
    ensures forall route: Route :: Declares(entry, route) ==> Declarers(before, route) < MAXIMUM_COUNT
  {
  }

  /** What is wrong with an entry that comes after acceptable ones. */
  ghost predicate Breaks(before: seq<Entry>, entry: Entry, problem: Problem) {
    match problem
    case InvalidDigest => !IsDigest(entry.digest)
    case DuplicateDigest => exists i :: 0 <= i < |before| && before[i].digest == entry.digest
    case InvalidName => !IsIdentifier(entry.name)
    case InvalidAuthority => !AuthorityIsValid(entry.authority)
    case InvalidOrder => before != [] && !RustLess(before[|before| - 1], entry)
    case DuplicateContract => exists i :: 0 <= i < |before| && KeyOf(before[i]) == KeyOf(entry)
    case InvalidSource => !SourcesAreValid(entry)
    case CountOverflow => exists route: Route :: Declares(entry, route) && Declarers(before, route) >= MAXIMUM_COUNT
  }

  /** Compiling accepts exactly the acceptable catalogs; then every current contract is found under its key, and each
      route's count is the number of contracts that declare it. A problem is that of the first entry that has one. */
  method Compile(entries: seq<Entry>) returns (result: Compilation)
    ensures result.Compiled? <==> IsAcceptable(entries)
    ensures result.Compiled? ==> HoldsCurrent(entries, result.current) && CountsDeclarers(entries, result.counts)
    ensures result.Rejected? ==>
              exists i :: 0 <= i < |entries| && IsAcceptable(entries[..i])
                && Breaks(entries[..i], entries[i], result.problem)
  {
    hide RustLess, Declarers, Declares, IsAcceptable, HoldsCurrent, CountsDeclarers, EntryIsValid, Breaks;
    var current: map<ContractKey, Text>, counts: map<Route, nat>, digests: set<Text> := map[], map[], {};
    NothingIsAcceptable();
    for i := 0 to |entries|
      invariant IsAcceptable(entries[..i])
      invariant HoldsCurrent(entries[..i], current) && CountsDeclarers(entries[..i], counts)
      invariant forall digest :: digest in digests <==> exists j :: 0 <= j < i && entries[j].digest == digest
    {
      var entry := entries[i];
      ghost var before := entries[..i];
      assert entries[..i + 1] == before + [entry];
      OneMoreIsAcceptable(before, entry);
      if IsAcceptable(entries) { PrefixIsAcceptable(entries, i + 1); }
      var problem := ProblemOf(entry, i, entries, digests, current);
      if problem.Some? {
        BrokenDoesNotFit(before, entry, problem.value);
        return Rejected(problem.value);
      }
      var counted := CountRoutes(entry, counts);
      if counted.None? {
        var route :| route in counts && Declares(entry, route) && counts[route] >= MAXIMUM_COUNT;
        TooManyDeclarers(before, entry, counts, route);
        OverflowBreaks(before, entry, route);
        BrokenDoesNotFit(before, entry, CountOverflow);
        return Rejected(CountOverflow);
      }
      FewEnoughDeclarers(before, entry, counts);
      UnbrokenFits(before, entry);
      KeysAreCurrent(before, entry, current);
      CountsGoOn(before, entry, counts, counted.value);
      CurrentGoesOn(before, entry, current);
      current := current[KeyOf(entry) := entry.digest];
      counts := counted.value;
      digests := digests + {entry.digest};
    }
    assert entries[..|entries|] == entries;
    result := Compiled(current, counts);
  }

  /** The checks of one entry that do not count anything, in their order. */
  method ProblemOf(entry: Entry, i: nat, entries: seq<Entry>, digests: set<Text>, current: map<ContractKey, Text>)
    returns (problem: Option<Problem>)
    requires i < |entries| && entry == entries[i] && HoldsCurrent(entries[..i], current)
    requires forall digest :: digest in digests <==> exists j :: 0 <= j < i && entries[j].digest == digest
    ensures problem.Some? ==> Breaks(entries[..i], entry, problem.value)
    ensures problem.None? ==>
              forall other: Problem :: Breaks(entries[..i], entry, other) ==> other == CountOverflow
  {
    hide RustLess, HoldsCurrent, IsDigest, IsIdentifier, AuthorityIsValid, SourcesAreValid, Declarers;
    KeysAreCurrent(entries[..i], entry, current);
    if !IsDigest(entry.digest) {
      return Some(InvalidDigest);
    }
    if entry.digest in digests {
      return Some(DuplicateDigest);
    }
    if !IsIdentifier(entry.name) {
      return Some(InvalidName);
    }
    if !AuthorityIsValid(entry.authority) {
      return Some(InvalidAuthority);
    }
    if i > 0 && !RustLess(entries[i - 1], entry) {
      return Some(InvalidOrder);
    }
    if KeyOf(entry) in current {
      return Some(DuplicateContract);
    }
    if !SourcesAreValid(entry) {
      return Some(InvalidSource);
    }
    problem := None;
  }

  lemma BrokenDoesNotFit(before: seq<Entry>, entry: Entry, problem: Problem)
    requires Breaks(before, entry, problem)
    ensures !Fits(before, entry)
  {
    hide RustLess, IsDigest, IsIdentifier, AuthorityIsValid, SourcesAreValid, Declarers, Declares;
  }

  lemma OverflowBreaks(before: seq<Entry>, entry: Entry, route: Route)
    requires Declares(entry, route) && Declarers(before, route) >= MAXIMUM_COUNT
    ensures Breaks(before, entry, CountOverflow)
  {
  }

  lemma UnbrokenFits(before: seq<Entry>, entry: Entry)
    requires forall problem: Problem :: Breaks(before, entry, problem) ==> problem == CountOverflow
    requires forall route: Route :: Declares(entry, route) ==> Declarers(before, route) < MAXIMUM_COUNT
    ensures Fits(before, entry)
    ensures forall i :: 0 <= i < |before| ==> KeyOf(before[i]) != KeyOf(entry)
  {
    hide RustLess, IsDigest, IsIdentifier, AuthorityIsValid, SourcesAreValid, Declarers, Declares;
    assert !Breaks(before, entry, InvalidDigest) && !Breaks(before, entry, DuplicateDigest);
    assert !Breaks(before, entry, InvalidName) && !Breaks(before, entry, InvalidAuthority);
    assert !Breaks(before, entry, InvalidOrder) && !Breaks(before, entry, DuplicateContract);
    assert !Breaks(before, entry, InvalidSource);
  }

  lemma NothingIsAcceptable()
    ensures IsAcceptable([]) && HoldsCurrent([], map[]) && CountsDeclarers([], map[])
  {
  }

  lemma KeysAreCurrent(before: seq<Entry>, entry: Entry, current: map<ContractKey, Text>)
    requires HoldsCurrent(before, current)
    ensures KeyOf(entry) in current <==> exists i :: 0 <= i < |before| && KeyOf(before[i]) == KeyOf(entry)
  {
  }

  ghost predicate AuthorityEndsInLineFeed(authority: Authority) {
    EndsInLineFeed(authority.tenant) || EndsInLineFeed(authority.application) || EndsInLineFeed(authority.environment)
  }

  /** What can be deployed is valid for the materializer exactly if no part of its authority ends in a line feed. */
  lemma DeployableIsValidExactlyIf(entry: Entry)
    requires IsDeployable(entry)
    ensures EntryIsValid(entry) <==> !AuthorityEndsInLineFeed(entry.authority)
    ensures AuthorityIsValid(entry.authority) <==> !AuthorityEndsInLineFeed(entry.authority)
    ensures IsDigest(entry.digest) && IsIdentifier(entry.name) && SourcesAreValid(entry)
  {
    hide IsDecisionName, IsIdentifier, IsDigest, ServiceAcceptsSource, SourceIsValid, IsBlank, IsBasic;
    var fields := entry.Fields();
    assert fields[0] in fields && fields[1] in fields && fields[2] in fields && fields[3] in fields;
    NameIsIdentifierExactlyIf(entry.name);
    NameIsIdentifierExactlyIf(entry.authority.tenant);
    NameIsIdentifierExactlyIf(entry.authority.application);
    NameIsIdentifierExactlyIf(entry.authority.environment);
    forall source | source in entry.sources
      ensures SourceIsValid(source)
    {
      AcceptedSourceIsValid(source);
    }
  }

  /** Unless two contracts share a digest, a published catalog is accepted exactly if no part of an authority in it ends
      in a line feed, and no counter overflows. */
  lemma PublishedIsAcceptedExactlyIf(entries: seq<Entry>)
    requires IsPublished(entries)
    requires forall i, j :: 0 <= i < j < |entries| ==> entries[i].digest != entries[j].digest
    ensures IsAcceptable(entries) <==>
            && (forall i :: 0 <= i < |entries| ==> !AuthorityEndsInLineFeed(entries[i].authority))
            && HasFewDeclarers(entries)
  {
    hide IsDeployable, IsStrictlyOrdered, EntryIsValid, AuthorityEndsInLineFeed, Declarers, ServiceLess,
         AuthorityIsValid, IsDigest, IsIdentifier, SourcesAreValid;
    PublishedIsStrictlyOrdered(entries);
    forall i | 0 <= i < |entries|
      ensures EntryIsValid(entries[i]) <==> !AuthorityEndsInLineFeed(entries[i].authority)
    {
      DeployableIsValidExactlyIf(entries[i]);
    }
  }

  /** Up to the largest count of contracts no counter overflows. */
  lemma {:induction false} FewContractsHaveFewDeclarers(entries: seq<Entry>, route: Route)
    ensures Declarers(entries, route) <= |entries|
  {
    if entries != [] { FewContractsHaveFewDeclarers(entries[..|entries| - 1], route); }
  }

  /** The only problem a published catalog can have then is an authority that ends in a line feed. */
  lemma PublishedBreaksOnlyByAuthority(entries: seq<Entry>, i: nat, problem: Problem)
    requires IsPublished(entries) && |entries| <= MAXIMUM_COUNT && i < |entries|
    requires forall i, j :: 0 <= i < j < |entries| ==> entries[i].digest != entries[j].digest
    requires Breaks(entries[..i], entries[i], problem)
    ensures problem == InvalidAuthority && AuthorityEndsInLineFeed(entries[i].authority)
  {
    hide IsDeployable, EntryIsValid, AuthorityEndsInLineFeed, Declarers, ServiceLess, AuthorityIsValid, IsDigest,
         IsIdentifier, SourcesAreValid, RustLess;
    PublishedIsStrictlyOrdered(entries);
    DeployableIsValidExactlyIf(entries[i]);
    if problem == CountOverflow {
      var route: Route :| Declares(entries[i], route) && Declarers(entries[..i], route) >= MAXIMUM_COUNT;
      FewContractsHaveFewDeclarers(entries[..i], route);
    }
  }

  /** The tenant is "acme" and a line feed. */
  function LineFeedEntry(digits: Text): Entry
    requires |digits| == 64
  {
    Entry(Authority([0x61, 0x63, 0x6d, 0x65, LINE_FEED], [0x61], [0x61]), [0x61], DIGEST_SCHEME + digits, [])
  }

  /** A catalog that is published and rejected. */
  lemma LineFeedIsPublishedAndRejected(digits: Text)
    requires |digits| == 64 && forall i :: 0 <= i < 64 ==> 0x30 <= digits[i] <= 0x39
    ensures IsPublished([LineFeedEntry(digits)]) && !IsAcceptable([LineFeedEntry(digits)])
    ensures Breaks([], LineFeedEntry(digits), InvalidAuthority)
  {
    var entry := LineFeedEntry(digits);
    var tenant: Text, other: Text := [0x61, 0x63, 0x6d, 0x65, LINE_FEED], [0x61];
    NamePartsAreName([0x61, 0x63, 0x6d, 0x65]);
    NamePartsAreName(other);
    assert tenant == [0x61, 0x63, 0x6d, 0x65] + [LINE_FEED];
    assert IsDigest(entry.digest);
    assert !IsWhitespace(tenant[0]) && !IsWhitespace(other[0]);
    hide IsDecisionName, IsDigest;
    assert IsDeployable(entry);
    DeployableIsValidExactlyIf(entry);
    assert EndsInLineFeed(entry.authority.tenant);
    var entries := [entry];
    assert entries[0] == entry;
  }

  lemma NamePartsAreName(text: Text)
    requires |text| < 128 && IsPlainName(text)
    ensures IsDecisionName(text) && IsDecisionName(text + [LINE_FEED])
  {
    hide Utf16;
    var longer := text + [LINE_FEED];
    assert longer[..|longer| - 1] == text;
    assert IsAscii(text) && IsAscii(longer);
    AsciiEncodesItself(text);
    AsciiEncodesItself(longer);
  }
}
