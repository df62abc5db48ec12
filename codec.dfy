/** The field codecs of the collectd binary protocol decoder: the part-type and
    datasource-kind constants, the string, number and value-list decoders, and
    the table that picks a decoder by part type.

    Every decoder receives, as in the original, the whole remainder of the
    datagram after the field's 4-byte header (`rest`), together with the
    declared payload length `plen`; only the string decoder looks at `plen`. */
module Codec {
  import opened Results
  import opened Bytes

  const TypeHost: nat := 0x0000
  const TypeTime: nat := 0x0001
  const TypePlugin: nat := 0x0002
  const TypePluginInstance: nat := 0x0003
  const TypeType: nat := 0x0004
  const TypeTypeInstance: nat := 0x0005
  const TypeValues: nat := 0x0006
  const TypeInterval: nat := 0x0007
  const TypeMessage: nat := 0x0100
  const TypeSeverity: nat := 0x0101

  const DsCounter: byte := 0
  const DsGauge: byte := 1
  const DsDerive: byte := 2
  const DsAbsolute: byte := 3

  const HeaderSize: nat := 4
  const NValuesSize: nat := 2
  const DataValueSize: nat := 8

  /** The part types whose payload is NUL-terminated text. */
  const StringTypes: set<nat> :=
    {TypeHost, TypePlugin, TypePluginInstance, TypeType, TypeTypeInstance, TypeMessage}
  /** The part types whose payload is a 64-bit integer. */
  const NumberTypes: set<nat> := {TypeTime, TypeInterval, TypeSeverity}

  /** A sample's value: an integer for counters, derives and absolutes; for a
      gauge, the eight raw bytes of its IEEE double. */
  datatype DsValue = Integer(n: int) | DoubleBytes(raw: seq<byte>)

  /** `{ds_type: dtype, ds_value: ...}` */
  datatype DataSample = DataSample(dsType: byte, dsValue: DsValue)

  datatype FieldValue = Text(text: string) | Number(n: int) | Samples(samples: seq<DataSample>)

  /** `{type: ptype, value: ...}`, what each decoder returns. */
  datatype DecodedField = DecodedField(ptype: nat, value: FieldValue)

  /** Why a payload did not decode: the parser was handed too few bytes, or a
      value-list kind tag is none of the four datasource kinds. */
  datatype CodecError = MissingBytes | UnknownDsType(dtype: byte)

  /** The decoder registered for a part type in `_decoders`. */
  datatype Decoder = StringDecoder | NumberDecoder | ValuesDecoder

  /** The value of a full 8-byte slot under one of the four datasource kinds. */
  function SlotValue(dtype: byte, slot: seq<byte>): DsValue
    requires dtype <= DsAbsolute && |slot| == DataValueSize
  {
    if dtype == DsGauge then DoubleBytes(slot)
    else Integer(DecodeInt64(slot, dtype == DsDerive).value)
  }

  /** One 8-byte slot of a value list read under kind tag `dtype`: the switch on
      the kind, whose default case throws, and the parser's read of the slot,
      which fails when the datagram ends before the slot does. */
  function DecodeSample(dtype: byte, dvals: seq<byte>): (r: Result<DataSample, CodecError>)
    ensures r.Ok? <==> dtype <= DsAbsolute && |dvals| >= DataValueSize
    ensures dtype > DsAbsolute ==> r == Err(UnknownDsType(dtype))
  {
    if dtype > DsAbsolute then Err(UnknownDsType(dtype))
    else if |dvals| < DataValueSize then Err(MissingBytes)
    else Ok(DataSample(dtype, SlotValue(dtype, dvals[..DataValueSize])))
  }

  /** A decoded sample keeps its kind tag; a counter or absolute is the slot's
      unsigned big-endian value, a derive its two's-complement value, a gauge the
      slot's eight bytes. */
  lemma SampleValue(dtype: byte, dvals: seq<byte>)
    requires DecodeSample(dtype, dvals).Ok?
    ensures var s := DecodeSample(dtype, dvals).value;
      && s.dsType == dtype
      && ((dtype == DsCounter || dtype == DsAbsolute) ==> s.dsValue == Integer(BeUint(dvals[..8])))
      && (dtype == DsDerive ==>
            && s.dsValue.Integer? && -TwoTo63 <= s.dsValue.n < TwoTo63
            && (s.dsValue.n == BeUint(dvals[..8]) || s.dsValue.n == BeUint(dvals[..8]) - TwoTo64))
      && (dtype == DsGauge ==> s.dsValue == DoubleBytes(dvals[..8]))
  {
    var slot := dvals[..DataValueSize];
    assert slot[..8] == slot;
  }

  /** Where the slot of the `i`-th sample of an `n`-sample list begins. */
  function SlotOffset(n: nat, i: nat): nat {
    NValuesSize + n + DataValueSize * i
  }

  /** The samples of kind tags `tags[k..]`, each from its own slot; the first
      slot that fails decides the error. */
  function DecodeSlots(rest: seq<byte>, n: nat, tags: seq<byte>, k: nat): (r: Result<seq<DataSample>, CodecError>)
    requires k <= |tags|
    ensures r.Ok? ==> forall j :: 0 <= j < |r.value| ==> r.value[j].dsType <= DsAbsolute
    ensures r.Err? && r.error.UnknownDsType? ==> r.error.dtype > DsAbsolute
    decreases |tags| - k
  {
    if k == |tags| then Ok([])
    else
      match DecodeSample(tags[k], GetBytes(rest, SlotOffset(n, k), DataValueSize))
      case Err(e) => Err(e)
      case Ok(s) => Prepend([s], DecodeSlots(rest, n, tags, k + 1))
  }

  /** What `_decode_network_values` computes: the count, the kind tags that
      follow it, and one sample per kind tag. */
  function ValueList(rest: seq<byte>): (r: Result<seq<DataSample>, CodecError>)
    ensures |rest| < NValuesSize ==> r == Err(MissingBytes)
    ensures r.Ok? ==> forall j :: 0 <= j < |r.value| ==> r.value[j].dsType <= DsAbsolute
    ensures r.Err? && r.error.UnknownDsType? ==> r.error.dtype > DsAbsolute
  {
    match ToShort(GetBytes(rest, 0, NValuesSize))
    case None => Err(MissingBytes)
    case Some(n) => DecodeSlots(rest, n, GetBytes(rest, NValuesSize, n), 0)
  }

  /** `_decode_network_values`: a loop over the kind tags that advances the slot
      offset by 8 per sample and stops at the first sample that fails. */
  method DecodeValueList(rest: seq<byte>) returns (r: Result<seq<DataSample>, CodecError>)
    ensures r == ValueList(rest)
  {
    var count := ToShort(GetBytes(rest, 0, NValuesSize));
    if count.None? {
      return Err(MissingBytes);
    }
    var nval := count.value;
    var offs := NValuesSize + nval;
    var tags := GetBytes(rest, NValuesSize, nval);
    var results: seq<DataSample> := [];
    PrependEmpty(DecodeSlots(rest, nval, tags, 0));
    for i := 0 to |tags|
      invariant offs == SlotOffset(nval, i)
      invariant DecodeSlots(rest, nval, tags, 0) == Prepend(results, DecodeSlots(rest, nval, tags, i))
    {
      var dvals := GetBytes(rest, offs, DataValueSize);
      offs := offs + DataValueSize;
      var sample := DecodeSample(tags[i], dvals);
      if sample.Err? {
        return Err(sample.error);
      }
      PrependAssociates(results, [sample.value], DecodeSlots(rest, nval, tags, i + 1));
      results := results + [sample.value];
    }
    assert results + [] == results;
    return Ok(results);
  }

  lemma {:induction false} DecodeSlotsLength(rest: seq<byte>, n: nat, tags: seq<byte>, k: nat)
    requires k <= |tags|
    requires DecodeSlots(rest, n, tags, k).Ok?
    ensures |DecodeSlots(rest, n, tags, k).value| == |tags| - k
    decreases |tags| - k
  {
    if k < |tags| {
      DecodeSlotsLength(rest, n, tags, k + 1);
    }
  }

  lemma {:induction false} DecodeSlotsAt(rest: seq<byte>, n: nat, tags: seq<byte>, k: nat, i: nat)
    requires k <= i < |tags|
    requires DecodeSlots(rest, n, tags, k).Ok?
    ensures i - k < |DecodeSlots(rest, n, tags, k).value|
    ensures DecodeSample(tags[i], GetBytes(rest, SlotOffset(n, i), DataValueSize))
      == Ok(DecodeSlots(rest, n, tags, k).value[i - k])
    decreases i - k
  {
    DecodeSlotsLength(rest, n, tags, k);
    if k < i {
      DecodeSlotsAt(rest, n, tags, k + 1, i);
    }
  }

  /** A successful value list holds exactly N samples, N being the leading count,
      unless the remainder ends right after the count, in which case the clamped
      tag slice is empty and so is the list. */
  lemma ValueListCount(rest: seq<byte>)
    requires ValueList(rest).Ok?
    ensures |rest| >= NValuesSize
    ensures
      var n := rest[0] as int * 256 + rest[1] as int;
      |ValueList(rest).value| == n || (ValueList(rest).value == [] && |rest| == NValuesSize)
  {
    var n := ToShort(GetBytes(rest, 0, NValuesSize)).value;
    var tags := GetBytes(rest, NValuesSize, n);
    DecodeSlotsLength(rest, n, tags, 0);
    if |tags| > 0 {
      DecodeSlotsAt(rest, n, tags, 0, 0);
      assert |GetBytes(rest, SlotOffset(n, 0), DataValueSize)| >= DataValueSize;
      assert |tags| == n;
    }
  }

  /** Sample `i` of a successful value list has the kind tag at offset 2 + i and
      is read from the 8 bytes at 2 + N + 8i, which lie inside the datagram. */
  lemma ValueListSampleAt(rest: seq<byte>, i: nat)
    requires ValueList(rest).Ok? && i < |ValueList(rest).value|
    ensures |rest| >= NValuesSize
    ensures
      var n := rest[0] as int * 256 + rest[1] as int;
      var sample := ValueList(rest).value[i];
      && SlotOffset(n, i) + DataValueSize <= |rest|
      && sample.dsType == rest[NValuesSize + i]
      && Ok(sample) == DecodeSample(rest[NValuesSize + i], rest[SlotOffset(n, i)..SlotOffset(n, i) + DataValueSize])
  {
    var head := GetBytes(rest, 0, NValuesSize);
    var n := ToShort(head).value;
    assert head == rest[..2];
    var tags := GetBytes(rest, NValuesSize, n);
    DecodeSlotsLength(rest, n, tags, 0);
    DecodeSlotsAt(rest, n, tags, 0, i);
    var slot := SlotOffset(n, i);
    var dvals := GetBytes(rest, slot, DataValueSize);
    assert |dvals| >= DataValueSize;
    assert dvals == rest[slot..slot + DataValueSize];
    assert tags[i] == rest[NValuesSize + i];
    SampleValue(tags[i], dvals);
  }

  /** A successful value list: one sample per kind tag, in the order of the tags,
      each read from its own slot. */
  lemma ValueListSamples(rest: seq<byte>)
    requires ValueList(rest).Ok?
    ensures |rest| >= NValuesSize
    ensures
      var n := rest[0] as int * 256 + rest[1] as int;
      var samples := ValueList(rest).value;
      && (|samples| == n || (samples == [] && |rest| == NValuesSize))
      && forall i :: 0 <= i < |samples| ==>
           && SlotOffset(n, i) + DataValueSize <= |rest|
           && samples[i].dsType == rest[NValuesSize + i]
           && Ok(samples[i]) == DecodeSample(rest[NValuesSize + i],
                                             rest[SlotOffset(n, i)..SlotOffset(n, i) + DataValueSize])
  {
    ValueListCount(rest);
    var n := rest[0] as int * 256 + rest[1] as int;
    var samples := ValueList(rest).value;
    forall i | 0 <= i < |samples|
      ensures SlotOffset(n, i) + DataValueSize <= |rest|
      ensures samples[i].dsType == rest[NValuesSize + i]
      ensures Ok(samples[i]) == DecodeSample(rest[NValuesSize + i],
                                             rest[SlotOffset(n, i)..SlotOffset(n, i) + DataValueSize])
    {
      ValueListSampleAt(rest, i);
    }
  }

  lemma {:induction false} DecodeSlotsComplete(rest: seq<byte>, n: nat, tags: seq<byte>, k: nat)
    requires k <= |tags| == n
    requires SlotOffset(n, n) <= |rest|
    requires forall i :: k <= i < n ==> tags[i] <= DsAbsolute
    ensures DecodeSlots(rest, n, tags, k).Ok?
    decreases n - k
  {
    if k < n {
      assert |GetBytes(rest, SlotOffset(n, k), DataValueSize)| == DataValueSize;
      DecodeSlotsComplete(rest, n, tags, k + 1);
    }
  }

  /** Conversely, a count N followed by N datasource-kind tags and N full slots
      always decodes, to N samples. */
  lemma ValueListComplete(rest: seq<byte>)
    requires |rest| >= NValuesSize
    requires
      var n := rest[0] as int * 256 + rest[1] as int;
      SlotOffset(n, n) <= |rest| && forall i :: NValuesSize <= i < NValuesSize + n ==> rest[i] <= DsAbsolute
    ensures ValueList(rest).Ok?
    ensures |ValueList(rest).value| == rest[0] as int * 256 + rest[1] as int
  {
    var n := ToShort(GetBytes(rest, 0, NValuesSize)).value;
    var tags := GetBytes(rest, NValuesSize, n);
    assert forall i :: 0 <= i < n ==> tags[i] == rest[NValuesSize + i];
    DecodeSlotsComplete(rest, n, tags, 0);
    DecodeSlotsLength(rest, n, tags, 0);
  }

  lemma {:induction false} DecodeSlotsFailsAt(rest: seq<byte>, n: nat, tags: seq<byte>, k: nat, i: nat)
    requires k <= i < |tags|
    requires tags[i] > DsAbsolute
    ensures DecodeSlots(rest, n, tags, k).Err?
    decreases i - k
  {
    if k < i {
      DecodeSlotsFailsAt(rest, n, tags, k + 1, i);
    }
  }

  /** A kind tag outside Counter, Gauge, Derive and Absolute among the tags fails
      the whole value list. */
  lemma UnknownKindFailsValueList(rest: seq<byte>, i: nat)
    requires NValuesSize + i < |rest|
    requires i < rest[0] as int * 256 + rest[1] as int
    requires rest[NValuesSize + i] > DsAbsolute
    ensures ValueList(rest).Err?
  {
    var n := ToShort(GetBytes(rest, 0, NValuesSize)).value;
    var tags := GetBytes(rest, NValuesSize, n);
    assert tags[i] == rest[NValuesSize + i];
    DecodeSlotsFailsAt(rest, n, tags, 0, i);
  }

  /** The datasource-kind readings: an all-ones slot is -1 as a derive and
      2^64 - 1 as a counter or absolute; the slot 0x0000000000000001 is 1. */
  lemma KindReadings(dvals: seq<byte>)
    requires |dvals| == DataValueSize
    ensures (forall i :: 0 <= i < |dvals| ==> dvals[i] == 255) ==>
      && DecodeSample(DsDerive, dvals) == Ok(DataSample(DsDerive, Integer(-1)))
      && DecodeSample(DsCounter, dvals) == Ok(DataSample(DsCounter, Integer(TwoTo64 - 1)))
      && DecodeSample(DsAbsolute, dvals) == Ok(DataSample(DsAbsolute, Integer(TwoTo64 - 1)))
    ensures (dvals[7] == 1 && forall i :: 0 <= i < 7 ==> dvals[i] == 0) ==>
      && DecodeSample(DsCounter, dvals) == Ok(DataSample(DsCounter, Integer(1)))
      && DecodeSample(DsDerive, dvals) == Ok(DataSample(DsDerive, Integer(1)))
  {
    assert dvals[..8] == dvals;
    Pow256Eight();
    if forall i :: 0 <= i < |dvals| ==> dvals[i] == 255 {
      BeUintAllOnes(dvals);
    }
    if dvals[7] == 1 && forall i :: 0 <= i < 7 ==> dvals[i] == 0 {
      BeUintAllZeros(dvals[..7]);
    }
  }

  /** `decode_network_string` as corrected: the payload without its final byte,
      the NUL terminator; an empty payload gives the empty text. */
  function DecodeNetworkString(ptype: nat, plen: nat, rest: seq<byte>): (f: DecodedField)
    ensures f.ptype == ptype && f.value.Text?
    ensures plen == 0 ==> f.value.text == ""
    ensures 0 < plen <= |rest| ==> f.value.text == AsciiText(rest[..plen - 1])
  {
    if plen == 0 then DecodedField(ptype, Text(""))
    else DecodedField(ptype, Text(AsciiText(GetBytes(rest, 0, plen - 1))))
  }

  /** `decode_network_string` as written: `getBytes(0, plen - 1)`, which for an
      empty payload is `slice(0, -1)`, everything after the header but the last byte. */
  function DecodeNetworkStringAsWritten(ptype: nat, plen: int, rest: seq<byte>): (f: DecodedField)
    ensures f.ptype == ptype && f.value.Text?
    ensures plen == 0 && rest != [] ==> f.value.text == AsciiText(rest[..|rest| - 1])
    ensures 0 < plen <= |rest| ==> f == DecodeNetworkString(ptype, plen, rest)
  {
    DecodedField(ptype, Text(AsciiText(GetBytes(rest, 0, plen - 1))))
  }

  /** The two string decoders differ on an empty payload followed by more data:
      a Message part of declared length 4 followed by a Host part reads the Host
      part's header as its text instead of the empty text. */
  lemma EmptyStringPayloadReadsAhead()
    ensures
      var rest: seq<byte> := [0, 0, 0, 5, 65];
      && DecodeNetworkStringAsWritten(TypeMessage, 0, rest).value.text == [0 as char, 0 as char, 0 as char, 5 as char]
      && DecodeNetworkString(TypeMessage, 0, rest).value.text == ""
  {
    var rest: seq<byte> := [0, 0, 0, 5, 65];
    var t := DecodeNetworkStringAsWritten(TypeMessage, 0, rest).value.text;
    assert |t| == 4;
    assert t == [0 as char, 0 as char, 0 as char, 5 as char];
  }

  /** `decode_network_number`: the first 8 bytes after the header as a signed
      64-bit big-endian integer. */
  function DecodeNetworkNumber(ptype: nat, plen: int, rest: seq<byte>): (r: Result<DecodedField, CodecError>)
    ensures r.Ok? <==> |rest| >= 8
    ensures r.Ok? ==> r.value.ptype == ptype && r.value.value.Number?
    ensures r.Ok? ==>
      -TwoTo63 <= r.value.value.n < TwoTo63 &&
      (r.value.value.n == BeUint(rest[..8]) || r.value.value.n == BeUint(rest[..8]) - TwoTo64)
  {
    match DecodeInt64(rest, true)
    case None => Err(MissingBytes)
    case Some(v) => Ok(DecodedField(ptype, Number(v)))
  }

  /** `decode_network_values`: the value list under the part's own type. */
  function DecodeNetworkValues(ptype: nat, plen: int, rest: seq<byte>): (r: Result<DecodedField, CodecError>)
    ensures r.Ok? <==> ValueList(rest).Ok?
    ensures r.Ok? ==> r.value == DecodedField(ptype, Samples(ValueList(rest).value))
    ensures r.Err? ==> r.error == ValueList(rest).error
  {
    match ValueList(rest)
    case Err(e) => Err(e)
    case Ok(samples) => Ok(DecodedField(ptype, Samples(samples)))
  }

  /** The `_decoders` table: the six text types, the three number types and
      VALUES have a decoder, no other part type has. */
  function Decoders(ptype: nat): (d: Option<Decoder>)
    ensures d == Some(StringDecoder) <==> ptype in StringTypes
    ensures d == Some(NumberDecoder) <==> ptype in NumberTypes
    ensures d == Some(ValuesDecoder) <==> ptype == TypeValues
    ensures d.None? <==> ptype !in StringTypes + NumberTypes + {TypeValues}
  {
    if ptype == TypeValues then Some(ValuesDecoder)
    else if ptype == TypeTime || ptype == TypeInterval || ptype == TypeSeverity then Some(NumberDecoder)
    else if ptype == TypeHost || ptype == TypePlugin || ptype == TypePluginInstance
         || ptype == TypeType || ptype == TypeTypeInstance || ptype == TypeMessage then Some(StringDecoder)
    else None
  }

  /** A decoder call as the packet walker makes it: the registered decoder, the
      part type, the payload length and the rest of the datagram. */
  type DecodeFn = (Decoder, nat, nat, seq<byte>) -> Result<DecodedField, CodecError>

  /** `_decoders[ptype](ptype, plen, rest)` with the corrected string decoder. */
  function ApplyDecoder(d: Decoder, ptype: nat, plen: nat, rest: seq<byte>): (r: Result<DecodedField, CodecError>)
    ensures d == StringDecoder ==> r.Ok?
    ensures r.Ok? ==> r.value.ptype == ptype
    ensures r.Ok? ==> (r.value.value.Text? <==> d == StringDecoder) && (r.value.value.Number? <==> d == NumberDecoder)
  {
    match d
    case StringDecoder => Ok(DecodeNetworkString(ptype, plen, rest))
    case NumberDecoder => DecodeNetworkNumber(ptype, plen, rest)
    case ValuesDecoder => DecodeNetworkValues(ptype, plen, rest)
  }

  /** `_decoders[ptype](ptype, plen, rest)` as written, `plen` possibly negative. */
  function ApplyDecoderAsWritten(d: Decoder, ptype: nat, plen: int, rest: seq<byte>): (r: Result<DecodedField, CodecError>)
    ensures d != StringDecoder ==> r == ApplyDecoder(d, ptype, 0, rest)
    ensures d == StringDecoder && 0 < plen <= |rest| ==> r == ApplyDecoder(d, ptype, plen, rest)
  {
    match d
    case StringDecoder => Ok(DecodeNetworkStringAsWritten(ptype, plen, rest))
    case NumberDecoder => DecodeNetworkNumber(ptype, plen, rest)
    case ValuesDecoder => DecodeNetworkValues(ptype, plen, rest)
  }

  /** The call of the registered decoder, running the value-list loop for VALUES. */
  method DecodeWith(d: Decoder, ptype: nat, plen: nat, rest: seq<byte>) returns (r: Result<DecodedField, CodecError>)
    ensures r == ApplyDecoder(d, ptype, plen, rest)
  {
    match d
    case StringDecoder =>
      r := Ok(DecodeNetworkString(ptype, plen, rest));
    case NumberDecoder =>
      r := DecodeNetworkNumber(ptype, plen, rest);
    case ValuesDecoder =>
      var samples := DecodeValueList(rest);
      if samples.Err? {
        r := Err(samples.error);
      } else {
        r := Ok(DecodedField(ptype, Samples(samples.value)));
      }
  }
}
