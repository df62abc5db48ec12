/** `Reader.prototype.objectize` and `Reader.prototype.recv`: the decoded parts of
    one datagram folded, in order, into two accumulators, the value list `vl` and
    the notification `nt`. Every context part (time, host, plugin, ...) sets its
    key on the accumulators it belongs to; a VALUES part sets `data` and hands
    `vl` to the handler, a MESSAGE part sets `message` and hands `nt` to it.

    The handler's calls are modelled as the sequence of records it receives, each
    the accumulator as it stands at the call. */
module Aggregator {
  import opened Results
  import opened Bytes
  import opened Codec
  import opened Packet

  /** A JavaScript object built by the aggregator, keyed by property name. */
  type Object = map<string, FieldValue>

  /** One call of the handler: `cb(vl)` or `cb(nt)`. */
  datatype Record = Metric(vl: Object) | Notice(nt: Object)

  /** The two accumulators and the handler calls made so far. */
  datatype State = State(vl: Object, nt: Object, emitted: seq<Record>)

  /** Which accumulator a key is set on. */
  datatype Side = VlSide | NtSide

  function Acc(s: State, side: Side): Object {
    match side
    case VlSide => s.vl
    case NtSide => s.nt
  }

  /** The property a part type sets on `vl` (VlSide) or on `nt` (NtSide), if any. */
  function KeyFor(side: Side, ptype: nat): (k: Option<string>)
    ensures k.Some? ==> ptype in StringTypes + NumberTypes + {TypeValues}
    ensures side == VlSide ==> (k == Some("data") <==> ptype == TypeValues)
    ensures side == NtSide ==> (k == Some("message") <==> ptype == TypeMessage)
  {
    if ptype == TypeTime then Some("time")
    else if ptype == TypeInterval then (if side == VlSide then Some("interval") else None)
    else if ptype == TypeHost then Some("host")
    else if ptype == TypePlugin then Some("plugin")
    else if ptype == TypeType then Some("type")
    else if ptype == TypeSeverity then (if side == NtSide then Some("severity") else None)
    else if ptype == TypeTypeInstance then Some("typeinstance")
    else if ptype == TypePluginInstance then Some("plugininstance")
    else if ptype == TypeMessage then (if side == NtSide then Some("message") else None)
    else if ptype == TypeValues then (if side == VlSide then Some("data") else None)
    else None
  }

  /** The context part types: each sets the same key on both accumulators. */
  const SharedTypes: set<nat> :=
    {TypeTime, TypeHost, TypePlugin, TypeType, TypeTypeInstance, TypePluginInstance}

  /** The cases of the switch, side by side: the six context types set one key on
      both accumulators, INTERVAL and VALUES only on `vl`, SEVERITY and MESSAGE
      only on `nt`, and any other part type sets nothing. */
  lemma KeySides(ptype: nat)
    ensures ptype in SharedTypes ==> KeyFor(VlSide, ptype).Some? && KeyFor(VlSide, ptype) == KeyFor(NtSide, ptype)
    ensures ptype == TypeTime ==> KeyFor(VlSide, ptype) == Some("time")
    ensures ptype == TypeHost ==> KeyFor(VlSide, ptype) == Some("host")
    ensures ptype == TypePlugin ==> KeyFor(VlSide, ptype) == Some("plugin")
    ensures ptype == TypeType ==> KeyFor(VlSide, ptype) == Some("type")
    ensures ptype == TypeTypeInstance ==> KeyFor(VlSide, ptype) == Some("typeinstance")
    ensures ptype == TypePluginInstance ==> KeyFor(VlSide, ptype) == Some("plugininstance")
    ensures ptype == TypeInterval ==> KeyFor(VlSide, ptype) == Some("interval") && KeyFor(NtSide, ptype).None?
    ensures ptype == TypeValues ==> KeyFor(NtSide, ptype).None?
    ensures ptype == TypeSeverity ==> KeyFor(NtSide, ptype) == Some("severity") && KeyFor(VlSide, ptype).None?
    ensures ptype == TypeMessage ==> KeyFor(VlSide, ptype).None?
    ensures ptype !in StringTypes + NumberTypes + {TypeValues} ==> KeyFor(VlSide, ptype).None? && KeyFor(NtSide, ptype).None?
  {
  }

  /** Different part types never set the same key on an accumulator. */
  lemma KeyForInjective(side: Side, p: nat, q: nat)
    requires KeyFor(side, p).Some? && KeyFor(side, p) == KeyFor(side, q)
    ensures p == q
  {
  }

  /** The keys each accumulator can hold. */
  const VlKeys: set<string> := {"time", "interval", "host", "plugin", "type", "typeinstance", "plugininstance", "data"}
  const NtKeys: set<string> := {"time", "host", "plugin", "type", "severity", "typeinstance", "plugininstance", "message"}

  function Assign(o: Object, key: Option<string>, v: FieldValue): Object {
    if key.Some? then o[key.value := v] else o
  }

  /** The parts that call the handler. */
  predicate Emits(ptype: nat) {
    ptype == TypeValues || ptype == TypeMessage
  }

  /** The case of the switch for one decoded part. */
  function Step(s: State, f: DecodedField): (r: State)
    ensures s.emitted <= r.emitted && |r.emitted| == |s.emitted| + (if Emits(f.ptype) then 1 else 0)
  {
    var vl := Assign(s.vl, KeyFor(VlSide, f.ptype), f.value);
    var nt := Assign(s.nt, KeyFor(NtSide, f.ptype), f.value);
    var calls := if f.ptype == TypeValues then [Metric(vl)]
                 else if f.ptype == TypeMessage then [Notice(nt)]
                 else [];
    State(vl, nt, s.emitted + calls)
  }

  /** A part of a type the switch has no case for changes nothing; any part other
      than VALUES and MESSAGE makes no call. */
  lemma StepUnlisted(s: State, f: DecodedField)
    ensures f.ptype !in StringTypes + NumberTypes + {TypeValues} ==> Step(s, f) == s
    ensures !Emits(f.ptype) ==> Step(s, f).emitted == s.emitted
  {
    KeySides(f.ptype);
  }

  /** The accumulators and handler calls after the parts `d`, starting from two
      empty objects. */
  function Aggregate(d: seq<DecodedField>): (r: State)
    ensures |r.emitted| <= |d|
    decreases |d|
  {
    if d == [] then State(map[], map[], [])
    else Step(Aggregate(d[..|d| - 1]), d[|d| - 1])
  }

  /** `objectize(d, cb)`: the loop over the parts with the switch on the part type;
      returns the records handed to `cb`, in call order. */
  method Objectize(d: seq<DecodedField>) returns (emitted: seq<Record>)
    ensures emitted == Aggregate(d).emitted
  {
    var vl: Object := map[];
    var nt: Object := map[];
    emitted := [];
    for i := 0 to |d|
      invariant State(vl, nt, emitted) == Aggregate(d[..i])
    {
      var data := d[i];
      if data.ptype == TypeTime {
        vl := vl["time" := data.value];
        nt := nt["time" := data.value];
      } else if data.ptype == TypeInterval {
        vl := vl["interval" := data.value];
      } else if data.ptype == TypeHost {
        vl := vl["host" := data.value];
        nt := nt["host" := data.value];
      } else if data.ptype == TypePlugin {
        vl := vl["plugin" := data.value];
        nt := nt["plugin" := data.value];
      } else if data.ptype == TypeType {
        vl := vl["type" := data.value];
        nt := nt["type" := data.value];
      } else if data.ptype == TypeSeverity {
        nt := nt["severity" := data.value];
      } else if data.ptype == TypeTypeInstance {
        vl := vl["typeinstance" := data.value];
        nt := nt["typeinstance" := data.value];
      } else if data.ptype == TypePluginInstance {
        vl := vl["plugininstance" := data.value];
        nt := nt["plugininstance" := data.value];
      } else if data.ptype == TypeMessage {
        nt := nt["message" := data.value];
        emitted := emitted + [Notice(nt)];
      } else if data.ptype == TypeValues {
        vl := vl["data" := data.value];
        emitted := emitted + [Metric(vl)];
      }
      assert d[..i + 1][..i] == d[..i];
    }
    assert d[..|d|] == d;
  }

  /** The number of parts among `d` that call the handler. */
  function EmitCount(d: seq<DecodedField>): nat
    decreases |d|
  {
    if d == [] then 0
    else EmitCount(d[..|d| - 1]) + (if Emits(d[|d| - 1].ptype) then 1 else 0)
  }

  /** The handler is called once per VALUES or MESSAGE part, and never otherwise. */
  lemma {:induction false} EmittedCount(d: seq<DecodedField>)
    ensures |Aggregate(d).emitted| == EmitCount(d)
    decreases |d|
  {
    if d != [] {
      EmittedCount(d[..|d| - 1]);
    }
  }

  /** The calls made after the first `i` parts are the first calls made after all
      of them: later parts never alter or withdraw an earlier call. */
  lemma {:induction false} EmittedPrefix(d: seq<DecodedField>, i: nat)
    requires i <= |d|
    ensures Aggregate(d[..i]).emitted <= Aggregate(d).emitted
    decreases |d| - i
  {
    if i < |d| {
      var e := d[..|d| - 1];
      assert e[..i] == d[..i];
      EmittedPrefix(e, i);
    } else {
      assert d[..i] == d;
    }
  }

  lemma StepAcc(s: State, f: DecodedField, side: Side)
    ensures Acc(Step(s, f), side) == Assign(Acc(s, side), KeyFor(side, f.ptype), f.value)
  {
  }

  /** Each accumulator holds a key exactly when some part sets it. */
  lemma {:induction false} AccumulatorHasKey(d: seq<DecodedField>, side: Side, key: string)
    ensures key in Acc(Aggregate(d), side) <==> exists i :: 0 <= i < |d| && KeyFor(side, d[i].ptype) == Some(key)
    decreases |d|
  {
    if d != [] {
      var n := |d| - 1;
      var e := d[..n];
      AccumulatorHasKey(e, side, key);
      StepAcc(Aggregate(e), d[n], side);
      assert forall i :: 0 <= i < n ==> e[i] == d[i];
    }
  }

  /** The last part among `d` that sets a key decides the key's value: the
      accumulator holds that part's value. */
  lemma {:induction false} AccumulatorHoldsLatest(d: seq<DecodedField>, side: Side, key: string, i: nat)
    requires i < |d| && KeyFor(side, d[i].ptype) == Some(key)
    requires forall j :: i < j < |d| ==> KeyFor(side, d[j].ptype) != Some(key)
    ensures key in Acc(Aggregate(d), side) && Acc(Aggregate(d), side)[key] == d[i].value
    decreases |d|
  {
    var n := |d| - 1;
    var e := d[..n];
    StepAcc(Aggregate(e), d[n], side);
    if i < n {
      assert e[i] == d[i];
      assert forall j :: i < j < n ==> e[j] == d[j];
      AccumulatorHoldsLatest(e, side, key, i);
    }
  }

  /** The call made for the VALUES or MESSAGE part at `i` is the call numbered by
      the emitting parts before it, and hands over the accumulator as it stands
      after that part: a metric carrying `data`, a notice carrying `message`. */
  lemma PartEmits(d: seq<DecodedField>, i: nat)
    requires i < |d| && Emits(d[i].ptype)
    ensures EmitCount(d[..i]) < |Aggregate(d).emitted|
    ensures d[i].ptype == TypeValues ==>
      && Aggregate(d).emitted[EmitCount(d[..i])] == Metric(Aggregate(d[..i + 1]).vl)
      && Aggregate(d[..i + 1]).vl["data"] == d[i].value
    ensures d[i].ptype == TypeMessage ==>
      && Aggregate(d).emitted[EmitCount(d[..i])] == Notice(Aggregate(d[..i + 1]).nt)
      && Aggregate(d[..i + 1]).nt["message"] == d[i].value
  {
    var p := d[..i + 1];
    assert p[..i] == d[..i];
    var before := Aggregate(d[..i]);
    var after := Aggregate(p);
    assert after == Step(before, d[i]);
    EmittedCount(d[..i]);
    EmittedPrefix(d, i + 1);
    assert after.emitted[|before.emitted|] ==
      if d[i].ptype == TypeValues then Metric(after.vl) else Notice(after.nt);
  }

  /** The accumulators hold only their own keys: a metric never carries a
      severity or a message, a notice never an interval or samples. */
  lemma {:induction false} AccumulatorKeys(d: seq<DecodedField>)
    ensures Aggregate(d).vl.Keys <= VlKeys && Aggregate(d).nt.Keys <= NtKeys
    ensures forall k :: 0 <= k < |Aggregate(d).emitted| ==>
      match Aggregate(d).emitted[k]
      case Metric(vl) => "data" in vl && vl.Keys <= VlKeys
      case Notice(nt) => "message" in nt && nt.Keys <= NtKeys
    decreases |d|
  {
    if d != [] {
      AccumulatorKeys(d[..|d| - 1]);
    }
  }

  /** Context parts are shared: two VALUES parts after one HOST part both carry
      that host, each with its own samples. */
  lemma TwoValuesShareContext(host: string, v1: seq<DataSample>, v2: seq<DataSample>)
    ensures
      var d := [DecodedField(TypeHost, Text(host)), DecodedField(TypeValues, Samples(v1)),
                DecodedField(TypeValues, Samples(v2))];
      Aggregate(d).emitted == [Metric(map["host" := Text(host), "data" := Samples(v1)]),
                               Metric(map["host" := Text(host), "data" := Samples(v2)])]
  {
    var d := [DecodedField(TypeHost, Text(host)), DecodedField(TypeValues, Samples(v1)),
              DecodedField(TypeValues, Samples(v2))];
    var h := map["host" := Text(host)];
    var m1 := map["host" := Text(host), "data" := Samples(v1)];
    var m2 := map["host" := Text(host), "data" := Samples(v2)];
    assert d[..1][..0] == [];
    assert Aggregate(d[..1]) == State(h, h, []);
    assert d[..2][..1] == d[..1];
    assert Aggregate(d[..2]) == State(m1, h, [Metric(m1)]);
    assert d[..2] == d[..|d| - 1];
    assert m1["data" := Samples(v2)] == m2;
  }

  /** `recv(message, rinfo, klass)`: without a handler nothing happens; otherwise
      the whole datagram is decoded before any call, so a malformed part, which
      makes the decoder throw, means no call at all; a well-formed datagram calls
      the handler with the records of `objectize`. */
  method Recv(message: seq<byte>, hasHandler: bool) returns (r: Result<seq<Record>, PacketError>)
    ensures !hasHandler ==> r == Ok([])
    ensures hasHandler && PacketFields(message).Err? ==> r == Err(PacketFields(message).error)
    ensures hasHandler && PacketFields(message).Ok? ==> r == Ok(Aggregate(PacketFields(message).value).emitted)
  {
    if !hasHandler {
      return Ok([]);
    }
    var fields := DecodeNetworkPacket(message);
    if fields.Err? {
      return Err(fields.error);
    }
    var records := Objectize(fields.value);
    return Ok(records);
  }
}
