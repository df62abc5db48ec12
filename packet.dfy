/** The packet walker `decode_network_packet`: a datagram is a run of parts, each
    a 2-byte big-endian type and a 2-byte big-endian total length (header
    included) followed by its payload. The walker decodes the parts in order and
    stops with an error at the first one that is malformed.

    The walk is written over the decoder call it makes (`decode`), so that its
    structural facts (how parts tile a datagram, where an error is found) hold
    for any decoder; the walker of the datagram, `PacketFields`, calls the
    decoders of the Codec module (`ApplyDecoder`).

    Deviation from the original, recorded under Findings in README.md: a part
    whose declared length is below the 4-byte header is an error here
    (`FieldTooShort`); the original spins forever on a declared length of 0 and
    decodes garbage on lengths 1 to 3. */
module Packet {
  import opened Results
  import opened Bytes
  import opened Codec

  datatype PacketError =
    | PacketTooShort                        // the datagram is shorter than one header
    | TruncatedHeader(at: nat)              // fewer than 4 bytes left for the header at `at`
    | FieldTooLong(at: nat, plen: nat)      // declared length beyond the end of the datagram
    | UnknownType(at: nat, ptype: nat)      // no decoder for the part type
    | FieldTooShort(at: nat, plen: nat)     // declared length below the header size
    | BadField(at: nat, cause: CodecError)  // the part's decoder failed

  /** The error names a part whose header is at an offset in `lo..hi`. */
  predicate FoundIn(e: PacketError, lo: nat, hi: nat) {
    !e.PacketTooShort? && lo <= e.at < hi
  }

  /** The part type in the header at `at`. */
  function TypeAt(buf: seq<byte>, at: nat): nat
    requires at + HeaderSize <= |buf|
  {
    buf[at] as int * 256 + buf[at + 1] as int
  }

  /** The total length declared in the header at `at`. */
  function LengthAt(buf: seq<byte>, at: nat): nat
    requires at + HeaderSize <= |buf|
  {
    buf[at + 2] as int * 256 + buf[at + 3] as int
  }

  /** One pass of the walker's loop body at offset `off`: the two header reads,
      the length check, the decoder lookup, the header-size check of the corrected
      walker, and the decoder call on everything after the header. */
  function PartAt(buf: seq<byte>, off: nat, decode: DecodeFn): (r: Result<DecodedField, PacketError>)
    ensures r.Ok? ==> off + HeaderSize <= |buf| && HeaderSize <= LengthAt(buf, off) <= |buf| - off
    ensures r.Err? ==> !r.error.PacketTooShort? && r.error.at == off
  {
    if |buf| < off + HeaderSize then Err(TruncatedHeader(off))
    else
      var ptype := TypeAt(buf, off);
      var plen := LengthAt(buf, off);
      if plen > |buf| - off then Err(FieldTooLong(off, plen))
      else
        match Decoders(ptype)
        case None => Err(UnknownType(off, ptype))
        case Some(d) =>
          if plen < HeaderSize then Err(FieldTooShort(off, plen))
          else
            match decode(d, ptype, plen - HeaderSize, buf[off + HeaderSize..])
            case Err(e) => Err(BadField(off, e))
            case Ok(f) => Ok(f)
  }

  /** The parts from offset `off` on, decoded in buffer order; the first
      malformed part decides the error. */
  function Walk(buf: seq<byte>, off: nat, decode: DecodeFn): Result<seq<DecodedField>, PacketError>
    requires off <= |buf|
    decreases |buf| - off
  {
    if off == |buf| then Ok([])
    else
      match PartAt(buf, off, decode)
      case Err(e) => Err(e)
      case Ok(f) => Prepend([f], Walk(buf, off + LengthAt(buf, off), decode))
  }

  /** A successful walk yields at most one part per 4 bytes, and at least one
      part unless it starts at the end; a failed walk names a part at or after
      where it started. */
  lemma {:induction false} WalkBounds(buf: seq<byte>, off: nat, decode: DecodeFn)
    requires off <= |buf|
    ensures Walk(buf, off, decode).Ok? ==>
      4 * |Walk(buf, off, decode).value| <= |buf| - off && (off < |buf| ==> Walk(buf, off, decode).value != [])
    ensures Walk(buf, off, decode).Err? ==> FoundIn(Walk(buf, off, decode).error, off, |buf|)
    decreases |buf| - off
  {
    if off < |buf| && PartAt(buf, off, decode).Ok? {
      WalkBounds(buf, off + LengthAt(buf, off), decode);
    }
  }

  /** What `decode_network_packet` returns for a datagram. */
  function PacketFields(buf: seq<byte>): (r: Result<seq<DecodedField>, PacketError>)
    ensures r == Err(PacketTooShort) <==> |buf| < HeaderSize
    ensures r.Ok? ==> r.value != [] && 4 * |r.value| <= |buf|
    ensures r.Err? && |buf| >= HeaderSize ==> FoundIn(r.error, 0, |buf|)
  {
    if |buf| < HeaderSize then Err(PacketTooShort)
    else WalkBounds(buf, 0, ApplyDecoder); Walk(buf, 0, ApplyDecoder)
  }

  /** The body of the walker's loop at `offset`; `plen` is the declared length by
      which the loop then advances. */
  method DecodePart(buf: seq<byte>, offset: nat) returns (r: Result<DecodedField, PacketError>, plen: nat)
    ensures r == PartAt(buf, offset, ApplyDecoder)
    ensures r.Ok? ==> plen == LengthAt(buf, offset)
  {
    var ptype := ToShort(GetBytes(buf, offset + 0, 2));
    var declared := ToShort(GetBytes(buf, offset + 2, 2));
    if ptype.None? || declared.None? {
      return Err(TruncatedHeader(offset)), 0;
    }
    assert GetBytes(buf, offset + 0, 2) == buf[offset..offset + 2];
    assert GetBytes(buf, offset + 2, 2) == buf[offset + 2..offset + 4];
    plen := declared.value;
    if plen > |buf| - offset {
      return Err(FieldTooLong(offset, plen)), plen;
    }
    var decoder := Decoders(ptype.value);
    if decoder.None? {
      return Err(UnknownType(offset, ptype.value)), plen;
    }
    if plen < HeaderSize {
      return Err(FieldTooShort(offset, plen)), plen;
    }
    var field := DecodeWith(decoder.value, ptype.value, plen - HeaderSize, buf[offset + HeaderSize..]);
    if field.Err? {
      return Err(BadField(offset, field.error)), plen;
    }
    return Ok(field.value), plen;
  }

  lemma WalkAdvances(buf: seq<byte>, whole: Result<seq<DecodedField>, PacketError>, done: seq<DecodedField>,
                     off: nat, f: DecodedField, plen: nat, next: nat, done': seq<DecodedField>, decode: DecodeFn)
    requires off < |buf| && PartAt(buf, off, decode) == Ok(f) && plen == LengthAt(buf, off)
    requires next == off + plen && done' == done + [f]
    requires whole == Prepend(done, Walk(buf, off, decode))
    ensures next <= |buf|
    ensures whole == Prepend(done', Walk(buf, next, decode))
  {
    PrependAssociates(done, [f], Walk(buf, next, decode));
  }

  lemma WalkStopsAt(buf: seq<byte>, whole: Result<seq<DecodedField>, PacketError>, done: seq<DecodedField>, off: nat, decode: DecodeFn)
    requires off < |buf| && PartAt(buf, off, decode).Err?
    requires whole == Prepend(done, Walk(buf, off, decode))
    ensures whole == Err(PartAt(buf, off, decode).error)
  {
  }

  lemma WalkEnds(buf: seq<byte>, whole: Result<seq<DecodedField>, PacketError>, done: seq<DecodedField>, decode: DecodeFn)
    requires whole == Prepend(done, Walk(buf, |buf|, decode))
    ensures whole == Ok(done)
  {
    var empty := Walk(buf, |buf|, decode);
    assert empty == Ok([]);
    assert done + [] == done;
    assert Prepend(done, empty) == Ok(done);
  }

  /** `decode_network_packet`. The original advances `offset` by the previous
      part's length in the loop guard; here the advance closes the loop body. */
  method DecodeNetworkPacket(buf: seq<byte>) returns (r: Result<seq<DecodedField>, PacketError>)
    ensures r == PacketFields(buf)
  {
    var length := |buf|;
    if length < HeaderSize {
      return Err(PacketTooShort);
    }
    ghost var whole := Walk(buf, 0, ApplyDecoder);
    var results: seq<DecodedField> := [];
    var offset: nat := 0;
    PrependEmpty(whole);
    while offset < length
      invariant offset <= length
      invariant whole == Prepend(results, Walk(buf, offset, ApplyDecoder))
      decreases length - offset
    {
      var field, plen := DecodePart(buf, offset);
      if field.Err? {
        WalkStopsAt(buf, whole, results, offset, ApplyDecoder);
        return Err(field.error);
      }
      var next: nat := offset + plen;
      var done := results + [field.value];
      WalkAdvances(buf, whole, results, offset, field.value, plen, next, done, ApplyDecoder);
      results := done;
      offset := next;
    }
    WalkEnds(buf, whole, results, ApplyDecoder);
    return Ok(results);
  }

  /** The part whose header is at `at` is well formed and decodes. */
  ghost predicate FieldDecodes(buf: seq<byte>, at: nat, decode: DecodeFn) {
    PartAt(buf, at, decode).Ok?
  }

  ghost function FieldAt(buf: seq<byte>, at: nat, decode: DecodeFn): DecodedField
    requires FieldDecodes(buf, at, decode)
  {
    PartAt(buf, at, decode).value
  }

  /** `starts` are the header offsets of a run of decodable parts that begins at
      `off` and ends exactly at `end`, each part beginning where the declared
      length of the one before it ends. */
  ghost predicate Chain(buf: seq<byte>, off: nat, starts: seq<nat>, end: nat, decode: DecodeFn)
    decreases |starts|
  {
    if starts == [] then off == end <= |buf|
    else starts[0] == off && FieldDecodes(buf, off, decode) && Chain(buf, off + LengthAt(buf, off), starts[1..], end, decode)
  }

  ghost function ChainFields(buf: seq<byte>, off: nat, starts: seq<nat>, end: nat, decode: DecodeFn): seq<DecodedField>
    requires Chain(buf, off, starts, end, decode)
    decreases |starts|
  {
    if starts == [] then [] else [FieldAt(buf, off, decode)] + ChainFields(buf, off + LengthAt(buf, off), starts[1..], end, decode)
  }

  /** The sum of the lengths declared in the headers at `starts`. */
  ghost function DeclaredTotal(buf: seq<byte>, starts: seq<nat>): int
    requires forall i :: 0 <= i < |starts| ==> starts[i] + HeaderSize <= |buf|
    decreases |starts|
  {
    if starts == [] then 0 else LengthAt(buf, starts[0]) + DeclaredTotal(buf, starts[1..])
  }

  /** Walking over a chain yields the chain's parts, then whatever the walk from
      its end yields. */
  lemma {:induction false} ChainWalk(buf: seq<byte>, off: nat, starts: seq<nat>, end: nat, decode: DecodeFn)
    requires Chain(buf, off, starts, end, decode)
    ensures off <= end <= |buf|
    ensures Walk(buf, off, decode) == Prepend(ChainFields(buf, off, starts, end, decode), Walk(buf, end, decode))
    decreases |starts|
  {
    if starts != [] {
      var next := off + LengthAt(buf, off);
      var f := FieldAt(buf, off, decode);
      ChainWalk(buf, next, starts[1..], end, decode);
      assert Walk(buf, off, decode) == Prepend([f], Walk(buf, next, decode));
      assert ChainFields(buf, off, starts, end, decode) == [f] + ChainFields(buf, next, starts[1..], end, decode);
      PrependAssociates([f], ChainFields(buf, next, starts[1..], end, decode), Walk(buf, end, decode));
    } else {
      PrependEmpty(Walk(buf, end, decode));
    }
  }

  /** A successful walk from `off` is a chain of decodable parts reaching the end
      of the datagram, and its result is that chain's parts. */
  lemma {:induction false} WalkOkChain(buf: seq<byte>, off: nat, decode: DecodeFn) returns (starts: seq<nat>)
    requires off <= |buf|
    requires Walk(buf, off, decode).Ok?
    ensures Chain(buf, off, starts, |buf|, decode)
    ensures ChainFields(buf, off, starts, |buf|, decode) == Walk(buf, off, decode).value
    decreases |buf| - off
  {
    if off == |buf| {
      starts := [];
    } else {
      var rest := WalkOkChain(buf, off + LengthAt(buf, off), decode);
      starts := [off] + rest;
      assert starts[1..] == rest;
    }
  }

  /** Part `i` of a chain is decoded from the header at `starts[i]`. */
  lemma {:induction false} ChainFieldsAt(buf: seq<byte>, off: nat, starts: seq<nat>, end: nat, decode: DecodeFn)
    requires Chain(buf, off, starts, end, decode)
    ensures |ChainFields(buf, off, starts, end, decode)| == |starts|
    ensures forall i :: 0 <= i < |starts| ==>
      FieldDecodes(buf, starts[i], decode) && ChainFields(buf, off, starts, end, decode)[i] == FieldAt(buf, starts[i], decode)
    decreases |starts|
  {
    if starts != [] {
      ChainFieldsAt(buf, off + LengthAt(buf, off), starts[1..], end, decode);
    }
  }

  /** In a chain the first header sits at `off`, each next header sits where the
      previous declared length ends, and the last part ends at `end`. */
  lemma {:induction false} ChainAdjacent(buf: seq<byte>, off: nat, starts: seq<nat>, end: nat, decode: DecodeFn)
    requires Chain(buf, off, starts, end, decode)
    ensures starts != [] ==> starts[0] == off
    ensures forall i :: 0 <= i < |starts| - 1 ==>
      starts[i] + HeaderSize <= |buf| && starts[i + 1] == starts[i] + LengthAt(buf, starts[i])
    ensures starts != [] ==>
      starts[|starts| - 1] + HeaderSize <= |buf| &&
      starts[|starts| - 1] + LengthAt(buf, starts[|starts| - 1]) == end
    decreases |starts|
  {
    if starts != [] {
      ChainAdjacent(buf, off + LengthAt(buf, off), starts[1..], end, decode);
    }
  }

  /** The lengths declared along a chain add up to the bytes it spans. */
  lemma {:induction false} ChainTotal(buf: seq<byte>, off: nat, starts: seq<nat>, end: nat, decode: DecodeFn)
    requires Chain(buf, off, starts, end, decode)
    ensures forall i :: 0 <= i < |starts| ==> starts[i] + HeaderSize <= |buf|
    ensures DeclaredTotal(buf, starts) == end - off
    decreases |starts|
  {
    if starts != [] {
      ChainTotal(buf, off + LengthAt(buf, off), starts[1..], end, decode);
    }
  }

  /** Two chains from the same offset to the end of the datagram are the same
      chain: the headers alone fix where every part begins. */
  lemma {:induction false} ChainUnique(buf: seq<byte>, off: nat, s1: seq<nat>, s2: seq<nat>, decode: DecodeFn)
    requires Chain(buf, off, s1, |buf|, decode) && Chain(buf, off, s2, |buf|, decode)
    ensures s1 == s2
    decreases |s1|
  {
    if s1 != [] && s2 != [] {
      ChainUnique(buf, off + LengthAt(buf, off), s1[1..], s2[1..], decode);
      assert s1 == [off] + s1[1..];
      assert s2 == [off] + s2[1..];
    }
  }

  /** A successfully decoded datagram is tiled by its parts: one decoded part per
      header, in buffer order, the first header at offset 0, each next header where
      the previous declared length ends, the last part ending at the end of the
      datagram, and the declared lengths summing to the datagram's length. */
  lemma PacketTiling(buf: seq<byte>) returns (starts: seq<nat>)
    requires PacketFields(buf).Ok?
    ensures |buf| >= HeaderSize && starts != [] && starts[0] == 0
    ensures Chain(buf, 0, starts, |buf|, ApplyDecoder)
    ensures |PacketFields(buf).value| == |starts|
    ensures forall i :: 0 <= i < |starts| ==>
      FieldDecodes(buf, starts[i], ApplyDecoder) && PacketFields(buf).value[i] == FieldAt(buf, starts[i], ApplyDecoder)
    ensures forall i :: 0 <= i < |starts| - 1 ==>
      starts[i] + HeaderSize <= |buf| && starts[i + 1] == starts[i] + LengthAt(buf, starts[i])
    ensures starts[|starts| - 1] + HeaderSize <= |buf| &&
      starts[|starts| - 1] + LengthAt(buf, starts[|starts| - 1]) == |buf|
    ensures DeclaredTotal(buf, starts) == |buf|
  {
    starts := WalkOkChain(buf, 0, ApplyDecoder);
    ChainFieldsAt(buf, 0, starts, |buf|, ApplyDecoder);
    ChainAdjacent(buf, 0, starts, |buf|, ApplyDecoder);
    ChainTotal(buf, 0, starts, |buf|, ApplyDecoder);
  }

  /** Conversely, a datagram tiled by decodable parts decodes to exactly those parts. */
  lemma TiledPacketDecodes(buf: seq<byte>, starts: seq<nat>)
    requires |buf| >= HeaderSize
    requires Chain(buf, 0, starts, |buf|, ApplyDecoder)
    ensures PacketFields(buf) == Ok(ChainFields(buf, 0, starts, |buf|, ApplyDecoder))
  {
    ChainWalk(buf, 0, starts, |buf|, ApplyDecoder);
    var fs := ChainFields(buf, 0, starts, |buf|, ApplyDecoder);
    assert fs + [] == fs;
  }

  /** What the datagram shows at the offset an error names. */
  ghost predicate Cause(buf: seq<byte>, e: PacketError, decode: DecodeFn) {
    match e
    case PacketTooShort => |buf| < HeaderSize
    case TruncatedHeader(at) => at < |buf| < at + HeaderSize
    case FieldTooLong(at, plen) =>
      at + HeaderSize <= |buf| && plen == LengthAt(buf, at) && plen > |buf| - at
    case UnknownType(at, ptype) =>
      at + HeaderSize <= |buf| && LengthAt(buf, at) <= |buf| - at &&
      ptype == TypeAt(buf, at) && Decoders(ptype).None?
    case FieldTooShort(at, plen) =>
      at + HeaderSize <= |buf| && plen == LengthAt(buf, at) && plen < HeaderSize &&
      Decoders(TypeAt(buf, at)).Some?
    case BadField(at, cause) =>
      at + HeaderSize <= |buf| && HeaderSize <= LengthAt(buf, at) <= |buf| - at &&
      Decoders(TypeAt(buf, at)).Some? &&
      decode(Decoders(TypeAt(buf, at)).value, TypeAt(buf, at),
             LengthAt(buf, at) - HeaderSize, buf[at + HeaderSize..]) == Err(cause)
  }

  /** A part that fails shows the cause its error names. */
  lemma PartErrCause(buf: seq<byte>, at: nat, decode: DecodeFn)
    requires at < |buf|
    requires PartAt(buf, at, decode).Err?
    ensures Cause(buf, PartAt(buf, at, decode).error, decode)
  {
  }

  lemma {:induction false} WalkErrCause(buf: seq<byte>, off: nat, decode: DecodeFn) returns (starts: seq<nat>)
    requires off <= |buf|
    requires Walk(buf, off, decode).Err?
    ensures !Walk(buf, off, decode).error.PacketTooShort?
    ensures Chain(buf, off, starts, Walk(buf, off, decode).error.at, decode)
    ensures Cause(buf, Walk(buf, off, decode).error, decode)
    decreases |buf| - off
  {
    if PartAt(buf, off, decode).Ok? {
      var next := off + LengthAt(buf, off);
      var rest := WalkErrCause(buf, next, decode);
      assert Walk(buf, off, decode) == Prepend([PartAt(buf, off, decode).value], Walk(buf, next, decode));
      assert Walk(buf, off, decode).error == Walk(buf, next, decode).error;
      starts := [off] + rest;
      assert starts[1..] == rest;
    } else {
      assert Walk(buf, off, decode) == Err(PartAt(buf, off, decode).error);
      starts := [];
      PartErrCause(buf, off, decode);
    }
  }

  /** Every failure of the walker names the offset of a header that the walk
      reaches over decodable parts, and the datagram shows there what the error
      says: too few header bytes, a declared length beyond the end, a part type
      without a decoder, a declared length below the header size, or a payload
      its decoder rejects. */
  lemma PacketErrorHasCause(buf: seq<byte>) returns (starts: seq<nat>)
    requires PacketFields(buf).Err?
    ensures Cause(buf, PacketFields(buf).error, ApplyDecoder)
    ensures PacketFields(buf).error == PacketTooShort <==> |buf| < HeaderSize
    ensures !PacketFields(buf).error.PacketTooShort? ==> Chain(buf, 0, starts, PacketFields(buf).error.at, ApplyDecoder)
  {
    if |buf| >= HeaderSize {
      starts := WalkErrCause(buf, 0, ApplyDecoder);
    } else {
      starts := [];
    }
  }

  /** Conversely, once the walk has reached a header over decodable parts, that
      header alone decides how the datagram fails, or that it succeeds when the
      walk has reached the end. */
  lemma ReachedHeaderDecides(buf: seq<byte>, starts: seq<nat>, at: nat)
    requires |buf| >= HeaderSize
    requires Chain(buf, 0, starts, at, ApplyDecoder)
    ensures at == |buf| ==> PacketFields(buf).Ok?
    ensures at < |buf| < at + HeaderSize ==> PacketFields(buf) == Err(TruncatedHeader(at))
    ensures at + HeaderSize <= |buf| && LengthAt(buf, at) > |buf| - at ==>
      PacketFields(buf) == Err(FieldTooLong(at, LengthAt(buf, at)))
    ensures at + HeaderSize <= |buf| && LengthAt(buf, at) <= |buf| - at && Decoders(TypeAt(buf, at)).None? ==>
      PacketFields(buf) == Err(UnknownType(at, TypeAt(buf, at)))
    ensures at + HeaderSize <= |buf| && LengthAt(buf, at) < HeaderSize && Decoders(TypeAt(buf, at)).Some? ==>
      PacketFields(buf) == Err(FieldTooShort(at, LengthAt(buf, at)))
    ensures (&& at + HeaderSize <= |buf| && HeaderSize <= LengthAt(buf, at) <= |buf| - at && Decoders(TypeAt(buf, at)).Some?
             && ApplyDecoder(Decoders(TypeAt(buf, at)).value, TypeAt(buf, at), LengthAt(buf, at) - HeaderSize,
                             buf[at + HeaderSize..]).Err?) ==>
      PacketFields(buf) == Err(BadField(at, ApplyDecoder(Decoders(TypeAt(buf, at)).value, TypeAt(buf, at),
                                                         LengthAt(buf, at) - HeaderSize, buf[at + HeaderSize..]).error))
  {
    ChainWalk(buf, 0, starts, at, ApplyDecoder);
  }

  /** A VALUES part reached over decodable parts whose kind tags include one that
      is none of the four datasource kinds fails the whole datagram, at that part. */
  lemma ReachedUnknownKindFailsPacket(buf: seq<byte>, starts: seq<nat>, at: nat, i: nat)
    requires |buf| >= HeaderSize
    requires Chain(buf, 0, starts, at, ApplyDecoder)
    requires at + HeaderSize <= |buf| && TypeAt(buf, at) == TypeValues
    requires HeaderSize <= LengthAt(buf, at) <= |buf| - at
    requires at + HeaderSize + NValuesSize + i < |buf|
    requires i < buf[at + HeaderSize] as int * 256 + buf[at + HeaderSize + 1] as int
    requires buf[at + HeaderSize + NValuesSize + i] > DsAbsolute
    ensures ValueList(buf[at + HeaderSize..]).Err?
    ensures PacketFields(buf) == Err(BadField(at, ValueList(buf[at + HeaderSize..]).error))
  {
    var rest := buf[at + HeaderSize..];
    UnknownKindFailsValueList(rest, i);
    ReachedHeaderDecides(buf, starts, at);
  }

  /** A text part's value is the declared payload without its final byte, the
      NUL terminator: `plen - 1` bytes, `plen` being the declared length less the
      header; an empty payload gives the empty text. */
  lemma StringPartText(buf: seq<byte>, at: nat)
    requires FieldDecodes(buf, at, ApplyDecoder)
    requires TypeAt(buf, at) in StringTypes
    ensures LengthAt(buf, at) == HeaderSize ==> FieldAt(buf, at, ApplyDecoder) == DecodedField(TypeAt(buf, at), Text(""))
    ensures LengthAt(buf, at) > HeaderSize ==>
      FieldAt(buf, at, ApplyDecoder) == DecodedField(TypeAt(buf, at), Text(AsciiText(buf[at + HeaderSize..at + LengthAt(buf, at) - 1])))
  {
    var rest := buf[at + HeaderSize..];
    var plen := LengthAt(buf, at) - HeaderSize;
    if plen > 0 {
      assert rest[..plen - 1] == buf[at + HeaderSize..at + LengthAt(buf, at) - 1];
    }
  }

  /** A TIME, INTERVAL or SEVERITY part holds the signed 64-bit big-endian
      integer in the 8 bytes after its header. */
  lemma NumberPartValue(buf: seq<byte>, at: nat)
    requires FieldDecodes(buf, at, ApplyDecoder)
    requires TypeAt(buf, at) in NumberTypes
    ensures at + HeaderSize + 8 <= |buf|
    ensures FieldAt(buf, at, ApplyDecoder).ptype == TypeAt(buf, at) && FieldAt(buf, at, ApplyDecoder).value.Number?
    ensures var v := FieldAt(buf, at, ApplyDecoder).value.n;
      var u := BeUint(buf[at + HeaderSize..at + HeaderSize + 8]);
      -TwoTo63 <= v < TwoTo63 && (v == u || v == u - TwoTo64)
  {
    assert buf[at + HeaderSize..][..8] == buf[at + HeaderSize..at + HeaderSize + 8];
  }

  /** The two bytes of a 16-bit header word. */
  function U16Bytes(x: nat): (s: seq<byte>)
    requires x < 65536
    ensures |s| == 2 && s[0] as int * 256 + s[1] as int == x
  {
    [x / 256, x % 256]
  }

  /** The bytes of a 7-bit text. */
  function AsciiBytes(s: string): (b: seq<byte>)
    requires forall i :: 0 <= i < |s| ==> s[i] as int < 128
    ensures |b| == |s| && AsciiText(b) == s
  {
    var b := seq(|s|, i requires 0 <= i < |s| => s[i] as int as byte);
    assert forall i :: 0 <= i < |s| ==> AsciiText(b)[i] == s[i];
    b
  }

  /** A text part as a sender writes it: header, text, NUL. */
  function EncodeStringPart(ptype: nat, s: string): seq<byte>
    requires ptype < 65536 && HeaderSize + |s| + 1 < 65536
    requires forall i :: 0 <= i < |s| ==> s[i] as int < 128
  {
    U16Bytes(ptype) + U16Bytes(HeaderSize + |s| + 1) + AsciiBytes(s) + [0]
  }

  /** A number part as a sender writes it: header, then the 64-bit two's
      complement of `v`, big-endian. */
  function EncodeNumberPart(ptype: nat, v: int): seq<byte>
    requires ptype < 65536 && -TwoTo63 <= v < TwoTo63
  {
    U16Bytes(ptype) + U16Bytes(HeaderSize + 8) + BeBytes(FromInt64(v), 8)
  }

  /** A datagram of one text part decodes to that part's text. */
  lemma StringPartRoundTrip(ptype: nat, s: string)
    requires ptype in StringTypes
    requires HeaderSize + |s| + 1 < 65536
    requires forall i :: 0 <= i < |s| ==> s[i] as int < 128
    ensures PacketFields(EncodeStringPart(ptype, s)) == Ok([DecodedField(ptype, Text(s))])
  {
    var len := HeaderSize + |s| + 1;
    var text := AsciiBytes(s);
    var buf := EncodeStringPart(ptype, s);
    assert buf == U16Bytes(ptype) + U16Bytes(len) + (text + [0]);
    assert TypeAt(buf, 0) == ptype && LengthAt(buf, 0) == len == |buf|;
    var rest := buf[HeaderSize..];
    assert rest == text + [0];
    assert GetBytes(rest, 0, |s|) == text;
    var f := DecodedField(ptype, Text(s));
    assert DecodeNetworkString(ptype, |s| + 1, rest) == f;
    SinglePartPacket(buf, f);
  }

  /** The 64-bit two's complement of a signed 64-bit value reads back as that value. */
  lemma NumberSlotRoundTrip(ptype: nat, v: int)
    requires -TwoTo63 <= v < TwoTo63
    ensures DecodeNetworkNumber(ptype, 8, BeBytes(FromInt64(v), 8)) == Ok(DecodedField(ptype, Number(v)))
  {
    var slot := BeBytes(FromInt64(v), 8);
    Pow256Eight();
    BeUintOfBeBytes(FromInt64(v), 8);
    assert slot[..8] == slot;
  }

  /** A datagram holding exactly one part, which decodes, decodes to that part. */
  lemma SinglePartPacket(buf: seq<byte>, f: DecodedField)
    requires |buf| >= HeaderSize && LengthAt(buf, 0) == |buf|
    requires PartAt(buf, 0, ApplyDecoder) == Ok(f)
    ensures PacketFields(buf) == Ok([f])
  {
    assert Walk(buf, |buf|, ApplyDecoder) == Ok([]);
    assert [f] + [] == [f];
  }

  /** A datagram of one number part decodes to that part's number, for every
      signed 64-bit value. */
  lemma NumberPartRoundTrip(ptype: nat, v: int)
    requires ptype in NumberTypes
    requires -TwoTo63 <= v < TwoTo63
    ensures PacketFields(EncodeNumberPart(ptype, v)) == Ok([DecodedField(ptype, Number(v))])
  {
    var slot := BeBytes(FromInt64(v), 8);
    var buf := EncodeNumberPart(ptype, v);
    assert TypeAt(buf, 0) == ptype && LengthAt(buf, 0) == HeaderSize + 8 == |buf|;
    assert buf[HeaderSize..] == slot;
    NumberSlotRoundTrip(ptype, v);
    SinglePartPacket(buf, DecodedField(ptype, Number(v)));
  }

  /** One pass of the loop at lib/collectd.js:141-151 as written, entered in loop
      state (`offset`, `plen`): the guard's `offset += plen`, the two header reads,
      the two checks and the decoder call. None when the loop exits or the pass
      throws; otherwise the state the next pass is entered in. */
  function AsWrittenPass(buf: seq<byte>, offset: nat, plen: nat): (r: Option<(nat, nat)>)
    ensures offset + plen >= |buf| ==> r.None?
    ensures r.Some? ==>
      && r.value.0 == offset + plen && r.value.0 + HeaderSize <= |buf|
      && r.value.1 == LengthAt(buf, r.value.0) <= |buf| - r.value.0
      && Decoders(TypeAt(buf, r.value.0)).Some?
  {
    var next := offset + plen;
    if next >= |buf| then None
    else
      var ptype := ToShort(GetBytes(buf, next + 0, 2));
      var declared := ToShort(GetBytes(buf, next + 2, 2));
      if ptype.None? || declared.None? || next + HeaderSize > |buf| then None
      else if declared.value > |buf| - next then None
      else
        match Decoders(ptype.value)
        case None => None
        case Some(d) =>
          if ApplyDecoderAsWritten(d, ptype.value, declared.value - HeaderSize, buf[next + HeaderSize..]).Err? then None
          else Some((next, declared.value))
  }

  /** As written, a decodable part declaring length 0 is a fixed point of the loop:
      the pass entered at its header with `plen` 0 re-enters the same state, so the
      loop never ends. */
  lemma ZeroLengthPartSpins(buf: seq<byte>, at: nat)
    requires at + HeaderSize <= |buf|
    requires LengthAt(buf, at) == 0
    requires Decoders(TypeAt(buf, at)).Some?
    requires ApplyDecoderAsWritten(Decoders(TypeAt(buf, at)).value, TypeAt(buf, at), -4, buf[at + HeaderSize..]).Ok?
    ensures AsWrittenPass(buf, at, 0) == Some((at, 0))
  {
    assert GetBytes(buf, at + 0, 2) == buf[at..at + 2];
    assert GetBytes(buf, at + 2, 2) == buf[at + 2..at + 4];
  }

  /** The datagram 00 01 00 00 followed by eight zero bytes: a TIME part declaring
      length 0. The loop as written enters its first pass in state (0, 0) and
      returns to it; the corrected walker rejects the part. */
  lemma ZeroLengthTimePart()
    ensures
      var buf: seq<byte> := [0, 1, 0, 0, 0, 0, 0, 0, 0, 0, 0, 0];
      && AsWrittenPass(buf, 0, 0) == Some((0, 0))
      && PacketFields(buf) == Err(FieldTooShort(0, 0))
  {
    var buf: seq<byte> := [0, 1, 0, 0, 0, 0, 0, 0, 0, 0, 0, 0];
    assert TypeAt(buf, 0) == TypeTime && LengthAt(buf, 0) == 0;
    ZeroLengthPartSpins(buf, 0);
  }
}
