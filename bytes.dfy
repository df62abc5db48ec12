/** The byte-level primitives the decoder is built on: the octets of a datagram,
    Node's Buffer slicing (through which `getBytes` reads), big-endian integer
    assembly, and the behaviour assumed of the binary parser whose `toShort` and
    `decodeInt` the decoder calls. */
module Bytes {
  import opened Results

  /** An octet of a received datagram. */
  type byte = x: int | 0 <= x < 256

  const TwoTo63: int := 0x8000_0000_0000_0000
  const TwoTo64: int := 0x1_0000_0000_0000_0000

  function Min(a: int, b: int): int {
    if a <= b then a else b
  }

  /** Where Node's Buffer slice places index `i` of a buffer of length `len`:
      clamped to the buffer, a negative index counting back from the end. */
  function SliceBound(len: nat, i: int): (k: nat)
    ensures k <= len
    ensures 0 <= i <= len ==> k == i
  {
    if i < 0 then (if len + i < 0 then 0 else len + i)
    else if i > len then len
    else i
  }

  /** `buf.slice(start, end)` on a Node Buffer; empty when the end precedes the start. */
  function Slice(s: seq<byte>, start: int, end: int): (r: seq<byte>)
    ensures |r| <= |s|
  {
    var a := SliceBound(|s|, start);
    var b := SliceBound(|s|, end);
    if a <= b then s[a..b] else []
  }

  /** `Buffer.prototype.getBytes(from, cnt)`: up to `cnt` bytes from `from`,
      fewer when the buffer ends first. */
  function GetBytes(s: seq<byte>, from: int, cnt: int): (r: seq<byte>)
    ensures 0 <= from && 0 <= cnt ==> r == s[Min(from, |s|)..Min(from + cnt, |s|)]
    ensures 0 <= from && 0 <= cnt ==> (|r| == cnt <==> from + cnt <= |s| || cnt == 0)
  {
    Slice(s, from, from + cnt)
  }

  function Pow256(n: nat): (p: nat)
    ensures p >= 1
  {
    if n == 0 then 1 else 256 * Pow256(n - 1)
  }

  lemma Pow256Two()
    ensures Pow256(2) == 65536
  {
  }

  lemma Pow256Eight()
    ensures Pow256(8) == TwoTo64
  {
  }

  /** The unsigned integer whose big-endian (network order) bytes are `s`. */
  function BeUint(s: seq<byte>): (n: nat)
    ensures n < Pow256(|s|)
    decreases |s|
  {
    if s == [] then 0
    else
      var high := BeUint(s[..|s| - 1]);
      assert high * 256 + s[|s| - 1] < Pow256(|s|) by {
        assert high <= Pow256(|s| - 1) - 1;
        assert high * 256 <= Pow256(|s| - 1) * 256 - 256;
      }
      high * 256 + s[|s| - 1]
  }

  /** The `n` big-endian bytes of `x` modulo 256^n: the encoding BeUint inverts. */
  function BeBytes(x: nat, n: nat): (s: seq<byte>)
    ensures |s| == n
  {
    if n == 0 then [] else BeBytes(x / 256, n - 1) + [x % 256]
  }

  lemma {:induction false} BeUintOfBeBytes(x: nat, n: nat)
    requires x < Pow256(n)
    ensures BeUint(BeBytes(x, n)) == x
  {
    if n > 0 {
      var s := BeBytes(x, n);
      assert s[..n - 1] == BeBytes(x / 256, n - 1);
      assert x / 256 < Pow256(n - 1);
      BeUintOfBeBytes(x / 256, n - 1);
    }
  }

  lemma {:induction false} BeBytesOfBeUint(s: seq<byte>)
    ensures BeBytes(BeUint(s), |s|) == s
  {
    if s != [] {
      var p := s[..|s| - 1];
      BeBytesOfBeUint(p);
      var x := BeUint(s);
      assert x == BeUint(p) * 256 + s[|s| - 1];
      assert x / 256 == BeUint(p) && x % 256 == s[|s| - 1];
      assert s == p + [s[|s| - 1]];
    }
  }

  lemma {:induction false} BeUintAllOnes(s: seq<byte>)
    requires forall i :: 0 <= i < |s| ==> s[i] == 255
    ensures BeUint(s) == Pow256(|s|) - 1
  {
    if s != [] {
      BeUintAllOnes(s[..|s| - 1]);
    }
  }

  lemma {:induction false} BeUintAllZeros(s: seq<byte>)
    requires forall i :: 0 <= i < |s| ==> s[i] == 0
    ensures BeUint(s) == 0
  {
    if s != [] {
      BeUintAllZeros(s[..|s| - 1]);
    }
  }

  /** The two's-complement reading of a 64-bit pattern `u`. */
  function ToInt64(u: nat): (v: int)
    requires u < TwoTo64
    ensures -TwoTo63 <= v < TwoTo63
    ensures v == u || v == u - TwoTo64
  {
    if u < TwoTo63 then u else u - TwoTo64
  }

  /** The 64-bit two's-complement pattern of a signed 64-bit value; ToInt64 inverts it. */
  function FromInt64(v: int): (u: nat)
    requires -TwoTo63 <= v < TwoTo63
    ensures u < TwoTo64 && ToInt64(u) == v
  {
    if v >= 0 then v else v + TwoTo64
  }

  /** `bigparser.toShort(data)`: a 16-bit big-endian read, taken to be unsigned,
      that fails when fewer than 2 bytes are given. */
  function ToShort(data: seq<byte>): (r: Option<nat>)
    ensures r.Some? <==> |data| >= 2
    ensures r.Some? ==> r.value == data[0] as int * 256 + data[1] as int && r.value < 65536
  {
    if |data| < 2 then None
    else
      var two := data[..2];
      assert two[..1] == [data[0]] && [data[0]][..0] == [];
      assert BeUint(two[..1]) == data[0] as int;
      Pow256Two();
      Some(BeUint(two))
  }

  /** `bigparser.decodeInt(data, 64, signed)`: the first 8 bytes of `data` read
      big-endian, as two's complement when `signed`; fails when fewer than 8 bytes
      are given. */
  function DecodeInt64(data: seq<byte>, signed: bool): (r: Option<int>)
    ensures r.Some? <==> |data| >= 8
    ensures r.Some? && !signed ==> r.value == BeUint(data[..8]) && 0 <= r.value < TwoTo64
    ensures r.Some? && signed ==>
      -TwoTo63 <= r.value < TwoTo63 && (r.value == BeUint(data[..8]) || r.value == BeUint(data[..8]) - TwoTo64)
  {
    if |data| < 8 then None
    else
      var u := BeUint(data[..8]);
      Pow256Eight();
      Some(if signed then ToInt64(u) else u)
  }

  /** Buffer `toString("ascii")`: each byte, its high bit cleared, as a character. */
  function AsciiText(bytes: seq<byte>): (s: string)
    ensures |s| == |bytes|
    ensures forall i :: 0 <= i < |bytes| ==> s[i] as int == bytes[i] % 128
  {
    seq(|bytes|, i requires 0 <= i < |bytes| => (bytes[i] % 128) as char)
  }
}
