/** The little-endian wire vocabulary: fixed-width integers, length-prefixed byte strings,
    and records sealed by a trailing checksum.

    Encoders are written as "put this field in front of what follows", decoders as "take this
    field off the front".  Each encoder's contract is the round trip through its decoder and
    each decoder's contract is that what it accepted is the field's one encoding, so composite
    formats inherit both. */
module Codec {
  import opened Prelude
  import Crc

  const MAX_CODEC_BYTES: nat := 4 * 1024 * 1024

  function Pow256(n: nat): (r: nat)
    ensures r >= 1
  {
    if n == 0 then 1 else 256 * Pow256(n - 1)
  }

  function ToLE(n: nat, width: nat): (bs: Bytes)
    ensures |bs| == width
  {
    if width == 0 then [] else [n % 256] + ToLE(n / 256, width - 1)
  }

  function FromLE(bs: Bytes): (n: nat)
    ensures n < Pow256(|bs|)
  {
    if bs == [] then 0 else bs[0] as int + 256 * FromLE(bs[1..])
  }

  lemma {:induction false} FromToLE(n: nat, width: nat)
    requires n < Pow256(width)
    ensures FromLE(ToLE(n, width)) == n
  {
    if width > 0 {
      FromToLE(n / 256, width - 1);
    }
  }

  lemma {:induction false} ToFromLE(bs: Bytes)
    ensures ToLE(FromLE(bs), |bs|) == bs
  {
    if bs != [] {
      ToFromLE(bs[1..]);
      var n, low := FromLE(bs), bs[0] as int;
      assert n % 256 == low && n / 256 == FromLE(bs[1..]);
    }
  }

  lemma Widths()
    ensures Pow256(2) == 0x1_0000 && Pow256(4) == 0x1_0000_0000 && Pow256(8) == 0x1_0000_0000_0000_0000
  {
    assert Pow256(3) == 0x100_0000;
    assert Pow256(6) == 0x1_0000_0000_0000;
  }

  /** A field taken off the front, and the bytes after it. */
  type Taken<T> = Option<(T, Bytes)>

  function GetU8(bs: Bytes): (r: Taken<byte>)
    ensures r.Some? ==> bs == [r.value.0] + r.value.1
  {
    if bs == [] then None else Some((bs[0], bs[1..]))
  }

  function PutU8(v: byte, rest: Bytes): (bs: Bytes)
    ensures GetU8(bs) == Some((v, rest)) && |bs| == |rest| + 1
  {
    [v] + rest
  }

  function Chop(bs: Bytes, n: nat): (r: Taken<Bytes>)
    ensures r.Some? <==> |bs| >= n
    ensures r.Some? ==> |r.value.0| == n && bs == r.value.0 + r.value.1
  {
    if |bs| < n then None else Some((bs[..n], bs[n..]))
  }

  function PutRaw(a: Bytes, rest: Bytes): (bs: Bytes)
    ensures Chop(bs, |a|) == Some((a, rest)) && |bs| == |a| + |rest|
  {
    var bs := a + rest;
    assert bs[..|a|] == a && bs[|a|..] == rest;
    bs
  }

  function GetU16(bs: Bytes): (r: Taken<u16>)
    ensures r.Some? ==> bs == ToLE(r.value.0, 2) + r.value.1
  {
    var f := Chop(bs, 2);
    if f.None? then None
    else
      ToFromLE(f.value.0);
      Widths();
      Some((FromLE(f.value.0), f.value.1))
  }

  function PutU16(v: u16, rest: Bytes): (bs: Bytes)
    ensures GetU16(bs) == Some((v, rest)) && |bs| == |rest| + 2
  {
    Widths();
    FromToLE(v, 2);
    PutRaw(ToLE(v, 2), rest)
  }

  function GetU32(bs: Bytes): (r: Taken<u32>)
    ensures r.Some? <==> |bs| >= 4
    ensures r.Some? ==> bs == ToLE(r.value.0, 4) + r.value.1
  {
    var f := Chop(bs, 4);
    if f.None? then None
    else
      ToFromLE(f.value.0);
      Widths();
      Some((FromLE(f.value.0), f.value.1))
  }

  function PutU32(v: u32, rest: Bytes): (bs: Bytes)
    ensures GetU32(bs) == Some((v, rest)) && |bs| == |rest| + 4
  {
    Widths();
    FromToLE(v, 4);
    PutRaw(ToLE(v, 4), rest)
  }

  function GetU64(bs: Bytes): (r: Taken<u64>)
    ensures r.Some? ==> bs == ToLE(r.value.0, 8) + r.value.1
  {
    var f := Chop(bs, 8);
    if f.None? then None
    else
      ToFromLE(f.value.0);
      Widths();
      Some((FromLE(f.value.0), f.value.1))
  }

  function PutU64(v: u64, rest: Bytes): (bs: Bytes)
    ensures GetU64(bs) == Some((v, rest)) && |bs| == |rest| + 8
  {
    Widths();
    FromToLE(v, 8);
    PutRaw(ToLE(v, 8), rest)
  }

  /** A run of 64-bit values. */
  function PutWords(ws: seq<u64>, rest: Bytes): (bs: Bytes)
    ensures |bs| == |rest| + 8 * |ws|
  {
    if ws == [] then rest else PutU64(ws[0], PutWords(ws[1..], rest))
  }

  function GetWords(bs: Bytes, n: nat): (r: Taken<seq<u64>>)
    ensures r.Some? ==> |r.value.0| == n && |bs| == |r.value.1| + 8 * n
    decreases n
  {
    if n == 0 then Some(([], bs))
    else
      var (w, rest) :- GetU64(bs);
      var (ws, tail) :- GetWords(rest, n - 1);
      Some(([w] + ws, tail))
  }

  lemma {:induction false} WordsRoundTrip(ws: seq<u64>, rest: Bytes)
    ensures GetWords(PutWords(ws, rest), |ws|) == Some((ws, rest))
    decreases |ws|
  {
    hide PutU64, GetU64;
    if ws != [] {
      WordsRoundTrip(ws[1..], rest);
      assert [ws[0]] + ws[1..] == ws;
    }
  }

  /** A length-prefixed byte string; a longer prefix than the codec limit is refused. */
  function GetBytes(bs: Bytes): (r: Taken<Bytes>)
    ensures r.Some? ==> |r.value.0| <= MAX_CODEC_BYTES && bs == ToLE(|r.value.0|, 4) + r.value.0 + r.value.1
  {
    var n := GetU32(bs);
    if n.None? || n.value.0 > MAX_CODEC_BYTES then None else Chop(n.value.1, n.value.0)
  }

  function PutBytes(v: Bytes, rest: Bytes): (bs: Bytes)
    requires |v| <= MAX_CODEC_BYTES
    ensures GetBytes(bs) == Some((v, rest)) && |bs| == |v| + |rest| + 4
  {
    PutU32(|v|, PutRaw(v, rest))
  }

  /** An optional byte string: a flag, then the value when present. */
  function GetOptBytes(bs: Bytes): (r: Taken<Option<Bytes>>) {
    var f := GetU8(bs);
    if f.None? then None
    else if f.value.0 == 0 then Some((None, f.value.1))
    else if f.value.0 == 1 then
      var v := GetBytes(f.value.1);
      if v.None? then None else Some((Some(v.value.0), v.value.1))
    else None
  }

  function PutOptBytes(v: Option<Bytes>, rest: Bytes): (bs: Bytes)
    requires v.Some? ==> |v.value| <= MAX_CODEC_BYTES
    ensures GetOptBytes(bs) == Some((v, rest))
  {
    if v.None? then PutU8(0, rest) else PutU8(1, PutBytes(v.value, rest))
  }

  /** An optional 64-bit value: a flag, then the value when present. */
  function GetOptU64(bs: Bytes): (r: Taken<Option<u64>>) {
    var f := GetU8(bs);
    if f.None? then None
    else if f.value.0 == 0 then Some((None, f.value.1))
    else if f.value.0 == 1 then
      var v := GetU64(f.value.1);
      if v.None? then None else Some((Some(v.value.0), v.value.1))
    else None
  }

  function PutOptU64(v: Option<u64>, rest: Bytes): (bs: Bytes)
    ensures GetOptU64(bs) == Some((v, rest))
  {
    if v.None? then PutU8(0, rest) else PutU8(1, PutU64(v.value, rest))
  }

  // What a decoder accepted is what the encoder writes.

  lemma U64Canonical(bs: Bytes)
    requires GetU64(bs).Some?
    ensures PutU64(GetU64(bs).value.0, GetU64(bs).value.1) == bs
  {
  }

  lemma BytesCanonical(bs: Bytes)
    requires GetBytes(bs).Some?
    ensures |GetBytes(bs).value.0| <= MAX_CODEC_BYTES && PutBytes(GetBytes(bs).value.0, GetBytes(bs).value.1) == bs
  {
    var (v, rest) := GetBytes(bs).value;
    assert ToLE(|v|, 4) + v + rest == ToLE(|v|, 4) + (v + rest);
  }

  lemma OptBytesCanonical(bs: Bytes)
    requires GetOptBytes(bs).Some?
    ensures var (v, rest) := GetOptBytes(bs).value;
            (v.Some? ==> |v.value| <= MAX_CODEC_BYTES) && PutOptBytes(v, rest) == bs
  {
    hide GetBytes, PutBytes;
    var (flag, r0) := GetU8(bs).value;
    if flag == 1 {
      BytesCanonical(r0);
    }
  }

  lemma OptU64Canonical(bs: Bytes)
    requires GetOptU64(bs).Some?
    ensures var (v, rest) := GetOptU64(bs).value; PutOptU64(v, rest) == bs
  {
    hide GetU64, PutU64;
    var (flag, r0) := GetU8(bs).value;
    if flag == 1 {
      U64Canonical(r0);
    }
  }

  lemma U32Canonical(bs: Bytes)
    requires GetU32(bs).Some?
    ensures PutU32(GetU32(bs).value.0, GetU32(bs).value.1) == bs
  {
  }

  lemma U16Canonical(bs: Bytes)
    requires GetU16(bs).Some?
    ensures PutU16(GetU16(bs).value.0, GetU16(bs).value.1) == bs
  {
  }

  lemma SignedCanonical(v: u64)
    ensures AsU64(AsI64(v)) == v
  {
  }

  /** A magic number and a version. */
  function PutHeader(magic: u32, version: u16, rest: Bytes): (bs: Bytes)
    ensures |bs| == |rest| + 6
  {
    PutU32(magic, PutU16(version, rest))
  }

  function GetHeader(bs: Bytes, magic: u32, version: u16): (r: Option<Bytes>)
    ensures r.Some? ==> bs == ToLE(magic, 4) + (ToLE(version, 2) + r.value)
  {
    var m := GetU32(bs);
    if m.None? || m.value.0 != magic then None
    else
      var v := GetU16(m.value.1);
      if v.None? || v.value.0 != version then None else Some(v.value.1)
  }

  /** Signed integers travel as their two's complement. */
  function AsU64(v: i64): u64 {
    var n: int := v;
    if n < 0 then n + 0x1_0000_0000_0000_0000 else n
  }

  function AsI64(v: u64): i64 {
    var n: int := v;
    if n > 0x7fff_ffff_ffff_ffff then n - 0x1_0000_0000_0000_0000 else n
  }

  // ------------------------------------------------------------------
  // Records sealed by a trailing checksum
  // ------------------------------------------------------------------

  const ZERO4: Bytes := [0, 0, 0, 0]

  /** CRC-32C of a record whose last four bytes are taken as zero. */
  function ZeroedTailCrc(bs: Bytes): u32 {
    if |bs| < 4 then Crc.Crc32c(seq(|bs|, _ => 0)) else Crc.Crc32c(bs[..|bs| - 4] + ZERO4)
  }

  function Seal(body: Bytes): (bs: Bytes)
    ensures |bs| == |body| + 4
    ensures Unseal(bs) == Some(body)
  {
    var crc := Crc.Crc32c(body + ZERO4);
    var bs := body + ToLE(crc, 4);
    assert bs[..|bs| - 4] == body && bs[|bs| - 4..] == ToLE(crc, 4);
    Widths();
    FromToLE(crc, 4);
    bs
  }

  function Unseal(bs: Bytes): (r: Option<Bytes>)
    ensures r.Some? ==> |bs| >= 4 && r.value == bs[..|bs| - 4] &&
                        bs == r.value + ToLE(Crc.Crc32c(r.value + ZERO4), 4)
  {
    if |bs| < 4 then None
    else
      var body, tail := bs[..|bs| - 4], bs[|bs| - 4..];
      ToFromLE(tail);
      if ZeroedTailCrc(bs) == FromLE(tail) then Some(body) else None
  }

  lemma UnsealCanonical(bs: Bytes)
    requires Unseal(bs).Some?
    ensures Seal(Unseal(bs).value) == bs
  {
    hide ZeroedTailCrc;
    var body := Unseal(bs).value;
    assert bs == body + bs[|body|..];
  }
}
