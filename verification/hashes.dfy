/** The 32-byte `Hash` of database/block.go and its text form: `MarshalText`
    writes lower-case hexadecimal, `UnmarshalText` decodes with Go's
    `encoding/hex.Decode` into the receiver's own 32 bytes. */
module Hashes {
  import opened Common

  type byte = x: int | 0 <= x < 256

  const HashLen: nat := 32

  /** `n` zero bytes. */
  function Zeros(n: nat): (r: seq<byte>)
    ensures |r| == n
    ensures forall k :: 0 <= k < n ==> r[k] == 0
  {
    if n == 0 then [] else [0] + Zeros(n - 1)
  }

  /** Go's `[32]byte`. */
  type Hash = s: seq<byte> | |s| == HashLen witness Zeros(32)

  /** The all-zero hash: a freshly declared `Hash{}`. */
  const ZeroHash: Hash := Zeros(HashLen)

  /** `Hash.IsEmpty` is not part of this model's source; it is taken to mean
      "equals the all-zero hash", the sentinel for "no block". */
  predicate IsEmpty(h: Hash) {
    h == ZeroHash
  }

  // ---------------------------------------------------------------------
  // Hexadecimal digits
  // ---------------------------------------------------------------------

  const LowerHexDigits: string := "0123456789abcdef"

  /** The lower-case digit `hex.EncodeToString` writes for a nibble. */
  function HexDigit(n: nat): char
    requires n < 16
  {
    LowerHexDigits[n]
  }

  predicate IsLowerHex(c: char) {
    ('0' <= c <= '9') || ('a' <= c <= 'f')
  }

  /** The nibble `hex.Decode` reads from one character; both cases are accepted. */
  function FromHexChar(c: char): (r: Option<nat>)
    ensures r.Some? ==> r.value < 16
  {
    if '0' <= c <= '9' then Some(c as nat - '0' as nat)
    else if 'a' <= c <= 'f' then Some(c as nat - 'a' as nat + 10)
    else if 'A' <= c <= 'F' then Some(c as nat - 'A' as nat + 10)
    else None
  }

  predicate AllHex(s: string) {
    forall k :: 0 <= k < |s| ==> FromHexChar(s[k]).Some?
  }

  /** Reading back a written digit gives the nibble. */
  lemma HexDigitDecodes(n: nat)
    requires n < 16
    ensures IsLowerHex(HexDigit(n))
    ensures FromHexChar(HexDigit(n)) == Some(n)
  {
  }

  /** Writing a read lower-case digit gives the character back. */
  lemma LowerHexEncodes(c: char)
    requires IsLowerHex(c)
    ensures FromHexChar(c).Some? && HexDigit(FromHexChar(c).value) == c
  {
  }

  // ---------------------------------------------------------------------
  // Encoding
  // ---------------------------------------------------------------------

  /** `hex.EncodeToString`: two lower-case digits per byte, high nibble first. */
  function EncodeHex(bs: seq<byte>): (r: string)
    ensures |r| == 2 * |bs|
    ensures forall k :: 0 <= k < |r| ==> IsLowerHex(r[k])
    ensures forall i :: 0 <= i < |bs| ==>
              r[2 * i] == HexDigit(bs[i] / 16) && r[2 * i + 1] == HexDigit(bs[i] % 16)
  {
    if bs == [] then []
    else
      var rest := EncodeHex(bs[1..]);
      var r := [HexDigit(bs[0] / 16), HexDigit(bs[0] % 16)] + rest;
      HexDigitDecodes(bs[0] / 16);
      HexDigitDecodes(bs[0] % 16);
      assert forall k :: 2 <= k < |r| ==> r[k] == rest[k - 2];
      r
  }

  /** `Hash.MarshalText`: exactly 64 lower-case hexadecimal characters that spell
      the hash byte by byte. It never fails. */
  function MarshalText(h: Hash): (r: string)
    ensures |r| == 2 * HashLen
    ensures forall k :: 0 <= k < |r| ==> IsLowerHex(r[k])
    ensures forall i :: 0 <= i < HashLen ==>
              r[2 * i] == HexDigit(h[i] / 16) && r[2 * i + 1] == HexDigit(h[i] % 16)
  {
    EncodeHex(h)
  }

  // ---------------------------------------------------------------------
  // Decoding
  // ---------------------------------------------------------------------

  /** The failures of `hex.Decode`. `IndexOutOfRange` stands for the run-time
      panic Go raises when the text holds more bytes than the destination. */
  datatype HexError = InvalidByte(c: char) | ErrLength | IndexOutOfRange

  /** The destination slice after `hex.Decode` stopped, and its error. */
  datatype Decoded = Decoded(dst: seq<byte>, err: Option<HexError>)

  /** The byte spelled by characters `2k` and `2k+1` of `src`. */
  function PairValue(src: string, k: nat): byte
    requires 2 * k + 1 < |src|
    requires FromHexChar(src[2 * k]).Some? && FromHexChar(src[2 * k + 1]).Some?
  {
    FromHexChar(src[2 * k]).value * 16 + FromHexChar(src[2 * k + 1]).value
  }

  /** `hex.Decode(dst, src)` from pair `i` on: pairs are decoded left to right and
      written in place; the first invalid character stops it, a trailing odd
      character is checked and then reported as `ErrLength`. Bytes already
      written stay written when it stops. */
  function DecodeFrom(dst: seq<byte>, src: string, i: nat): (r: Decoded)
    requires 2 * i <= |src|
    requires i <= |dst|
    decreases |src| - 2 * i
    ensures |r.dst| == |dst|
    ensures r.err.None? <==>
              (|src| % 2 == 0 && |src| <= 2 * |dst| && AllHex(src[2 * i..]))
    ensures r.err.None? ==>
              forall k :: i <= k < |src| / 2 ==> r.dst[k] == PairValue(src, k)
    ensures forall k :: 0 <= k < |dst| && (k < i || |src| / 2 <= k) ==> r.dst[k] == dst[k]
  {
    if 2 * i + 1 < |src| then
      var a := FromHexChar(src[2 * i]);
      var b := FromHexChar(src[2 * i + 1]);
      if a.None? then Decoded(dst, Some(InvalidByte(src[2 * i])))
      else if b.None? then Decoded(dst, Some(InvalidByte(src[2 * i + 1])))
      else if i < |dst| then
        var r := DecodeFrom(dst[i := a.value * 16 + b.value], src, i + 1);
        assert src[2 * i..][2..] == src[2 * (i + 1)..];
        AllHexShift(src, i);
        r
      else Decoded(dst, Some(IndexOutOfRange))
    else if 2 * i < |src| then
      if FromHexChar(src[2 * i]).None? then Decoded(dst, Some(InvalidByte(src[2 * i])))
      else Decoded(dst, Some(ErrLength))
    else
      Decoded(dst, None)
  }

  /** Dropping a valid leading pair does not change whether the rest is hexadecimal. */
  lemma AllHexShift(src: string, i: nat)
    requires 2 * i + 1 < |src|
    requires FromHexChar(src[2 * i]).Some? && FromHexChar(src[2 * i + 1]).Some?
    ensures AllHex(src[2 * i..]) <==> AllHex(src[2 * (i + 1)..])
  {
    var s, t := src[2 * i..], src[2 * (i + 1)..];
    assert forall k :: 0 <= k < |t| ==> t[k] == s[k + 2];
    if AllHex(t) {
      forall k | 0 <= k < |s|
        ensures FromHexChar(s[k]).Some?
      {
        if k >= 2 { assert s[k] == t[k - 2]; }
      }
    }
  }

  /** The receiver after `UnmarshalText`, and the error it returned. */
  datatype Unmarshalled = Unmarshalled(hash: Hash, err: Option<HexError>)

  /** `(*Hash).UnmarshalText(data)`: `hex.Decode(h[:], data)` overwrites the
      receiver's bytes in place. Succeeds exactly when the text is an even number
      (at most 64) of hexadecimal characters; the decoded bytes replace the leading
      bytes of the receiver and the rest keep their previous value. */
  function UnmarshalText(h: Hash, data: string): (r: Unmarshalled)
    ensures r.err.None? <==> |data| % 2 == 0 && |data| <= 2 * HashLen && AllHex(data)
    ensures |data| % 2 == 1 ==> r.err.Some?
    ensures r.err.None? ==> forall k :: 0 <= k < |data| / 2 ==> r.hash[k] == PairValue(data, k)
    ensures forall k :: |data| / 2 <= k < HashLen ==> r.hash[k] == h[k]
  {
    var d := DecodeFrom(h, data, 0);
    assert data[0..] == data;
    Unmarshalled(d.dst, d.err)
  }

  // ---------------------------------------------------------------------
  // Codec properties
  // ---------------------------------------------------------------------

  /** Unmarshalling the marshalled text of `h`, into any receiver, yields `h`. */
  lemma {:induction false} UnmarshalMarshal(h: Hash, receiver: Hash)
    ensures UnmarshalText(receiver, MarshalText(h)) == Unmarshalled(h, None)
  {
    var t := MarshalText(h);
    forall k | 0 <= k < |t|
      ensures FromHexChar(t[k]).Some?
    {
      LowerHexEncodes(t[k]);
    }
    var r := UnmarshalText(receiver, t);
    forall k | 0 <= k < HashLen
      ensures r.hash[k] == h[k]
    {
      HexDigitDecodes(h[k] / 16);
      HexDigitDecodes(h[k] % 16);
    }
  }

  /** Marshalling the hash decoded from 64 lower-case hexadecimal characters gives
      the same text back: together with `UnmarshalMarshal`, text and hash are in
      one-to-one correspondence. */
  lemma {:induction false} MarshalUnmarshal(receiver: Hash, data: string)
    requires |data| == 2 * HashLen
    requires forall k :: 0 <= k < |data| ==> IsLowerHex(data[k])
    ensures UnmarshalText(receiver, data).err.None?
    ensures MarshalText(UnmarshalText(receiver, data).hash) == data
  {
    forall k | 0 <= k < |data|
      ensures FromHexChar(data[k]).Some?
    {
      LowerHexEncodes(data[k]);
    }
    var r := UnmarshalText(receiver, data);
    var t := MarshalText(r.hash);
    forall j | 0 <= j < |data|
      ensures t[j] == data[j]
    {
      var k := j / 2;
      var hi := FromHexChar(data[2 * k]).value;
      var lo := FromHexChar(data[2 * k + 1]).value;
      assert r.hash[k] == hi * 16 + lo;
      assert r.hash[k] / 16 == hi && r.hash[k] % 16 == lo;
      LowerHexEncodes(data[2 * k]);
      LowerHexEncodes(data[2 * k + 1]);
    }
  }

  /** Empty text leaves the receiver untouched and is not an error: the empty
      `fromBlock` query decodes to the zero hash. */
  lemma UnmarshalEmpty(h: Hash)
    ensures UnmarshalText(h, "") == Unmarshalled(h, None)
    ensures UnmarshalText(ZeroHash, "").hash == ZeroHash
  {
  }
}
