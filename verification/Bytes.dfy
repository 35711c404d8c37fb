/** Bytes, C strings and the big-endian integers of the protocol. */
module Bytes {
  type Byte = b: int | 0 <= b < 256

  predicate FitsInt32(v: int) {
    -0x8000_0000 <= v < 0x8000_0000
  }

  /** The value of a byte read as a `signed char`. */
  function SignedByte(b: Byte): int {
    if b < 128 then b else b - 256
  }

  /** The big-endian 16-bit number at `data + o`. */
  function Int16At(data: seq<Byte>, o: int): int
    requires 0 <= o <= |data| - 2
  {
    var high: int, low: int := data[o], data[o + 1];
    var u := 0x100 * high + low;
    if u < 0x8000 then u else u - 0x1_0000
  }

  /** The big-endian 32-bit number at `data + o`. */
  function Int32At(data: seq<Byte>, o: int): int
    requires 0 <= o <= |data| - 4
  {
    var b0: int, b1: int, b2: int, b3: int := data[o], data[o + 1], data[o + 2], data[o + 3];
    var u := 0x100_0000 * b0 + 0x1_0000 * b1 + 0x100 * b2 + b3;
    if u < 0x8000_0000 then u else u - 0x1_0000_0000
  }

  // ---------------------------------------------------------------- C strings

  /** Some byte of `data[o..limit]` is the NUL that ends a C string at `o`. */
  predicate HasNul(data: seq<Byte>, o: int, limit: int) {
    0 <= o <= limit <= |data| && exists k :: o <= k < limit && data[k] == 0
  }

  /** `strlen(data + o)`. */
  function StrLen(data: seq<Byte>, o: int, limit: int): (n: nat)
    requires HasNul(data, o, limit)
    ensures o + n < limit && data[o + n] == 0
    ensures forall k :: o <= k < o + n ==> data[k] != 0
    decreases limit - o
  {
    if data[o] == 0 then 0 else 1 + StrLen(data, o + 1, limit)
  }

  predicate NulFree(s: seq<Byte>) {
    forall k :: 0 <= k < |s| ==> s[k] != 0
  }

  /** A string on the wire: its bytes and the terminating NUL. */
  function EncodeString(s: seq<Byte>): seq<Byte> {
    s + [0]
  }

  lemma StrLenOfEncoding(data: seq<Byte>, o: int, limit: int, s: seq<Byte>)
    requires NulFree(s) && 0 <= o && o + |s| + 1 <= limit <= |data|
    requires data[o..o + |s| + 1] == EncodeString(s)
    ensures HasNul(data, o, limit)
    ensures StrLen(data, o, limit) == |s| && data[o..o + |s|] == s
  {
    var w := data[o..o + |s| + 1];
    assert data[o + |s|] == w[|s|] == 0;
    assert forall k :: o <= k < o + |s| ==> data[k] == w[k - o] == s[k - o];
    assert StrLen(data, o, limit) >= |s|;
  }
}
