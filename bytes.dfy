/**
 * Bytes of the shared memory regions, the C strings stored in them and the
 * native `int` that the processes copy in and out of them with `memcpy`.
 * The target is little-endian with a 32-bit two's-complement `int`.
 */
module Bytes {

  type byte = b: int | 0 <= b < 256

  const NUL: byte := 0

  const Int32Size: nat := 4

  predicate IsInt32(x: int) {
    -0x8000_0000 <= x < 0x8000_0000
  }

  /** `n` zero bytes, as `memset(p, 0, n)` leaves them. */
  function Zeros(n: nat): (z: seq<byte>)
    ensures |z| == n
    ensures forall i :: 0 <= i < n ==> z[i] == NUL
  {
    seq(n, _ => NUL)
  }

  /**
   * The C string at the start of a buffer, as `std::string(char*)` reads it:
   * every byte before the first NUL, or the whole buffer when it holds none.
   */
  function CString(buf: seq<byte>): (s: seq<byte>)
    ensures |s| <= |buf| && s == buf[..|s|]
    ensures NUL !in s
    ensures |s| < |buf| ==> buf[|s|] == NUL
  {
    if |buf| == 0 || buf[0] == NUL then [] else [buf[0]] + CString(buf[1..])
  }

  /** A buffer holding a NUL-free text followed by a NUL reads back as that text, whatever follows. */
  lemma {:induction false} CStringOfTerminated(text: seq<byte>, rest: seq<byte>)
    requires NUL !in text
    ensures CString(text + [NUL] + rest) == text
  {
    if text != [] {
      assert (text + [NUL] + rest)[1..] == text[1..] + [NUL] + rest;
      CStringOfTerminated(text[1..], rest);
    }
  }

  /** A C string that ends within the first `k` bytes is read from those bytes alone. */
  lemma {:induction false} CStringWithinPrefix(buf: seq<byte>, k: nat)
    requires k <= |buf| && NUL in buf[..k]
    ensures CString(buf) == CString(buf[..k])
    ensures |CString(buf)| < k
  {
    if buf[0] != NUL {
      assert buf[1..][..k - 1] == buf[..k][1..];
      assert NUL in buf[1..][..k - 1];
      CStringWithinPrefix(buf[1..], k - 1);
    }
  }

  /** The four bytes `memcpy(p, &x, sizeof(int))` stores for `x`: little-endian, modulo 2^32. */
  function EncodeInt32(x: int): (bs: seq<byte>)
    ensures |bs| == Int32Size
  {
    var u := x % 0x1_0000_0000;
    [u % 0x100, (u / 0x100) % 0x100, (u / 0x1_0000) % 0x100, u / 0x100_0000]
  }

  /** The first four bytes read as an unsigned little-endian number. */
  function Unsigned32(bs: seq<byte>): (u: int)
    requires |bs| >= Int32Size
  {
    bs[0] as int + 0x100 * (bs[1] as int) + 0x1_0000 * (bs[2] as int) + 0x100_0000 * (bs[3] as int)
  }

  /** The `int` that `memcpy(&x, p, sizeof(int))` reads from the first four bytes. */
  function DecodeInt32(bs: seq<byte>): (x: int)
    requires |bs| >= Int32Size
    ensures IsInt32(x)
  {
    var u := Unsigned32(bs);
    if u < 0x8000_0000 then u else u - 0x1_0000_0000
  }

  /** Reading back an `int` that was written gives the same `int`. */
  lemma DecodeEncode(x: int)
    requires IsInt32(x)
    ensures DecodeInt32(EncodeInt32(x)) == x
  {
    var u := x % 0x1_0000_0000;
    var b0, b1, b2, b3 := u % 0x100, (u / 0x100) % 0x100, (u / 0x1_0000) % 0x100, u / 0x100_0000;
    assert u / 0x100 == b1 + 0x100 * (u / 0x1_0000);
    assert u / 0x1_0000 == b2 + 0x100 * b3;
    assert u == b0 + 0x100 * b1 + 0x1_0000 * b2 + 0x100_0000 * b3;
  }

  /** The first four bytes determine the `int`: it is 1 only for the bytes 1, 0, 0, 0. */
  lemma DecodeIsOne(bs: seq<byte>)
    requires |bs| >= Int32Size
    ensures DecodeInt32(bs) == 1 <==> bs[..Int32Size] == [1, 0, 0, 0]
  {
    if DecodeInt32(bs) == 1 {
      assert Unsigned32(bs) == 1;
      assert bs[3] == 0 && bs[2] == 0 && bs[1] == 0 && bs[0] == 1;
    }
  }

  /** `memset(region, 0, size)`. */
  method Clear(region: array<byte>)
    modifies region
    ensures region[..] == Zeros(region.Length)
  {
    var i: nat := 0;
    while i < region.Length
      invariant 0 <= i <= region.Length
      invariant forall k :: 0 <= k < i ==> region[k] == NUL
    {
      region[i] := NUL;
      i := i + 1;
    }
  }
}
