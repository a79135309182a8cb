/** Bytes, bit tests and the read-only backing file every image is decoded from.

    A backing file is an immutable sequence of bytes; reading it follows the
    io.ReaderAt contract the decoder is written against. */
module Bytes {

  newtype byte = b: int | 0 <= b < 256

  datatype Option<+T> = None | Some(value: T)

  /** The errors the modelled operations distinguish. `Ok` stands for a nil error. */
  datatype Error =
    | Ok
    | EndOfFile
    | NegativeOffset
    | ParentRequired
    | Invalid
    | Refused

  function Min(a: int, b: int): int { if a < b then a else b }

  function Max(a: int, b: int): int { if a > b then a else b }

  /** 2^k for the eight bit positions of a byte. */
  function Weight(k: int): (w: int)
    requires 0 <= k < 8
    ensures 1 <= w <= 128
  {
    [1, 2, 4, 8, 16, 32, 64, 128][k]
  }

  /** Bit k of b, bit 0 being the least significant: `(b >> k) & 1 == 1`. */
  predicate TestBit(b: byte, k: int)
    requires 0 <= k < 8
  {
    (b as int / Weight(k)) % 2 == 1
  }

  /** One byte of a file, if the file has it. */
  function FileByte(file: seq<byte>, at: int): Option<byte> {
    if 0 <= at < |file| then Some(file[at]) else None
  }

  /** A little-endian integer. */
  function Le(s: seq<byte>): nat {
    if s == [] then 0 else s[0] as int + 256 * Le(s[1..])
  }

  function Pow256(n: nat): (p: nat)
    ensures p >= 1
  {
    if n == 0 then 1 else 256 * Pow256(n - 1)
  }

  lemma {:induction false} LeBound(s: seq<byte>)
    ensures Le(s) < Pow256(|s|)
  {
    if s != [] {
      LeBound(s[1..]);
    }
  }

  /** A reader over an immutable file, filling p[lo..hi]. A read running past the end
      delivers the bytes there are, together with an end-of-file error. */
  method FileReadAt(file: seq<byte>, p: array<byte>, lo: nat, hi: nat, off: int) returns (n: nat, err: Error)
    requires lo <= hi <= p.Length
    modifies p
    ensures lo + n <= hi
    ensures forall i :: 0 <= i < p.Length && !(lo <= i < hi) ==> p[i] == old(p[i])
    ensures n > 0 ==> 0 <= off && off + n <= |file| && p[lo..lo + n] == file[off..off + n]
    ensures err == Ok <==> n == hi - lo && off >= 0
    ensures err == Ok || err == EndOfFile || err == NegativeOffset
    ensures err == NegativeOffset <==> off < 0
    ensures n < hi - lo ==> off < 0 || off + n >= |file|
  {
    n := 0;
    if off < 0 {
      return 0, NegativeOffset;
    }
    while n < hi - lo && off + n < |file|
      invariant lo + n <= hi
      invariant n > 0 ==> off + n <= |file|
      invariant forall i :: 0 <= i < p.Length && !(lo <= i < hi) ==> p[i] == old(p[i])
      invariant forall k :: lo <= k < lo + n ==> p[k] == file[off + (k - lo)]
    {
      p[lo + n] := file[off + n];
      n := n + 1;
    }
    if n > 0 {
      assert p[lo..lo + n] == file[off..off + n];
    }
    err := if n == hi - lo then Ok else EndOfFile;
  }

  /** Go's built-in `clear` on a slice of bytes. */
  method Clear(p: array<byte>, lo: nat, hi: nat)
    requires lo <= hi <= p.Length
    modifies p
    ensures forall i :: 0 <= i < p.Length && !(lo <= i < hi) ==> p[i] == old(p[i])
    ensures forall k :: lo <= k < hi ==> p[k] == 0
  {
    for i := lo to hi
      invariant forall j :: 0 <= j < p.Length && !(lo <= j < hi) ==> p[j] == old(p[j])
      invariant forall k :: lo <= k < i ==> p[k] == 0
    {
      p[i] := 0;
    }
  }
}
