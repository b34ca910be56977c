/** Byte sequences and the fixed-width little-endian fields that every page and log layout uses. */
module Bytes {

  type Byte = b: int | 0 <= b < 256

  const U16_LIMIT: int := 0x1_0000
  const U32_LIMIT: int := 0x1_0000_0000
  const U64_LIMIT: int := 0x1_0000_0000_0000_0000
  const I64_LIMIT: int := 0x8000_0000_0000_0000

  datatype Option<+T> = None | Some(value: T)

  function Min(a: int, b: int): int { if a < b then a else b }

  function Max(a: int, b: int): int { if a < b then b else a }

  /** A Python slice `s[lo:hi]`: bounds past the end are clamped, never an error. */
  function Slice<T>(s: seq<T>, lo: nat, hi: nat): (r: seq<T>)
    ensures lo <= hi <= |s| ==> r == s[lo..hi]
    ensures |r| == Max(0, Min(hi, |s|) - lo)
  {
    if lo < Min(hi, |s|) then s[lo..Min(hi, |s|)] else []
  }

  function Last<T>(s: seq<T>): T
    requires s != []
  {
    s[|s| - 1]
  }

  function Front<T>(s: seq<T>): seq<T>
    requires s != []
  {
    s[..|s| - 1]
  }

  lemma Associative<T>(a: seq<T>, b: seq<T>, c: seq<T>)
    ensures a + (b + c) == a + b + c
  {
  }

  lemma Around<T>(s: seq<T>, i: nat)
    requires i < |s|
    ensures s == s[..i] + [s[i]] + s[i + 1..]
  {
  }

  /** Assigning to a slice of the same length: `body` with the bytes from `at` on replaced by `raw`. */
  function Patched(body: seq<Byte>, at: nat, raw: seq<Byte>): (r: seq<Byte>)
    requires at + |raw| <= |body|
    ensures |r| == |body|
  {
    body[..at] + raw + body[at + |raw|..]
  }

  lemma PatchedTwice(body: seq<Byte>, at: nat, x: seq<Byte>, y: seq<Byte>)
    requires at + |x| + |y| <= |body|
    ensures Patched(Patched(body, at, x), at + |x|, y) == Patched(body, at, x + y)
  {
  }

  function Zeros(n: nat): (r: seq<Byte>)
    ensures |r| == n
    ensures forall i :: 0 <= i < n ==> r[i] == 0
  {
    seq(n, _ => 0)
  }

  // The fields are defined pairwise, wide from narrow, so that each round trip is linear arithmetic.

  function U16(n: nat): (r: seq<Byte>)
    requires n < U16_LIMIT
    ensures |r| == 2 && GetU16(r) == n
  {
    [n % 256, n / 256]
  }

  function GetU16(s: seq<Byte>): (n: nat)
    requires |s| == 2
    ensures n < U16_LIMIT
  {
    s[0] as int + 256 * s[1] as int
  }

  function U32(n: nat): (r: seq<Byte>)
    requires n < U32_LIMIT
    ensures |r| == 4 && GetU32(r) == n
  {
    var lo, hi := U16(n % U16_LIMIT), U16(n / U16_LIMIT);
    assert (lo + hi)[..2] == lo && (lo + hi)[2..] == hi;
    lo + hi
  }

  function GetU32(s: seq<Byte>): (n: nat)
    requires |s| == 4
    ensures n < U32_LIMIT
  {
    GetU16(s[..2]) + U16_LIMIT * GetU16(s[2..])
  }

  function U64(n: nat): (r: seq<Byte>)
    requires n < U64_LIMIT
    ensures |r| == 8 && GetU64(r) == n
  {
    var lo, hi := U32(n % U32_LIMIT), U32(n / U32_LIMIT);
    assert (lo + hi)[..4] == lo && (lo + hi)[4..] == hi;
    lo + hi
  }

  function GetU64(s: seq<Byte>): (n: nat)
    requires |s| == 8
    ensures n < U64_LIMIT
  {
    GetU32(s[..4]) + U32_LIMIT * GetU32(s[4..])
  }

  predicate IsI64(k: int) { -I64_LIMIT <= k < I64_LIMIT }

  /** Two's complement in eight bytes. */
  function I64(k: int): (r: seq<Byte>)
    requires IsI64(k)
    ensures |r| == 8 && GetI64(r) == k
  {
    U64(if k < 0 then k + U64_LIMIT else k)
  }

  function GetI64(s: seq<Byte>): (k: int)
    requires |s| == 8
    ensures IsI64(k)
  {
    var n := GetU64(s);
    if n < I64_LIMIT then n else n - U64_LIMIT
  }

  /** Little-endian bytes of any number; `struct.unpack` is the fixed-width case of it. */
  function FromLE(s: seq<Byte>): nat {
    if s == [] then 0 else s[0] + 256 * FromLE(s[1..])
  }

  function PowByte(n: nat): nat { if n == 0 then 1 else 256 * PowByte(n - 1) }

  /** Python's `int.from_bytes(s, "little", signed=True)`, for any number of bytes. */
  function FromSignedLE(s: seq<Byte>): int {
    if s == [] || s[|s| - 1] < 128 then FromLE(s) else FromLE(s) - PowByte(|s|)
  }

  lemma {:induction false} FromLEAt8(s: seq<Byte>)
    requires |s| == 8
    ensures FromLE(s) == GetU64(s) && PowByte(8) == U64_LIMIT
  {
    assert forall i | 0 <= i < 7 :: s[i..][1..] == s[i + 1..];
    assert FromLE(s[7..]) == s[7] + 256 * FromLE(s[8..]);
    assert FromLE(s[6..]) == s[6] + 256 * FromLE(s[7..]);
    assert FromLE(s[5..]) == s[5] + 256 * FromLE(s[6..]);
    assert FromLE(s[4..]) == s[4] + 256 * FromLE(s[5..]);
    assert FromLE(s[3..]) == s[3] + 256 * FromLE(s[4..]);
    assert FromLE(s[2..]) == s[2] + 256 * FromLE(s[3..]);
    assert FromLE(s[1..]) == s[1] + 256 * FromLE(s[2..]);
    assert s[0..] == s;
    assert PowByte(3) == 256 * PowByte(2);
    assert PowByte(5) == 256 * PowByte(4);
    assert PowByte(7) == 256 * PowByte(6);
  }

  /** Little-endian numbers of four bytes. */
  lemma {:induction false} FromLEAt4(s: seq<Byte>)
    requires |s| == 4
    ensures FromLE(s) == GetU32(s)
  {
    assert forall i | 0 <= i < 3 :: s[i..][1..] == s[i + 1..];
    assert FromLE(s[3..]) == s[3] + 256 * FromLE(s[4..]);
    assert FromLE(s[2..]) == s[2] + 256 * FromLE(s[3..]);
    assert FromLE(s[1..]) == s[1] + 256 * FromLE(s[2..]);
    assert s[0..] == s;
  }

  /** Reading eight bytes as a signed number of any length agrees with the fixed-width reading. */
  lemma {:induction false} SignedLEAt8(s: seq<Byte>)
    requires |s| == 8
    ensures FromSignedLE(s) == GetI64(s)
  {
    FromLEAt8(s);
  }
}
