/** Bytes in memory: little-endian integers, 4-byte alignment, overwriting part of a buffer. */
module Bytes {

  type byte = x: int | 0 <= x < 256

  const TWO_16: int := 0x1_0000
  const TWO_32: int := 0x1_0000_0000
  const TWO_64: int := 0x1_0000_0000_0000_0000

  type u32 = n: int | 0 <= n < TWO_32

  /** `NLMSG_ALIGN`, `RTA_ALIGN` and `RTNH_ALIGN`: round up to a multiple of four. */
  function Align4(n: nat): (r: nat)
    ensures n <= r < n + 4 && r % 4 == 0
    ensures n % 4 == 0 ==> r == n
  {
    (n + 3) / 4 * 4
  }

  lemma AlignShift(n: nat, a: nat)
    requires a % 4 == 0 && a <= n
    ensures Align4(n - a) == Align4(n) - a
  {
  }

  function PutU16(v: nat): (b: seq<byte>)
    requires v < TWO_16
    ensures |b| == 2
  {
    [v % 256, v / 256]
  }

  function GetU16(b: seq<byte>, at: nat): (v: nat)
    requires at + 2 <= |b|
    ensures v < TWO_16
  {
    b[at] as int + 256 * (b[at + 1] as int)
  }

  function PutU32(v: nat): (b: seq<byte>)
    requires v < TWO_32
    ensures |b| == 4
  {
    [v % 256, v / 0x100 % 256, v / 0x1_0000 % 256, v / 0x100_0000]
  }

  function GetU32(b: seq<byte>, at: nat): (v: nat)
    requires at + 4 <= |b|
    ensures v < TWO_32
  {
    b[at] as int + 0x100 * (b[at + 1] as int) + 0x1_0000 * (b[at + 2] as int) + 0x100_0000 * (b[at + 3] as int)
  }

  lemma U32RoundTrip(v: nat, rest: seq<byte>)
    requires v < TWO_32
    ensures GetU32(PutU32(v) + rest, 0) == v
  {
    var q := v / 0x100;
    var p := q / 0x100;
    assert v == q * 0x100 + v % 256 && q == p * 0x100 + q % 256 && p == p / 0x100 * 0x100 + p % 256;
    assert v / 0x1_0000 == p && v / 0x100_0000 == p / 0x100;
  }

  lemma StoredU16(b: seq<byte>, at: nat, v: nat)
    requires v < TWO_16 && at + 2 <= |b| && b[at..at + 2] == PutU16(v)
    ensures GetU16(b, at) == v
  {
    assert b[at] == b[at..at + 2][0] && b[at + 1] == b[at..at + 2][1];
  }

  lemma StoredU32(b: seq<byte>, at: nat, v: nat)
    requires v < TWO_32 && at + 4 <= |b| && b[at..at + 4] == PutU32(v)
    ensures GetU32(b, at) == v
  {
    var w := b[at..at + 4];
    assert b[at] == w[0] && b[at + 1] == w[1] && b[at + 2] == w[2] && b[at + 3] == w[3];
    U32RoundTrip(v, []);
    assert PutU32(v) + [] == w;
  }

  lemma SameU32(b: seq<byte>, c: seq<byte>)
    requires |b| >= 4 && |c| >= 4 && b[..4] == c[..4]
    ensures GetU32(b, 0) == GetU32(c, 0)
  {
    assert forall i :: 0 <= i < 4 ==> b[i] == b[..4][i] && c[i] == c[..4][i];
  }

  /** `memcpy(b + at, data, |data|)`. */
  function Overwrite(b: seq<byte>, at: nat, data: seq<byte>): (r: seq<byte>)
    requires at + |data| <= |b|
    ensures |r| == |b|
    ensures r[at..at + |data|] == data
    ensures r[..at] == b[..at] && r[at + |data|..] == b[at + |data|..]
  {
    b[..at] + data + b[at + |data|..]
  }

  lemma OverwriteElsewhere(b: seq<byte>, at: nat, data: seq<byte>, i: nat, j: nat)
    requires at + |data| <= |b| && i <= j <= |b| && (j <= at || at + |data| <= i)
    ensures Overwrite(b, at, data)[i..j] == b[i..j]
  {
  }

  lemma SliceSplit(b: seq<byte>, i: nat, j: nat, k: nat)
    requires i <= j <= k <= |b|
    ensures b[i..j] + b[j..k] == b[i..k]
  {
  }

  lemma SamePrefix(b: seq<byte>, c: seq<byte>, n: nat, i: nat, j: nat)
    requires i <= j <= n <= |b| && n <= |c| && b[..n] == c[..n]
    ensures b[i..j] == c[i..j]
  {
    assert b[i..j] == b[..n][i..j] && c[i..j] == c[..n][i..j];
  }

  /** The same on an array. */
  method Store(buf: array<byte>, at: nat, data: seq<byte>)
    requires at + |data| <= buf.Length
    modifies buf
    ensures buf[..] == Overwrite(old(buf[..]), at, data)
  {
    for i := 0 to |data|
      invariant buf[..at] == old(buf[..at])
      invariant buf[at..at + i] == data[..i]
      invariant buf[at + i..] == old(buf[at + i..])
    {
      buf[at + i] := data[i];
      assert old(buf[at + i..])[1..] == old(buf[at + i + 1..]);
    }
    assert buf[..] == buf[..at] + buf[at..at + |data|] + buf[at + |data|..];
  }
}
