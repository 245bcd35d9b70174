/** Byte strings and the little-endian integers that every message in the library is made of. */
module Wire {
  type byte = b: int | 0 <= b < 256
  type Bytes = seq<byte>

  datatype Option<+T> = None | Some(value: T)

  function Min(a: int, b: int): int { if a < b then a else b }

  /** A sequence without its `k`-th element. */
  function Without<T>(s: seq<T>, k: nat): (r: seq<T>)
    requires k < |s|
    ensures |r| == |s| - 1
    ensures forall i :: 0 <= i < k ==> r[i] == s[i]
    ensures forall i :: k <= i < |r| ==> r[i] == s[i + 1]
  {
    s[..k] + s[k + 1..]
  }

  function Zeros(n: nat): (z: Bytes)
    ensures |z| == n && forall i :: 0 <= i < n ==> z[i] == 0
  {
    seq(n, i => 0)
  }

  /** A cleared buffer of `cap` bytes after a datagram was received into it: the tail stays zero and
      what does not fit is dropped. */
  function Filled(d: Bytes, cap: nat): (buf: Bytes)
    ensures |buf| == cap
    ensures forall i :: 0 <= i < cap ==> buf[i] == if i < |d| then d[i] else 0
  {
    if |d| <= cap then d + Zeros(cap - |d|) else d[..cap]
  }

  function Le16(v: nat): (s: Bytes)
    ensures |s| == 2
  {
    [v % 256, v / 256 % 256]
  }

  function Get16(s: Bytes, off: nat): (v: nat)
    requires off + 2 <= |s|
    ensures v < 0x1_0000
  {
    s[off] as int + 256 * (s[off + 1] as int)
  }

  /** `n` little-endian bytes of `v`. */
  function Le(v: nat, n: nat): (s: Bytes)
    ensures |s| == n
  {
    if n == 0 then [] else [v % 256] + Le(v / 256, n - 1)
  }

  lemma Le16IsLe(v: nat)
    ensures Le16(v) == Le(v, 2)
  {
    assert Le(v / 256, 1) == [v / 256 % 256] + Le(v / 256 / 256, 0);
  }

  /** The `n`-byte integer at `off`. */
  function FromLe(s: Bytes, off: nat, n: nat): nat
    requires off + n <= |s|
    decreases |s| - off
  {
    if n == 0 then 0 else s[off] as int + 256 * FromLe(s, off + 1, n - 1)
  }

  /** A field of a stretch of a buffer is a field of the buffer. */
  lemma {:induction false} FromLeShift(s: Bytes, off: nat, next: nat, x: nat, n: nat)
    requires off <= next <= |s| && x + n <= next - off
    ensures FromLe(s[off..next], x, n) == FromLe(s, off + x, n)
    decreases n
  {
    if n > 0 { FromLeShift(s, off, next, x + 1, n - 1); }
  }

  function Pow256(n: nat): (p: nat)
    ensures p > 0
  {
    if n == 0 then 1 else 256 * Pow256(n - 1)
  }

  /** The byte at place `i` counts 256^i: changing it changes the integer by that much. */
  lemma {:induction false} ByteWeight(s: Bytes, off: nat, n: nat, i: nat, b: byte)
    requires off + n <= |s| && i < n
    ensures FromLe(s[off + i := b], off, n) == FromLe(s, off, n) + Pow256(i) * (b - s[off + i])
    decreases n
  {
    if i == 0 {
      SameBytes(s, s[off := b], off + 1, n - 1);
    } else {
      ByteWeight(s, off + 1, n - 1, i - 1, b);
      Scale(Pow256(i - 1), b - s[off + i]);
    }
  }

  lemma Scale(p: int, d: int)
    ensures 256 * (p * d) == (256 * p) * d
  {
  }

  lemma {:induction false} SameBytes(s: Bytes, t: Bytes, off: nat, n: nat)
    requires off + n <= |s| == |t| && s[off..] == t[off..]
    ensures FromLe(s, off, n) == FromLe(t, off, n)
    decreases n
  {
    if n > 0 {
      assert s[off] == s[off..][0] && t[off] == t[off..][0];
      assert s[off + 1..] == s[off..][1..] && t[off + 1..] == t[off..][1..];
      SameBytes(s, t, off + 1, n - 1);
    }
  }

  lemma {:induction false} FromLeOfLe(v: nat, n: nat)
    requires v < Pow256(n)
    ensures FromLe(Le(v, n), 0, n) == v
  {
    if n > 0 {
      FromLeOfLe(v / 256, n - 1);
      var s := Le(v, n);
      assert s[1..n] == Le(v / 256, n - 1);
      FromLeShift(s, 1, n, 0, n - 1);
    }
  }

  lemma Get16OfLe16(v: nat, s: Bytes, off: nat)
    requires off + 2 <= |s| && s[off..off + 2] == Le16(v)
    ensures Get16(s, off) == v % 0x1_0000
  {
    assert s[off] == s[off..off + 2][0] && s[off + 1] == s[off..off + 2][1];
    TwoBytes(v);
  }

  lemma TwoBytes(v: nat)
    ensures v % 256 + 256 * (v / 256 % 256) == v % 0x1_0000
  {
    var a, b := v % 256, v / 256;
    var c, d := b / 256, b % 256;
    assert v == 65536 * c + (256 * d + a);
    ModUnique(v, c, 256 * d + a);
  }

  lemma ModUnique(v: nat, q: nat, r: nat)
    requires v == 65536 * q + r && r < 65536
    ensures v % 65536 == r
  {
  }

  method Fill(rsp: array<byte>, from: Bytes)
    requires |from| == rsp.Length
    modifies rsp
    ensures rsp[..] == from
  {
    forall i | 0 <= i < rsp.Length { rsp[i] := from[i]; }
  }
}
