/** Machine integers, optional pointers and the little-endian byte order in which the
    IPC code stores integers through `*((UINT32 *)pCursor)` and `*((size_t *)pCursor)`. */
module Bytes {

  type byte = x: int | 0 <= x < 0x100
  type uint16 = x: int | 0 <= x < 0x1_0000
  type uint32 = x: int | 0 <= x < 0x1_0000_0000
  type uint64 = x: int | 0 <= x < 0x1_0000_0000_0000_0000

  /** 64-bit sums wrap at this number. */
  const WORD: nat := 0x1_0000_0000_0000_0000

  lemma ModSum(a: nat, b: nat)
    ensures (a % WORD + b) % WORD == (a + b) % WORD
  {
    assert a == WORD * (a / WORD) + a % WORD;
    assert a % WORD + b == WORD * ((a % WORD + b) / WORD) + (a % WORD + b) % WORD;
    assert a + b == WORD * (a / WORD + (a % WORD + b) / WORD) + (a % WORD + b) % WORD;
  }

  /** A C pointer that may be NULL. */
  datatype Option<+T> = None | Some(value: T)

  /** The outcome of a call that reports a DWORD error code. */
  datatype Code = Success | InvalidParameter | NotEnoughMemory | IoIncomplete | Errno(code: int)

  function Pow256(n: nat): (p: nat)
    ensures p > 0
  {
    if n == 0 then 1 else 256 * Pow256(n - 1)
  }

  /** The `n` low-order bytes of `v`, least significant first. */
  function LE(v: nat, n: nat): (b: seq<byte>)
    ensures |b| == n
  {
    if n == 0 then [] else [v % 256] + LE(v / 256, n - 1)
  }

  function FromLE(b: seq<byte>): nat
  {
    if b == [] then 0 else b[0] + 256 * FromLE(b[1..])
  }

  lemma {:induction false} FromLEBound(b: seq<byte>)
    ensures FromLE(b) < Pow256(|b|)
  {
    if b != [] { FromLEBound(b[1..]); }
  }

  lemma {:induction false} FromLEInvertsLE(v: nat, n: nat)
    requires v < Pow256(n)
    ensures FromLE(LE(v, n)) == v
  {
    if n > 0 {
      FromLEInvertsLE(v / 256, n - 1);
      assert LE(v, n)[1..] == LE(v / 256, n - 1);
    }
  }

  lemma {:induction false} LEInvertsFromLE(b: seq<byte>)
    ensures LE(FromLE(b), |b|) == b
  {
    if b != [] {
      LEInvertsFromLE(b[1..]);
      assert b == [b[0]] + b[1..];
      assert FromLE(b) % 256 == b[0] && FromLE(b) / 256 == FromLE(b[1..]);
    }
  }

  /** The bytes of a 32-bit number, from the low-order one up. */
  lemma LEWord(v: uint32)
    ensures LE(v, 4) == [v % 256, v / 0x100 % 256, v / 0x1_0000 % 256, v / 0x100_0000]
  {
    var a, b, c := v / 256, v / 256 / 256, v / 256 / 256 / 256;
    assert LE(v, 4) == [v % 256] + LE(a, 3) && LE(a, 3) == [a % 256] + LE(b, 2);
    assert LE(b, 2) == [b % 256] + LE(c, 1) && LE(c, 1) == [c % 256] + LE(c / 256, 0);
  }

  lemma Pow256Values()
    ensures Pow256(1) == 0x100
    ensures Pow256(2) == 0x1_0000
    ensures Pow256(4) == 0x1_0000_0000
    ensures Pow256(8) == 0x1_0000_0000_0000_0000
  {
    assert Pow256(1) == 256 * Pow256(0);
    assert Pow256(2) == 256 * Pow256(1);
    assert Pow256(3) == 256 * Pow256(2);
    assert Pow256(4) == 256 * Pow256(3);
    assert Pow256(5) == 256 * Pow256(4);
    assert Pow256(6) == 256 * Pow256(5);
    assert Pow256(7) == 256 * Pow256(6);
  }

  /** A stored integer followed by anything is read back from the front. */
  lemma ReadStored(v: nat, n: nat, tail: seq<byte>)
    requires v < Pow256(n)
    ensures |LE(v, n) + tail| >= n
    ensures FromLE((LE(v, n) + tail)[..n]) == v
    ensures (LE(v, n) + tail)[n..] == tail
  {
    assert (LE(v, n) + tail)[..n] == LE(v, n);
    FromLEInvertsLE(v, n);
  }

  /** The memory image of a WCHAR array. */
  function WBytes(w: seq<uint16>): (b: seq<byte>)
    ensures |b| == 2 * |w|
  {
    if w == [] then [] else LE(w[0], 2) + WBytes(w[1..])
  }

  function FromWBytes(b: seq<byte>): (w: seq<uint16>)
    requires |b| % 2 == 0
    ensures |w| == |b| / 2
  {
    if b == [] then [] else
      FromLEBound(b[..2]); Pow256Values();
      [FromLE(b[..2])] + FromWBytes(b[2..])
  }

  lemma {:induction false} FromWBytesInverts(w: seq<uint16>)
    ensures FromWBytes(WBytes(w)) == w
  {
    if w != [] {
      Pow256Values();
      ReadStored(w[0], 2, WBytes(w[1..]));
      FromWBytesInverts(w[1..]);
      assert w == [w[0]] + w[1..];
    }
  }

  lemma {:induction false} WBytesInverts(b: seq<byte>)
    requires |b| % 2 == 0
    ensures WBytes(FromWBytes(b)) == b
  {
    if b != [] {
      FromLEBound(b[..2]); Pow256Values();
      LEInvertsFromLE(b[..2]);
      WBytesInverts(b[2..]);
      assert b == b[..2] + b[2..];
      assert FromWBytes(b)[1..] == FromWBytes(b[2..]);
    }
  }
}
