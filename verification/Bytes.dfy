/** Little-endian byte access and the 512-byte sector, as used by every FatFs structure. */
module Bytes {

  type byte = x: int | 0 <= x < 0x100

  type u32 = x: int | 0 <= x < 0x1_0000_0000

  type Sector = s: seq<byte> | |s| == 512 witness seq(512, _ => 0)

  function LdWord(b0: byte, b1: byte): (v: nat)
    ensures v < 0x1_0000
  {
    b0 + 0x100 * b1
  }

  function LdDword(b0: byte, b1: byte, b2: byte, b3: byte): (v: nat)
    ensures v < 0x1_0000_0000
  {
    b0 + 0x100 * b1 + 0x1_0000 * b2 + 0x100_0000 * b3
  }

  /** Byte `i` of the little-endian image of `v`, truncated as a C store of that width truncates. */
  function Byte0(v: nat): byte { v % 0x100 }
  function Byte1(v: nat): byte { v / 0x100 % 0x100 }
  function Byte2(v: nat): byte { v / 0x100 / 0x100 % 0x100 }
  function Byte3(v: nat): byte { v / 0x100 / 0x100 / 0x100 % 0x100 }

  /** The upper half of a dword is stored like a word. */
  lemma UpperBytes(v: nat)
    ensures Byte0(v / 0x100 / 0x100) == Byte2(v) && Byte1(v / 0x100 / 0x100) == Byte3(v)
  {
  }

  lemma StoreLoadWord(v: nat)
    ensures LdWord(Byte0(v), Byte1(v)) == v % 0x1_0000
  {
    var p := v / 0x100 / 0x100;
    var m := LdWord(Byte0(v), Byte1(v));
    assert v == 0x1_0000 * p + m;
    RemainderIs(v, 0x1_0000, p, m);
  }

  /** The remainder of a division is unique. */
  lemma RemainderIs(v: int, d: int, p: int, m: int)
    requires 0 <= m < d && v == d * p + m
    ensures v % d == m && v / d == p
  {
    var q := v / d - p;
    assert d * q == m - v % d;
    assert q >= 1 ==> d * q >= d;
    assert q <= -1 ==> d * q <= -d;
  }

  lemma StoreLoadDword(v: u32)
    ensures LdDword(Byte0(v), Byte1(v), Byte2(v), Byte3(v)) == v
  {
  }

  /** Consecutive sectors as one byte string. */
  ghost function Flat(ss: seq<Sector>): (b: seq<byte>)
    ensures |b| == 512 * |ss|
  {
    if ss == [] then [] else Flat(ss[..|ss| - 1]) + ss[|ss| - 1]
  }

  lemma {:induction false} FlatAt(ss: seq<Sector>, k: nat)
    requires k < 512 * |ss|
    ensures k / 512 < |ss| && Flat(ss)[k] == ss[k / 512][k % 512]
  {
    if k < 512 * (|ss| - 1) { FlatAt(ss[..|ss| - 1], k); }
  }

  lemma FlatPoke(ss: seq<Sector>, k: nat, b: byte)
    requires k < 512 * |ss|
    ensures k / 512 < |ss| && Flat(ss[k / 512 := ss[k / 512][k % 512 := b]]) == Flat(ss)[k := b]
  {
    var i := k / 512;
    var tt := ss[i := ss[i][k % 512 := b]];
    forall j | 0 <= j < 512 * |ss| ensures Flat(tt)[j] == Flat(ss)[k := b][j] {
      FlatAt(ss, j);
      FlatAt(tt, j);
    }
  }
}
