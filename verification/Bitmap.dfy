/** The exFAT allocation bitmap, read and changed through the sector window. */
module Bitmap {
  import opened Bytes
  import opened Arith
  import opened FatTable
  import opened FatVolume
  import opened ChainSpec

  function Bit(b: nat, j: nat): bool
  {
    if j == 0 then b % 2 == 1 else Bit(b / 2, j - 1)
  }

  /** `b` with bit `j` inverted. */
  function Flip(b: nat, j: nat): nat
  {
    if j == 0 then (if b % 2 == 1 then b - 1 else b + 1) else 2 * Flip(b / 2, j - 1) + b % 2
  }

  lemma {:induction false} FlipBit(b: nat, j: nat, i: nat)
    ensures Bit(Flip(b, j), i) == (Bit(b, i) != (i == j))
  {
    if i > 0 && j > 0 {
      FlipBit(b / 2, j - 1, i - 1);
      assert Flip(b, j) / 2 == Flip(b / 2, j - 1);
    } else if j == 0 && i > 0 {
      assert Flip(b, j) / 2 == b / 2;
    }
  }

  lemma {:induction false} FlipBound(b: nat, j: nat, w: nat)
    requires b < Pow2(w) && j < w
    ensures Flip(b, j) < Pow2(w)
  {
    var q, r := b / 2, b % 2;
    var h := Pow2(w - 1);
    assert b == 2 * q + r && q < h;
    if j > 0 {
      FlipBound(q, j - 1, w - 1);
      var f := Flip(q, j - 1);
      assert Flip(b, j) == 2 * f + r;
      assert f <= h - 1;
    } else {
      assert Flip(b, j) <= 2 * q + 1;
    }
  }

  lemma FlipIsByte(b: byte, j: nat)
    requires j < 8
    ensures Flip(b, j) < 0x100
  {
    assert Pow2(2) == 4;
    assert Pow2(4) == 16;
    assert Pow2(6) == 64;
    assert Pow2(8) == 0x100;
    FlipBound(b, j, 8);
  }

  // ---------- the bitmap as a table of clusters ----------

  function BitSectors(nFatent: nat): nat { (nFatent - 2 + 4095) / 4096 }

  ghost predicate ExOk(g: Geometry) {
    g.Ok() && g.kind.EXFAT? && g.nFats == 1 && g.database <= g.bitbase && g.bitbase + BitSectors(g.nFatent) <= g.sectors
  }

  ghost function BitBytes(g: Geometry, v: seq<Sector>): (b: seq<byte>)
    requires ExOk(g) && |v| == g.sectors
    ensures |b| == 512 * BitSectors(g.nFatent)
  {
    Flat(v[g.bitbase..g.bitbase + BitSectors(g.nFatent)])
  }

  /** Clusters below `n` as the bitmap marks them: 0 free, 2 in use; the bitmap starts at cluster 2. */
  ghost function Marks(b: seq<byte>, n: nat): (t: seq<nat>)
    requires n <= 8 * |b| + 2
    ensures |t| == n
  {
    if n == 0 then []
    else Marks(b, n - 1) + [if n >= 3 && !Bit(b[(n - 3) / 8], (n - 3) % 8) then 0 else 2]
  }

  lemma {:induction false} MarksAt(b: seq<byte>, n: nat, c: nat)
    requires n <= 8 * |b| + 2 && 2 <= c < n
    ensures (c - 2) / 8 < |b| && Marks(b, n)[c] == if Bit(b[(c - 2) / 8], (c - 2) % 8) then 2 else 0
  {
    if c < n - 1 { MarksAt(b, n - 1, c); }
  }

  /** The bitmap's order: eight clusters a byte from cluster 2 on, the lowest bit first, set for a cluster in use. */
  lemma MarkIs(b: seq<byte>, n: nat, c: nat)
    requires n <= 8 * |b| + 2 && 2 <= c < n
    ensures (c - 2) / 8 < |b| && (Marks(b, n)[c] != 0 <==> b[(c - 2) / 8] / Pow2((c - 2) % 8) % 2 == 1)
  {
    MarksAt(b, n, c);
    BitIs(b[(c - 2) / 8], (c - 2) % 8);
  }

  lemma {:induction false} BitIs(v: nat, j: nat)
    ensures Bit(v, j) <==> v / Pow2(j) % 2 == 1
  {
    if j > 0 {
      BitIs(v / 2, j - 1);
      var p := Pow2(j - 1);
      DivTwice(v, p);
    }
  }

  lemma DivTwice(v: nat, p: nat)
    requires p > 0
    ensures v / 2 / p == v / (2 * p)
  {
    var q, r := v / 2 / p, v / 2 % p;
    assert v / 2 == p * q + r;
    assert v == 2 * (p * q + r) + v % 2;
    assert 2 * (p * q + r) == 2 * p * q + 2 * r;
    RemainderIs(v, 2 * p, q, 2 * r + v % 2);
  }

  lemma {:induction false} MarksLow(b: seq<byte>, n: nat, c: nat)
    requires n <= 8 * |b| + 2 && c < n && c < 2
    ensures Marks(b, n)[c] == 2
  {
    if c < n - 1 { MarksLow(b, n - 1, c); }
  }

  function Toggled(mark: nat): nat { if mark == 0 then 2 else 0 }

  /** Inverting one bit changes the mark of exactly one cluster. */
  lemma FlipMarks(b: seq<byte>, n: nat, c: nat)
    requires n <= 8 * |b| + 2 && 2 <= c < n
    ensures var k := c - 2; k / 8 < |b| && Flip(b[k / 8], k % 8) < 0x100
    ensures var k := c - 2;
            Marks(b[k / 8 := Flip(b[k / 8], k % 8)], n) == Marks(b, n)[c := Toggled(Marks(b, n)[c])]
  {
    var k := c - 2;
    MarksAt(b, n, c);
    FlipIsByte(b[k / 8], k % 8);
    var b' := b[k / 8 := Flip(b[k / 8], k % 8)];
    hide Flip, Bit, Marks;
    forall d | 0 <= d < n ensures Marks(b', n)[d] == Marks(b, n)[c := Toggled(Marks(b, n)[c])][d] {
      if d < 2 {
        MarksLow(b, n, d);
        MarksLow(b', n, d);
      } else {
        MarksAt(b, n, d);
        MarksAt(b', n, d);
        if (d - 2) / 8 == k / 8 { FlipBit(b[k / 8], k % 8, (d - 2) % 8); }
      }
    }
  }

  lemma MarksFit(g: Geometry, b: seq<byte>)
    requires ExOk(g) && |b| == 512 * BitSectors(g.nFatent)
    ensures g.nFatent <= 8 * |b| + 2
  {
  }

  /** The allocation state the volume shows through its bitmap. */
  ghost function MarksOf(g: Geometry, v: seq<Sector>): (t: seq<nat>)
    requires ExOk(g) && |v| == g.sectors
    ensures |t| == g.nFatent
  {
    MarksFit(g, BitBytes(g, v));
    Marks(BitBytes(g, v), g.nFatent)
  }

  /** Equal on every sector outside the bitmap. */
  ghost predicate SameButBits(g: Geometry, v: seq<Sector>, w: seq<Sector>) {
    && |v| == |w|
    && forall s | 0 <= s < |v| && !(g.bitbase <= s < g.bitbase + BitSectors(g.nFatent)) :: v[s] == w[s]
  }

  lemma BitBytesPoke(g: Geometry, v: seq<Sector>, k: nat, b: byte)
    requires ExOk(g) && |v| == g.sectors && k < 512 * BitSectors(g.nFatent)
    ensures var s := g.bitbase + k / 512;
            BitBytes(g, v[s := v[s][k % 512 := b]]) == BitBytes(g, v)[k := b]
  {
    var s := g.bitbase + k / 512;
    var f := v[g.bitbase..g.bitbase + BitSectors(g.nFatent)];
    FlatPoke(f, k, b);
    assert v[s := v[s][k % 512 := b]][g.bitbase..g.bitbase + BitSectors(g.nFatent)] ==
      f[k / 512 := f[k / 512][k % 512 := b]];
  }

  predicate InBits(g: Geometry, s: nat) {
    g.bitbase <= s < g.bitbase + BitSectors(g.nFatent)
  }

  /** Where the window can be after a step that looks at FAT and bitmap only. */
  predicate Parked(g: Geometry, was: nat, now: nat) {
    now == was || now == NO_SECTOR || g.InFat(now) || InBits(g, now)
  }

  /** The window moved to a bitmap sector; the volume looks as before. */
  method MoveToBit(fs: Volume, k: nat) returns (res: Fresult)
    requires fs.Valid() && ExOk(fs.g) && k < 512 * BitSectors(fs.g.nFatent)
    modifies fs`disk, fs`wflag, fs`mirror, fs`winsect, fs.win
    ensures fs.Valid() && fs.View() == old(fs.View())
    ensures res == OK || res == DISK_ERR
    ensures res == OK ==> fs.winsect == fs.g.bitbase + k / 512 && fs.win[k % 512] == BitBytes(fs.g, fs.View())[k]
    ensures fs.reliable ==> res == OK
    ensures Parked(fs.g, old(fs.winsect), fs.winsect) && (res == OK ==> InBits(fs.g, fs.winsect))
  {
    hide BitSectors, BitBytes;
    SectorOfBit(fs.g, k);
    res := fs.MoveWindow(fs.g.bitbase + k / 512);
    if res == OK { WindowBit(fs, k); }
  }

  lemma SectorOfBit(g: Geometry, k: nat)
    requires ExOk(g) && k < 512 * BitSectors(g.nFatent)
    ensures k / 512 < BitSectors(g.nFatent) && g.bitbase + k / 512 < g.sectors && InBits(g, g.bitbase + k / 512)
  {
    hide BitSectors;
  }

  lemma WindowBit(fs: Volume, k: nat)
    requires fs.Valid() && ExOk(fs.g) && k < 512 * BitSectors(fs.g.nFatent) && fs.winsect == fs.g.bitbase + k / 512
    ensures fs.win[k % 512] == BitBytes(fs.g, fs.View())[k]
  {
    hide BitSectors;
    SectorOfBit(fs.g, k);
    FlatAt(fs.View()[fs.g.bitbase..fs.g.bitbase + BitSectors(fs.g.nFatent)], k);
  }

  /** The window shows the bitmap byte of cluster `c`. */
  ghost predicate OnBit(fs: Volume, c: nat)
    requires c >= 2
    reads fs`disk, fs`winsect, fs`wflag, fs`mirror, fs.win
  {
    && fs.Valid() && ExOk(fs.g) && (c - 2) / 8 < 512 * BitSectors(fs.g.nFatent)
    && fs.winsect == fs.g.bitbase + (c - 2) / 8 / 512
    && fs.win[(c - 2) / 8 % 512] == BitBytes(fs.g, fs.View())[(c - 2) / 8]
  }

  /** Tests the bitmap bit of cluster `c`. */
  method IsUsed(fs: Volume, c: u32) returns (res: Fresult, used: bool)
    requires fs.Valid() && ExOk(fs.g) && 2 <= c < fs.g.nFatent
    modifies fs`disk, fs`wflag, fs`mirror, fs`winsect, fs.win
    ensures fs.Valid() && fs.View() == old(fs.View())
    ensures res == OK || (res == DISK_ERR && !fs.reliable)
    ensures res == OK ==> used == (MarksOf(fs.g, fs.View())[c] == 2)
    ensures res == OK ==> MarksOf(fs.g, fs.View())[c] == 2 || MarksOf(fs.g, fs.View())[c] == 0
    ensures res == OK ==> OnBit(fs, c)
    ensures Parked(fs.g, old(fs.winsect), fs.winsect) && (res == OK ==> InBits(fs.g, fs.winsect))
  {
    var k := (c - 2) / 8;
    res := MoveToBit(fs, k);
    used := Bit(fs.win[k % 512], (c - 2) % 8);
    MarksFit(fs.g, BitBytes(fs.g, fs.View()));
    hide Bit, FatVolume.Volume.View;
    MarksAt(BitBytes(fs.g, fs.View()), fs.g.nFatent, c);
  }

  /** Inverts the bitmap bit of cluster `c`, which the window is on. */
  method FlipHere(fs: Volume, c: u32)
    requires 2 <= c < fs.g.nFatent && OnBit(fs, c)
    modifies fs`wflag, fs.win
    ensures fs.Valid() && SameButBits(fs.g, old(fs.View()), fs.View())
    ensures MarksOf(fs.g, fs.View()) == old(MarksOf(fs.g, fs.View()))[c := Toggled(old(MarksOf(fs.g, fs.View())[c]))]
  {
    var k := (c - 2) / 8;
    ghost var v := fs.View();
    MarksFit(fs.g, BitBytes(fs.g, v));
    FlipMarks(BitBytes(fs.g, v), fs.g.nFatent, c);
    hide Flip, Marks;
    var b := Flip(fs.win[k % 512], (c - 2) % 8);
    BitBytesPoke(fs.g, v, k, b);
    fs.Poke(k % 512, b);
  }

  /** Bit to scan from: that of `clst`, or bit 0 when there is no such cluster. */
  function FirstBit(n: nat, clst: u32): (k: nat)
    requires 3 <= n < 0x1_0000_0000
    ensures k < n - 2 && k == if 2 <= clst < n then clst - 2 else 0
  {
    if Sub32(clst, 2) >= n - 2 then 0 else Sub32(clst, 2)
  }

  /** find_bitmap for one cluster: the first free cluster at or cyclically after `clst`, or 0. */
  method FindBitmap(fs: Volume, clst: u32) returns (r: u32)
    requires fs.Valid() && ExOk(fs.g)
    modifies fs`disk, fs`wflag, fs`mirror, fs`winsect, fs.win
    ensures fs.Valid() && fs.View() == old(fs.View())
    ensures r == Scan(MarksOf(fs.g, fs.View()), if 2 <= clst < fs.g.nFatent then clst - 1 else 1, 0)
            || (!fs.reliable && r == DISK_FAULT)
    ensures Parked(fs.g, old(fs.winsect), fs.winsect)
  {
    var n := fs.g.nFatent;
    var start := FirstBit(n, clst);
    ghost var v := fs.View();
    ghost var marks := MarksOf(fs.g, v);
    ghost var j := 0;
    hide FatVolume.Volume.View, FatVolume.Volume.Valid, OnBit, ExOk, MarksOf, Visit, InBits;
    VisitStep(n, start + 1, 0);
    var val := start;
    var more := true;
    r := 0;
    while more
      invariant fs.Valid() && fs.View() == v && 0 <= val < n - 2 && 0 <= j <= n - 2
      invariant Parked(fs.g, old(fs.winsect), fs.winsect)
      invariant more ==> j < n - 2 && val + 2 == Visit(n, start + 1, j)
      invariant more ==> Scan(marks, start + 1, 0) == Scan(marks, start + 1, j)
      invariant !more ==> r == Scan(marks, start + 1, 0) || (!fs.reliable && r == DISK_FAULT)
      decreases more, n - j
    {
      more, r, val := FindRound(fs, start, val, j);
      j := j + 1;
    }
  }

  /** One bit of the find_bitmap loop. */
  method FindRound(fs: Volume, start: u32, val: u32, ghost j: nat) returns (more: bool, r: u32, next: u32)
    requires fs.Valid() && ExOk(fs.g) && start < fs.g.nFatent - 2 && val < fs.g.nFatent - 2
    requires j < fs.g.nFatent - 2 && val + 2 == Visit(fs.g.nFatent, start + 1, j)
    modifies fs`disk, fs`wflag, fs`mirror, fs`winsect, fs.win
    ensures fs.Valid() && fs.View() == old(fs.View()) && next < fs.g.nFatent - 2
    ensures more ==> j + 1 < fs.g.nFatent - 2 && next + 2 == Visit(fs.g.nFatent, start + 1, j + 1)
    ensures more ==> Scan(MarksOf(fs.g, fs.View()), start + 1, j) == Scan(MarksOf(fs.g, fs.View()), start + 1, j + 1)
    ensures !more ==> r == Scan(MarksOf(fs.g, fs.View()), start + 1, j) || (!fs.reliable && r == DISK_FAULT)
    ensures Parked(fs.g, old(fs.winsect), fs.winsect)
  {
    VisitStep(fs.g.nFatent, start + 1, j);
    if j + 1 < fs.g.nFatent - 2 { VisitStep(fs.g.nFatent, start + 1, j + 1); }
    hide FatVolume.Volume.View, OnBit, MarksOf, Visit;
    var res, used := IsUsed(fs, val + 2);
    next := if val + 1 >= fs.g.nFatent - 2 then 0 else val + 1;
    more := res == OK && used && next != start;
    r := if res != OK then DISK_FAULT else if used then 0 else val + 2;
  }

  /** Clusters `c` up to `c + k - 1` set to one mark. */
  ghost function SetMarks(marks: seq<nat>, c: nat, k: nat, mark: nat): (r: seq<nat>)
    requires c + k <= |marks|
    ensures |r| == |marks|
  {
    if k == 0 then marks else SetMarks(marks, c, k - 1, mark)[c + k - 1 := mark]
  }

  lemma {:induction false} SetMarksAt(marks: seq<nat>, c: nat, k: nat, mark: nat, d: nat)
    requires c + k <= |marks| && d < |marks|
    ensures SetMarks(marks, c, k, mark)[d] == if c <= d < c + k then mark else marks[d]
  {
    if k > 0 { SetMarksAt(marks, c, k - 1, mark, d); }
  }

  function Mark(bv: bool): nat { if bv then 2 else 0 }

  /** What the bitmap of a mounted volume shows now. */
  ghost function MarksNow(fs: Volume): (t: seq<nat>)
    requires fs.Valid() && ExOk(fs.g)
    reads fs`disk, fs`winsect, fs`wflag, fs`mirror, fs.win
    ensures |t| == fs.g.nFatent
  {
    MarksOf(fs.g, fs.View())
  }

  /** One bit of the change_bitmap loop. */
  method ChangeRound(fs: Volume, c: u32, bv: bool) returns (res: Fresult)
    requires fs.Valid() && ExOk(fs.g) && 2 <= c < fs.g.nFatent
    modifies fs`disk, fs`wflag, fs`mirror, fs`winsect, fs.win
    ensures fs.Valid() && SameButBits(fs.g, old(fs.View()), fs.View())
    ensures res == OK ==> old(MarksNow(fs)[c]) == Mark(!bv) && MarksNow(fs) == old(MarksNow(fs))[c := Mark(bv)]
    ensures res == INT_ERR ==> old(MarksNow(fs))[c] == Mark(bv) && MarksNow(fs) == old(MarksNow(fs))
    ensures res == DISK_ERR ==> !fs.reliable && MarksNow(fs) == old(MarksNow(fs))
    ensures Parked(fs.g, old(fs.winsect), fs.winsect) && (res == OK ==> InBits(fs.g, fs.winsect))
  {
    hide FatVolume.Volume.View, OnBit, MarksOf, InBits;
    var used;
    res, used := IsUsed(fs, c);
    if res == OK {
      if used == bv { res := INT_ERR; } else { FlipHere(fs, c); }
    }
  }

  /** `k` bits from `c` on had the other value and now have `bv`; nothing else changed. */
  ghost predicate Flipped(marks: seq<nat>, now: seq<nat>, c: nat, k: nat, bv: bool) {
    c + k <= |marks| && now == SetMarks(marks, c, k, Mark(bv)) && forall d | c <= d < c + k :: marks[d] == Mark(!bv)
  }

  lemma FlippedNone(marks: seq<nat>, c: nat, bv: bool)
    requires c <= |marks|
    ensures Flipped(marks, marks, c, 0, bv)
  {
  }

  lemma FlippedAt(marks: seq<nat>, now: seq<nat>, c: nat, k: nat, bv: bool)
    requires Flipped(marks, now, c, k, bv) && c + k < |marks|
    ensures |now| == |marks| && now[c + k] == marks[c + k]
    ensures marks[c + k] == Mark(!bv) ==> Flipped(marks, now[c + k := Mark(bv)], c, k + 1, bv)
  {
    SetMarksAt(marks, c, k, Mark(bv), c + k);
  }

  /** change_bitmap: flips `ncl` bits to `bv`, stopping with INT_ERR at one that already has that value. */
  method ChangeBitmap(fs: Volume, clst: u32, ncl: u32, bv: bool) returns (res: Fresult, ghost done: nat)
    requires fs.Valid() && ExOk(fs.g) && 2 <= clst && 0 < ncl && clst + ncl <= fs.g.nFatent
    modifies fs`disk, fs`wflag, fs`mirror, fs`winsect, fs.win
    ensures fs.Valid() && SameButBits(fs.g, old(fs.View()), fs.View())
    ensures done <= ncl && Flipped(old(MarksNow(fs)), MarksNow(fs), clst, done, bv)
    ensures res == OK ==> done == ncl
    ensures res == INT_ERR ==> done < ncl && old(MarksNow(fs))[clst + done] == Mark(bv)
    ensures fs.reliable ==> res != DISK_ERR
    ensures Parked(fs.g, old(fs.winsect), fs.winsect) && (res == OK ==> InBits(fs.g, fs.winsect))
  {
    hide FatVolume.Volume.View, FatVolume.Volume.Valid, MarksNow, Mark, InBits, Flipped;
    ghost var marks := MarksNow(fs);
    FlippedNone(marks, clst, bv);
    done := 0;
    res := OK;
    var c := clst;
    while res == OK && c < clst + ncl
      invariant c == clst + done
      invariant fs.Valid() && SameButBits(fs.g, old(fs.View()), fs.View())
      invariant done <= ncl && Flipped(marks, MarksNow(fs), clst, done, bv)
      invariant res == INT_ERR ==> done < ncl && marks[clst + done] == Mark(bv)
      invariant fs.reliable ==> res != DISK_ERR
      invariant Parked(fs.g, old(fs.winsect), fs.winsect) && (res == OK && done > 0 ==> InBits(fs.g, fs.winsect))
      decreases res == OK, ncl - done
    {
      FlippedAt(marks, MarksNow(fs), clst, done, bv);
      res := ChangeRound(fs, c, bv);
      if res == OK { c, done := c + 1, done + 1; }
    }
  }
}
