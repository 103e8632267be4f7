/**
 * f_mkfs and mount_volume compute a FAT volume's layout independently: what the one writes, the other must read the
 * same way.
 */
module Mkfs {
  import opened FatTable
  import opened FatVolume
  import opened Bytes
  import opened Arith
  import ChainSpec

  /** Unsigned 32-bit arithmetic. */
  function W(x: int): (r: nat)
    ensures r < 0x1_0000_0000
  {
    x % 0x1_0000_0000
  }

  /** The volume and the normalised options. */
  datatype Opts = Opts(bVol: nat, szVol: nat, szBlk: nat, nFat: nat, nRoot: nat, mayFat32: bool)
  {
    predicate Ok() {
      && 128 <= szVol && bVol + szVol <= 0xFFFF_FFFF && PowerOf2(szBlk) && 0 < szBlk <= 0x8000
      && 1 <= nFat <= 2 && 16 <= nRoot <= 32768 && nRoot % 16 == 0
    }
  }

  /** n & (n - 1) == 0 for a positive n. */
  predicate PowerOf2(n: nat) {
    n == 1 || (n > 1 && n % 2 == 0 && PowerOf2(n / 2))
  }

  // ---------- option handling ----------

  function BlockSize(align: nat): (r: nat)
    ensures PowerOf2(r) && r <= 0x8000
  {
    if align == 0 || align > 0x8000 || !PowerOf2(align) then 1 else align
  }

  function RootEntries(n: nat): (r: nat)
    ensures 16 <= r <= 32768 && r % 16 == 0
  {
    if 1 <= n <= 32768 && n % 16 == 0 then n else 512
  }

  /** The options of f_mkfs as it uses them. */
  function Normalised(bVol: nat, szVol: nat, align: nat, nFat: nat, nRoot: nat, mayFat32: bool): (o: Opts)
    requires 128 <= szVol && bVol + szVol <= 0xFFFF_FFFF
    ensures o.Ok()
  {
    Opts(bVol, szVol, BlockSize(align), if 1 <= nFat <= 2 then nFat else 1, RootEntries(nRoot), mayFat32)
  }

  /** An option that can be used is used; for any other a default. */
  lemma OptionsKept(bVol: nat, szVol: nat, align: nat, nFat: nat, nRoot: nat, mayFat32: bool)
    requires 128 <= szVol && bVol + szVol <= 0xFFFF_FFFF
    ensures var o := Normalised(bVol, szVol, align, nFat, nRoot, mayFat32);
            && o.bVol == bVol && o.szVol == szVol && o.mayFat32 == mayFat32
            && o.szBlk == (if PowerOf2(align) && align <= 0x8000 then align else 1)
            && o.nFat == (if nFat == 2 then 2 else 1)
            && o.nRoot == (if 1 <= nRoot <= 32768 && nRoot % 16 == 0 then nRoot else 512)
  {
  }

  /**
   * The cluster size option in bytes: kept from a sector up to 64 KiB, cut to that up to 16 MiB, and not used if it is
   * no power of two.
   */
  lemma AuKept(bytes: nat)
    ensures AuSectors(bytes) == if !PowerOf2(bytes) || bytes < 512 || bytes > 0x100_0000 then 0
                                else if bytes > 0x1_0000 then 128 else bytes / 512
  {
  }

  /** Cluster size in sectors, 0 for automatic; larger than 128 is clipped for FAT. */
  function AuSectors(bytes: nat): (r: nat)
    ensures r == 0 || IsCluster(r)
  {
    var b := if bytes <= 0x100_0000 && (bytes == 0 || PowerOf2(bytes)) then bytes else 0;
    if b / 512 > 128 then 128 else
      HalvesOf(b);
      b / 512
  }

  predicate IsCluster(p: nat) {
    p == 1 || p == 2 || p == 4 || p == 8 || p == 16 || p == 32 || p == 64 || p == 128
  }

  lemma HalvesOf(b: nat)
    requires (b == 0 || PowerOf2(b)) && b / 512 <= 128
    ensures b / 512 == 0 || IsCluster(b / 512)
  {
    hide PowerOf2;
    assert b / 8 / 8 == b / 64 && b / 64 / 8 == b / 512;
    if b >= 512 {
      Halves(b);
      Halves(b / 8);
      Halves(b / 64);
      SmallPower(b / 512);
    }
  }

  /** An eighth of a large enough power of two. */
  lemma Halves(b: nat)
    requires PowerOf2(b) && b >= 8
    ensures PowerOf2(b / 8)
  {
    assert PowerOf2(b / 2);
    assert b / 2 / 2 == b / 4 && b / 4 / 2 == b / 8;
    assert PowerOf2(b / 4);
  }

  lemma {:induction false} SmallPower(p: nat)
    requires PowerOf2(p) && p <= 128
    ensures IsCluster(p)
  {
    if p > 1 { SmallPower(p / 2); }
  }

  /** Cluster size from a table of volume-size boundaries. */
  function Select(table: seq<nat>, n: nat, pau: nat): nat {
    if table == [] || table[0] > n then pau else Select(table[1..], n, 2 * pau)
  }

  function AutoSize(kind: Kind, szVol: nat): (r: nat) {
    if kind.FAT32? then Select([1, 2, 4, 8, 16, 32], szVol / 0x20000, 1)
      else Select([1, 4, 16, 64, 256, 512], szVol / 0x1000, 1)
  }

  lemma AutoIsCluster(kind: Kind, szVol: nat)
    ensures IsCluster(AutoSize(kind, szVol)) && AutoSize(kind, szVol) <= 64
  {
    SelectCluster([1, 2, 4, 8, 16, 32], szVol / 0x20000, 1);
    SelectCluster([1, 4, 16, 64, 256, 512], szVol / 0x1000, 1);
  }

  /**
   * Automatic selection: on FAT32 one sector below 64 MiB and twice as many at every doubling, on FAT one sector below
   * 2 MiB and twice as many at every fourfold volume; 32 end at 2 GiB on FAT32 and at 1 GiB on FAT.
   */
  lemma AutoSizeIs(szVol: nat)
    ensures AutoSize(FAT32, szVol) == if szVol < 0x2_0000 then 1 else if szVol < 0x4_0000 then 2
            else if szVol < 0x8_0000 then 4 else if szVol < 0x10_0000 then 8 else if szVol < 0x20_0000 then 16
            else if szVol < 0x40_0000 then 32 else 64
    ensures AutoSize(FAT16, szVol) == if szVol < 0x1000 then 1 else if szVol < 0x4000 then 2
            else if szVol < 0x1_0000 then 4 else if szVol < 0x4_0000 then 8 else if szVol < 0x10_0000 then 16
            else if szVol < 0x20_0000 then 32 else 64
  {
    hide Select;
    SelectUnfold(szVol / 0x20000, 1, 2, 4, 8, 16, 32);
    SelectUnfold(szVol / 0x1000, 1, 4, 16, 64, 256, 512);
  }

  /** A table of six boundaries, as a choice. */
  lemma SelectUnfold(n: nat, a: nat, b: nat, c: nat, d: nat, e: nat, f: nat)
    ensures Select([a, b, c, d, e, f], n, 1) ==
            if a > n then 1 else if b > n then 2 else if c > n then 4 else if d > n then 8 else if e > n then 16
            else if f > n then 32 else 64
  {
    hide Select;
    SelectStep([a, b, c, d, e, f], n, 1, [b, c, d, e, f]);
    SelectStep([b, c, d, e, f], n, 2, [c, d, e, f]);
    SelectStep([c, d, e, f], n, 4, [d, e, f]);
    SelectStep([d, e, f], n, 8, [e, f]);
    SelectStep([e, f], n, 16, [f]);
    SelectStep([f], n, 32, []);
    SelectNone(n);
  }

  lemma SelectStep(table: seq<nat>, n: nat, pau: nat, rest: seq<nat>)
    requires table != [] && rest == table[1..]
    ensures Select(table, n, pau) == if table[0] > n then pau else Select(rest, n, 2 * pau)
  {
  }

  lemma SelectNone(n: nat)
    ensures Select([], n, 64) == 64
  {
  }

  lemma {:induction false} SelectCluster(table: seq<nat>, n: nat, pau: nat)
    requires IsCluster(pau) && pau <= 64
    requires |table| == 6 ==> pau == 1
    requires |table| == 5 ==> pau == 2
    requires |table| == 4 ==> pau == 4
    requires |table| == 3 ==> pau == 8
    requires |table| == 2 ==> pau == 16
    requires |table| == 1 ==> pau == 32
    requires |table| <= 6
    ensures IsCluster(Select(table, n, pau)) && Select(table, n, pau) <= 64
  {
    if table != [] && table[0] <= n { SelectCluster(table[1..], n, 2 * pau); }
  }

  // ---------- one round of the f_mkfs loop ----------

  /** Sizes in sectors; `clusters` is the estimate first and the final count later. */
  datatype Draft = Draft(kind: Kind, clusters: nat, fat: nat, rsv: nat, dir: nat)

  function DraftOf(kind: Kind, pau: nat, o: Opts): (d: Draft)
    requires pau > 0
  {
    var n := o.szVol / pau;
    if kind.FAT32? then Draft(FAT32, n, W(n * 4 + 8 + 511) / 512, 32, 0)
    else if n > 0xFF5 then Draft(FAT16, n, W(W(n * 2 + 4) + 511) / 512, 1, o.nRoot * 32 / 512)
    else Draft(FAT12, n, ((n * 3 + 1) / 2 + 3 + 511) / 512, 1, o.nRoot * 32 / 512)
  }

  function DataBase(d: Draft, o: Opts): nat {
    W(o.bVol + d.rsv + d.fat * o.nFat + d.dir)
  }

  /** Sectors up to the next erase block boundary; x & ~(szBlk - 1) is x / szBlk * szBlk. */
  function Gap(b: nat, szBlk: nat): nat
    requires szBlk > 0
  {
    W(W(b + szBlk - 1) / szBlk * szBlk - b)
  }

  /** FAT32 moves the FAT, the others enlarge it; an odd gap over two FATs leaves one sector to the reserved area. */
  function Aligned(d: Draft, o: Opts): Draft
    requires o.szBlk > 0 && 1 <= o.nFat <= 2
  {
    var n := Gap(DataBase(d, o), o.szBlk);
    if d.kind.FAT32? then d.(rsv := d.rsv + n)
    else if o.nFat == 1 then d.(fat := d.fat + n)
    else if n % 2 != 0 then d.(rsv := d.rsv + 1, fat := d.fat + (n - 1) / 2)
    else d.(fat := d.fat + n / 2)
  }

  function System(d: Draft, o: Opts): nat {
    d.rsv + d.fat * o.nFat + d.dir
  }

  datatype Outcome = Accept(d: Draft, pau: nat) | Abort | Retry(kind: Kind, au: nat)

  /** The cluster size in force. */
  function Pau(kind: Kind, au: nat, szVol: nat): (pau: nat)
    requires au == 0 || IsCluster(au)
    ensures IsCluster(pau) && pau > 0 && (au == 0 ==> pau <= 64)
  {
    AutoIsCluster(kind, szVol);
    if au == 0 then AutoSize(kind, szVol) else au
  }

  function Counted(d: Draft, pau: nat, o: Opts): Draft
    requires pau > 0
  {
    d.(clusters := W(o.szVol - System(d, o)) / pau)
  }

  function Attempt(kind: Kind, au: nat, o: Opts): Outcome
    requires au == 0 || IsCluster(au)
    requires o.szBlk > 0 && 1 <= o.nFat <= 2
  {
    var pau := Pau(kind, au, o.szVol);
    var d := DraftOf(kind, pau, o);
    if kind.FAT32? && (d.clusters <= 0xFFF5 || d.clusters > 0x0FFF_FFF5) then Abort
    else if o.szVol < W(DataBase(d, o) + pau * 16 - o.bVol) then Abort
    else Judge(Counted(Aligned(d, o), pau, o), pau, au, o.mayFat32)
  }

  /** The final check of the sub-type. */
  function Judge(d: Draft, pau: nat, au: nat, mayFat32: bool): Outcome {
    if d.kind.FAT32? && d.clusters <= 0xFFF5 then if au == 0 && pau / 2 != 0 then Retry(FAT32, pau / 2) else Abort
    else if d.kind.FAT16? && d.clusters > 0xFFF5 then
      if au == 0 && pau * 2 <= 64 then Retry(FAT16, pau * 2)
      else if mayFat32 then Retry(FAT32, au)
      else if au == 0 && pau * 2 <= 128 then Retry(FAT16, pau * 2)
      else Abort
    else if d.kind.FAT16? && d.clusters <= 0xFF5 then if au == 0 && pau * 2 <= 128 then Retry(FAT16, pau * 2) else Abort
    else if d.kind.FAT12? && d.clusters > 0xFF5 then Abort
    else Accept(d, pau)
  }

  /** Type and cluster size a round starts with. */
  datatype Try = Try(kind: Kind, au: nat)
  {
    predicate Ok() { (au == 0 || IsCluster(au)) && (kind == FAT16 || kind == FAT32) }
  }

  /** The round at which the retries of f_mkfs end: a given cluster size is kept, and FAT32 is never left. */
  function LastTry(t: Try, o: Opts): (f: Try)
    requires o.Ok() && t.Ok()
    ensures f.Ok() && !Attempt(f.kind, f.au, o).Retry? && (t.au != 0 ==> f.au == t.au) &&
            (t.kind == FAT32 ==> f.kind == FAT32)
    decreases if t.kind == FAT16 then 1 else 0, if t.au == 0 then 1 else 0
  {
    var r := Attempt(t.kind, t.au, o);
    if r.Retry? then
      RetryProgress(t.kind, t.au, o);
      LastTry(Try(r.kind, r.au), o)
    else t
  }

  /** From what is asked for alone: reserved area, FATs, directory and alignment gap leave less than one cluster. */
  predicate NothingLeft(t: Try, o: Opts)
    requires o.Ok() && t.Ok()
  {
    var pau := Pau(t.kind, t.au, o.szVol);
    var d := DraftOf(t.kind, pau, o);
    o.szVol < System(d, o) + Gap(DataBase(d, o), o.szBlk) + pau
  }

  lemma RetryProgress(k: Kind, a: nat, o: Opts)
    requires o.Ok() && (a == 0 || IsCluster(a)) && (k == FAT16 || k == FAT32) && Attempt(k, a, o).Retry?
    ensures var r := Attempt(k, a, o);
            && (r.au == 0 || IsCluster(r.au)) && (r.kind == FAT16 || r.kind == FAT32)
            && ((k == FAT16 && r.kind == FAT32) || (r.kind == k && a == 0 && r.au != 0)) && (a != 0 ==> r.au == a)
  {
    hide DraftOf, Aligned, System, W, Pau;
    DraftKind(k, Pau(k, a, o.szVol), o);
  }

  lemma DraftKind(k: Kind, pau: nat, o: Opts)
    requires pau > 0 && 1 <= o.nFat <= 2 && o.szBlk > 0
    ensures DraftOf(k, pau, o).kind == FAT32 <==> k == FAT32
    ensures Aligned(DraftOf(k, pau, o), o).kind == DraftOf(k, pau, o).kind
  {
  }

  // ---------- what an accepted layout satisfies ----------

  lemma {:induction false} SmallBlock(s: nat)
    requires PowerOf2(s) && s <= 0x8000
    ensures IsCluster(s) || s == 0x100 || s == 0x200 || s == 0x400 || s == 0x800 || s == 0x1000 || s == 0x2000 ||
            s == 0x4000 || s == 0x8000
  {
    if s > 1 { SmallBlock(s / 2); }
  }

  /** An erase block size divides the 32-bit range. */
  lemma BlockDivides(s: nat)
    requires PowerOf2(s) && s <= 0x8000
    ensures s > 0 && 0x1_0000_0000 == s * (0x1_0000_0000 / s)
  {
    hide PowerOf2;
    SmallBlock(s);
  }

  /** Alignment moves the data area to an erase block boundary, by less than a block, also across the 32-bit wrap. */
  lemma GapAligns(b: nat, s: nat)
    requires PowerOf2(s) && s <= 0x8000 && b < 0x1_0000_0000
    ensures Gap(b, s) < s && (b + Gap(b, s)) % s == 0
  {
    hide PowerOf2, Gap;
    BlockDivides(s);
    if b + s - 1 < 0x1_0000_0000 {
      GapWithin(b, s);
    } else {
      GapWraps(b, s);
      RemainderIs(0x1_0000_0000, s, 0x1_0000_0000 / s, 0);
    }
  }

  /** The rounded address fits 32 bits. */
  lemma GapWithin(b: nat, s: nat)
    requires 0 < s <= 0x8000 && b + s - 1 < 0x1_0000_0000
    ensures Gap(b, s) < s && (b + Gap(b, s)) % s == 0
  {
    var x := b + s - 1;
    var q, m := x / s, x % s;
    assert x == s * q + m;
    assert q * s == x - m;
    RemainderIs(s * q, s, q, 0);
  }

  /** It does not: the gap reaches up to the wrap. */
  lemma GapWraps(b: nat, s: nat)
    requires 0 < s <= 0x8000 && b < 0x1_0000_0000 <= b + s - 1
    ensures Gap(b, s) < s && b + Gap(b, s) == 0x1_0000_0000
  {
    var x := b + s - 1;
    RemainderIs(x - 0x1_0000_0000, s, 0, x - 0x1_0000_0000);
    assert 0 * s == 0;
  }

  lemma AlignedShift(d: Draft, o: Opts)
    requires o.szBlk > 0 && 1 <= o.nFat <= 2
    ensures var n := Gap(DataBase(d, o), o.szBlk); var d' := Aligned(d, o);
            && System(d', o) == System(d, o) + n && d'.dir == d.dir && d'.kind == d.kind && d'.clusters == d.clusters
            && d.fat <= d'.fat <= d.fat + n && d.rsv <= d'.rsv <= d.rsv + n
            && if d.kind.FAT32? then d'.fat == d.fat else d'.rsv == d.rsv + (if o.nFat == 2 then n % 2 else 0)
  {
    hide Gap, DataBase;
  }

  /** Aligning adds the gap to the system area, however it is divided between reserved sectors and FATs. */
  lemma AlignedSystem(d: Draft, o: Opts)
    requires o.Ok()
    ensures var n := Gap(DataBase(d, o), o.szBlk); var d' := Aligned(d, o);
            && n < o.szBlk && System(d', o) == System(d, o) + n && d'.dir == d.dir && d'.kind == d.kind
            && d'.clusters == d.clusters
            && d.fat <= d'.fat <= d.fat + n && d.rsv <= d'.rsv <= d.rsv + n
            && (if d.kind.FAT32? then d'.fat == d.fat else d'.rsv == d.rsv + (if o.nFat == 2 then n % 2 else 0))
            && (o.bVol + System(d', o)) % o.szBlk == 0
  {
    hide Gap, PowerOf2, Aligned, W;
    AlignedShift(d, o);
    var b := DataBase(d, o);
    assert b == W(o.bVol + System(d, o)) by { assert o.bVol + System(d, o) == o.bVol + d.rsv + d.fat * o.nFat + d.dir; }
    GapAligns(b, o.szBlk);
    Unwrapped(o.bVol + System(d, o), b, Gap(b, o.szBlk), o.szBlk);
  }

  /** A remainder by a block size does not see the 32-bit wrap. */
  lemma Unwrapped(x: nat, b: nat, n: nat, s: nat)
    requires PowerOf2(s) && s <= 0x8000 && b == W(x) && (b + n) % s == 0
    ensures (x + n) % s == 0
  {
    hide PowerOf2;
    BlockDivides(s);
    var p, q, k := 0x1_0000_0000 / s, (b + n) / s, x / 0x1_0000_0000;
    assert x + n == 0x1_0000_0000 * k + b + n;
    assert b + n == s * q && 0x1_0000_0000 == s * p;
    assert x + n == s * (p * k + q) by { assert s * p * k == s * (p * k); }
    RemainderIs(x + n, s, p * k + q, 0);
  }

  /** Bytes a table of `n` entries takes. */
  function TableBytes(kind: Kind, n: nat): nat {
    match kind
    case FAT12 => n * 3 / 2 + n % 2
    case FAT16 => n * 2
    case _ => n * 4
  }

  lemma MulAtLeast(k: nat, a: nat, b: nat)
    requires a <= b
    ensures a * k <= b * k
  {
    var c := b - a;
    assert b * k == (a + c) * k == a * k + c * k;
  }

  lemma DivBounds(x: nat, d: nat)
    requires d > 0
    ensures x / d * d <= x < x / d * d + d && x / d <= x
  {
    var q, m := x / d, x % d;
    assert x == d * q + m && 0 <= m < d;
    MulAtLeast(q, 1, d);
    assert d * q == q * d;
  }

  // The FAT sizes f_mkfs estimates for `n` clusters hold all of them, unless the arithmetic overflowed.

  lemma FatSize32(n: nat)
    requires n < 0x1_0000_0000
    ensures var f := W(n * 4 + 8 + 511) / 512;
            f <= 0x80_0000 && (n <= 0x0FFF_FFF5 ==> (n + 2) * 4 <= f * 512 && f <= n / 128 + 2)
  {
  }

  lemma FatSize16(n: nat)
    requires n < 0x1_0000_0000
    ensures var f := W(W(n * 2 + 4) + 511) / 512;
            f <= 0x80_0000 && (n <= 0x0FFF_FFF5 ==> (n + 2) * 2 <= f * 512 && f <= n / 256 + 2)
  {
  }

  lemma FatSize12(n: nat)
    requires n <= 0xFF5
    ensures var f := ((n * 3 + 1) / 2 + 3 + 511) / 512; f <= 14 && TableBytes(FAT12, n + 2) <= f * 512
  {
  }

  predicate Estimate(d: Draft, kind: Kind, o: Opts) {
    && d.fat <= 0x80_0000
    && (d.clusters <= 0x0FFF_FFF5 ==> TableBytes(d.kind, d.clusters + 2) <= d.fat * 512 && 0 < d.fat)
    && (match d.kind
        case FAT12 => !kind.FAT32? && d.clusters <= 0xFF5 && d.fat <= 14 && d.rsv == 1 && d.dir == o.nRoot / 16
        case FAT16 =>
          !kind.FAT32? && d.clusters > 0xFF5 && (d.clusters <= 0x0FFF_FFF5 ==> d.fat <= d.clusters / 256 + 2) &&
          d.rsv == 1 && d.dir == o.nRoot / 16
        case FAT32 =>
          kind.FAT32? && (d.clusters <= 0x0FFF_FFF5 ==> d.fat <= d.clusters / 128 + 2) && d.rsv == 32 && d.dir == 0
        case EXFAT => false)
  }

  lemma DraftEstimate(kind: Kind, pau: nat, o: Opts)
    requires o.Ok() && pau > 0
    ensures Estimate(DraftOf(kind, pau, o), kind, o) && DraftOf(kind, pau, o).clusters == o.szVol / pau <= o.szVol
  {
    hide PowerOf2, W;
    DivBounds(o.szVol, pau);
    var n := o.szVol / pau;
    FatSize32(n);
    FatSize16(n);
    if n <= 0xFF5 { FatSize12(n); }
  }

  /** What f_mkfs leaves, in the system's own numbers. */
  predicate Laid(d: Draft, pau: nat, o: Opts) {
    && o.Ok() && IsCluster(pau) && !d.kind.EXFAT? && System(d, o) <= o.szVol
    && d.clusters == (o.szVol - System(d, o)) / pau
    && 0 < d.rsv < 0x1_0000 && 0 < d.fat && (!d.kind.FAT32? ==> d.fat < 0x1_0000)
    && d.dir == (if d.kind.FAT32? then 0 else o.nRoot / 16)
    && (match d.kind
        case FAT12 => d.clusters <= 0xFF5
        case FAT16 => 0xFF5 < d.clusters <= 0xFFF5
        case _ => 0xFFF5 < d.clusters <= 0x0FFF_FFF5)
    && TableBytes(d.kind, d.clusters + 2) <= d.fat * 512
    && (o.bVol + System(d, o)) % o.szBlk == 0
  }

  /** An overflowing subtraction gives too many clusters for FAT12 and FAT16, so it is never accepted. */
  lemma NoWrap(d: Draft, pau: nat, o: Opts)
    requires o.Ok() && IsCluster(pau) && System(d, o) <= 0x200_0000 && W(o.szVol - System(d, o)) / pau <= 0xFFF5
    ensures System(d, o) <= o.szVol
  {
    hide PowerOf2;
    var x := W(o.szVol - System(d, o));
    DivBounds(x, pau);
    assert x / pau * pau <= 0xFFF5 * 128;
  }

  /** The estimate exceeds the final count by no more than the system area takes. */
  lemma EstimateClose(szVol: nat, sys: nat, pau: nat)
    requires pau > 0 && sys <= szVol
    ensures (szVol - sys) / pau <= szVol / pau <= (szVol - sys) / pau + 1 + sys
  {
    var n, c := szVol / pau, (szVol - sys) / pau;
    DivMono(szVol - sys, szVol, pau);
    DivBounds(szVol, pau);
    DivBounds(szVol - sys, pau);
    if n >= c + 2 + sys { MulAtLeast(pau, c + 1 + (sys + 1), n); MulAtLeast(sys + 1, 1, pau); }
    assert (c + 1 + (sys + 1)) * pau == c * pau + pau + pau * (sys + 1);
  }

  lemma SystemAtMost(d: Draft, o: Opts)
    requires 1 <= o.nFat <= 2
    ensures System(d, o) <= d.rsv + 2 * d.fat + d.dir
  {
  }

  lemma TableMono(kind: Kind, n: nat, m: nat)
    requires n <= m
    ensures TableBytes(kind, n) <= TableBytes(kind, m)
  {
  }

  /** A FAT12 or FAT16 volume's estimate is small, so nothing overflowed. */
  lemma SmallEstimate(n0: nat, c: nat, sys: nat, fat: nat)
    requires c <= 0xFFF5 && n0 <= c + 1 + sys && sys <= 1 + 2 * fat + 2048 + 0x8000 && fat <= 0x80_0000
    requires n0 <= 0x0FFF_FFF5 ==> fat <= n0 / 128 + 14
    ensures n0 <= 0x0FFF_FFF5 && fat <= 2000
  {
  }

  lemma CountedExactly(d: Draft, pau: nat, o: Opts)
    requires pau > 0 && System(d, o) <= o.szVol < 0x1_0000_0000
    ensures var c := Counted(d, pau, o); c.clusters == (o.szVol - System(d, o)) / pau && System(c, o) == System(d, o)
  {
  }

  lemma AcceptedFat(d0: Draft, pau: nat, o: Opts)
    requires o.Ok() && IsCluster(pau) && pau > 0 && Estimate(d0, FAT16, o) && d0.clusters == o.szVol / pau
    requires var d := Counted(Aligned(d0, o), pau, o);
             (d.kind.FAT12? && d.clusters <= 0xFF5) || (d.kind.FAT16? && 0xFF5 < d.clusters <= 0xFFF5)
    ensures Laid(Counted(Aligned(d0, o), pau, o), pau, o)
  {
    hide PowerOf2, Aligned, IsCluster, Gap, DataBase, System, TableBytes, W;
    AlignedSystem(d0, o);
    SystemAtMost(d0, o);
    var d1 := Aligned(d0, o);
    var d, sys := Counted(d1, pau, o), System(d1, o);
    NoWrap(d1, pau, o);
    CountedExactly(d1, pau, o);
    EstimateClose(o.szVol, sys, pau);
    SmallEstimate(d0.clusters, d.clusters, sys, d0.fat);
    TableMono(d.kind, d.clusters + 2, d0.clusters + 2);
  }

  /** A FAT32 volume is larger than its system area. */
  lemma LargeVolume(n0: nat, szVol: nat, sys: nat)
    requires 0xFFF5 < n0 <= szVol && sys <= 32 + 2 * (n0 / 128 + 2) + 0x8000
    ensures sys <= szVol
  {
  }

  lemma AcceptedFat32(d0: Draft, pau: nat, o: Opts)
    requires o.Ok() && IsCluster(pau) && pau > 0 && Estimate(d0, FAT32, o) && d0.clusters == o.szVol / pau <= o.szVol &&
             0xFFF5 < d0.clusters <= 0x0FFF_FFF5
    requires Counted(Aligned(d0, o), pau, o).clusters > 0xFFF5
    ensures Laid(Counted(Aligned(d0, o), pau, o), pau, o)
  {
    hide PowerOf2, Aligned, IsCluster, Gap, DataBase, System, TableBytes, W;
    AlignedSystem(d0, o);
    SystemAtMost(d0, o);
    var d1 := Aligned(d0, o);
    var d, sys := Counted(d1, pau, o), System(d1, o);
    LargeVolume(d0.clusters, o.szVol, sys);
    CountedExactly(d1, pau, o);
    EstimateClose(o.szVol, sys, pau);
    TableMono(d.kind, d.clusters + 2, d0.clusters + 2);
  }

  /** Every layout f_mkfs accepts is sound. */
  lemma AcceptedLaid(kind: Kind, au: nat, o: Opts)
    requires o.Ok() && (au == 0 || IsCluster(au)) && (kind == FAT16 || kind == FAT32)
    ensures var r := Attempt(kind, au, o); r.Accept? ==> Laid(r.d, r.pau, o)
  {
    hide PowerOf2, DraftOf, Pau, Laid, Gap, DataBase, Estimate, Aligned, Counted;
    var pau := Pau(kind, au, o.szVol);
    var d0 := DraftOf(kind, pau, o);
    DraftEstimate(kind, pau, o);
    AlignedKind(d0, kind, pau, o);
    if Attempt(kind, au, o).Accept? {
      if kind == FAT32 { AcceptedFat32(d0, pau, o); } else { AcceptedFat(d0, pau, o); }
    }
  }

  lemma AlignedKind(d0: Draft, kind: Kind, pau: nat, o: Opts)
    requires o.Ok() && Estimate(d0, kind, o) && pau > 0
    ensures Counted(Aligned(d0, o), pau, o).kind == d0.kind && !d0.kind.EXFAT? && (d0.kind.FAT32? <==> kind.FAT32?)
  {
  }

  // ---------- the boot record and mounting ----------

  /** The fields of a FAT boot record that mounting looks at. */
  datatype Vbr = Vbr(
    jump: nat, bytsPerSec: nat, secPerClus: nat, rsvd: nat, numFats: nat, rootEnt: nat, tot16: nat, tot32: nat,
    fatSz16: nat, fatSz32: nat, rootClus: nat, fsVer: nat, fat32Name: bool, signature: nat)

  /** What f_mkfs stores, each value cut to its field. */
  function Record(d: Draft, pau: nat, o: Opts): Vbr {
    var wide := d.kind.FAT32?;
    Vbr(0xEB, 512, pau % 0x100, d.rsv % 0x1_0000, o.nFat % 0x100, if wide then 0 else o.nRoot % 0x1_0000,
        if o.szVol < 0x1_0000 then o.szVol else 0, if o.szVol < 0x1_0000 then 0 else o.szVol,
        if wide then 0 else d.fat % 0x1_0000, if wide then d.fat else 0, if wide then 2 else 0, 0, wide, 0xAA55)
  }

  /** check_fs finds a FAT boot record. */
  predicate Recognised(v: Vbr) {
    && (v.jump == 0xEB || v.jump == 0xE9 || v.jump == 0xE8)
    && ((v.signature == 0xAA55 && v.fat32Name)
        || (v.bytsPerSec == 512 && IsCluster(v.secPerClus) && v.rsvd != 0 && 1 <= v.numFats <= 2 && v.rootEnt != 0
            && (v.tot16 >= 128 || v.tot32 >= 0x1_0000) && v.fatSz16 != 0))
  }

  datatype Mounted = Mounted(kind: Kind, nFats: nat, csize: nat, nRootdir: nat, fsize: nat, nFatent: nat, fatbase: nat,
    database: nat, dirbase: nat)

  datatype MountResult = Fs(fs: Mounted) | NoFilesystem

  function KindOf(nclst: nat): Kind {
    if nclst <= 0xFF5 then FAT12 else if nclst <= 0xFFF5 then FAT16 else if nclst <= 0x0FFF_FFF5 then FAT32 else EXFAT
  }

  /** The FAT branch of mount_volume on the record found at `bsect`. */
  function Mount(v: Vbr, bsect: nat): MountResult {
    var fsize := if v.fatSz16 == 0 then v.fatSz32 else v.fatSz16;
    var fasize := W(fsize * v.numFats);
    var tsect := if v.tot16 == 0 then v.tot32 else v.tot16;
    var sysect := W(v.rsvd + fasize + v.rootEnt / 16);
    if v.bytsPerSec != 512 || (v.numFats != 1 && v.numFats != 2) || !IsCluster(v.secPerClus) || v.rootEnt % 16 != 0
       || v.rsvd == 0 || tsect < sysect then NoFilesystem
    else
      var nclst := (tsect - sysect) / v.secPerClus;
      var kind := KindOf(nclst);
      if nclst == 0 || kind.EXFAT? || (kind.FAT32? && (v.fsVer != 0 || v.rootEnt != 0)) ||
        (!kind.FAT32? && v.rootEnt == 0)
         || fsize < W(W(TableBytes(kind, nclst + 2)) + 511) / 512 then NoFilesystem
      else
        Fs(Mounted(kind, v.numFats, v.secPerClus, v.rootEnt, fsize, nclst + 2, W(bsect + v.rsvd), W(bsect + sysect),
                   if kind.FAT32? then v.rootClus else W(W(bsect + v.rsvd) + fasize)))
  }

  /** The record says what was laid out. */
  lemma RecordFaithful(d: Draft, pau: nat, o: Opts)
    requires Laid(d, pau, o)
    ensures var v := Record(d, pau, o);
            && Recognised(v) && v.secPerClus == pau && v.rsvd == d.rsv && v.numFats == o.nFat
            && (if v.fatSz16 == 0 then v.fatSz32 else v.fatSz16) == d.fat
            && (if v.tot16 == 0 then v.tot32 else v.tot16) == o.szVol
            && v.rootEnt == (if d.kind.FAT32? then 0 else o.nRoot) && v.rootEnt / 16 == d.dir && v.rootEnt % 16 == 0
            && v.bytsPerSec == 512
            && v.fsVer == 0 && (d.kind.FAT32? ==> v.rootClus == 2) && (!d.kind.FAT32? ==> v.rootEnt != 0)
  {
    hide PowerOf2, TableBytes, System;
  }

  /** The layout as f_mkfs means it. */
  function Intended(d: Draft, pau: nat, o: Opts): Mounted {
    Mounted(d.kind, o.nFat, pau, if d.kind.FAT32? then 0
      else o.nRoot, d.fat, d.clusters + 2, o.bVol + d.rsv, o.bVol + System(d, o),
            if d.kind.FAT32? then 2 else o.bVol + d.rsv + d.fat * o.nFat)
  }

  /** Mounting a laid-out volume finds exactly the intended layout, provided it has a cluster at all. */
  lemma MountAgrees(d: Draft, pau: nat, o: Opts)
    requires Laid(d, pau, o)
    ensures Mount(Record(d, pau, o), o.bVol) == if d.clusters == 0 then NoFilesystem else Fs(Intended(d, pau, o))
  {
    hide PowerOf2, Record, Recognised, IsCluster, W, TableBytes, Laid, KindOf;
    RecordFaithful(d, pau, o);
    LaidFacts(d, pau, o);
    var fasize := d.fat * o.nFat;
    Small(fasize);
    Small(d.rsv + fasize + d.dir);
    Small(o.bVol + d.rsv);
    Small(o.bVol + System(d, o));
    Small(o.bVol + d.rsv + fasize);
  }

  lemma Small(x: nat)
    ensures x < 0x1_0000_0000 ==> W(x) == x
  {
  }

  lemma LaidFacts(d: Draft, pau: nat, o: Opts)
    requires Laid(d, pau, o)
    ensures System(d, o) <= o.szVol && o.bVol + o.szVol < 0x1_0000_0000 && pau > 0 &&
            d.clusters == (o.szVol - System(d, o)) / pau
    ensures IsCluster(pau) && d.rsv > 0 && KindOf(d.clusters) == d.kind && !d.kind.EXFAT? && 1 <= o.nFat <= 2
    ensures d.fat >= W(W(TableBytes(d.kind, d.clusters + 2)) + 511) / 512
  {
    hide PowerOf2;
    TableSmall(d.kind, d.clusters);
  }

  lemma TableSmall(kind: Kind, n: nat)
    requires n <= 0x0FFF_FFF5
    ensures W(W(TableBytes(kind, n + 2)) + 511) / 512 == (TableBytes(kind, n + 2) + 511) / 512
  {
    hide W;
    assert TableBytes(kind, n + 2) <= 4 * (n + 2);
    Small(TableBytes(kind, n + 2));
    Small(TableBytes(kind, n + 2) + 511);
  }

  /** An accepted layout has no cluster exactly when the request leaves no room for one. */
  lemma EmptyIff(t: Try, o: Opts)
    requires o.Ok() && t.Ok() && Attempt(t.kind, t.au, o).Accept?
    ensures Attempt(t.kind, t.au, o).d.clusters == 0 <==> NothingLeft(t, o)
  {
    hide PowerOf2, DraftOf, Pau, Aligned, Gap, DataBase, Laid, Estimate;
    AcceptedLaid(t.kind, t.au, o);
    var pau := Pau(t.kind, t.au, o.szVol);
    var d := DraftOf(t.kind, pau, o);
    AlignedSystem(d, o);
    var r := Attempt(t.kind, t.au, o);
    assert r.d == Counted(Aligned(d, o), pau, o) && System(r.d, o) == System(Aligned(d, o), o);
    LaidFacts(r.d, pau, o);
    DivBounds(o.szVol - System(r.d, o), pau);
    QuotientZero(o.szVol - System(r.d, o), pau);
  }

  lemma QuotientZero(x: nat, d: nat)
    requires d > 0
    ensures x / d == 0 <==> x < d
  {
    DivBounds(x, d);
    if x / d >= 1 { MulAtLeast(d, 1, x / d); }
  }

  /** What a mount of the accepted layout finds: the same layout, or nothing if the request left no room. */
  ghost predicate Mounts(r: Outcome, t: Try, o: Opts)
    requires o.Ok() && t.Ok() && r.Accept?
  {
    && Laid(r.d, r.pau, o) && Recognised(Record(r.d, r.pau, o))
    && Mount(Record(r.d, r.pau, o), o.bVol) == if NothingLeft(t, o) then NoFilesystem else Fs(Intended(r.d, r.pau, o))
  }

  /**
   * Format, then mount: the record is recognised, and mounting finds the same layout if and only if the request leaves
   * room for a cluster.
   */
  lemma FormatThenMount(t: Try, o: Opts)
    requires o.Ok() && t.Ok() && Attempt(t.kind, t.au, o).Accept?
    ensures Mounts(Attempt(t.kind, t.au, o), t, o)
  {
    hide PowerOf2, Attempt, Mount, Record, Recognised, Intended, NothingLeft, Laid;
    AcceptedLaid(t.kind, t.au, o);
    var r := Attempt(t.kind, t.au, o);
    RecordFaithful(r.d, r.pau, o);
    MountAgrees(r.d, r.pau, o);
    EmptyIff(t, o);
  }

  /**
   * The loop of f_mkfs ends, and whatever it accepts is mounted as it was laid out unless the request left no room for
   * a cluster.
   */
  method Format(kind: Kind, au: nat, o: Opts) returns (r: Outcome)
    requires o.Ok() && Try(kind, au).Ok()
    ensures var t := LastTry(Try(kind, au), o);
            r == Attempt(t.kind, t.au, o) && !r.Retry? && (r.Accept? ==> Mounts(r, t, o))
  {
    hide Attempt, Mounts, PowerOf2;
    var k, a := kind, au;
    r := Attempt(k, a, o);
    while r.Retry?
      invariant Try(k, a).Ok() && r == Attempt(k, a, o) && LastTry(Try(k, a), o) == LastTry(Try(kind, au), o)
      decreases if k == FAT16 then 1 else 0, if a == 0 then 1 else 0, r.Retry?
    {
      RetryProgress(k, a, o);
      k, a := r.kind, r.au;
      r := Attempt(k, a, o);
    }
    if r.Accept? { FormatThenMount(Try(k, a), o); }
  }

  // ---------- what is accepted ----------

  /**
   * The layout a round starts from: FATs of just as many sectors as the entries of all clusters take, two more entries
   * included.
   */
  lemma DraftIs(kind: Kind, pau: nat, o: Opts)
    requires o.Ok() && IsCluster(pau) && (kind == FAT16 || kind == FAT32) && o.szVol / pau <= 0x0FFF_FFF5
    ensures var d, n := DraftOf(kind, pau, o), o.szVol / pau;
            && d.clusters == n && d.kind == (if kind == FAT32 then FAT32 else if n > 0xFF5 then FAT16 else FAT12)
            && d.rsv == (if kind == FAT32 then 32 else 1) && d.dir == (if kind == FAT32 then 0 else o.nRoot / 16)
            && d.fat > 0 && 512 * (d.fat - 1) < TableBytes(d.kind, n + 2) + (if d.kind.FAT12? then 1 else 0)
            && TableBytes(d.kind, n + 2) <= 512 * d.fat
  {
    hide PowerOf2, W, TableBytes;
    var n := o.szVol / pau;
    Small(n * 4 + 8 + 511);
    Small(n * 2 + 4);
    Small(n * 2 + 4 + 511);
    LeastSectors(n * 4 + 8);
    LeastSectors(n * 2 + 4);
    LeastSectors((n * 3 + 1) / 2 + 3);
    TableSizes(n);
  }

  /** Rounding up to whole sectors. */
  lemma LeastSectors(x: nat)
    requires x > 0
    ensures var k := (x + 511) / 512; k > 0 && 512 * (k - 1) < x <= 512 * k
  {
  }

  lemma TableSizes(n: nat)
    ensures TableBytes(FAT32, n + 2) == n * 4 + 8 && TableBytes(FAT16, n + 2) == n * 2 + 4
    ensures TableBytes(FAT12, n + 2) <= (n * 3 + 1) / 2 + 3 <= TableBytes(FAT12, n + 2) + 1
  {
  }

  /**
   * Nothing is accepted that has no room for sixteen clusters behind the layout a round starts from, the gap not
   * counted.
   */
  lemma AcceptNeeds(t: Try, o: Opts)
    requires o.Ok() && t.Ok() && Attempt(t.kind, t.au, o).Accept?
    ensures var pau := Pau(t.kind, t.au, o.szVol);
            o.szVol >= System(DraftOf(t.kind, pau, o), o) + 16 * pau ||
              o.bVol + System(DraftOf(t.kind, pau, o), o) + 16 * pau >= 0x1_0000_0000
  {
    hide PowerOf2, DraftOf, Aligned, Gap, System, Judge, IsCluster, Pau;
    var pau := Pau(t.kind, t.au, o.szVol);
    var d := DraftOf(t.kind, pau, o);
    if o.bVol + System(d, o) + 16 * pau < 0x1_0000_0000 {
      DataBaseIs(d, o);
      Small(System(d, o) + pau * 16);
    }
  }

  /** The estimated layout of a volume of at least 64 MiB: its system area is small. */
  lemma BigDraft(kind: Kind, pau: nat, o: Opts)
    requires o.Ok() && IsCluster(pau) && (kind == FAT16 || kind == FAT32) && o.szVol / pau <= 0x1000_0000
    requires kind == FAT16 ==> o.szVol / pau > 0xFF5
    ensures var d, n := DraftOf(kind, pau, o), o.szVol / pau;
            d.kind == kind && d.clusters == n && System(d, o) <= n / 64 + 2090
  {
    hide PowerOf2;
    var d, n := DraftOf(kind, pau, o), o.szVol / pau;
    Small(n * 4 + 8 + 511);
    Small(n * 2 + 4);
    Small(n * 2 + 4 + 511);
    assert d.fat <= n / 128 + 2;
    if o.nFat == 1 { assert d.fat * o.nFat == d.fat; } else { assert d.fat * o.nFat == 2 * d.fat; }
  }

  /** One round on such a volume gets to the final check, with a system area that is small. */
  lemma BigRound(kind: Kind, au: nat, o: Opts) returns (d: Draft, s: nat)
    requires o.Ok() && Try(kind, au).Ok() && o.szVol >= 0x2_0000
    requires var n := o.szVol / Pau(kind, au, o.szVol);
             n <= 0x0FFF_FFF5 && if kind == FAT32 then 0xFFF5 < n else 0xFF5 < n
    ensures var pau := Pau(kind, au, o.szVol);
            && Attempt(kind, au, o) == Judge(d, pau, au, o.mayFat32) && d.kind == kind
            && s <= o.szVol / pau / 64 + 0x8000 + 2090 && s <= o.szVol && d.clusters == (o.szVol - s) / pau
  {
    hide PowerOf2, DraftOf, Aligned, Gap, DataBase, System, Judge, IsCluster, Pau;
    var pau := Pau(kind, au, o.szVol);
    BigDraft(kind, pau, o);
    var d0 := DraftOf(kind, pau, o);
    AlignedSystem(d0, o);
    ClusterSizes(pau);
    DivBounds(o.szVol, pau);
    s := System(Aligned(d0, o), o);
    d := Counted(Aligned(d0, o), pau, o);
    DataBaseIs(d0, o);
    Small(System(d0, o) + pau * 16);
    Small(o.szVol - s);
  }

  lemma ClusterSizes(pau: nat)
    requires IsCluster(pau)
    ensures 1 <= pau <= 128
  {
  }

  lemma DataBaseIs(d: Draft, o: Opts)
    requires o.bVol + System(d, o) < 0x1_0000_0000
    ensures DataBase(d, o) == o.bVol + System(d, o)
  {
    Small(o.bVol + System(d, o));
  }

  lemma CountBounds32(szVol: nat, s: nat, pau: nat)
    requires pau == 1 || pau == 2 || pau == 4 || pau == 8 || pau == 16 || pau == 32
    requires 0x2_0000 * pau <= szVol && s <= szVol / pau / 64 + 0x8000 + 2090 && s <= szVol
    ensures (szVol - s) / pau > 0xFFF5
  {
  }

  /** Half the automatic size is enough when the automatic one gives too few clusters. */
  lemma Fat32Retry(o: Opts, au: nat)
    requires o.Ok() && (au == 1 || au == 2 || au == 4 || au == 8 || au == 16 || au == 32)
    requires 0x2_0000 * au <= o.szVol && o.szVol / au <= 0x0FFF_FFF5
    ensures Attempt(FAT32, au, o).Accept?
  {
    hide PowerOf2, Attempt, AutoSize;
    CountBounds32(o.szVol, 0, au);
    var d, s := BigRound(FAT32, au, o);
    CountBounds32(o.szVol, s, au);
  }

  lemma Fat32First(o: Opts)
    requires o.Ok() && o.szVol >= 0x2_0000
    ensures var r := Attempt(FAT32, 0, o);
            && !r.Abort? && (r.Accept? ==> r.d.kind == FAT32)
            && (r.Retry? ==>
              r.kind == FAT32 && (r.au == 1 || r.au == 2 || r.au == 4 || r.au == 8 || r.au == 16 || r.au == 32)
                             && 0x2_0000 * r.au <= o.szVol && o.szVol / r.au <= 0x0FFF_FFF5)
  {
    hide PowerOf2, Attempt, AutoSize;
    AutoSizeIs(o.szVol);
    var d, s := BigRound(FAT32, 0, o);
  }

  /** FAT32 with automatic cluster size is accepted on every volume of at least 64 MiB, whatever the other options. */
  lemma Fat32Accepted(o: Opts)
    requires o.Ok() && o.szVol >= 0x2_0000
    ensures var t := LastTry(Try(FAT32, 0), o); t.kind == FAT32 && Attempt(t.kind, t.au, o).Accept?
  {
    hide PowerOf2, Attempt, AutoSize;
    Fat32First(o);
    if Attempt(FAT32, 0, o).Retry? { Fat32Retry(o, Attempt(FAT32, 0, o).au); }
  }

  /** The cluster count that a cluster size gives on such a volume. */
  lemma CountBounds(szVol: nat, s: nat, pau: nat)
    requires szVol >= 0x2_0000 && (pau == 8 || pau == 16 || pau == 32 || pau == 64 || pau == 128)
    requires s <= szVol / pau / 64 + 0x8000 + 2090 && s <= szVol
    ensures szVol >= 0x4000 * pau ==> (szVol - s) / pau > 0xFF5
    ensures szVol <= 0xFFF5 * pau ==> (szVol - s) / pau <= 0xFFF5
  {
  }

  /** When the automatic size gives too many clusters for FAT16, the double size will do. */
  lemma FatRetry(o: Opts, au: nat)
    requires o.Ok() && 0x2_0000 <= o.szVol && (au == 16 || au == 32 || au == 64 || au == 128) &&
             0x4000 * au <= o.szVol <= 0xFFF5 * au
    ensures Attempt(FAT16, au, o).Accept?
  {
    hide PowerOf2, Attempt, AutoSize;
    CountBounds(o.szVol, 0, au);
    var d, s := BigRound(FAT16, au, o);
    CountBounds(o.szVol, s, au);
  }

  lemma FatFirst(o: Opts)
    requires o.Ok() && o.szVol >= 0x2_0000 && o.mayFat32
    ensures var r := Attempt(FAT16, 0, o);
            && !r.Abort? && (o.szVol < 0x3F_0000 ==> !r.Retry? || r.kind == FAT16)
            && (r.Retry? ==>
              (r.kind == FAT32 && r.au == 0) ||
              (r.kind == FAT16 && 0x4000 * r.au <= o.szVol <= 0xFFF5 * r.au && r.au in {16, 32, 64}))
  {
    hide PowerOf2, Attempt, AutoSize;
    AutoSizeIs(o.szVol);
    var pau := AutoSize(FAT16, o.szVol);
    CountBounds(o.szVol, 0, pau);
    var d, s := BigRound(FAT16, 0, o);
    CountBounds(o.szVol, s, pau);
  }

  /** With FAT32 allowed, any type is: FAT16 below 2 GiB, and FAT16 or FAT32 above. */
  lemma AnyAccepted(o: Opts)
    requires o.Ok() && o.szVol >= 0x2_0000 && o.mayFat32
    ensures var t := LastTry(Try(FAT16, 0), o); Attempt(t.kind, t.au, o).Accept?
    ensures o.szVol < 0x3F_0000 ==> LastTry(Try(FAT16, 0), o).kind == FAT16
  {
    hide PowerOf2, Attempt, AutoSize;
    FatFirst(o);
    var first := Attempt(FAT16, 0, o);
    if first.Retry? {
      if first.kind == FAT32 { Fat32Accepted(o); } else { FatRetry(o, first.au); }
    }
  }

  lemma Fat16First(o: Opts)
    requires o.Ok() && 0x2_0000 <= o.szVol <= 0xFFF5 * 128 && !o.mayFat32
    ensures var r := Attempt(FAT16, 0, o);
            && !r.Abort?
            && (r.Retry? ==> r.kind == FAT16 && 0x4000 * r.au <= o.szVol <= 0xFFF5 * r.au && r.au in {16, 32, 64, 128})
  {
    hide PowerOf2, Attempt, AutoSize;
    AutoSizeIs(o.szVol);
    var pau := AutoSize(FAT16, o.szVol);
    CountBounds(o.szVol, 0, pau);
    var d, s := BigRound(FAT16, 0, o);
    CountBounds(o.szVol, s, pau);
  }

  /** With FAT32 ruled out, FAT16 it is, up to the clusters it can have at their largest. */
  lemma Fat16Accepted(o: Opts)
    requires o.Ok() && 0x2_0000 <= o.szVol <= 0xFFF5 * 128 && !o.mayFat32
    ensures var t := LastTry(Try(FAT16, 0), o); t.kind == FAT16 && Attempt(t.kind, t.au, o).Accept?
  {
    hide PowerOf2, Attempt, AutoSize;
    Fat16First(o);
    var first := Attempt(FAT16, 0, o);
    if first.Retry? { FatRetry(o, first.au); }
  }

  /** A volume below 64 MiB without erase blocks and with a root directory of at most 512 entries. */
  predicate Plain(o: Opts) { o.Ok() && o.szVol < 0x2_0000 && o.szBlk == 1 && o.nRoot <= 512 }

  lemma SmallDraft(pau: nat, o: Opts)
    requires Plain(o) && IsCluster(pau)
    ensures var d, n := DraftOf(FAT16, pau, o), o.szVol / pau;
            && d.clusters == n && d.kind == (if n > 0xFF5 then FAT16 else FAT12) && System(d, o) <= n / 128 + 37
  {
    hide PowerOf2;
    var d, n := DraftOf(FAT16, pau, o), o.szVol / pau;
    Small(n * 2 + 4);
    Small(n * 2 + 4 + 511);
    if o.nFat == 1 { assert d.fat * o.nFat == d.fat; } else { assert d.fat * o.nFat == 2 * d.fat; }
  }

  lemma SmallRound(au: nat, o: Opts) returns (d: Draft, s: nat)
    requires Plain(o) && Try(FAT16, au).Ok()
    requires o.szVol / Pau(FAT16, au, o.szVol) / 128 + 37 + 16 * Pau(FAT16, au, o.szVol) <= o.szVol
    ensures var pau := Pau(FAT16, au, o.szVol);
            && Attempt(FAT16, au, o) == Judge(d, pau, au, o.mayFat32)
            && d.kind == (if o.szVol / pau > 0xFF5 then FAT16 else FAT12)
            && s <= o.szVol / pau / 128 + 37 && s <= o.szVol && d.clusters == (o.szVol - s) / pau
  {
    hide PowerOf2, DraftOf, Aligned, Gap, DataBase, System, Judge, IsCluster, Pau;
    var pau := Pau(FAT16, au, o.szVol);
    SmallDraft(pau, o);
    var d0 := DraftOf(FAT16, pau, o);
    AlignedSystem(d0, o);
    ClusterSizes(pau);
    s := System(Aligned(d0, o), o);
    d := Counted(Aligned(d0, o), pau, o);
    DataBaseIs(d0, o);
    Small(System(d0, o) + pau * 16);
    Small(o.szVol - s);
  }

  lemma SmallCount(szVol: nat, s: nat, pau: nat)
    requires (pau == 1 || pau == 2 || pau == 4 || pau == 8) && s <= szVol / pau / 128 + 37 && s <= szVol
    ensures szVol / pau > 0xFF5 && (szVol - s) / pau <= 0xFF5 ==> 0x400 * (2 * pau) <= szVol <= 0xFF5 * (2 * pau)
    ensures szVol >= 0x1_0000 && pau == 8 ==> (szVol - s) / pau > 0xFF5
    ensures szVol < 0xFFF5 * pau ==> (szVol - s) / pau <= 0xFFF5
  {
  }

  lemma SmallFirst(o: Opts)
    requires Plain(o)
    ensures var r := Attempt(FAT16, 0, o);
            && !r.Abort?
            && (r.Retry? ==> r.kind == FAT16 && r.au in {2, 4, 8} && 0x400 * r.au <= o.szVol <= 0xFF5 * r.au)
  {
    hide PowerOf2, Attempt, AutoSize;
    AutoSizeIs(o.szVol);
    var d, s := SmallRound(0, o);
    SmallCount(o.szVol, s, AutoSize(FAT16, o.szVol));
  }

  lemma SmallRetry(o: Opts, au: nat)
    requires Plain(o) && (au == 2 || au == 4 || au == 8) && 0x400 * au <= o.szVol <= 0xFF5 * au
    ensures Attempt(FAT16, au, o).Accept?
  {
    hide PowerOf2, Attempt, AutoSize;
    var d, s := SmallRound(au, o);
  }

  /** And it accepts every such volume below 64 MiB, from 128 sectors on. */
  lemma SmallAccepted(o: Opts)
    requires Plain(o)
    ensures var t := LastTry(Try(FAT16, 0), o); t.kind == FAT16 && Attempt(t.kind, t.au, o).Accept?
  {
    hide PowerOf2, Attempt, AutoSize;
    SmallFirst(o);
    var first := Attempt(FAT16, 0, o);
    if first.Retry? { SmallRetry(o, first.au); }
  }

  const SMALL_ALIGNED: Opts := Opts(0, 128, 128, 1, 512, false)

  lemma SmallAlignedParts()
    ensures SMALL_ALIGNED.Ok() && Pau(FAT16, 0, 128) == 1
    ensures var d := Draft(FAT12, 128, 1, 1, 32);
            && DraftOf(FAT16, 1, SMALL_ALIGNED) == d && DataBase(d, SMALL_ALIGNED) == 34
            && Aligned(d, SMALL_ALIGNED) == Draft(FAT12, 128, 95, 1, 32)
  {
    assert PowerOf2(8) && PowerOf2(64) && PowerOf2(128);
    assert Gap(34, 128) == 94;
  }

  /** f_mkfs accepts a 128-sector volume aligned to 128 sectors with no cluster left: mounting refuses it. */
  lemma NoClusterLeft()
    ensures SMALL_ALIGNED.Ok() && Attempt(FAT16, 0, SMALL_ALIGNED) == Accept(Draft(FAT12, 0, 95, 1, 32), 1)
    ensures Mount(Record(Draft(FAT12, 0, 95, 1, 32), 1, SMALL_ALIGNED), 0) == NoFilesystem
  {
    hide PowerOf2, Mount, Record, Pau, DraftOf, DataBase, Aligned;
    SmallAlignedParts();
    FormatThenMount(Try(FAT16, 0), SMALL_ALIGNED);
    EmptyIff(Try(FAT16, 0), SMALL_ALIGNED);
  }

  /** The FATs start behind the boot record, on FAT32 also behind FSINFO and the backups. */
  lemma Reserved(t: Try, o: Opts)
    requires o.Ok() && t.Ok() && Attempt(t.kind, t.au, o).Accept?
    ensures var d := Attempt(t.kind, t.au, o).d; d.rsv >= 1 && !d.kind.EXFAT? && (d.kind.FAT32? ==> d.rsv >= 32)
  {
    hide PowerOf2, Gap, DataBase, W, Pau;
  }

  /** The mounted layout as the volume layer describes it. */
  function GeometryOf(m: Mounted, sectors: nat): Geometry {
    Geometry(m.kind, m.nFats, m.nFatent, m.csize, m.fsize, m.fatbase, m.database, 0, sectors)
  }

  /**
   * A formatted volume meets what the volume and file layers rely on: every entry lies in the FAT, every cluster on the
   * disk.
   */
  lemma FormattedGeometry(d: Draft, pau: nat, o: Opts, sectors: nat)
    requires Laid(d, pau, o) && d.clusters > 0 && o.bVol + o.szVol <= sectors < 0xFFFF_FFFF
    ensures var g := GeometryOf(Intended(d, pau, o), sectors);
            g.Ok() && g.database + g.csize * (g.nFatent - 2) <= sectors
  {
    hide PowerOf2, TableBytes, EntryOffset, KindOf, System, IsCluster, W;
    LaidFacts(d, pau, o);
    LaidLimits(d, pau, o);
    EntriesFit(d.kind, d.clusters + 2);
    SystemSplit(d, o);
    DivBounds(o.szVol - System(d, o), pau);
    assert d.clusters * pau == pau * d.clusters;
  }

  /** The record's fields have the widths they have on the disk. */
  predicate Widths(v: Vbr) {
    v.secPerClus < 0x100 && v.rsvd < 0x1_0000 && v.numFats < 0x100 && v.rootEnt < 0x1_0000 && v.tot16 < 0x1_0000 &&
      v.tot32 < 0x1_0000_0000 && v.fatSz16 < 0x1_0000 && v.fatSz32 < 0x1_0000_0000
  }

  function FatSize(v: Vbr): nat { if v.fatSz16 == 0 then v.fatSz32 else v.fatSz16 }

  function Total(v: Vbr): nat { if v.tot16 == 0 then v.tot32 else v.tot16 }

  /** What mounting worked out of an accepted record. */
  lemma MountParts(v: Vbr, bsect: nat)
    requires Mount(v, bsect).Fs?
    ensures var m, sysect := Mount(v, bsect).fs, SystemOf(v);
            && sysect <= Total(v) && IsCluster(v.secPerClus) && m.csize == v.secPerClus && v.rsvd > 0
            && m.nFatent == (Total(v) - sysect) / m.csize + 2 >= 3 && m.kind == KindOf(m.nFatent - 2) && !m.kind.EXFAT?
            && m.fsize == FatSize(v) && m.fsize >= W(W(TableBytes(m.kind, m.nFatent)) + 511) / 512
            && m.fatbase == W(bsect + v.rsvd) && m.database == W(bsect + sysect) && m.nFats == v.numFats
            && (v.numFats == 1 || v.numFats == 2)
  {
    hide W, TableBytes, KindOf;
    ClusterSizes(v.secPerClus);
    DivBounds(Total(v) - SystemOf(v), v.secPerClus);
  }

  /** What a mount demands of the other fields, and where it finds the root directory. */
  lemma MountNeeds(v: Vbr, bsect: nat)
    requires Mount(v, bsect).Fs?
    ensures var m := Mount(v, bsect).fs;
            && v.bytsPerSec == 512 && v.rootEnt % 16 == 0 && m.nRootdir == v.rootEnt
            && (if m.kind.FAT32? then v.fsVer == 0 == v.rootEnt else v.rootEnt != 0)
            && m.dirbase == (if m.kind.FAT32? then v.rootClus else W(W(bsect + v.rsvd) + W(FatSize(v) * v.numFats)))
  {
    hide W, TableBytes, KindOf;
  }

  /** Sectors in front of the data area, in 32-bit arithmetic. */
  function SystemOf(v: Vbr): nat { W(v.rsvd + W(FatSize(v) * v.numFats) + v.rootEnt / 16) }

  /**
   * Recognising a record and mounting it agree: only a signed FAT32 record mounts as FAT32, and an unsigned or FAT12/16
   * one that is recognised has fields a mount accepts.
   */
  lemma RecognisedAgrees(v: Vbr, bsect: nat)
    ensures Recognised(v) && Mount(v, bsect).Fs? && Mount(v, bsect).fs.kind.FAT32? ==>
              v.signature == 0xAA55 && v.fat32Name
    ensures Recognised(v) && !(v.signature == 0xAA55 && v.fat32Name) ==>
              v.bytsPerSec == 512 && IsCluster(v.secPerClus) && (v.numFats == 1 || v.numFats == 2) && v.rsvd > 0 &&
              v.rootEnt > 0 && FatSize(v) == v.fatSz16 > 0 && (128 <= Total(v) || 0 < v.tot16 < 128)
    ensures (v.jump == 0xEB || v.jump == 0xE9 || v.jump == 0xE8) && Mount(v, bsect).Fs? && v.fatSz16 > 0 &&
            !Mount(v, bsect).fs.kind.FAT32? && (v.tot16 >= 128 || v.tot32 >= 0x1_0000) ==>
              Recognised(v)
  {
    hide W, TableBytes, KindOf, PowerOf2;
  }

  /** Whatever record a mount accepts: every entry lies in the first FAT and every cluster on the volume. */
  lemma MountedFits(v: Vbr, bsect: nat, sectors: nat)
    requires Widths(v) && Mount(v, bsect).Fs? && bsect + Total(v) <= sectors < 0xFFFF_FFFF
    ensures var m := Mount(v, bsect).fs;
            && !m.kind.EXFAT? && 3 <= m.nFatent <= MaxClusters(m.kind) + 2 && m.fsize == FatSize(v)
            && 0 < EntryOffset(m.kind, m.nFatent - 1) + EntrySize(m.kind) <= 512 * m.fsize
            && m.database + m.csize * (m.nFatent - 2) <= bsect + Total(v) && m.database == bsect + SystemOf(v)
            && (v.rsvd <= Total(v) ==> m.fatbase == bsect + v.rsvd)
  {
    hide PowerOf2, TableBytes, Mount, SystemOf, Total, FatSize, W;
    MountParts(v, bsect);
    var m := Mount(v, bsect).fs;
    Small(bsect + v.rsvd);
    Small(bsect + SystemOf(v));
    ClusterSizes(m.csize);
    DivBounds(Total(v) - SystemOf(v), m.csize);
    assert m.csize * (m.nFatent - 2) == (Total(v) - SystemOf(v)) / m.csize * m.csize;
    EntriesFit(m.kind, m.nFatent);
    TableBytesSmall(m.kind, m.nFatent);
  }

  lemma TableBytesSmall(kind: Kind, n: nat)
    requires 3 <= n <= MaxClusters(kind) + 2 && !kind.EXFAT?
    ensures W(W(TableBytes(kind, n)) + 511) / 512 * 512 >= TableBytes(kind, n)
  {
    hide W;
    assert TableBytes(kind, n) <= 4 * n;
    Small(TableBytes(kind, n));
    Small(TableBytes(kind, n) + 511);
  }

  /** Its areas follow one another, as everything else relies on, if and only if their sizes do not wrap 32 bits. */
  lemma MountedSound(v: Vbr, bsect: nat, sectors: nat)
    requires Widths(v) && Mount(v, bsect).Fs? && bsect + Total(v) <= sectors < 0xFFFF_FFFF
    ensures GeometryOf(Mount(v, bsect).fs, sectors).Ok() && Mount(v, bsect).fs.fatbase == bsect + v.rsvd <==>
            v.rsvd + FatSize(v) * v.numFats + v.rootEnt / 16 < 0x1_0000_0000
  {
    hide PowerOf2, TableBytes, Mount, EntryOffset, EntrySize, FatTable.MaxClusters, Total, SystemOf, FatSize, W;
    MountParts(v, bsect);
    MountedFits(v, bsect, sectors);
    ClusterSizes(v.secPerClus);
    SystemIff(v);
    Small(bsect + v.rsvd);
    assert FatSize(v) * v.numFats == if v.numFats == 1 then FatSize(v) else 2 * FatSize(v);
  }

  lemma SystemIff(v: Vbr)
    requires Widths(v) && (v.numFats == 1 || v.numFats == 2)
    ensures var need := v.rsvd + FatSize(v) * v.numFats + v.rootEnt / 16;
            if need < 0x1_0000_0000 then SystemOf(v) == need else SystemOf(v) < v.rsvd + FatSize(v) * v.numFats
  {
    var fats := FatSize(v) * v.numFats;
    if v.numFats == 1 { assert fats == FatSize(v); } else { assert fats == 2 * FatSize(v); }
  }

  /**
   * A record whose FAT area wraps: two FATs of 0x8000_0001 sectors on 70000 are mounted, the data area inside the first
   * FAT.
   */
  lemma WrappedFats()
    ensures var v := Vbr(0xEB, 512, 1, 32, 2, 0, 0, 70000, 0, 0x8000_0001, 2, 0, true, 0xAA55);
            && Widths(v) && Recognised(v) && Mount(v, 0).Fs? && Mount(v, 0).fs.database == 34
            && !GeometryOf(Mount(v, 0).fs, 70000).Ok()
  {
    var v := Vbr(0xEB, 512, 1, 32, 2, 0, 0, 70000, 0, 0x8000_0001, 2, 0, true, 0xAA55);
    assert Mount(v, 0).Fs?;
    MountedSound(v, 0, 70000);
  }

  lemma LaidLimits(d: Draft, pau: nat, o: Opts)
    requires Laid(d, pau, o)
    ensures 0 < pau <= 128 && d.clusters <= MaxClusters(d.kind) && d.fat > 0 &&
            TableBytes(d.kind, d.clusters + 2) <= 512 * d.fat
  {
    hide PowerOf2, System;
  }

  lemma SystemSplit(d: Draft, o: Opts)
    requires 1 <= o.nFat <= 2
    ensures System(d, o) == d.rsv + (if o.nFat == 2 then 2 * d.fat else d.fat) + d.dir
  {
  }

  lemma EntriesFit(kind: Kind, n: nat)
    requires n > 0
    ensures EntryOffset(kind, n - 1) + EntrySize(kind) <= TableBytes(kind, n)
  {
    if kind.FAT12? {
      var k := n / 2;
      if n % 2 == 0 {
        assert n == 2 * k && (n - 1) / 2 == k - 1 && n * 3 / 2 == 3 * k;
      } else {
        assert n == 2 * k + 1 && (n - 1) / 2 == k && n * 3 / 2 == 3 * k + 1;
      }
    }
  }

  // ---------- the fresh table ----------

  /** The first FAT as f_mkfs writes it. */
  function FreshFat(kind: Kind, fsize: nat): (b: seq<byte>)
    requires fsize > 0
    ensures |b| == 512 * fsize
  {
    var head: seq<byte> := match kind
      case FAT12 => [0xF8, 0xFF, 0xFF]
      case FAT16 => [0xF8, 0xFF, 0xFF, 0xFF]
      case _ => [0xF8, 0xFF, 0xFF, 0xFF, 0xFF, 0xFF, 0xFF, 0xFF, 0xFF, 0xFF, 0xFF, 0x0F];
    head + seq(512 * fsize - |head|, _ => 0)
  }

  lemma FreshByte(kind: Kind, fsize: nat, k: nat)
    requires !kind.EXFAT? && fsize > 0 && k < 512 * fsize
    ensures k >= (match kind case FAT12 => 3 case FAT16 => 4 case _ => 12) ==> FreshFat(kind, fsize)[k] == 0
    ensures kind.FAT32? && 8 <= k < 11 ==> FreshFat(kind, fsize)[k] == 0xFF
    ensures kind.FAT32? && k == 11 ==> FreshFat(kind, fsize)[k] == 0x0F
  {
  }

  lemma Words(b0: byte, b1: byte, b2: byte, b3: byte)
    ensures b0 == b1 == 0 ==> LdWord(b0, b1) == 0
    ensures b0 == b1 == b2 == b3 == 0 ==> LdDword(b0, b1, b2, b3) == 0
    ensures b0 == b1 == b2 == 0xFF && b3 == 0x0F ==> LdDword(b0, b1, b2, b3) == 0x0FFF_FFFF
  {
  }

  lemma Zero12(c: nat)
    ensures Unpack12(c, 0, 0) == 0
  {
  }

  lemma FreshEntry(kind: Kind, fsize: nat, c: nat)
    requires !kind.EXFAT? && fsize > 0 && c >= 2 && Fits(kind, FreshFat(kind, fsize), c)
    ensures Entry(kind, FreshFat(kind, fsize), c) == if kind.FAT32? && c == 2 then 0x0FFF_FFFF else 0
  {
    hide FreshFat, Unpack12, LdWord, LdDword;
    Zero12(c);
    var b, at := FreshFat(kind, fsize), EntryOffset(kind, c);
    FreshByte(kind, fsize, at);
    FreshByte(kind, fsize, at + 1);
    if kind.FAT32? {
      FreshByte(kind, fsize, at + 2);
      FreshByte(kind, fsize, at + 3);
      Words(b[at], b[at + 1], b[at + 2], b[at + 3]);
    } else {
      Words(b[at], b[at + 1], 0, 0);
    }
  }

  /** The two reserved entries: the media byte under ones, and an end mark. */
  lemma FreshReserved(kind: Kind, fsize: nat)
    requires !kind.EXFAT? && fsize > 0
    ensures Fits(kind, FreshFat(kind, fsize), 0) && Fits(kind, FreshFat(kind, fsize), 1)
    ensures Entry(kind, FreshFat(kind, fsize), 0) ==
            match kind case FAT12 => 0xFF8 case FAT16 => 0xFFF8 case _ => 0x0FFF_FFF8
    ensures Entry(kind, FreshFat(kind, fsize), 1) ==
            match kind case FAT12 => 0xFFF case FAT16 => 0xFFFF case _ => 0x0FFF_FFFF
  {
    EntryBytes(kind, FreshFat(kind, fsize), 0);
    EntryBytes(kind, FreshFat(kind, fsize), 1);
  }

  /**
   * The allocator state right after formatting and mounting: FAT32 takes the free count from FSINFO, the others start
   * unknown.
   */
  ghost function FreshAlloc(kind: Kind, fat: seq<nat>): ChainSpec.Alloc
    requires |fat| >= 3
  {
    ChainSpec.Alloc(fat, if kind.FAT32? then |fat| - 3 else 0xFFFF_FFFF, if kind.FAT32? then 2
      else 0xFFFF_FFFF, Width(kind) - 1)
  }

  /**
   * A fresh volume is a valid start for every run of create_chain and remove_chain: only the FAT32 root is allocated,
   * and the free count is exact.
   */
  lemma FreshInv(kind: Kind, fsize: nat, n: nat)
    requires !kind.EXFAT? && fsize > 0 && 3 <= n <= MaxClusters(kind) + 2 && FitsAll(kind, FreshFat(kind, fsize), n)
    ensures var fat := Table(kind, FreshFat(kind, fsize), n);
            ChainSpec.World(FreshAlloc(kind, fat), if kind.FAT32? then [[2]] else []).Inv()
  {
    hide FreshFat;
    var b := FreshFat(kind, fsize);
    var fat := Table(kind, b, n);
    forall c | 2 <= c < n
      ensures fat[c] == if kind.FAT32? && c == 2 then 0x0FFF_FFFF else 0
    {
      TableAt(kind, b, n, c);
      FreshEntry(kind, fsize, c);
    }
    FreshWorld(kind, fat);
  }

  /** The same of the table as a sequence of entries. */
  lemma FreshWorld(kind: Kind, fat: seq<nat>)
    requires !kind.EXFAT? && 3 <= |fat| <= MaxClusters(kind) + 2
    requires forall c | 2 <= c < |fat| :: fat[c] == if kind.FAT32? && c == 2 then 0x0FFF_FFFF else 0
    ensures ChainSpec.World(FreshAlloc(kind, fat), if kind.FAT32? then [[2]] else []).Inv()
  {
    FreshZeros(fat, |fat|, kind.FAT32?);
    if kind.FAT32? {
      var chains := [[2]];
      assert [2][0] == 2 && ChainSpec.Chain(fat, [2]);
      assert 2 in chains[0] && ChainSpec.InSome(chains, 2);
      assert ChainSpec.Forest(fat, chains);
    }
  }

  lemma {:induction false} FreshZeros(fat: seq<nat>, k: nat, root: bool)
    requires 3 <= k <= |fat| && forall c | 2 <= c < |fat| :: fat[c] == if root && c == 2 then 0x0FFF_FFFF else 0
    ensures ChainSpec.Zeros(fat, k) == k - 2 - if root then 1 else 0
  {
    if k > 3 { FreshZeros(fat, k - 1, root); }
  }
}
