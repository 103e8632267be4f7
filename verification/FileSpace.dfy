/**
 * One object's clusters on a mounted volume of any kind: following its chain, lengthening it, and keeping its data
 * apart.
 */
module FileSpace {
  import opened Bytes
  import opened FatTable
  import opened FatVolume
  import opened FileData
  import Bitmap
  import LazyChain
  import Exfat
  import ChainSpec
  import FatChain
  import opened Arith

  function LayoutOf(g: Geometry): Layout { Layout(g.csize, g.database) }

  ghost predicate DataFits(g: Geometry) {
    g.csize > 0 && g.database + g.csize * (g.nFatent - 2) <= g.sectors
  }

  /** A mounted volume without disk errors. */
  ghost predicate Ready(fs: Volume)
    reads fs`disk, fs`winsect, fs`wflag, fs`mirror, fs.win
  {
    fs.Valid() && fs.reliable && DataFits(fs.g) && (fs.g.kind.EXFAT? ==> Bitmap.ExOk(fs.g))
  }

  /** What tells free clusters (0) from used ones: the bitmap on exFAT, the FAT elsewhere. */
  ghost function TableOf(fs: Volume): (t: seq<nat>)
    requires Ready(fs)
    reads fs`disk, fs`winsect, fs`wflag, fs`mirror, fs.win
    ensures |t| == fs.g.nFatent
  {
    if fs.g.kind.EXFAT? then Bitmap.MarksNow(fs) else fs.Fat()
  }

  /** Cluster `c` shares a sector with the allocation bitmap. */
  predicate HitsBits(g: Geometry, c: nat)
    requires c >= 2
  {
    && g.kind.EXFAT? && ClusterBase(LayoutOf(g), c) < g.bitbase + Bitmap.BitSectors(g.nFatent)
    && g.bitbase < ClusterBase(LayoutOf(g), c) + g.csize
  }

  ghost predicate Apart(g: Geometry, chain: seq<nat>) {
    forall i | 0 <= i < |chain| :: chain[i] >= 2 && !HitsBits(g, chain[i])
  }

  /** `chain` is the object's cluster list: on the FAT, or on exFAT as its fields and the FAT represent it. */
  ghost predicate Linked(g: Geometry, fat: seq<nat>, table: seq<nat>, o: LazyChain.Lazy, chain: seq<nat>) {
    if g.kind.EXFAT? then
      && |fat| == |table| <= LazyChain.EOC && (forall c | 2 <= c < |table| && HitsBits(g, c) :: table[c] != 0)
      && Exfat.AllUsed(table, chain) && Apart(g, chain)
      && (if chain == [] then o.nFrag == 0 else LazyChain.Rep(o, fat, chain))
    else table == fat && ChainSpec.Sound(fat) && (chain == [] || ChainSpec.Chain(fat, chain))
  }

  lemma LinkedRange(g: Geometry, fat: seq<nat>, table: seq<nat>, o: LazyChain.Lazy, chain: seq<nat>)
    requires Linked(g, fat, table, o, chain)
    ensures forall i | 0 <= i < |chain| :: 2 <= chain[i] < |fat|
    ensures forall i, j | 0 <= i < j < |chain| :: chain[i] != chain[j]
    ensures Apart(g, chain)
  {
  }

  /** The sectors of a chain lie on the disk. */
  lemma ChainIsPlaced(g: Geometry, n: nat, chain: seq<nat>)
    requires DataFits(g) && n == g.nFatent && (forall i | 0 <= i < |chain| :: 2 <= chain[i] < n)
    requires forall i, j | 0 <= i < j < |chain| :: chain[i] != chain[j]
    ensures Placed(LayoutOf(g), chain, g.sectors)
  {
    forall i | 0 <= i < |chain| ensures ClusterBase(LayoutOf(g), chain[i]) + g.csize <= g.sectors {
      MulMono(g.csize, chain[i] - 1, g.nFatent - 2);
      assert g.csize * (chain[i] - 1) == g.csize * (chain[i] - 2) + g.csize;
    }
  }

  /** A data sector of a cluster that avoids the bitmap is no metadata sector. */
  lemma LocApart(g: Geometry, chain: seq<nat>, q: nat)
    requires g.Ok() && Placed(LayoutOf(g), chain, g.sectors) && Apart(g, chain) && Ci(LayoutOf(g), q) < |chain|
    ensures var x := Loc(LayoutOf(g), chain, q);
            g.database <= x < g.sectors && !g.InFat(x) && !g.InMirror(x) && (g.kind.EXFAT? ==> !Bitmap.InBits(g, x))
  {
    LocIn(LayoutOf(g), chain, g.sectors, q);
    hide Ci, Co;
    assert !HitsBits(g, chain[Ci(LayoutOf(g), q)]);
  }

  /** Which run of `n` bytes position `p` is in. */
  function Nth(p: nat, n: nat): int { if n == 0 then 0 else p / n }

  function Within(p: nat, n: nat): int { if n == 0 then p else p % n }

  /** Sector `k` of cluster `c`, clusters being numbered from 2 and starting at the data area. */
  function SectorOf(g: Geometry, c: int, k: int): int { g.database + (c - 2) * g.csize + k }

  /** Where byte `p` of a file is: in which cluster of its list, which sector of the volume, and which byte of that. */
  lemma FileByte(g: Geometry, disk: seq<Sector>, chain: seq<nat>, size: nat, p: nat)
    requires g.csize > 0 && Placed(LayoutOf(g), chain, |disk|) && Room(LayoutOf(g), |chain|, size) && p < size
    ensures 0 <= Nth(p, 512 * g.csize) < |chain|
    ensures var s := SectorOf(g, chain[Nth(p, 512 * g.csize)], Within(p, 512 * g.csize) / 512);
            0 <= s < |disk| && Content(LayoutOf(g), disk, chain, size)[p] == disk[s][p % 512]
  {
    hide Ci, Co;
    ContentAt(LayoutOf(g), disk, chain, size, p);
    LocIn(LayoutOf(g), chain, |disk|, p / 512);
    SplitPosition(LayoutOf(g), p);
    var c := chain[Nth(p, 512 * g.csize)];
    assert (c - 2) * g.csize == g.csize * (c - 2);
  }

  lemma SplitPosition(l: Layout, p: nat)
    requires l.csize > 0
    ensures Ci(l, p / 512) == p / (512 * l.csize) && Co(l, p / 512) == p % (512 * l.csize) / 512
  {
    var q, k, r := p / 512, p / 512 / l.csize, p / 512 % l.csize;
    QuotRem(q, l.csize);
    assert p == 512 * (l.csize * k + r) + p % 512;
    assert 512 * (l.csize * k + r) == 512 * l.csize * k + 512 * r;
    RemainderIs(p, 512 * l.csize, k, 512 * r + p % 512);
    RemainderIs(512 * r + p % 512, 512, r, p % 512);
  }

  // ---------- data sectors ----------

  /** Rewriting a data sector the window is not on leaves window, mirror and table alone. */
  lemma DataWriteIsSafe(g: Geometry, disk: seq<Sector>, s: nat, data: Sector, skip: set<int>)
    requires g.Ok() && |disk| == g.sectors && g.database <= s < g.sectors && Mirrored(g, disk, skip)
    ensures Mirrored(g, disk[s := data], skip)
  {
  }

  lemma BitsSame(g: Geometry, v: seq<Sector>, w: seq<Sector>)
    requires Bitmap.ExOk(g) && |v| == |w| == g.sectors && forall s | 0 <= s < |v| && Bitmap.InBits(g, s) :: v[s] == w[s]
    ensures Bitmap.MarksOf(g, v) == Bitmap.MarksOf(g, w)
  {
    assert v[g.bitbase..g.bitbase + Bitmap.BitSectors(g.nFatent)] ==
      w[g.bitbase..g.bitbase + Bitmap.BitSectors(g.nFatent)];
  }

  /** disk_write of one data sector. */
  method WriteSector(fs: Volume, s: nat, data: Sector)
    requires Ready(fs) && fs.g.database <= s < fs.g.sectors && s != fs.winsect &&
             (fs.g.kind.EXFAT? ==> !Bitmap.InBits(fs.g, s))
    modifies fs`disk
    ensures Ready(fs) && fs.Fat() == old(fs.Fat()) && TableOf(fs) == old(TableOf(fs)) &&
            fs.disk == old(fs.disk)[s := data]
  {
    DataWriteIsSafe(fs.g, fs.disk, s, data, fs.Stale());
    ghost var v := fs.View();
    var ok := fs.DiskWrite(s, data);
    FatOfSame(fs.g, v, fs.View());
    if fs.g.kind.EXFAT? { BitsSame(fs.g, v, fs.View()); }
  }

  /** The disk after `k` sectors of a buffer were stored from `s` on. */
  ghost function Stored(d: seq<Sector>, s: nat, bytes: seq<byte>, k: nat): (r: seq<Sector>)
    requires s + k <= |d| && 512 * k <= |bytes|
    ensures |r| == |d|
  {
    if k == 0 then d else Stored(d, s, bytes, k - 1)[s + k - 1 := Piece(bytes, k - 1)]
  }

  lemma {:induction false} StoredAt(d: seq<Sector>, s: nat, bytes: seq<byte>, k: nat, x: nat)
    requires s + k <= |d| && 512 * k <= |bytes| && x < |d|
    ensures Stored(d, s, bytes, k)[x] == if s <= x < s + k then Piece(bytes, x - s) else d[x]
  {
    if k > 0 { StoredAt(d, s, bytes, k - 1, x); }
  }

  /** disk_write of consecutive data sectors. */
  method WriteSectors(fs: Volume, s: nat, cc: nat, bytes: seq<byte>)
    requires Ready(fs) && |bytes| == 512 * cc && fs.g.database <= s && s + cc <= fs.g.sectors &&
             |fs.disk| == fs.g.sectors
    requires !(s <= fs.winsect < s + cc)
    requires fs.g.kind.EXFAT? ==> forall x | s <= x < s + cc :: !Bitmap.InBits(fs.g, x)
    modifies fs`disk
    ensures Ready(fs) && fs.Fat() == old(fs.Fat()) && TableOf(fs) == old(TableOf(fs)) &&
            fs.disk == Stored(old(fs.disk), s, bytes, cc)
  {
    hide FatVolume.Volume.Valid, FatVolume.Volume.Fat, DataFits, Piece, TableOf, Bitmap.InBits, Bitmap.ExOk;
    var k := 0;
    while k < cc
      invariant 0 <= k <= cc && Ready(fs) && fs.Fat() == old(fs.Fat()) && TableOf(fs) == old(TableOf(fs)) &&
                fs.disk == Stored(old(fs.disk), s, bytes, k)
    {
      WriteSector(fs, s + k, Piece(bytes, k));
      k := k + 1;
    }
  }

  /** The same, sector by sector. */
  method WriteRange(fs: Volume, s: nat, cc: nat, bytes: seq<byte>)
    requires Ready(fs) && |bytes| == 512 * cc && fs.g.database <= s && s + cc <= fs.g.sectors &&
             |fs.disk| == fs.g.sectors
    requires !(s <= fs.winsect < s + cc)
    requires fs.g.kind.EXFAT? ==> forall x | s <= x < s + cc :: !Bitmap.InBits(fs.g, x)
    modifies fs`disk
    ensures Ready(fs) && fs.Fat() == old(fs.Fat()) && TableOf(fs) == old(TableOf(fs)) &&
            |fs.disk| == fs.g.sectors == |old(fs.disk)|
    ensures forall x | 0 <= x < |fs.disk| && !(s <= x < s + cc) :: fs.disk[x] == old(fs.disk)[x]
    ensures forall k | 0 <= k < cc :: fs.disk[s + k] == Piece(bytes, k)
  {
    hide Ready, TableOf, FatVolume.Volume.Fat, Piece, Stored, Bitmap.InBits;
    ghost var d := fs.disk;
    WriteSectors(fs, s, cc, bytes);
    forall x | 0 <= x < |d| ensures fs.disk[x] == if s <= x < s + cc then Piece(bytes, x - s)
      else d[x] { StoredAt(d, s, bytes, cc, x); }
  }

  /** disk_read of consecutive sectors. */
  method ReadSectors(fs: Volume, s: nat, cc: nat) returns (bytes: seq<byte>)
    requires s + cc <= |fs.disk|
    ensures |bytes| == 512 * cc
    ensures forall k | 0 <= k < cc :: Piece(bytes, k) == fs.disk[s + k]
  {
    bytes := [];
    var i := 0;
    while i < cc
      invariant 0 <= i <= cc && |bytes| == 512 * i
      invariant forall k | 0 <= k < i :: Piece(bytes, k) == fs.disk[s + k]
    {
      ghost var b := bytes;
      bytes := bytes + fs.disk[s + i];
      assert Piece(bytes, i) == fs.disk[s + i];
      forall k | 0 <= k < i ensures Piece(bytes, k) == Piece(b, k) {}
      i := i + 1;
    }
  }

  // ---------- metadata steps leave the data alone ----------

  ghost predicate WindowOff(fs: Volume, chain: seq<nat>)
    requires Placed(LayoutOf(fs.g), chain, fs.g.sectors)
    reads fs`winsect
  {
    forall q: nat | Ci(LayoutOf(fs.g), q) < |chain| :: Loc(LayoutOf(fs.g), chain, q) != fs.winsect
  }

  /** The views agree outside FATs and bitmap. */
  ghost predicate SameData(g: Geometry, v: seq<Sector>, w: seq<Sector>) {
    |v| == |w| && forall s | 0 <= s < |v| && !g.InFat(s) && !g.InMirror(s) && !(g.kind.EXFAT? && Bitmap.InBits(g, s)) ::
      v[s] == w[s]
  }

  /** Where the window may have gone. */
  predicate Settled(g: Geometry, was: nat, now: nat) {
    now == was || now == NO_SECTOR || g.InFat(now) || (g.kind.EXFAT? && Bitmap.InBits(g, now))
  }

  /**
   * Changes behind the window that stay within FAT and bitmap leave every data sector of a chain it is not on as it
   * was.
   */
  lemma MetaAvoidsData(g: Geometry, chain: seq<nat>, d: seq<Sector>, w: nat, win: Sector, d': seq<Sector>, w': nat,
      win': Sector)
    requires g.Ok() && |d| == |d'| == g.sectors && Placed(LayoutOf(g), chain, g.sectors) && Apart(g, chain)
    requires SameData(g, Overlay(d, w, win), Overlay(d', w', win')) && Settled(g, w, w')
    requires forall q: nat | Ci(LayoutOf(g), q) < |chain| :: Loc(LayoutOf(g), chain, q) != w
    ensures forall q: nat | Ci(LayoutOf(g), q) < |chain| :: Loc(LayoutOf(g), chain, q) != w'
    ensures AgreeOn(LayoutOf(g), chain, d, d')
  {
    hide Ci, Loc, Apart;
    forall q: nat | Ci(LayoutOf(g), q) < |chain|
      ensures Loc(LayoutOf(g), chain, q) != w' && Loc(LayoutOf(g), chain, q) < |d|
      ensures d'[Loc(LayoutOf(g), chain, q)] == d[Loc(LayoutOf(g), chain, q)]
    {
      LocApart(g, chain, q);
      var x := Loc(LayoutOf(g), chain, q);
      assert Overlay(d, w, win)[x] == Overlay(d', w', win')[x];
    }
  }

  // ---------- what a step on one object leaves to the others ----------

  /** What the volume's disk and window hold. */
  datatype Snap = Snap(disk: seq<Sector>, winsect: nat, win: seq<byte>)

  ghost function SnapOf(fs: Volume): Snap
    reads fs`disk, fs`winsect, fs.win
  {
    Snap(fs.disk, fs.winsect, fs.win[..])
  }

  ghost predicate SnapOk(g: Geometry, s: Snap) { g.Ok() && |s.disk| == g.sectors && |s.win| == 512 }

  ghost function Seen(s: Snap): (v: seq<Sector>)
    requires |s.win| == 512
    ensures |v| == |s.disk|
  {
    Overlay(s.disk, s.winsect, s.win)
  }

  predicate InCluster(g: Geometry, c: nat, x: nat)
    requires c >= 2
  {
    ClusterBase(LayoutOf(g), c) <= x < ClusterBase(LayoutOf(g), c) + g.csize
  }

  /** Sector `x` belongs to one of the clusters. */
  ghost predicate Own(g: Geometry, chain: seq<nat>, x: nat) {
    exists i | 0 <= i < |chain| :: chain[i] >= 2 && InCluster(g, chain[i], x)
  }

  predicate IsMeta(g: Geometry, x: nat) { g.InFat(x) || g.InMirror(x) || (g.kind.EXFAT? && Bitmap.InBits(g, x)) }

  /**
   * From `a` to `b` readers see changes only in metadata and in clusters of `own`, FAT entries change only for `own`,
   * and the window went to metadata at most.
   */
  ghost predicate Aside(g: Geometry, own: seq<nat>, a: Snap, b: Snap) {
    && SnapOk(g, a) && SnapOk(g, b) && Settled(g, a.winsect, b.winsect)
    && (forall x: nat | x < g.sectors && !IsMeta(g, x) && !Own(g, own, x) :: Seen(b)[x] == Seen(a)[x])
    && (forall c | 0 <= c < g.nFatent && c !in own :: FatOf(g, Seen(b))[c] == FatOf(g, Seen(a))[c])
  }

  lemma AsideRefl(g: Geometry, own: seq<nat>, a: Snap)
    requires SnapOk(g, a)
    ensures Aside(g, own, a, a)
  {
  }

  lemma OwnGrows(g: Geometry, own: seq<nat>, own': seq<nat>, x: nat)
    requires own <= own' && Own(g, own, x)
    ensures Own(g, own', x)
  {
    var i :| 0 <= i < |own| && own[i] >= 2 && InCluster(g, own[i], x);
    assert own'[i] == own[i];
  }

  lemma AsideTrans(g: Geometry, own: seq<nat>, own': seq<nat>, a: Snap, b: Snap, c: Snap)
    requires own <= own' && Aside(g, own, a, b) && Aside(g, own', b, c)
    ensures Aside(g, own', a, c)
  {
    hide Own, IsMeta, Seen;
    forall x: nat | x < g.sectors && !IsMeta(g, x) && !Own(g, own', x) ensures Seen(c)[x] == Seen(a)[x] {
      if Own(g, own, x) { OwnGrows(g, own, own', x); }
    }
    assert forall e | e in own :: e in own';
  }

  /** A step on FAT and bitmap. */
  lemma AsideMeta(g: Geometry, own: seq<nat>, a: Snap, b: Snap)
    requires SnapOk(g, a) && SnapOk(g, b) && SameData(g, Seen(a), Seen(b)) && Settled(g, a.winsect, b.winsect)
    requires forall c | 0 <= c < g.nFatent && c !in own :: FatOf(g, Seen(b))[c] == FatOf(g, Seen(a))[c]
    ensures Aside(g, own, a, b)
  {
  }

  /** Rewriting sectors of own clusters that the window is not on. */
  lemma AsideData(g: Geometry, own: seq<nat>, a: Snap, b: Snap)
    requires SnapOk(g, a) && SnapOk(g, b) && b.winsect == a.winsect && b.win == a.win
    requires forall x: nat | x < g.sectors && b.disk[x] != a.disk[x] :: Own(g, own, x) && x >= g.database
    ensures Aside(g, own, a, b)
  {
    hide Own;
    FatOfSame(g, Seen(a), Seen(b));
  }

  /** A file sector lies in the file's own clusters. */
  lemma OwnLoc(g: Geometry, chain: seq<nat>, q: nat)
    requires Placed(LayoutOf(g), chain, g.sectors) && Ci(LayoutOf(g), q) < |chain|
    ensures Own(g, chain, Loc(LayoutOf(g), chain, q)) && Loc(LayoutOf(g), chain, q) >= g.database
  {
    LocIn(LayoutOf(g), chain, g.sectors, q);
    assert InCluster(g, chain[Ci(LayoutOf(g), q)], Loc(LayoutOf(g), chain, q));
  }

  /** Clusters of a list are in use. */
  lemma ListUsed(g: Geometry, fat: seq<nat>, table: seq<nat>, o: LazyChain.Lazy, ch: seq<nat>, c: nat)
    requires Linked(g, fat, table, o, ch) && c in ch
    ensures c < |table| && table[c] != 0
  {
    if !g.kind.EXFAT? { ChainSpec.MemberIsUsed(fat, ch, c); }
  }

  // ---------- following and lengthening a chain ----------

  /** The size needs every cluster of the list, as exFAT objects require. */
  predicate Tight(l: Layout, n: nat, size: nat)
    requires l.csize > 0
  {
    if n == 0 then size == 0 else size > 0 && Ci(l, (size - 1) / 512) + 1 == n
  }

  lemma TightBound(l: Layout, n: nat, size: nat)
    requires l.csize > 0 && n > 0 && Tight(l, n, size)
    ensures size > 0 && Exfat.Clen(size, l.csize) == n - 1 && size / 512 / l.csize <= n
  {
    DivMono(size / 512, (size - 1) / 512 + 1, l.csize);
    var q := (size - 1) / 512;
    QuotRem(q, l.csize);
    QuotRem(q + 1, l.csize);
    if (q + 1) / l.csize >= n + 1 { MulMono(l.csize, n + 1, (q + 1) / l.csize); }
    assert l.csize * (n + 1) == l.csize * (n - 1) + 2 * l.csize;
  }

  lemma ViewsAgree(g: Geometry, v: seq<Sector>, w: seq<Sector>)
    ensures SameButMirror(g, v, w) ==> SameData(g, v, w)
    ensures SameButFats(g, v, w) ==> SameData(g, v, w)
    ensures g.kind.EXFAT? && Exfat.SameButMeta(g, v, w) ==> SameData(g, v, w)
  {
  }

  /** get_fat on an exFAT object's list. */
  method NextExfat(fs: Volume, obj: Exfat.ObjectId, c: u32, ghost chain: seq<nat>, ghost i: nat) returns (nxt: u32)
    requires Ready(fs) && fs.g.kind.EXFAT? && LazyChain.Rep(obj.Fields(), fs.Fat(), chain) &&
             fs.g.nFatent <= LazyChain.EOC
    requires i + 1 < |chain| && c == chain[i] && obj.nFrag == 0 && Tight(LayoutOf(fs.g), |chain|, obj.objsize)
    modifies fs`disk, fs`wflag, fs`mirror, fs`winsect, fs.win
    ensures Ready(fs) && fs.View() == old(fs.View()) && fs.Fat() == old(fs.Fat()) && nxt == chain[i + 1]
    ensures Bitmap.Parked(fs.g, old(fs.winsect), fs.winsect)
  {
    LazyChain.RepBounds(obj.Fields(), fs.Fat(), chain);
    TightBound(LayoutOf(fs.g), |chain|, obj.objsize);
    LengthBound(chain, fs.g.nFatent);
    Exfat.FollowsList(obj.Fields(), fs.Fat(), chain, i);
    hide FatVolume.Volume.View, FatVolume.Volume.Fat, FatVolume.Volume.Valid, LazyChain.Rep, Bitmap.ExOk, Bitmap.Parked;
    nxt := Exfat.GetFat(fs, obj, c);
  }

  /** Distinct clusters below `n` are at most `n`. */
  lemma LengthBound(chain: seq<nat>, n: nat)
    requires LazyChain.InRange(chain, n) && LazyChain.Distinct(chain)
    ensures |chain| <= n
  {
    DistinctFit(chain, Below(n));
  }

  /** What a step on one object's chain keeps. */
  ghost predicate Holds(fs: Volume, o: LazyChain.Lazy, chain: seq<nat>)
    reads fs`disk, fs`winsect, fs`wflag, fs`mirror, fs.win
  {
    && Ready(fs) && Linked(fs.g, fs.Fat(), TableOf(fs), o, chain)
    && Placed(LayoutOf(fs.g), chain, fs.g.sectors) && WindowOff(fs, chain)
  }

  lemma HoldsFacts(fs: Volume, o: LazyChain.Lazy, chain: seq<nat>)
    requires Holds(fs, o, chain)
    ensures fs.Valid() && fs.g.Ok() && |fs.disk| == fs.g.sectors && fs.win.Length == 512 && Apart(fs.g, chain)
    ensures fs.g.kind.EXFAT? ==>
            Bitmap.ExOk(fs.g) && TableOf(fs) == Bitmap.MarksNow(fs) && fs.g.nFatent <= LazyChain.EOC
    ensures fs.g.kind.EXFAT? && chain != [] ==>
            LazyChain.Rep(o, fs.Fat(), chain) && Exfat.AllUsed(Bitmap.MarksNow(fs), chain)
    ensures !fs.g.kind.EXFAT? ==>
            TableOf(fs) == fs.Fat() && ChainSpec.Sound(fs.Fat()) && (chain != [] ==> ChainSpec.Chain(fs.Fat(), chain))
  {
    LinkedRange(fs.g, fs.Fat(), TableOf(fs), o, chain);
  }

  /** get_fat at an element of an object's list, with no fragment pending. */
  method NextOn(fs: Volume, obj: Exfat.ObjectId, c: u32, ghost chain: seq<nat>, ghost i: nat) returns (nxt: u32)
    requires Holds(fs, obj.Fields(), chain) && i + 1 < |chain| && c == chain[i]
    requires fs.g.kind.EXFAT? ==> obj.nFrag == 0 && Tight(LayoutOf(fs.g), |chain|, obj.objsize)
    modifies fs`disk, fs`wflag, fs`mirror, fs`winsect, fs.win
    ensures Holds(fs, obj.Fields(), chain) && fs.Fat() == old(fs.Fat()) && TableOf(fs) == old(TableOf(fs))
    ensures |old(fs.disk)| == fs.g.sectors && AgreeOn(LayoutOf(fs.g), chain, old(fs.disk), fs.disk) &&
            nxt == chain[i + 1]
    ensures Aside(fs.g, chain, old(SnapOf(fs)), SnapOf(fs))
  {
    HoldsFacts(fs, obj.Fields(), chain);
    if !fs.g.kind.EXFAT? { assert fs.Fat()[c] == chain[i + 1] && 2 <= c < fs.g.nFatent; }
    hide Ci, Co, Loc, LazyChain.Rep, ChainSpec.Chain, Tight, Linked, Apart, FatVolume.Mirrored, Bitmap.ExOk, SameData,
      Aside;
    ghost var v := fs.View();
    if fs.g.kind.EXFAT? {
      nxt := NextExfat(fs, obj, c, chain, i);
    } else {
      nxt := fs.GetFat(c);
    }
    ViewsAgree(fs.g, v, fs.View());
    AsideMeta(fs.g, chain, old(SnapOf(fs)), SnapOf(fs));
    MetaAvoidsData(fs.g, chain, old(fs.disk), old(fs.winsect), old(fs.win[..]), fs.disk, fs.winsect, fs.win[..]);
  }

  /** The place to stretch is the end of the chain, or there is none yet. */
  ghost predicate AtEnd(chain: seq<nat>, c: nat, i: nat) { c == 0 || i + 1 == |chain| }

  /** Where clusters come from: the allocation table and the free count beside it. */
  datatype Pool = Pool(table: seq<nat>, free: nat)

  ghost function PoolOf(fs: Volume): (p: Pool)
    requires Ready(fs)
    reads fs`disk, fs`winsect, fs`wflag, fs`mirror, fs`freeClst, fs.win
  {
    Pool(TableOf(fs), fs.freeClst)
  }

  /** No cluster can be had. */
  ghost predicate Full(p: Pool) { p.free == 0 || ChainSpec.NoneFree(p.table) }

  /** A free cluster was taken behind the chain and counted; nothing else of the table changed outside it. */
  ghost predicate Taken(p: Pool, p': Pool, chain: seq<nat>, r: nat) {
    && |p'.table| == |p.table| && 2 <= r < |p.table| && p.table[r] == 0 && r !in chain
    && p.free > 0 && p'.free == Exfat.Charge(p.free, |p.table|)
    && forall c | 0 <= c < |p.table| && c !in chain && c != r :: p'.table[c] == p.table[c]
  }

  /** Outcome of create_chain at element `i` of an object's chain: followed, lengthened, or no cluster left. */
  ghost predicate Stretched(chain: seq<nat>, p: Pool, p': Pool, c: nat, i: nat, r: nat) {
    if !AtEnd(chain, c, i) then i + 1 < |chain| && r == chain[i + 1] && r != 0 && p' == p
    else if r == 0 then p' == p && Full(p)
    else Taken(p, p', chain, r)
  }

  ghost function Extended(chain: seq<nat>, c: nat, i: nat, r: nat): seq<nat> {
    if r != 0 && AtEnd(chain, c, i) then chain + [r] else chain
  }

  /** The object's fields once a first cluster is entered as its start. */
  ghost function Started(o: LazyChain.Lazy, c: nat, r: nat): LazyChain.Lazy {
    if c == 0 && r != 0 then o.(sclust := r) else o
  }

  /** create_chain on a FAT12/16/32 object's chain. */
  method StretchFat(fs: Volume, c: u32, ghost chain: seq<nat>, ghost i: nat) returns (r: u32)
    requires Ready(fs) && !fs.g.kind.EXFAT? && ChainSpec.Sound(fs.Fat())
    requires if c == 0 then chain == [] else ChainSpec.Chain(fs.Fat(), chain) && i < |chain| && c == chain[i]
    modifies fs, fs.win
    ensures Ready(fs) && SameData(fs.g, old(fs.View()), fs.View()) && Settled(fs.g, old(fs.winsect), fs.winsect)
    ensures Stretched(chain, Pool(old(fs.Fat()), old(fs.freeClst)), Pool(fs.Fat(), fs.freeClst), c, i, r)
    ensures r != 0 && AtEnd(chain, c, i) ==>
            fs.g.InFat(fs.winsect) && ChainSpec.Lengthened(old(fs.Fat()), fs.Fat(), chain, r)
  {
    ghost var a := FatChain.AllocOf(fs);
    ChainSpec.CreateOnChain(a, chain, c, i);
    hide ChainSpec.Create, ChainSpec.Chain, FatVolume.Volume.Fat, FatVolume.Mirrored, SameData;
    ghost var v := fs.View();
    r := FatChain.CreateChain(fs, c);
    ViewsAgree(fs.g, v, fs.View());
  }

  /** What create_chain reports about an exFAT object, in terms of its list. */
  lemma ExfatOutcome(g: Geometry, fat: seq<nat>, marks: seq<nat>, o: LazyChain.Lazy, fat': seq<nat>, marks': seq<nat>,
      o': LazyChain.Lazy,
                     free: nat, free': nat, chain: seq<nat>, c: nat, i: nat, r: nat)
    requires g.kind.EXFAT? && Linked(g, fat, marks, o, chain) && |fat'| == |marks'| == |fat|
    requires if c == 0 then chain == [] else i < |chain|
    requires !AtEnd(chain, c, i) ==> r == chain[i + 1]
    requires r == 0 || !AtEnd(chain, c, i) ==> fat' == fat && marks' == marks && o' == o && free' == free
    requires r != 0 && AtEnd(chain, c, i) ==> free > 0 && |marks| >= 2 && free' == Exfat.Charge(free, |marks|)
    requires r == 0 ==> free == 0 || ChainSpec.NoneFree(marks)
    requires r != 0 && AtEnd(chain, c, i) ==>
             Exfat.Stretched(o', marks, fat, marks', fat', chain, r) && (c == 0 ==> o'.nFrag == o.nFrag)
    ensures Stretched(chain, Pool(marks, free), Pool(marks', free'), c, i, r)
    ensures Linked(g, fat', marks', Started(o', c, r), Extended(chain, c, i, r))
  {
    hide LazyChain.Rep, ChainSpec.NoneFree;
    LinkedRange(g, fat, marks, o, chain);
    if r != 0 && AtEnd(chain, c, i) {
      MarksGrow(g, marks, chain, r);
      if chain == [] {
        LazyChain.NewChainRep(fat', r, o'.nCont);
        assert chain + [r] == [r];
      }
    }
  }

  /** Marking a free cluster keeps the bitmap's own clusters marked, and the cluster is none of them. */
  lemma MarksGrow(g: Geometry, marks: seq<nat>, chain: seq<nat>, r: nat)
    requires 2 <= r < |marks| && marks[r] == 0 && g.kind.EXFAT? && Exfat.AllUsed(marks, chain) && Apart(g, chain)
    requires forall c | 2 <= c < |marks| && HitsBits(g, c) :: marks[c] != 0
    ensures r !in chain && Exfat.AllUsed(marks[r := 2], chain + [r]) && Apart(g, chain + [r])
    ensures forall c | 2 <= c < |marks| && HitsBits(g, c) :: marks[r := 2][c] != 0
  {
    hide HitsBits;
    assert !HitsBits(g, r);
  }

  /** create_chain on an exFAT object's list. */
  method StretchExfat(fs: Volume, obj: Exfat.ObjectId, c: u32, ghost chain: seq<nat>, ghost i: nat) returns (r: u32)
    requires Holds(fs, obj.Fields(), chain) && fs.g.kind.EXFAT?
    requires if c == 0 then chain == [] else i < |chain| && c == chain[i]
    requires Tight(LayoutOf(fs.g), |chain|, obj.objsize) && (obj.nFrag != 0 ==> i + 1 == |chain|)
    modifies fs, fs.win, obj
    ensures Ready(fs) && SameData(fs.g, old(fs.View()), fs.View()) && Settled(fs.g, old(fs.winsect), fs.winsect)
    ensures obj.objsize == old(obj.objsize) && obj.sclust == old(obj.sclust)
    ensures Stretched(chain, old(PoolOf(fs)), PoolOf(fs), c, i, r)
    ensures Linked(fs.g, fs.Fat(), TableOf(fs), Started(obj.Fields(), c, r), Extended(chain, c, i, r))
    ensures r == 0 || !AtEnd(chain, c, i) ==> obj.Fields() == old(obj.Fields())
    ensures r != 0 && AtEnd(chain, c, i) ==> Exfat.OnMeta(fs.g, fs.winsect)
    ensures forall e | 0 <= e < fs.g.nFatent && e !in chain :: fs.Fat()[e] == old(fs.Fat())[e]
  {
    HoldsFacts(fs, obj.Fields(), chain);
    if c != 0 {
      TightBound(LayoutOf(fs.g), |chain|, obj.objsize);
      LazyChain.RepBounds(obj.Fields(), fs.Fat(), chain);
      LengthBound(chain, fs.g.nFatent);
    } else {
      EmptySize(LayoutOf(fs.g), obj.objsize);
    }
    hide Ci, Co, Loc, LazyChain.Rep, Tight, Linked, FatVolume.Volume.Valid, FatVolume.Volume.View, FatVolume.Volume.Fat,
      Bitmap.ExOk, SameData, Exfat.Stretched, Stretched, Bitmap.MarksNow, ChainSpec.NoneFree, Started, Extended, Apart;
    ghost var v, o, fat, marks := fs.View(), obj.Fields(), fs.Fat(), TableOf(fs);
    r := Exfat.CreateChain(fs, obj, c, chain, i);
    ExfatOutcome(fs.g, fat, marks, o, fs.Fat(), TableOf(fs), obj.Fields(), old(fs.freeClst), fs.freeClst, chain, c, i,
      r);
    StretchedFrame(fat, fs.Fat(), marks, TableOf(fs), obj.Fields(), chain, r);
    ViewsAgree(fs.g, v, fs.View());
  }

  lemma StretchedFrame(fat: seq<nat>, fat': seq<nat>, marks: seq<nat>, marks': seq<nat>, o': LazyChain.Lazy,
      chain: seq<nat>, r: nat)
    requires |marks| == |fat| == |fat'|
    ensures Exfat.Stretched(o', marks, fat, marks', fat', chain, r) ==> forall e | 0 <= e < |fat| && e !in chain ::
            fat'[e] == fat[e]
  {
  }

  lemma EmptySize(l: Layout, size: nat)
    requires l.csize > 0
    ensures Tight(l, 0, size) ==> size == 0 && size / 512 / l.csize == 0
  {
  }

  /** With the window on FAT or bitmap, a list of clusters that avoid the bitmap is clear of it. */
  lemma ClearOfWindow(fs: Volume, o: LazyChain.Lazy, chain: seq<nat>)
    requires Ready(fs) && Linked(fs.g, fs.Fat(), TableOf(fs), o, chain)
    ensures Placed(LayoutOf(fs.g), chain, fs.g.sectors)
    ensures fs.g.InFat(fs.winsect) || (fs.g.kind.EXFAT? && Bitmap.InBits(fs.g, fs.winsect)) ==> WindowOff(fs, chain)
  {
    LinkedRange(fs.g, fs.Fat(), TableOf(fs), o, chain);
    ChainIsPlaced(fs.g, |fs.Fat()|, chain);
    hide Ci, Co, Loc, Linked, Apart;
    forall q: nat | Ci(LayoutOf(fs.g), q) < |chain|
      ensures fs.g.InFat(fs.winsect) || (fs.g.kind.EXFAT? && Bitmap.InBits(fs.g, fs.winsect)) ==>
              Loc(LayoutOf(fs.g), chain, q) != fs.winsect
    {
      LocApart(fs.g, chain, q);
    }
  }

  lemma FatOutcome(g: Geometry, p: Pool, p': Pool, o: LazyChain.Lazy, chain: seq<nat>, c: nat, i: nat, r: nat)
    requires !g.kind.EXFAT? && Linked(g, p.table, p.table, o, chain) && Stretched(chain, p, p', c, i, r) &&
             (c == 0 ==> chain == [])
    requires r != 0 && AtEnd(chain, c, i) ==> ChainSpec.Lengthened(p.table, p'.table, chain, r)
    ensures Linked(g, p'.table, p'.table, Started(o, c, r), Extended(chain, c, i, r))
  {
  }

  /** create_chain on an object's own chain: steps along it, or lengthens it by one free cluster. */
  method StretchOn(fs: Volume, obj: Exfat.ObjectId, c: u32, ghost chain: seq<nat>, ghost i: nat) returns (r: u32)
    requires Holds(fs, obj.Fields(), chain) && if c == 0 then chain == [] else i < |chain| && c == chain[i]
    requires fs.g.kind.EXFAT? ==> Tight(LayoutOf(fs.g), |chain|, obj.objsize) && (obj.nFrag != 0 ==> i + 1 == |chain|)
    modifies fs, fs.win, obj
    ensures Holds(fs, Started(obj.Fields(), c, r), Extended(chain, c, i, r))
    ensures Stretched(chain, old(PoolOf(fs)), PoolOf(fs), c, i, r)
    ensures |old(fs.disk)| == fs.g.sectors && AgreeOn(LayoutOf(fs.g), chain, old(fs.disk), fs.disk)
    ensures obj.objsize == old(obj.objsize) && obj.sclust == old(obj.sclust)
    ensures r == 0 || !AtEnd(chain, c, i) ==> obj.Fields() == old(obj.Fields())
    ensures Aside(fs.g, Extended(chain, c, i, r), old(SnapOf(fs)), SnapOf(fs))
  {
    HoldsFacts(fs, obj.Fields(), chain);
    hide Ci, Co, Loc, LazyChain.Rep, ChainSpec.Chain, Tight, Linked, Apart, FatVolume.Volume.Fat, FatVolume.Mirrored,
      Bitmap.ExOk, SameData, Stretched, Started,
      ChainSpec.Lengthened, TableOf, Aside, Extended;
    ghost var v, o, p := fs.View(), obj.Fields(), PoolOf(fs);
    TableIs(fs);
    FatsOf(fs);
    if fs.g.kind.EXFAT? {
      r := StretchExfat(fs, obj, c, chain, i);
    } else {
      r := StretchFat(fs, c, chain, i);
      TableIs(fs);
      FatOutcome(fs.g, p, PoolOf(fs), o, chain, c, i, r);
      FatFrame(p, PoolOf(fs), chain, c, i, r);
    }
    InExtended(chain, c, i, r);
    FatsOf(fs);
    AsideMeta(fs.g, Extended(chain, c, i, r), old(SnapOf(fs)), SnapOf(fs));
    MetaAvoidsData(fs.g, chain, old(fs.disk), old(fs.winsect), old(fs.win[..]), fs.disk, fs.winsect, fs.win[..]);
    ClearOfWindow(fs, Started(obj.Fields(), c, r), Extended(chain, c, i, r));
  }

  lemma InExtended(chain: seq<nat>, c: nat, i: nat, r: nat)
    ensures chain <= Extended(chain, c, i, r) && forall e | e in chain :: e in Extended(chain, c, i, r)
  {
    if r != 0 && AtEnd(chain, c, i) { assert (chain + [r])[..|chain|] == chain; }
  }

  lemma FatFrame(p: Pool, p': Pool, chain: seq<nat>, c: nat, i: nat, r: nat)
    requires Stretched(chain, p, p', c, i, r)
    ensures |p'.table| == |p.table| && forall e | 0 <= e < |p.table| && e !in Extended(chain, c, i, r) ::
            p'.table[e] == p.table[e]
  {
  }

  lemma FatsOf(fs: Volume)
    requires fs.Valid()
    ensures fs.Fat() == FatOf(fs.g, fs.View()) && fs.View() == Seen(SnapOf(fs))
  {
  }

  lemma TableIs(fs: Volume)
    requires Ready(fs)
    ensures !fs.g.kind.EXFAT? ==> TableOf(fs) == fs.Fat()
    ensures fs.g.kind.EXFAT? ==> Bitmap.ExOk(fs.g) && TableOf(fs) == Bitmap.MarksNow(fs)
  {
  }

  /** fill_last_frag before a seek: nothing is pending afterwards. */
  method FlushOn(fs: Volume, obj: Exfat.ObjectId, lcl: u32, ghost chain: seq<nat>)
    requires Holds(fs, obj.Fields(), chain) &&
             (fs.g.kind.EXFAT? && obj.nFrag != 0 ==> chain != [] && lcl == chain[|chain| - 1])
    modifies fs`disk, fs`wflag, fs`mirror, fs`winsect, fs.win, obj`nFrag
    ensures Holds(fs, obj.Fields(), chain) && TableOf(fs) == old(TableOf(fs)) && (fs.g.kind.EXFAT? ==> obj.nFrag == 0)
    ensures |old(fs.disk)| == fs.g.sectors && AgreeOn(LayoutOf(fs.g), chain, old(fs.disk), fs.disk)
    ensures Aside(fs.g, chain, old(SnapOf(fs)), SnapOf(fs))
  {
    hide Ci, Co, Loc, LazyChain.Rep, Apart, Linked, SameData, FatVolume.Volume.Fat, FatVolume.Mirrored, Bitmap.ExOk,
      Bitmap.MarksOf, LazyChain.FillLast, ChainSpec.Chain, ChainSpec.Sound, Aside;
    HoldsFacts(fs, obj.Fields(), chain);
    ghost var v, o, fat := fs.View(), obj.Fields(), fs.Fat();
    FatsOf(fs);
    SameViews(fs.g, v);
    if fs.g.kind.EXFAT? && obj.nFrag != 0 {
      LazyChain.FlushKeepsRep(o, fat, chain);
      var res := Exfat.FillLastFrag(fs, obj, lcl, 0xFFFF_FFFF);
      LinkedFlushed(fs.g, fat, fs.Fat(), TableOf(fs), o, obj.Fields(), chain);
      ViewsAgree(fs.g, v, fs.View());
    }
    FatsOf(fs);
    AsideMeta(fs.g, chain, old(SnapOf(fs)), SnapOf(fs));
    MetaAvoidsData(fs.g, chain, old(fs.disk), old(fs.winsect), old(fs.win[..]), fs.disk, fs.winsect, fs.win[..]);
  }

  lemma LinkedFlushed(g: Geometry, fat: seq<nat>, fat': seq<nat>, table: seq<nat>, o: LazyChain.Lazy,
      o': LazyChain.Lazy, chain: seq<nat>)
    requires g.kind.EXFAT? && Linked(g, fat, table, o, chain) && |fat'| == |fat| && chain != [] &&
             LazyChain.Rep(o', fat', chain)
    ensures Linked(g, fat', table, o', chain)
  {
  }

  lemma SameViews(g: Geometry, v: seq<Sector>)
    ensures SameData(g, v, v)
  {
  }
}
