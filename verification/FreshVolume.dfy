/**
 * f_mkfs, then mount_volume, on one disk: a fresh FAT volume is a valid start for every run of create_chain and
 * remove_chain.
 */
module FreshVolume {
  import opened Bytes
  import opened FatTable
  import opened FatVolume
  import opened FatChain
  import opened Mkfs
  import ChainSpec

  function Zero(): Sector { seq(512, _ => 0) }

  // ---------- the FATs ----------

  /** The first sector of a FAT: the reserved entries and, on FAT32, the root directory's. */
  function Head(kind: Kind): Sector {
    FreshFat(kind, 1)
  }

  /** Sector `k` of a fresh FAT. */
  function FreshSector(kind: Kind, k: nat): Sector { if k == 0 then Head(kind) else Zero() }

  /** `n` sectors from `sect` on written from a buffer that is zero behind its first sector. */
  function Filled(disk: seq<Sector>, sect: nat, n: nat, first: Sector): (d: seq<Sector>)
    requires 0 < n && sect + n <= |disk|
    ensures |d| == |disk|
    ensures forall s | 0 <= s < |disk| :: d[s] == if s == sect then first else if sect < s < sect + n then Zero()
            else disk[s]
  {
    disk[..sect] + [first] + seq(n - 1, _ => Zero()) + disk[sect + n..]
  }

  /** The loop that writes one FAT, up to `szBuf` sectors at a time. */
  method WriteFat(disk0: seq<Sector>, base: nat, fsize: nat, kind: Kind, szBuf: nat) returns (disk: seq<Sector>)
    requires 0 < fsize && 0 < szBuf && base + fsize <= |disk0|
    ensures |disk| == |disk0|
    ensures forall s | 0 <= s < |disk| :: disk[s] == if base <= s < base + fsize then FreshSector(kind, s - base)
            else disk0[s]
  {
    disk := disk0;
    var first, sect, nsect := Head(kind), base, fsize;
    while nsect > 0
      invariant 0 <= nsect <= fsize && sect == base + fsize - nsect && |disk| == |disk0| &&
                first == FreshSector(kind, sect - base)
      invariant forall s | 0 <= s < |disk| :: disk[s] == if base <= s < sect then FreshSector(kind, s - base)
                else disk0[s]
    {
      var n := if nsect > szBuf then szBuf else nsect;
      disk := Filled(disk, sect, n, first);
      first, sect, nsect := Zero(), sect + n, nsect - n;
    }
  }

  /** Both FATs of a volume, or its only one. */
  method WriteFats(disk0: seq<Sector>, g: Geometry, szBuf: nat) returns (disk: seq<Sector>)
    requires g.Ok() && |disk0| == g.sectors && 0 < szBuf
    ensures |disk| == |disk0| && forall s: nat | g.InFat(s) :: disk[s] == FreshSector(g.kind, s - g.fatbase)
    ensures g.nFats == 2 ==> forall s: nat | g.InFat(s) :: disk[s + g.fsize] == disk[s]
    ensures forall s: nat | s < |disk| && !g.InFat(s) && !g.InMirror(s) :: disk[s] == disk0[s]
  {
    disk := WriteFat(disk0, g.fatbase, g.fsize, g.kind, szBuf);
    if g.nFats == 2 {
      disk := WriteFat(disk, g.fatbase + g.fsize, g.fsize, g.kind, szBuf);
    }
  }

  /** The sectors written are the fresh FAT as one byte string. */
  lemma FreshBytes(g: Geometry, v: seq<Sector>)
    requires g.Ok() && |v| == g.sectors && forall s: nat | g.InFat(s) :: v[s] == FreshSector(g.kind, s - g.fatbase)
    ensures FatBytes(g, v) == FreshFat(g.kind, g.fsize)
  {
    var ss := v[g.fatbase..g.fatbase + g.fsize];
    forall k | 0 <= k < 512 * g.fsize
      ensures Flat(ss)[k] == FreshFat(g.kind, g.fsize)[k]
    {
      FlatAt(ss, k);
      assert ss[k / 512] == v[g.fatbase + k / 512] && g.InFat(g.fatbase + k / 512);
    }
  }

  // ---------- FSINFO ----------

  /** The FSINFO sector f_mkfs writes. */
  function FsInfo(free: u32, next: u32): (s: Sector)
    ensures s[0..4] == [0x52, 0x52, 0x61, 0x41] && s[484..488] == [0x72, 0x72, 0x41, 0x61] && s[510..] == [0x55, 0xAA]
    ensures s[488..492] == [Byte0(free), Byte1(free), Byte2(free), Byte3(free)]
    ensures s[492..496] == [Byte0(next), Byte1(next), Byte2(next), Byte3(next)]
  {
    var a := StoreDword(Zero(), 0, 0x4161_5252);
    var b := StoreDword(a, 484, 0x6141_7272);
    var c := StoreDword(b, 488, free);
    var d := StoreDword(c, 492, next);
    d[510 := 0x55][511 := 0xAA]
  }

  /** Free count and hint as mount_volume takes them from FSINFO; unknown if the signatures are missing. */
  function LoadFsInfo(s: Sector): (u32, u32) {
    if LdWord(s[510], s[511]) == 0xAA55 && LdDword(s[0], s[1], s[2], s[3]) == 0x4161_5252
       && LdDword(s[484], s[485], s[486], s[487]) == 0x6141_7272
    then (LdDword(s[488], s[489], s[490], s[491]), LdDword(s[492], s[493], s[494], s[495]))
    else (0xFFFF_FFFF, 0xFFFF_FFFF)
  }

  lemma FsInfoLoads(free: u32, next: u32)
    ensures LoadFsInfo(FsInfo(free, next)) == (free, next)
  {
    hide Byte0, Byte1, Byte2, Byte3, LdDword;
    StoreLoadDword(0x4161_5252);
    StoreLoadDword(0x6141_7272);
    StoreLoadDword(free);
    StoreLoadDword(next);
    assert LdWord(0x55, 0xAA) == 0xAA55;
  }

  // ---------- format and mount ----------

  /** The chains of a fresh volume: the root directory's on FAT32, none otherwise. */
  function Roots(kind: Kind): seq<seq<nat>> { if kind.FAT32? then [[2]] else [] }

  /**
   * What formatting leaves on the disk: boot record, FSINFO on FAT32, and the FATs; nothing outside the volume's system
   * area changes.
   */
  method WriteSystem(disk0: seq<Sector>, g: Geometry, bVol: nat, vbr: Sector, szBuf: nat) returns (disk: seq<Sector>)
    requires g.Ok() && |disk0| == g.sectors && 0 < szBuf && bVol < g.fatbase &&
             (g.kind.FAT32? ==> bVol + 8 <= g.fatbase)
    ensures |disk| == |disk0| && forall s: nat | g.InFat(s) :: disk[s] == FreshSector(g.kind, s - g.fatbase)
    ensures g.nFats == 2 ==> forall s: nat | g.InFat(s) :: disk[s + g.fsize] == disk[s]
    ensures g.kind.FAT32? ==> disk[bVol + 1] == FsInfo(g.nFatent - 3, 2)
    ensures forall s: nat | s < |disk| && !(bVol <= s < g.FatEnd()) :: disk[s] == disk0[s]
  {
    hide FsInfo;
    disk := disk0[bVol := vbr];
    if g.kind.FAT32? {
      var info := FsInfo(g.nFatent - 3, 2);
      disk := disk[bVol + 6 := vbr][bVol + 7 := info][bVol + 1 := info];
    }
    disk := WriteFats(disk, g, szBuf);
  }

  /** mount_volume from the recognised layout on: an empty window, then free count and hint from FSINFO on FAT32. */
  method MountFresh(g: Geometry, bVol: nat, disk: seq<Sector>) returns (fs: Volume)
    requires g.Ok() && |disk| == g.sectors && !g.kind.EXFAT? && (g.kind.FAT32? ==> bVol + 1 < g.fatbase)
    requires forall s: nat | g.InFat(s) :: disk[s] == FreshSector(g.kind, s - g.fatbase)
    requires g.nFats == 2 ==> forall s: nat | g.InFat(s) :: disk[s + g.fsize] == disk[s]
    requires g.kind.FAT32? ==> disk[bVol + 1] == FsInfo(g.nFatent - 3, 2)
    ensures fresh(fs) && fresh(fs.win) && fs.Valid() && fs.reliable && fs.g == g
    ensures ChainSpec.World(AllocOf(fs), Roots(g.kind)).Inv() && Lost(fs.mirror) == {}
  {
    hide FreshFat, FsInfo, LoadFsInfo, ChainSpec.Forest;
    fs := new Volume(g, disk, true);
    forall s: int ensures !(g.nFats == 2 && Differs(g, disk, s)) {
      assert g.nFats == 2 && g.fatbase <= s < g.fatbase + g.fsize ==> g.InFat(s);
    }
    ghost var t := fs.mirror;
    assert forall s: int :: s !in t.initial;
    assert Lost(t) == t.initial == {};
    if g.kind.FAT32? {
      var res := fs.MoveWindow(bVol + 1);
      InfoShows(fs, disk, bVol);
      FsInfoLoads(g.nFatent - 3, 2);
      var info := LoadFsInfo(fs.win[..]);
      fs.freeClst, fs.lastClst := info.0, info.1;
    }
    ExtendsShrinks(t, fs.mirror);
    FreshShows(fs);
  }

  lemma InfoShows(fs: Volume, disk: seq<Sector>, bVol: nat)
    requires fs.Valid() && |disk| == fs.g.sectors && SameButMirror(fs.g, disk, fs.View()) && bVol + 1 < fs.g.fatbase &&
             fs.winsect == bVol + 1
    ensures fs.win[..] == disk[bVol + 1]
  {
  }

  /** A volume that shows a fresh FAT with the counters of a fresh mount meets the invariant of all runs. */
  lemma FreshShows(fs: Volume)
    requires fs.Valid() && !fs.g.kind.EXFAT? && forall s: nat | fs.g.InFat(s) ::
             fs.View()[s] == FreshSector(fs.g.kind, s - fs.g.fatbase)
    requires fs.freeClst == if fs.g.kind.FAT32? then fs.g.nFatent - 3 else 0xFFFF_FFFF
    requires fs.lastClst == if fs.g.kind.FAT32? then 2 else 0xFFFF_FFFF
    ensures ChainSpec.World(AllocOf(fs), Roots(fs.g.kind)).Inv()
  {
    hide FatVolume.Volume.View, FreshFat, ChainSpec.Forest, FreshSector;
    FreshBytes(fs.g, fs.View());
    TableFits(fs.g, FatBytes(fs.g, fs.View()));
    FreshInv(fs.g.kind, fs.g.fsize, fs.g.nFatent);
  }

  /**
   * f_mkfs with any options, then a mount. Either nothing is there to mount, or the mounted volume has the intended
   * layout, both
   * FATs agree, and its allocator meets the invariant that every run of create_chain and remove_chain keeps.
   */
  method FormatAndMount(disk0: seq<Sector>, bVol: nat, szVol: nat, align: nat, nFat: nat, nRoot: nat, mayFat32: bool,
      want32: bool,
                        auSize: nat, vbr: Sector, szBuf: nat) returns (r: Outcome, mounted: bool, fs: Volume?)
    requires 128 <= szVol && bVol + szVol <= |disk0| < 0xFFFF_FFFF && 0 < szBuf
    ensures var o := Normalised(bVol, szVol, align, nFat, nRoot, mayFat32);
            var t := LastTry(Try(if want32 then FAT32 else FAT16, AuSectors(auSize)), o);
            && r == Attempt(t.kind, t.au, o) && (r.Accept? ==> Mounts(r, t, o))
            && (mounted <==> r.Accept? && !NothingLeft(t, o))
            && (mounted ==> fs != null && fs.g == GeometryOf(Intended(r.d, r.pau, o), |disk0|))
    ensures mounted ==>
            fs != null && fresh(fs) && fs.Valid() && fs.reliable && !fs.g.kind.EXFAT? && Lost(fs.mirror) == {}
    ensures mounted ==> ChainSpec.World(AllocOf(fs), Roots(fs.g.kind)).Inv()
  {
    hide Mkfs.Attempt, Mkfs.Record, Mkfs.Recognised, Mkfs.Mount, ChainSpec.Forest, FsInfo, PowerOf2, AuSectors,
      NothingLeft, Laid, Mounts;
    var o := Normalised(bVol, szVol, align, nFat, nRoot, mayFat32);
    var t0 := Try(if want32 then FAT32 else FAT16, AuSectors(auSize));
    r := Format(t0.kind, t0.au, o);
    mounted, fs := false, null;
    ghost var t := LastTry(t0, o);
    if r.Accept? {
      EmptyIff(t, o);
      AcceptedLaid(t.kind, t.au, o);
      if r.d.clusters > 0 {
        var g := GeometryOf(Intended(r.d, r.pau, o), |disk0|);
        FormattedGeometry(r.d, r.pau, o, |disk0|);
        Reserved(t, o);
        var disk := WriteSystem(disk0, g, bVol, vbr, szBuf);
        fs := MountFresh(g, bVol, disk);
        mounted := true;
      }
    }
  }
}
