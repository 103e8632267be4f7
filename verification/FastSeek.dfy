/** f_lseek in fast seek mode: the link map of an open file, and seeking by it. */
module FastSeek {
  import opened Bytes
  import opened FatTable
  import opened FatVolume
  import opened FileData
  import opened FileSpace
  import opened FileAccess
  import opened LinkMap
  import Exfat
  import LazyChain
  import ChainSpec
  import Bitmap
  import Arith

  /** A file with nothing pending is a list CREATE_LINKMAP can walk. */
  lemma FileListed(f: File)
    requires f.Valid() && f.chain != [] && f.obj.objsize == f.objsize && (f.fs.g.kind.EXFAT? ==> f.obj.nFrag == 0)
    ensures Listed(f.fs, f.obj, f.chain) && f.sclust == f.chain[0] && f.sclust != 0
  {
    hide LazyChain.Rep, ChainSpec.Chain, Tight, Ci;
    HoldsFacts(f.fs, f.obj.Fields(), f.chain);
    f.SaneBasics();
    if f.fs.g.kind.EXFAT? {
      TightBound(f.L(), |f.chain|, f.objsize);
      LazyChain.RepBounds(f.obj.Fields(), f.fs.Fat(), f.chain);
      LengthBound(f.chain, f.fs.g.nFatent);
    }
  }

  /** CREATE_LINKMAP on an object's list: only the window moves. */
  method MapOn(fs: Volume, obj: Exfat.ObjectId, sclust: u32, tbl: array<nat>, ghost chain: seq<nat>)
      returns (res: Mapped)
    requires Holds(fs, obj.Fields(), chain) && 1 <= tbl.Length && tbl[0] <= tbl.Length
    requires if sclust == 0 then chain == [] else Listed(fs, obj, chain) && chain != [] && sclust == chain[0]
    modifies fs`disk, fs`wflag, fs`mirror, fs`winsect, fs.win, tbl
    ensures Holds(fs, obj.Fields(), chain) && TableOf(fs) == old(TableOf(fs))
    ensures |old(fs.disk)| == fs.g.sectors && AgreeOn(LayoutOf(fs.g), chain, old(fs.disk), fs.disk)
    ensures res != DiskErr && (res == IntErr <==> chain != [] && Listed(fs, obj, chain) && Misleads(fs, obj, chain))
    ensures res == Done || res == TooSmall ==>
            tbl[0] == 2 + 2 * Fragments(chain) && (res == Done <==> tbl[0] <= old(tbl[0]))
    ensures res == Done ==> Built(tbl[..], chain)
  {
    hide Ci, Co, Loc, Apart, Linked, SameData, Listed, Misleads, Built, Fragments, FatVolume.Volume.Fat,
      FatVolume.Mirrored, Bitmap.ExOk, Bitmap.MarksOf;
    HoldsFacts(fs, obj.Fields(), chain);
    ghost var v := fs.View();
    res := CreateLinkMap(fs, obj, sclust, tbl, chain);
    ViewsAgree(fs.g, v, fs.View());
    SameTable(fs, v);
    MetaAvoidsData(fs.g, chain, old(fs.disk), old(fs.winsect), old(fs.win[..]), fs.disk, fs.winsect, fs.win[..]);
  }

  /** On exFAT there is no mirror, so a view that differs only there is the same. */
  lemma SameTable(fs: Volume, v: seq<Sector>)
    requires Ready(fs) && |v| == fs.g.sectors && SameButMirror(fs.g, v, fs.View())
    ensures fs.g.kind.EXFAT? ==> fs.View() == v
  {
  }

  /** The same for an open file whose object is in step with it. */
  method MapFile(f: File, tbl: array<nat>) returns (res: Mapped)
    requires f.Valid() && 1 <= tbl.Length && tbl[0] <= tbl.Length
    requires f.obj.objsize == f.objsize && (f.fs.g.kind.EXFAT? ==> f.obj.nFrag == 0)
    modifies tbl, f.fs`disk, f.fs`wflag, f.fs`mirror, f.fs`winsect, f.fs.win
    ensures f.Valid() && f.Text() == old(f.Text()) && f.Table() == old(f.Table())
    ensures res != DiskErr && (res == IntErr <==>
            f.chain != [] && Listed(f.fs, f.obj, f.chain) && Misleads(f.fs, f.obj, f.chain))
    ensures res == Done || res == TooSmall ==>
            tbl[0] == 2 + 2 * Fragments(f.chain) && (res == Done <==> tbl[0] <= old(tbl[0]))
    ensures res == Done ==> Built(tbl[..], f.chain)
  {
    hide Ci, Co, Loc, Room, Holds, TableOf, Content, Tight, Listed, Misleads, Built, Fragments;
    if f.chain != [] { FileListed(f); }
    f.SaneBasics();
    f.SaneParts();
    ghost var d, w := f.Disk(), f.fs.disk;
    res := MapOn(f.fs, f.obj, f.sclust, tbl, f.chain);
    HoldsPlaced(f.fs, f.obj.Fields(), f.chain);
    EffectiveAgrees(f.fs.g, f.chain, w, f.fs.disk, f.dirty, f.sect, f.buf[..]);
    ContentSame(f.L(), d, f.Disk(), f.chain, f.objsize);
  }

  /** f_lseek(CREATE_LINKMAP): the table encodes the file's clusters; the file does not change. */
  method MakeLinkMap(f: File, tbl: array<nat>) returns (res: Mapped)
    requires f.Valid() && 1 <= tbl.Length && tbl[0] <= tbl.Length
    modifies tbl, f.fs`disk, f.fs`wflag, f.fs`mirror, f.fs`winsect, f.fs.win, f.obj`nFrag, f.obj`objsize
    ensures f.Valid() && f.Text() == old(f.Text()) && f.Table() == old(f.Table())
    ensures res != DiskErr && (res == IntErr <==>
            f.chain != [] && Listed(f.fs, f.obj, f.chain) && Misleads(f.fs, f.obj, f.chain))
    ensures res == Done || res == TooSmall ==>
            tbl[0] == 2 + 2 * Fragments(f.chain) && (res == Done <==> tbl[0] <= old(tbl[0]))
    ensures res == Done ==> Built(tbl[..], f.chain)
  {
    hide FileAccess.File.Sane, FileAccess.File.Text, FileAccess.File.Table, FileAccess.File.Tidy,
      FileAccess.File.Cursor, Listed, Misleads, Built, Fragments;
    f.FlushFragment();
    f.obj.objsize := f.objsize;
    res := MapFile(f, tbl);
  }

  /** Cluster and sector of the byte before `ofs`, as the map and clst2sect give them. */
  lemma FastPlace(f: File, ofs: nat)
    requires f.Valid() && 0 < ofs <= f.objsize
    ensures var q := (ofs - 1) / 512;
            && Ci(f.L(), q) < |f.chain| && Ci(f.L(), q) == q / f.fs.g.csize && Co(f.L(), q) == q % f.fs.g.csize
            && Loc(f.L(), f.chain, q) == ClusterBase(f.L(), f.chain[Ci(f.L(), q)]) + Co(f.L(), q)
            && f.chain[Ci(f.L(), q)] >= 2
            && Loc(f.L(), f.chain, q) < 0xFFFF_FFFF && f.chain[Ci(f.L(), q)] < 0x1_0000_0000
            && (ofs % 512 != 0 ==> ofs / 512 == q)
  {
    f.SaneParts();
    RoomFor(f.L(), |f.chain|, f.objsize, ofs - 1);
    LocIn(f.L(), f.chain, f.fs.g.sectors, (ofs - 1) / 512);
    f.SaneBasics();
    LinkedRange(f.fs.g, f.fs.Fat(), TableOf(f.fs), f.obj.Fields(), f.chain);
  }

  /** With nothing pending, any place of the cursor is tidy. */
  lemma AnyTidy(f: File)
    requires f.Valid() && (f.fs.g.kind.EXFAT? ==> f.obj.nFrag == 0)
    ensures f.fs.g.csize > 0 && forall k :: f.Tidy(k)
  {
  }

  /** Cursor and buffer at `ofs`, found by the map. */
  method Land(f: File, tbl: array<nat>, ofs: nat)
    requires f.Valid() && Built(tbl[..], f.chain) && ofs <= f.objsize && (f.fs.g.kind.EXFAT? ==> f.obj.nFrag == 0)
    modifies f`fptr, f`clust, f`dirty, f`sect, f`held, f.buf, f.fs`disk
    ensures f.Valid() && f.Text() == old(f.Text()) && f.Table() == old(f.Table()) && f.fptr == ofs
  {
    hide FileAccess.File.Sane, FileAccess.File.Text, FileAccess.File.Table, FileAccess.File.Tidy, Built, Ci, Co, Loc,
      ClusterBase;
    AnyTidy(f);
    if ofs == 0 {
      f.fptr := 0;
    } else {
      FastPlace(f, ofs);
      ghost var q := (ofs - 1) / 512;
      var c := ClmtClust(tbl, f.fs.g.csize, ofs - 1, f.chain);
      var dsc := ClusterBase(f.L(), c) + (ofs - 1) / 512 % f.fs.g.csize;
      Arrive(f, c, dsc, ofs);
    }
  }

  /** The cursor goes to `ofs` in cluster `c`; a partial sector is brought into the buffer. */
  method Arrive(f: File, c: u32, dsc: u32, ofs: nat)
    requires f.Valid() && 0 < ofs <= f.objsize && (f.fs.g.kind.EXFAT? ==> f.obj.nFrag == 0)
    requires var q := (ofs - 1) / 512;
             Ci(f.L(), q) < |f.chain| && c == f.chain[Ci(f.L(), q)] && dsc == Loc(f.L(), f.chain, q) &&
               (ofs % 512 != 0 ==> ofs / 512 == q)
    modifies f`fptr, f`clust, f`dirty, f`sect, f`held, f.buf, f.fs`disk
    ensures f.Valid() && f.Text() == old(f.Text()) && f.Table() == old(f.Table()) && f.fptr == ofs
  {
    hide FileAccess.File.Sane, FileAccess.File.Text, FileAccess.File.Table, FileAccess.File.Tidy, Ci, Co, Loc,
      ClusterBase;
    AnyTidy(f);
    if ofs % 512 != 0 { f.Cache(dsc, (ofs - 1) / 512); }
    f.clust, f.fptr := c, ofs;
  }

  /** f_lseek by the link map: within the file it does exactly what following the chain does. */
  method Seek(f: File, tbl: array<nat>, target: nat)
    requires f.Valid() && Built(tbl[..], f.chain)
    modifies f`fptr, f`clust, f`dirty, f`sect, f`held, f.buf, f.fs`disk, f.fs`wflag, f.fs`mirror, f.fs`winsect,
             f.fs.win, f.obj`nFrag
    ensures f.Valid() && f.Text() == old(f.Text()) && f.Table() == old(f.Table())
    ensures f.fptr == if target > f.objsize then f.objsize else target
  {
    hide FileAccess.File.Sane, FileAccess.File.Text, FileAccess.File.Table, FileAccess.File.Tidy,
      FileAccess.File.Cursor, Built;
    f.FlushFragment();
    Land(f, tbl, if target > f.objsize then f.objsize else target);
  }

  /** f_read at a cluster boundary in fast seek mode: the map gives the cluster that following the chain gives. */
  method FollowByMap(f: File, tbl: array<nat>)
    requires f.Valid() && Built(tbl[..], f.chain) && 0 < f.fptr < f.objsize && f.fptr % 512 == 0 &&
             Co(f.L(), f.fptr / 512) == 0
    modifies f`clust
    ensures f.Sane() && f.Text() == old(f.Text()) && f.Table() == old(f.Table())
    ensures Ci(f.L(), f.fptr / 512) < |f.chain| && f.clust == f.chain[Ci(f.L(), f.fptr / 512)] &&
            f.Tidy(Ci(f.L(), f.fptr / 512))
  {
    hide FileAccess.File.Sane, FileAccess.File.Text, FileAccess.File.Table, FileAccess.File.Tidy, Built, Co;
    f.InsideFile();
    ClusterSmall(f, Ci(f.L(), f.fptr / 512));
    f.clust := ClmtClust(tbl, f.fs.g.csize, f.fptr, f.chain);
  }

  /**
   * f_write at a cluster boundary in fast seek mode: it steps along the clusters of the map and never allocates; at the
   * end
   * of the last one it stops, as on a full volume.
   */
  method StepByMap(f: File, tbl: array<nat>) returns (ok: bool)
    requires f.Valid() && Built(tbl[..], f.chain) && 0 < f.fptr && f.fptr % 512 == 0 && Co(f.L(), f.fptr / 512) == 0
    modifies f`clust
    ensures f.Sane() && f.Text() == old(f.Text()) && f.Table() == old(f.Table()) &&
            (ok <==> f.fptr < Start(f.L(), |f.chain|))
    ensures ok ==> Ci(f.L(), f.fptr / 512) < |f.chain| && f.clust == f.chain[Ci(f.L(), f.fptr / 512)]
    ensures !ok ==> f.fptr == Start(f.L(), |f.chain|) && f.Valid()
  {
    hide FileAccess.File.Sane, FileAccess.File.Text, FileAccess.File.Table, FileAccess.File.Tidy, Built, Co, Start;
    f.AtBoundary();
    f.BoundaryStart();
    f.SaneBasics();
    ghost var i := Ci(f.L(), f.fptr / 512);
    if i < |f.chain| { ClusterSmall(f, i); StartBelow(f.L(), i, |f.chain|); }
    var clst := ClmtClust(tbl, f.fs.g.csize, f.fptr, f.chain);
    ok := clst != 0;
    if ok { f.clust := clst; }
  }

  lemma ClusterSmall(f: File, i: nat)
    requires f.Sane() && i < |f.chain|
    ensures 2 <= f.chain[i] < 0x1_0000_0000
  {
    f.SaneBasics();
    LinkedRange(f.fs.g, f.fs.Fat(), TableOf(f.fs), f.obj.Fields(), f.chain);
  }

  lemma StartBelow(l: Layout, i: nat, n: nat)
    requires l.csize > 0 && i < n
    ensures Start(l, i) < Start(l, n)
  {
    Arith.MulMono(ClusterBytes(l), i + 1, n);
    StartNext(l, i);
  }
}
