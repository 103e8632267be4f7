/** f_sync, then the volume mounted and the file opened anew: it has the same contents. */
module Reopen {
  import opened Bytes
  import opened FatTable
  import opened FatVolume
  import opened FileData
  import opened FileSpace
  import opened FileAccess
  import Bitmap
  import LazyChain
  import Exfat
  import ExfatRun
  import ChainSpec

  /** What the directory entry keeps of a file: start cluster, size and, on exFAT, the flags. */
  datatype Entry = Entry(start: u32, size: nat, flags: nat)

  /** The entry f_sync stores; bit 0 of the flags says that clusters may be allocated. */
  function EntryOf(stat: nat, start: u32, size: nat): Entry { Entry(start, size, stat / 2 * 2 + 1) }

  /** init_alloc_info: bit 1 of the flags is the status. */
  function StatOf(e: Entry): nat { e.flags / 2 % 2 * 2 }

  /** Once the first fragment is on the FAT, the status survives. */
  lemma StatSurvives(stat: nat, start: u32, size: nat)
    ensures stat == 0 || stat == 2 ==>
            StatOf(EntryOf(stat, start, size)) == stat && EntryOf(stat, start, size).flags == stat + 1
    ensures StatOf(EntryOf(3, start, size)) == 2 && EntryOf(stat, start, size).start == start &&
            EntryOf(stat, start, size).size == size
  {
  }

  /** fill_first_frag and fill_last_frag on the list of an open file. */
  method FinishOn(fs: Volume, obj: Exfat.ObjectId, clust: u32, ghost chain: seq<nat>)
    requires Holds(fs, obj.Fields(), chain) &&
             (fs.g.kind.EXFAT? && obj.nFrag != 0 ==> chain != [] && clust == chain[|chain| - 1])
    requires obj.sclust == 0 <==> chain == []
    modifies fs`disk, fs`wflag, fs`mirror, fs`winsect, fs.win, obj`stat, obj`nFrag
    ensures Holds(fs, obj.Fields(), chain) && TableOf(fs) == old(TableOf(fs))
    ensures fs.g.kind.EXFAT? ==> obj.nFrag == 0 && (chain != [] ==> obj.stat == 0 || obj.stat == 2)
    ensures |old(fs.disk)| == fs.g.sectors && AgreeOn(LayoutOf(fs.g), chain, old(fs.disk), fs.disk)
  {
    hide Ci, Co, Loc, LazyChain.Rep, Apart, Linked, SameData, FatVolume.Volume.Fat, FatVolume.Mirrored, Bitmap.ExOk,
      Bitmap.MarksOf, ChainSpec.Chain,
      ChainSpec.Sound;
    HoldsFacts(fs, obj.Fields(), chain);
    ghost var v, o, fat := fs.View(), obj.Fields(), fs.Fat();
    SameViews(fs.g, v);
    if fs.g.kind.EXFAT? && obj.sclust != 0 {
      ExfatRun.WriteOut(fs, obj, clust, chain);
      LinkedFlushed(fs.g, fat, fs.Fat(), TableOf(fs), o, obj.Fields(), chain);
      ViewsAgree(fs.g, v, fs.View());
    }
    NothingPending(fs.g, fs.Fat(), TableOf(fs), obj.Fields(), chain);
    MetaAvoidsData(fs.g, chain, old(fs.disk), old(fs.winsect), old(fs.win[..]), fs.disk, fs.winsect, fs.win[..]);
  }

  lemma NothingPending(g: Geometry, fat: seq<nat>, table: seq<nat>, o: LazyChain.Lazy, chain: seq<nat>)
    requires Linked(g, fat, table, o, chain)
    ensures g.kind.EXFAT? && chain == [] ==> o.nFrag == 0
  {
  }

  /**
   * f_sync of a changed file, up to the directory entry: buffer, fragments and window go to the disk; contents and
   * position stay.
   */
  method Sync(f: File) returns (e: Entry)
    requires f.Valid()
    modifies f`dirty, f.fs`disk, f.fs`wflag, f.fs`mirror, f.fs`winsect, f.fs.win, f.obj`stat, f.obj`nFrag
    ensures f.Valid() && f.Text() == old(f.Text()) && f.Table() == old(f.Table())
    ensures !f.dirty && !f.fs.wflag && e == EntryOf(f.obj.stat, f.sclust, f.objsize)
    ensures f.fs.g.kind.EXFAT? ==> f.obj.nFrag == 0 && (f.chain != [] ==> f.obj.stat == 0 || f.obj.stat == 2)
  {
    hide FileAccess.File.Sane, FileAccess.File.Text, FileAccess.File.Table, Ci, Tight;
    f.FlushText();
    Finish(f);
    SyncVolume(f);
    e := EntryOf(f.obj.stat, f.sclust, f.objsize);
  }

  /** The fragments. */
  method Finish(f: File)
    requires f.Valid() && !f.dirty
    modifies f.fs`disk, f.fs`wflag, f.fs`mirror, f.fs`winsect, f.fs.win, f.obj`stat, f.obj`nFrag
    ensures f.Valid() && f.Text() == old(f.Text()) && f.Table() == old(f.Table())
    ensures f.fs.g.kind.EXFAT? ==> f.obj.nFrag == 0 && (f.chain != [] ==> f.obj.stat == 0 || f.obj.stat == 2)
  {
    hide Ci, Co, Loc, Room, Linked, WindowOff, TableOf, Ready, Content, Tight;
    f.SaneBasics();
    f.FirstCluster();
    ghost var d := f.Disk();
    FinishOn(f.fs, f.obj, f.clust, f.chain);
    EffectiveAgrees(f.fs.g, f.chain, old(f.fs.disk), f.fs.disk, f.dirty, f.sect, f.buf[..]);
    ContentSame(f.L(), d, f.Disk(), f.chain, f.objsize);
  }

  /** sync_window: the volume looks as before and its window is clean. */
  method SyncOn(fs: Volume, ghost o: LazyChain.Lazy, ghost chain: seq<nat>)
    requires Holds(fs, o, chain)
    modifies fs`disk, fs`wflag, fs`mirror
    ensures Holds(fs, o, chain) && TableOf(fs) == old(TableOf(fs)) && !fs.wflag
    ensures |old(fs.disk)| == fs.g.sectors && AgreeOn(LayoutOf(fs.g), chain, old(fs.disk), fs.disk)
  {
    hide Ci, Co, Loc, LazyChain.Rep, Apart, Linked, SameData, FatVolume.Volume.Fat, FatVolume.Mirrored, Bitmap.ExOk,
      ChainSpec.Chain, ChainSpec.Sound,
      FatVolume.SyncStep;
    HoldsFacts(fs, o, chain);
    FatsOf(fs);
    ghost var v := fs.View();
    var res;
    ghost var copied;
    res, copied := fs.SyncWindow();
    SeenSame(fs, v);
    ViewsAgree(fs.g, v, fs.View());
    MetaAvoidsData(fs.g, chain, old(fs.disk), old(fs.winsect), old(fs.win[..]), fs.disk, fs.winsect, fs.win[..]);
  }

  /** Views that differ in the second FAT at most show the same FAT and bitmap. */
  lemma SeenSame(fs: Volume, v: seq<Sector>)
    requires fs.Valid() && |v| == fs.g.sectors && SameButMirror(fs.g, v, fs.View())
    ensures fs.Fat() == FatOf(fs.g, v)
    ensures fs.g.kind.EXFAT? && Bitmap.ExOk(fs.g) ==> Bitmap.MarksNow(fs) == Bitmap.MarksOf(fs.g, v)
  {
    FatOfSame(fs.g, v, fs.View());
    if fs.g.kind.EXFAT? && Bitmap.ExOk(fs.g) { BitsSame(fs.g, v, fs.View()); }
  }

  method SyncVolume(f: File)
    requires f.Valid() && !f.dirty
    modifies f.fs`disk, f.fs`wflag, f.fs`mirror
    ensures f.Valid() && f.Text() == old(f.Text()) && f.Table() == old(f.Table()) && !f.fs.wflag
  {
    hide Ci, Co, Loc, Room, Linked, WindowOff, TableOf, Ready, Content, Tight;
    f.SaneBasics();
    ghost var d := f.Disk();
    SyncOn(f.fs, f.obj.Fields(), f.chain);
    EffectiveAgrees(f.fs.g, f.chain, old(f.fs.disk), f.fs.disk, f.dirty, f.sect, f.buf[..]);
    ContentSame(f.L(), d, f.Disk(), f.chain, f.objsize);
  }

  /** The disk mounted anew. */
  method Remount(fs: Volume, ghost o: LazyChain.Lazy, ghost o': LazyChain.Lazy, ghost chain: seq<nat>)
      returns (again: Volume)
    requires Holds(fs, o, chain) && !fs.wflag
    requires fs.g.kind.EXFAT? ==>
             o'.nFrag == 0 && o.nFrag == 0 &&
             (chain != [] ==> (o.stat == 0 || o.stat == 2) && o'.stat == o.stat && o'.sclust == o.sclust)
    ensures fresh(again) && fresh(again.win) && again.g == fs.g && again.disk == fs.disk && Holds(again, o', chain) &&
            TableOf(again) == TableOf(fs)
  {
    hide Ci, Co, Loc, Apart, HitsBits, ChainSpec.Chain, ChainSpec.Sound, Bitmap.MarksOf, FatVolume.FatOf, Exfat.AllUsed;
    again := new Volume(fs.g, fs.disk, true);
    CleanShows(fs);
    assert again.View() == fs.View() == fs.disk;
    assert again.Fat() == fs.Fat();
    FarWindow(fs.g, chain);
  }

  lemma CleanShows(fs: Volume)
    requires fs.Valid() && !fs.wflag
    ensures fs.View() == fs.disk
  {
  }

  lemma FarWindow(g: Geometry, chain: seq<nat>)
    requires Placed(LayoutOf(g), chain, g.sectors) && g.Ok()
    ensures forall q: nat | Ci(LayoutOf(g), q) < |chain| :: Loc(LayoutOf(g), chain, q) != NO_SECTOR
  {
    forall q: nat | Ci(LayoutOf(g), q) < |chain| ensures Loc(LayoutOf(g), chain,
      q) != NO_SECTOR { LocIn(LayoutOf(g), chain, g.sectors, q); }
  }

  /** mount and f_open from the disk and the entry of a synced file. */
  method OpenAgain(f: File, e: Entry) returns (h: File)
    requires f.Valid() && !f.dirty && !f.fs.wflag && e == EntryOf(f.obj.stat, f.sclust, f.objsize)
    requires f.fs.g.kind.EXFAT? ==> f.obj.nFrag == 0 && (f.chain != [] ==> f.obj.stat == 0 || f.obj.stat == 2)
    ensures h.Valid() && fresh(h) && fresh(h.fs) && h.fs.disk == f.fs.disk
    ensures h.Text() == f.Text() && h.chain == f.chain && h.Table() == f.Table() && h.fptr == 0
  {
    hide Ci, Co, Loc, Linked, Content, Tight, Room, Holds, TableOf, Ready, FileAccess.File.Sane, FileAccess.File.Text,
      FileAccess.File.Table, FileAccess.File.Cursor, FileAccess.File.Tidy, FatVolume.Volume.Valid, EntryOf, StatOf;
    OpenFacts(f);
    ghost var text, table := f.Text(), f.Table();
    StatSurvives(f.obj.stat, f.sclust, f.objsize);
    var obj := new Exfat.ObjectId();
    obj.stat, obj.sclust, obj.objsize := StatOf(e), e.start, e.size;
    var fs := Remount(f.fs, f.obj.Fields(), obj.Fields(), f.chain);
    HoldsPlaced(fs, obj.Fields(), f.chain);
    assert TableOf(fs) == table;
    h := new File(fs, obj, e.start, e.size, true, true, f.chain);
    OpenFacts(h);
    assert h.Table() == table && h.Text() == text;
  }

  /**
   * f_sync, mount, f_open: whatever was written through the old handle is what the new one reads, from the disk and the
   * entry alone.
   */
  method SyncAndReopen(f: File) returns (h: File)
    requires f.Valid()
    modifies f`dirty, f.fs`disk, f.fs`wflag, f.fs`mirror, f.fs`winsect, f.fs.win, f.obj`stat, f.obj`nFrag
    ensures f.Valid() && h.Valid() && fresh(h) && fresh(h.fs) && h.fs.disk == f.fs.disk
    ensures h.Text() == f.Text() == old(f.Text()) && h.chain == f.chain && h.Table() == f.Table() == old(f.Table()) &&
            h.fptr == 0
  {
    hide FileAccess.File.Sane, FileAccess.File.Text, FileAccess.File.Table, FileAccess.File.Cursor,
      FileAccess.File.Tidy;
    var e := Sync(f);
    h := OpenAgain(f, e);
  }

  /** What opening relies on. */
  lemma OpenFacts(f: File)
    requires f.Valid()
    ensures |f.fs.disk| == f.fs.g.sectors && Placed(f.L(), f.chain, f.fs.g.sectors) && Room(f.L(), |f.chain|, f.objsize)
    ensures Ready(f.fs) && f.Table() == TableOf(f.fs) &&
            (!f.dirty ==> f.Text() == Content(f.L(), f.fs.disk, f.chain, f.objsize))
    ensures Holds(f.fs, f.obj.Fields(), f.chain) && f.obj.sclust == f.sclust && f.objsize <= MaxSize(f.fs.g.kind)
    ensures if f.chain == [] then f.sclust == 0 else f.sclust == f.chain[0]
    ensures f.fs.g.kind.EXFAT? ==> Tight(f.L(), |f.chain|, f.objsize)
  {
  }
}
